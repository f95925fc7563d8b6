/**
 PHP settings of internal/gateway/settings.go: the additional configuration text
 is read as directives, an update rewrites it line by line, and the row that is
 stored reads back as the old values overridden by exactly the changes.
 */
module PhpSettings {
  import opened Wrappers
  import opened Numbers
  import opened Text
  import opened Sorting

  /******* Lines of the configuration text *******/

  // The lines that are not blank, without the space around them.
  function Trimmed(lines: seq<string>): seq<string> {
    if lines == [] then []
    else
      var line := TrimSpace(lines[0]);
      (if line == "" then [] else [line]) + Trimmed(lines[1..])
  }

  function Lines(raw: string): seq<string> {
    Trimmed(Split(raw, '\n'))
  }

  lemma {:induction false} TrimmedSplits(a: seq<string>, b: seq<string>)
    ensures Trimmed(a + b) == Trimmed(a) + Trimmed(b)
  {
    if a == [] {
      assert a + b == b;
    } else {
      assert (a + b)[1..] == a[1..] + b;
      TrimmedSplits(a[1..], b);
    }
  }

  // The last of the parts, one character longer.
  function Extended(parts: seq<string>, x: char): seq<string>
    requires parts != []
  {
    parts[..|parts| - 1] + [parts[|parts| - 1] + [x]]
  }

  lemma ExtendedBehind(first: string, parts: seq<string>, x: char)
    requires parts != []
    ensures Extended([first] + parts, x) == [first] + Extended(parts, x)
  {
  }

  lemma SplitOne(c: char, x: char)
    ensures Split([x], c) == if x == c then [""] + [""] else Extended([""], x)
  {
    assert [x][1..] == [] && [x] + "" == [x] && "" + [x] == [x];
    assert [""][1..] == [] && [""][..0] == [];
  }

  // The first of the parts, one character longer.
  function Longer(h: char, parts: seq<string>): seq<string>
    requires parts != []
  {
    [[h] + parts[0]] + parts[1..]
  }

  lemma LongerAtBothEnds(h: char, parts: seq<string>, x: char)
    requires parts != []
    ensures Longer(h, parts + [""]) == Longer(h, parts) + [""]
    ensures Longer(h, Extended(parts, x)) == Extended(Longer(h, parts), x)
  {
    if |parts| == 1 {
      assert [h] + (parts[0] + [x]) == [h] + parts[0] + [x];
    }
  }

  lemma {:induction false} SplitLast(s: string, c: char, x: char)
    ensures Split(s + [x], c) == if x == c then Split(s, c) + [""] else Extended(Split(s, c), x)
  {
    if s == [] {
      assert s + [x] == [x];
      SplitOne(c, x);
    } else {
      assert (s + [x])[0] == s[0] && (s + [x])[1..] == s[1..] + [x];
      SplitLast(s[1..], c, x);
      var rest := Split(s[1..], c);
      if s[0] == c {
        ExtendedBehind("", rest, x);
      } else {
        LongerAtBothEnds(s[0], rest, x);
      }
    }
  }

  lemma {:induction false} TrimLeftThenSpace(s: string, x: char)
    requires GoSpace(x)
    ensures TrimLeft(s + [x]) == if TrimLeft(s) == "" then "" else TrimLeft(s) + [x]
  {
    if s == [] {
      assert s + [x] == [x] && [x][1..] == [];
    } else {
      assert (s + [x])[0] == s[0] && (s + [x])[1..] == s[1..] + [x];
      TrimLeftThenSpace(s[1..], x);
    }
  }

  lemma TrimThenSpace(s: string, x: char)
    requires GoSpace(x)
    ensures TrimSpace(s + [x]) == TrimSpace(s)
  {
    TrimLeftThenSpace(s, x);
    var t := TrimLeft(s);
    assert (t + [x])[..|t|] == t;
  }

  lemma {:induction false} TrimLeftKeepsLines(s: string)
    ensures Lines(TrimLeft(s)) == Lines(s)
  {
    if s != [] && GoSpace(s[0]) {
      TrimLeftKeepsLines(s[1..]);
      var rest := Split(s[1..], '\n');
      if s[0] == '\n' {
        assert ([""] + rest)[1..] == rest;
      } else {
        var first := [s[0]] + rest[0];
        assert first[1..] == rest[0];
        assert ([first] + rest[1..])[1..] == rest[1..];
      }
    }
  }

  lemma OneMoreSpaceKeepsLines(s: string, x: char)
    requires GoSpace(x)
    ensures Lines(s + [x]) == Lines(s)
  {
    SplitLast(s, '\n', x);
    var parts := Split(s, '\n');
    if x == '\n' {
      TrimmedSplits(parts, [""]);
      assert [""][1..] == [];
    } else {
      SpaceInLastPart(parts, x);
    }
  }

  lemma SpaceInLastPart(parts: seq<string>, x: char)
    requires GoSpace(x) && parts != []
    ensures Trimmed(Extended(parts, x)) == Trimmed(parts)
  {
    var front, last := parts[..|parts| - 1], parts[|parts| - 1];
    TrimThenSpace(last, x);
    TrimmedSplits(front, [last]);
    TrimmedSplits(front, [last + [x]]);
    assert parts == front + [last];
    assert [last][1..] == [] && [last + [x]][1..] == [];
  }

  lemma {:induction false} TrimRightKeepsLines(s: string)
    ensures Lines(TrimRight(s)) == Lines(s)
  {
    if s != [] && GoSpace(s[|s| - 1]) {
      var front := s[..|s| - 1];
      TrimRightKeepsLines(front);
      assert s == front + [s[|s| - 1]];
      OneMoreSpaceKeepsLines(front, s[|s| - 1]);
    }
  }

  lemma TrimKeepsLines(s: string)
    ensures Lines(TrimSpace(s)) == Lines(s)
  {
    TrimLeftKeepsLines(s);
    TrimRightKeepsLines(TrimLeft(s));
  }

  lemma {:induction false} TrimLeftOnlyDrops(s: string, x: char)
    requires x in TrimLeft(s)
    ensures x in s
  {
    if s != [] && GoSpace(s[0]) {
      TrimLeftOnlyDrops(s[1..], x);
    }
  }

  lemma {:induction false} TrimRightOnlyDrops(s: string, x: char)
    requires x in TrimRight(s)
    ensures x in s
  {
    if s != [] && GoSpace(s[|s| - 1]) {
      TrimRightOnlyDrops(s[..|s| - 1], x);
    }
  }

  lemma {:induction false} TrimmedLinesAreLines(lines: seq<string>, x: char)
    requires forall l :: l in lines ==> x !in l
    ensures forall l :: l in Trimmed(lines) ==> x !in l
  {
    if lines != [] {
      TrimmedLinesAreLines(lines[1..], x);
      assert lines[0] in lines;
      if x in TrimSpace(lines[0]) {
        TrimRightOnlyDrops(TrimLeft(lines[0]), x);
        TrimLeftOnlyDrops(lines[0], x);
      }
    }
  }

  /******* One directive *******/

  predicate KeyChar(c: char) {
    'A' <= c <= 'Z' || 'a' <= c <= 'z' || Digit(c) || c == '_' || c == '.' || c == '-'
  }

  predicate KeyName(k: string) {
    k != "" && ('A' <= k[0] <= 'Z' || 'a' <= k[0] <= 'z') && forall i :: 0 <= i < |k| ==> KeyChar(k[i])
  }

  // phpLineRE: a key, "=", a value without ";", and at most one ";" at the end.
  function Matched(line: string): (r: Option<(string, string)>)
    ensures r.Some? ==> KeyName(r.value.0) && ';' !in r.value.1
  {
    var key := Split(line, '=')[0];
    if |key| < |line| && KeyName(key) then
      var value := TrimSuffix(line[|key| + 1..], ';');
      if ';' in value then None else Some((key, value))
    else None
  }

  function Directive(k: string, v: string): string {
    k + "=" + v + ";"
  }

  lemma KeyIsFound(k: string, rest: string, line: string)
    requires KeyName(k) && line == k + "=" + rest
    ensures Split(line, '=')[0] == k && |k| < |line| && line[|k| + 1..] == rest
  {
    assert '=' !in k;
    assert "=" == ['='];
    SplitFirst(k, '=', rest);
  }

  lemma SuffixIsTrimmed(v: string, c: char)
    ensures TrimSuffix(v + [c], c) == v
  {
  }

  lemma DirectiveMatches(k: string, v: string)
    requires KeyName(k) && ';' !in v
    ensures Matched(Directive(k, v)) == Some((k, v))
    ensures TrimSpace(Directive(k, v)) == Directive(k, v)
  {
    var line := Directive(k, v);
    assert line == k + "=" + (v + [';']);
    KeyIsFound(k, v + [';'], line);
    SuffixIsTrimmed(v, ';');
    assert line[0] == k[0] && line[|line| - 1] == ';';
    SolidEnds(line);
  }

  // The line is ^([A-Za-z][A-Za-z0-9_.-]*)=([^;]*);?$ with that key and value.
  predicate Assigns(line: string, k: string, v: string) {
    KeyName(k) && ';' !in v && (line == k + "=" + v || line == k + "=" + v + ";")
  }

  lemma MatchesExactly(line: string, k: string, v: string)
    ensures Matched(line) == Some((k, v)) <==> Assigns(line, k, v)
  {
    if Assigns(line, k, v) {
      var rest := if line == k + "=" + v then v else v + [';'];
      assert line == k + "=" + rest;
      KeyIsFound(k, rest, line);
      SuffixIsTrimmed(v, ';');
    }
    if Matched(line) == Some((k, v)) {
      var rest := line[|k| + 1..];
      SplitFirstIsPrefix(line, '=');
      assert line == k + "=" + rest;
      assert rest == v || rest == v + ";";
      assert v + ";" == rest ==> k + "=" + rest == k + "=" + v + ";";
    }
  }

  lemma {:induction false} SplitFirstIsPrefix(s: string, c: char)
    ensures var first := Split(s, c)[0]; first <= s && (|first| < |s| ==> s[|first|] == c)
  {
    if s != "" && s[0] != c {
      SplitFirstIsPrefix(s[1..], c);
    }
  }

  lemma MatchedValueIsPart(line: string, x: char)
    requires Matched(line).Some? && x in Matched(line).value.1
    ensures x in line
  {
  }

  /******* parseAdditional *******/

  // The supported directive a trimmed line sets, if any.
  predicate Sets(line: string, safe: set<string>) {
    Matched(line).Some? && Matched(line).value.0 in safe
  }

  function Settings(lines: seq<string>, safe: set<string>): seq<(string, string)> {
    if lines == [] then []
    else (if Sets(lines[0], safe) then [Matched(lines[0]).value] else []) + Settings(lines[1..], safe)
  }

  // The lines that set nothing that is supported.
  function Others(lines: seq<string>, safe: set<string>): seq<string> {
    if lines == [] then []
    else (if Sets(lines[0], safe) then [] else [lines[0]]) + Others(lines[1..], safe)
  }

  // The last setting of a key wins.
  function AsMap(settings: seq<(string, string)>): map<string, string> {
    if settings == [] then map[]
    else
      var last := settings[|settings| - 1];
      AsMap(settings[..|settings| - 1])[last.0 := last.1]
  }

  function Keys(settings: seq<(string, string)>): seq<string> {
    seq(|settings|, i requires 0 <= i < |settings| => settings[i].0)
  }

  function Directives(lines: seq<string>, safe: set<string>): map<string, string> {
    AsMap(Settings(lines, safe))
  }

  function Additional(raw: string, safe: set<string>): map<string, string> {
    Directives(Lines(raw), safe)
  }

  function UnsupportedKeys(lines: seq<string>): set<string> {
    set l | l in lines && Matched(l).Some? :: Matched(l).value.0
  }

  function Unsupported(raw: string, safe: set<string>): set<string> {
    UnsupportedKeys(Others(Lines(raw), safe))
  }

  lemma {:induction false} SettingsSplit(a: seq<string>, b: seq<string>, safe: set<string>)
    ensures Settings(a + b, safe) == Settings(a, safe) + Settings(b, safe)
  {
    if a == [] {
      assert a + b == b;
    } else {
      assert (a + b)[0] == a[0] && (a + b)[1..] == a[1..] + b;
      SettingsSplit(a[1..], b, safe);
      var one := if Sets(a[0], safe) then [Matched(a[0]).value] else [];
      assert one + (Settings(a[1..], safe) + Settings(b, safe)) == one + Settings(a[1..], safe) + Settings(b, safe);
    }
  }

  lemma {:induction false} OthersSplit(a: seq<string>, b: seq<string>, safe: set<string>)
    ensures Others(a + b, safe) == Others(a, safe) + Others(b, safe)
  {
    if a == [] {
      assert a + b == b;
    } else {
      assert (a + b)[0] == a[0] && (a + b)[1..] == a[1..] + b;
      OthersSplit(a[1..], b, safe);
    }
  }

  lemma OneMoreLine(lines: seq<string>, i: nat)
    requires i < |lines|
    ensures var line, before := TrimSpace(lines[i]), Trimmed(lines[..i]);
      Trimmed(lines[..i + 1]) == if line == "" then before else before + [line]
  {
    assert lines[..i + 1] == lines[..i] + [lines[i]];
    TrimmedSplits(lines[..i], [lines[i]]);
    assert [lines[i]][1..] == [];
  }

  // What one more line adds to what was read before it.
  lemma OneMoreDirective(before: seq<string>, line: string, safe: set<string>)
    ensures Directives(before + [line], safe) ==
      if Sets(line, safe) then Directives(before, safe)[Matched(line).value.0 := Matched(line).value.1] else Directives(before, safe)
  {
    var settings := Settings(before, safe);
    assert [line][1..] == [];
    SettingsSplit(before, [line], safe);
    if Sets(line, safe) {
      assert (settings + [Matched(line).value])[..|settings|] == settings;
    } else {
      assert settings + [] == settings;
    }
  }

  lemma OneMoreUnsupported(before: seq<string>, line: string, safe: set<string>)
    ensures UnsupportedKeys(Others(before + [line], safe)) ==
      UnsupportedKeys(Others(before, safe)) + if Matched(line).Some? && !Sets(line, safe) then {Matched(line).value.0} else {}
  {
    var others := Others(before, safe);
    assert [line][1..] == [];
    OthersSplit(before, [line], safe);
    if Sets(line, safe) {
      assert others + [] == others;
    } else {
      KeysOfOneMore(others, line);
    }
  }

  lemma OneMoreIsRead(before: seq<string>, line: string, safe: set<string>)
    ensures Directives(before + [line], safe) ==
      if Sets(line, safe) then Directives(before, safe)[Matched(line).value.0 := Matched(line).value.1] else Directives(before, safe)
    ensures UnsupportedKeys(Others(before + [line], safe)) ==
      UnsupportedKeys(Others(before, safe)) + if Matched(line).Some? && !Sets(line, safe) then {Matched(line).value.0} else {}
  {
    OneMoreDirective(before, line, safe);
    OneMoreUnsupported(before, line, safe);
  }

  lemma KeysOfOneMore(others: seq<string>, line: string)
    ensures UnsupportedKeys(others + [line]) ==
      UnsupportedKeys(others) + if Matched(line).Some? then {Matched(line).value.0} else {}
  {
    forall k
      ensures k in UnsupportedKeys(others + [line]) <==>
        k in UnsupportedKeys(others) || (Matched(line).Some? && k == Matched(line).value.0)
    {
      assert line in others + [line];
    }
  }

  // What the loop has collected of the first i lines.
  ghost predicate ReadSoFar(lines: seq<string>, i: nat, safe: set<string>, out: map<string, string>, seen: set<string>) {
    && i <= |lines| && out == Directives(Trimmed(lines[..i]), safe)
    && seen == UnsupportedKeys(Others(Trimmed(lines[..i]), safe))
  }

  lemma ReadOneLine(lines: seq<string>, i: nat, safe: set<string>, out: map<string, string>, seen: set<string>)
    requires i < |lines| && ReadSoFar(lines, i, safe, out, seen)
    ensures
      var line := TrimSpace(lines[i]);
      var m := Matched(line);
      if line == "" || m.None? then ReadSoFar(lines, i + 1, safe, out, seen)
      else if m.value.0 in safe then ReadSoFar(lines, i + 1, safe, out[m.value.0 := m.value.1], seen)
      else ReadSoFar(lines, i + 1, safe, out, seen + {m.value.0})
  {
    OneMoreLine(lines, i);
    OneMoreIsRead(Trimmed(lines[..i]), TrimSpace(lines[i]), safe);
  }

  // Among the first n lines, the j-th one is the last that sets k, and it sets it to v.
  ghost predicate SetsLast(lines: seq<string>, n: nat, j: nat, k: string, v: string)
    requires n <= |lines|
  {
    j < n && Assigns(TrimSpace(lines[j]), k, v) && forall i, w :: j < i < n ==> !Assigns(TrimSpace(lines[i]), k, w)
  }

  ghost predicate LastSetting(lines: seq<string>, n: nat, k: string, v: string)
    requires n <= |lines|
  {
    exists j: nat :: SetsLast(lines, n, j, k, v)
  }

  lemma OneMoreSetting(lines: seq<string>, n: nat, k: string, v: string)
    requires n < |lines|
    ensures
      var m := Matched(TrimSpace(lines[n]));
      LastSetting(lines, n + 1, k, v) <==>
        if m.Some? && m.value.0 == k then m.value.1 == v else LastSetting(lines, n, k, v)
  {
    var line := TrimSpace(lines[n]);
    forall w
      ensures Matched(line) == Some((k, w)) <==> Assigns(line, k, w)
    {
      MatchesExactly(line, k, w);
    }
    if Matched(line).Some? && Matched(line).value.0 == k {
      assert Assigns(line, k, Matched(line).value.1);
      if Matched(line).value.1 == v {
        assert SetsLast(lines, n + 1, n, k, v);
      }
    } else {
      if LastSetting(lines, n + 1, k, v) {
        var j: nat :| SetsLast(lines, n + 1, j, k, v);
        assert SetsLast(lines, n, j, k, v);
      }
      if LastSetting(lines, n, k, v) {
        var j: nat :| SetsLast(lines, n, j, k, v);
        assert SetsLast(lines, n + 1, j, k, v);
      }
    }
  }

  // A map has that value at that key.
  predicate Gives(d: map<string, string>, k: string, v: string) {
    k in d && d[k] == v
  }

  lemma {:induction false} LastOfTheFirst(lines: seq<string>, n: nat, safe: set<string>, k: string, v: string)
    requires n <= |lines| && k in safe
    ensures Gives(Directives(Trimmed(lines[..n]), safe), k, v) <==> LastSetting(lines, n, k, v)
  {
    if n > 0 {
      var before := Trimmed(lines[..n - 1]);
      LastOfTheFirst(lines, n - 1, safe, k, v);
      ReadOneLine(lines, n - 1, safe, Directives(before, safe), UnsupportedKeys(Others(before, safe)));
      OneMoreSetting(lines, n - 1, k, v);
    }
  }

  /** A supported key has the value that the last line which sets it gives it, and none if no line does. */
  lemma LastLineWins(raw: string, safe: set<string>, k: string, v: string)
    requires k in safe
    ensures
      var lines, d := Split(raw, '\n'), Additional(raw, safe);
      Gives(d, k, v) <==> LastSetting(lines, |lines|, k, v)
  {
    var lines := Split(raw, '\n');
    LastOfTheFirst(lines, |lines|, safe, k, v);
    assert lines[..|lines|] == lines;
  }

  method ParseAdditional(raw: string, safe: set<string>) returns (out: map<string, string>, unknown: seq<string>)
    ensures out == Additional(raw, safe)
    ensures Ascending(unknown) && Elements(unknown) == Unsupported(raw, safe)
  {
    out := map[];
    var seen: set<string> := {};
    var lines := Split(raw, '\n');
    var i := 0;
    while i < |lines|
      invariant ReadSoFar(lines, i, safe, out, seen)
    {
      var line := TrimSpace(lines[i]);
      var m := Matched(line);
      ReadOneLine(lines, i, safe, out, seen);
      if line != "" && m.Some? {
        if m.value.0 in safe {
          out := out[m.value.0 := m.value.1];
        } else {
          seen := seen + {m.value.0};
        }
      }
      i := i + 1;
    }
    assert lines[..i] == lines;
    unknown := SortedSet(seen);
  }

  /******* Rewriting the text *******/

  // A map read as Go reads it.
  function Get(m: map<string, string>, k: string): string {
    if k in m then m[k] else ""
  }

  // A line that sets a supported directive is written anew, any other is left as it is.
  function RewrittenLine(line: string, safe: set<string>, values: map<string, string>): string {
    var t := TrimSpace(line);
    if Sets(t, safe) then Directive(Matched(t).value.0, Get(values, Matched(t).value.0)) else line
  }

  function Rewritten(lines: seq<string>, safe: set<string>, values: map<string, string>): seq<string> {
    seq(|lines|, i requires 0 <= i < |lines| => RewrittenLine(lines[i], safe, values))
  }

  function Appended(keys: seq<string>, values: map<string, string>): seq<string> {
    seq(|keys|, i requires 0 <= i < |keys| => Directive(keys[i], Get(values, keys[i])))
  }

  // The text that is stored, given the keys that no line sets yet.
  function Written(raw: string, safe: set<string>, values: map<string, string>, missing: seq<string>): string {
    TrimSpace(Join(Rewritten(Split(raw, '\n'), safe, values) + Appended(missing, values), '\n'))
  }

  ghost predicate Rewrites(raw: string, safe: set<string>, values: map<string, string>, text: string) {
    exists missing ::
      Ascending(missing) && Elements(missing) == values.Keys - Additional(raw, safe).Keys && text == Written(raw, safe, values, missing)
  }

  // Values a directive line can carry.
  ghost predicate Tidy(values: map<string, string>) {
    forall k :: k in values ==> KeyName(k) && ';' !in values[k] && '\n' !in values[k]
  }

  // Each key with its value in the map.
  function Assigned(keys: seq<string>, values: map<string, string>): seq<(string, string)> {
    seq(|keys|, i requires 0 <= i < |keys| => (keys[i], Get(values, keys[i])))
  }

  ghost predicate Covers(lines: seq<string>, safe: set<string>, values: map<string, string>) {
    forall l :: l in lines && Sets(l, safe) ==> Matched(l).value.0 in values
  }

  lemma LineRewrites(line: string, safe: set<string>, values: map<string, string>)
    requires Tidy(values) && (Sets(TrimSpace(line), safe) ==> Matched(TrimSpace(line)).value.0 in values)
    ensures var t, r := TrimSpace(line), TrimSpace(RewrittenLine(line, safe, values));
      if Sets(t, safe) then
        r != "" && Sets(r, safe) && Matched(r).value == (Matched(t).value.0, Get(values, Matched(t).value.0))
      else r == t
  {
    var t := TrimSpace(line);
    if Sets(t, safe) {
      DirectiveMatches(Matched(t).value.0, values[Matched(t).value.0]);
    }
  }

  lemma RewrittenBehind(line: string, rest: seq<string>, safe: set<string>, values: map<string, string>)
    ensures Rewritten([line] + rest, safe, values) == [RewrittenLine(line, safe, values)] + Rewritten(rest, safe, values)
  {
  }

  lemma AssignedBehind(first: seq<(string, string)>, rest: seq<(string, string)>, values: map<string, string>)
    ensures Assigned(Keys(first + rest), values) == Assigned(Keys(first), values) + Assigned(Keys(rest), values)
  {
  }

  // The lines of a text and of its rewriting, one after the other.
  lemma {:induction false} RewrittenReadsBack(lines: seq<string>, safe: set<string>, values: map<string, string>)
    requires Tidy(values) && Covers(Trimmed(lines), safe, values)
    ensures Settings(Trimmed(Rewritten(lines, safe, values)), safe) == Assigned(Keys(Settings(Trimmed(lines), safe)), values)
    ensures Others(Trimmed(Rewritten(lines, safe, values)), safe) == Others(Trimmed(lines), safe)
  {
    if lines != [] {
      var first, rest := lines[0], lines[1..];
      assert lines == [first] + rest;
      OneLineTrimmed(first, rest);
      RewrittenBehind(first, rest, safe, values);
      OneLineTrimmed(RewrittenLine(first, safe, values), Rewritten(rest, safe, values));
      LineRewrites(first, safe, values);
      RewrittenReadsBack(rest, safe, values);
      OneLineRewrittenReadsBack(TrimSpace(first), TrimSpace(RewrittenLine(first, safe, values)),
                                Trimmed(rest), Trimmed(Rewritten(rest, safe, values)), safe, values);
    }
  }

  lemma OneLineTrimmed(line: string, rest: seq<string>)
    ensures Trimmed([line] + rest) == (if TrimSpace(line) == "" then [] else [TrimSpace(line)]) + Trimmed(rest)
    ensures forall l :: l in Trimmed(rest) ==> l in Trimmed([line] + rest)
    ensures TrimSpace(line) != "" ==> TrimSpace(line) in Trimmed([line] + rest)
  {
    assert ([line] + rest)[1..] == rest;
  }

  lemma OneLineRewrittenReadsBack(t: string, r: string, before: seq<string>, after: seq<string>,
                                  safe: set<string>, values: map<string, string>)
    requires if Sets(t, safe) then
        r != "" && Sets(r, safe) && Matched(r).value == (Matched(t).value.0, Get(values, Matched(t).value.0))
      else r == t
    requires Settings(after, safe) == Assigned(Keys(Settings(before, safe)), values)
    requires Others(after, safe) == Others(before, safe)
    ensures var b, a := (if t == "" then [] else [t]) + before, (if r == "" then [] else [r]) + after;
      Settings(a, safe) == Assigned(Keys(Settings(b, safe)), values) && Others(a, safe) == Others(b, safe)
  {
    if t == "" {
      assert [] + before == before && [] + after == after;
    } else {
      assert ([t] + before)[1..] == before && ([r] + after)[1..] == after;
      var one := if Sets(t, safe) then [Matched(t).value] else [];
      AssignedBehind(one, Settings(before, safe), values);
    }
  }

  lemma {:induction false} AppendedReadsBack(keys: seq<string>, safe: set<string>, values: map<string, string>)
    requires Tidy(values) && forall k :: k in keys ==> k in values && k in safe
    ensures Trimmed(Appended(keys, values)) == Appended(keys, values)
    ensures Settings(Appended(keys, values), safe) == Assigned(keys, values)
    ensures Others(Appended(keys, values), safe) == []
  {
    if keys != [] {
      AppendedReadsBack(keys[1..], safe, values);
      AppendedBehind(keys[0], keys[1..], values);
      assert keys == [keys[0]] + keys[1..] && keys[0] in keys;
      OneDirectiveReadsBack(keys[0], values[keys[0]], Appended(keys[1..], values), Assigned(keys[1..], values), safe);
    }
  }

  lemma AppendedBehind(k: string, rest: seq<string>, values: map<string, string>)
    requires k in values
    ensures Appended([k] + rest, values) == [Directive(k, values[k])] + Appended(rest, values)
    ensures Assigned([k] + rest, values) == [(k, values[k])] + Assigned(rest, values)
  {
  }

  lemma OneDirectiveReadsBack(k: string, v: string, rest: seq<string>, settings: seq<(string, string)>, safe: set<string>)
    requires KeyName(k) && ';' !in v && k in safe
    requires Trimmed(rest) == rest && Settings(rest, safe) == settings && Others(rest, safe) == []
    ensures var lines := [Directive(k, v)] + rest;
      Trimmed(lines) == lines && Settings(lines, safe) == [(k, v)] + settings && Others(lines, safe) == []
  {
    DirectiveMatches(k, v);
    assert ([Directive(k, v)] + rest)[1..] == rest;
  }

  lemma DirectiveIsOneLine(k: string, values: map<string, string>)
    requires Tidy(values) && k in values
    ensures '\n' !in Directive(k, Get(values, k))
  {
    assert '\n' !in k;
  }

  lemma WrittenLinesAreLines(lines: seq<string>, safe: set<string>, values: map<string, string>, keys: seq<string>)
    requires Tidy(values) && Covers(Trimmed(lines), safe, values) && forall k :: k in keys ==> k in values
    requires forall l :: l in lines ==> '\n' !in l
    ensures forall l :: l in Rewritten(lines, safe, values) + Appended(keys, values) ==> '\n' !in l
  {
    forall l | l in Rewritten(lines, safe, values)
      ensures '\n' !in l
    {
      var i :| 0 <= i < |lines| && l == RewrittenLine(lines[i], safe, values);
      assert lines[i] in lines;
      var t := TrimSpace(lines[i]);
      if Sets(t, safe) {
        TrimmedHas(lines, i);
        DirectiveIsOneLine(Matched(t).value.0, values);
      }
    }
    forall l | l in Appended(keys, values)
      ensures '\n' !in l
    {
      var i :| 0 <= i < |keys| && l == Directive(keys[i], Get(values, keys[i]));
      DirectiveIsOneLine(keys[i], values);
    }
  }

  lemma {:induction false} TrimmedHas(lines: seq<string>, i: nat)
    requires i < |lines| && TrimSpace(lines[i]) != ""
    ensures TrimSpace(lines[i]) in Trimmed(lines)
  {
    if i > 0 {
      TrimmedHas(lines[1..], i - 1);
    }
  }

  /** What the stored text says: every directive line, repeated ones too, carries the new value
      of its key, in the old order, then the keys no line set; every other line stays. */
  lemma WrittenReadsBack(raw: string, safe: set<string>, values: map<string, string>, missing: seq<string>)
    requires Tidy(values) && Covers(Lines(raw), safe, values)
    requires forall k :: k in missing ==> k in values && k in safe
    ensures var text := Written(raw, safe, values, missing);
      && Settings(Lines(text), safe) == Assigned(Keys(Settings(Lines(raw), safe)) + missing, values)
      && Others(Lines(text), safe) == Others(Lines(raw), safe)
  {
    var lines := Split(raw, '\n');
    var written, added := Rewritten(lines, safe, values), Appended(missing, values);
    JoinSplit(raw, '\n');
    WrittenLinesAreLines(lines, safe, values, missing);
    SplitJoin(written + added, '\n');
    TrimKeepsLines(Join(written + added, '\n'));
    TrimmedSplits(written, added);
    RewrittenReadsBack(lines, safe, values);
    AppendedReadsBack(missing, safe, values);
    TwoPartsReadBack(Trimmed(written), added, safe, Keys(Settings(Lines(raw), safe)), missing, values, Others(Lines(raw), safe));
  }

  lemma AssignedSplits(keys: seq<string>, more: seq<string>, values: map<string, string>)
    ensures Assigned(keys + more, values) == Assigned(keys, values) + Assigned(more, values)
  {
  }

  lemma TwoPartsReadBack(a: seq<string>, b: seq<string>, safe: set<string>, keys: seq<string>, missing: seq<string>,
                         values: map<string, string>, others: seq<string>)
    requires Settings(a, safe) == Assigned(keys, values) && Settings(b, safe) == Assigned(missing, values)
    requires Others(a, safe) == others && Others(b, safe) == []
    ensures Settings(a + b, safe) == Assigned(keys + missing, values) && Others(a + b, safe) == others
  {
    SettingsSplit(a, b, safe);
    OthersSplit(a, b, safe);
    AssignedSplits(keys, missing, values);
  }

  lemma {:induction false} AssignedIsTheMap(keys: seq<string>, values: map<string, string>)
    requires Elements(keys) <= values.Keys
    ensures AsMap(Assigned(keys, values)) == map k | k in Elements(keys) :: values[k]
  {
    if keys != [] {
      var front, last := keys[..|keys| - 1], keys[|keys| - 1];
      assert keys == front + [last];
      assert Elements(keys) == Elements(front) + {last};
      AssignedIsTheMap(front, values);
      assert Assigned(keys, values)[..|keys| - 1] == Assigned(front, values);
    }
  }

  lemma {:induction false} KeysOfTheMap(settings: seq<(string, string)>)
    ensures AsMap(settings).Keys == Elements(Keys(settings))
  {
    if settings != [] {
      var front := settings[..|settings| - 1];
      KeysOfTheMap(front);
      assert Keys(settings) == Keys(front) + [settings[|settings| - 1].0];
    }
  }

  lemma {:induction false} SettingsAreCovered(lines: seq<string>, safe: set<string>, values: map<string, string>)
    requires Elements(Keys(Settings(lines, safe))) <= values.Keys
    ensures Covers(lines, safe, values)
  {
    if lines != [] {
      var rest := Settings(lines[1..], safe);
      if Sets(lines[0], safe) {
        assert Keys([Matched(lines[0]).value] + rest) == [Matched(lines[0]).value.0] + Keys(rest);
        assert Matched(lines[0]).value.0 in Elements(Keys(Settings(lines, safe)));
      } else {
        assert [] + rest == rest;
      }
      assert Elements(Keys(rest)) <= Elements(Keys(Settings(lines, safe)));
      SettingsAreCovered(lines[1..], safe, values);
    }
  }

  lemma AllKeysAreTheMap(keys: seq<string>, values: map<string, string>)
    requires Elements(keys) == values.Keys
    ensures AsMap(Assigned(keys, values)) == values
  {
    AssignedIsTheMap(keys, values);
    assert (map k | k in values.Keys :: values[k]) == values;
  }

  lemma ElementsOfBoth(a: seq<string>, b: seq<string>)
    ensures Elements(a + b) == Elements(a) + Elements(b)
  {
  }

  lemma MissingKeysAreNew(missing: seq<string>, keys: set<string>, before: set<string>)
    requires Elements(missing) == keys - before
    ensures forall k :: k in missing ==> k in keys
  {
    forall k | k in missing
      ensures k in keys
    {
      assert k in Elements(missing);
    }
  }

  // Hence the stored text reads back as exactly the values it was written from.
  lemma RewritingStores(raw: string, safe: set<string>, values: map<string, string>, text: string)
    requires Tidy(values) && Additional(raw, safe).Keys <= values.Keys <= safe
    requires Rewrites(raw, safe, values, text)
    ensures Additional(text, safe) == values
    ensures Others(Lines(text), safe) == Others(Lines(raw), safe)
    ensures forall s :: s in Settings(Lines(text), safe) ==> s.0 in values && s.1 == values[s.0]
  {
    var missing :| Ascending(missing) && Elements(missing) == values.Keys - Additional(raw, safe).Keys
                   && text == Written(raw, safe, values, missing);
    var known := Keys(Settings(Lines(raw), safe));
    KeysOfTheMap(Settings(Lines(raw), safe));
    SettingsAreCovered(Lines(raw), safe, values);
    MissingKeysAreNew(missing, values.Keys, Elements(known));
    WrittenReadsBack(raw, safe, values, missing);
    ElementsOfBoth(known, missing);
    AllKeysAreTheMap(known + missing, values);
    AssignedHasTheValues(known + missing, values);
  }

  lemma AssignedHasTheValues(keys: seq<string>, values: map<string, string>)
    requires Elements(keys) <= values.Keys
    ensures forall s :: s in Assigned(keys, values) ==> s.0 in values && s.1 == values[s.0]
  {
    forall i | 0 <= i < |keys|
      ensures keys[i] in values
    {
      assert keys[i] in Elements(keys);
    }
  }

  lemma {:induction false} SettingsAreTidy(lines: seq<string>, safe: set<string>)
    requires forall l :: l in lines ==> '\n' !in l
    ensures forall s :: s in Settings(lines, safe) ==> KeyName(s.0) && ';' !in s.1 && '\n' !in s.1 && s.0 in safe
  {
    if lines != [] {
      SettingsAreTidy(lines[1..], safe);
      assert lines[0] in lines;
      if Sets(lines[0], safe) && '\n' in Matched(lines[0]).value.1 {
        MatchedValueIsPart(lines[0], '\n');
      }
    }
  }

  lemma {:induction false} TheMapIsTidy(settings: seq<(string, string)>, safe: set<string>)
    requires forall s :: s in settings ==> KeyName(s.0) && ';' !in s.1 && '\n' !in s.1 && s.0 in safe
    ensures Tidy(AsMap(settings)) && AsMap(settings).Keys <= safe
  {
    if settings != [] {
      TheMapIsTidy(settings[..|settings| - 1], safe);
      assert settings[|settings| - 1] in settings;
    }
  }

  // Whatever the text, what is read from it could be written as directive lines.
  lemma AdditionalIsTidy(raw: string, safe: set<string>)
    ensures Tidy(Additional(raw, safe)) && Additional(raw, safe).Keys <= safe
  {
    JoinSplit(raw, '\n');
    TrimmedLinesAreLines(Split(raw, '\n'), '\n');
    SettingsAreTidy(Lines(raw), safe);
    TheMapIsTidy(Settings(Lines(raw), safe), safe);
  }

  /******* The two loops that rewrite the lines *******/

  // The supported key a line sets, as a set of at most one.
  function KeyOf(line: string, safe: set<string>): set<string> {
    var t := TrimSpace(line);
    if Sets(t, safe) then {Matched(t).value.0} else {}
  }

  function KnownIn(lines: seq<string>, safe: set<string>): set<string> {
    Directives(Trimmed(lines), safe).Keys
  }

  lemma KnownGrows(lines: seq<string>, i: nat, safe: set<string>)
    requires i < |lines|
    ensures KnownIn(lines[..i + 1], safe) == KnownIn(lines[..i], safe) + KeyOf(lines[i], safe)
  {
    OneMoreLine(lines, i);
    OneMoreDirective(Trimmed(lines[..i]), TrimSpace(lines[i]), safe);
  }

  method RewriteLine(line: string, safe: set<string>, values: map<string, string>) returns (out: string, known: set<string>)
    ensures out == RewrittenLine(line, safe, values) && known == KeyOf(line, safe)
  {
    out, known := line, {};
    var m := Matched(TrimSpace(line));
    if m.Some? && m.value.0 in safe {
      out := Directive(m.value.0, Get(values, m.value.0));
      known := {m.value.0};
    }
  }

  lemma ReplacedAt(will: seq<string>, was: seq<string>, i: nat)
    requires i < |will| == |was|
    ensures (will[..i] + was[i..])[i := will[i]] == will[..i + 1] + was[i + 1..]
  {
  }

  lemma KnownInTheText(raw: string, safe: set<string>)
    ensures KnownIn(Split(raw, '\n'), safe) == Additional(raw, safe).Keys
  {
  }

  method RewriteLines(raw: string, safe: set<string>, values: map<string, string>) returns (lines: seq<string>, known: set<string>)
    ensures lines == Rewritten(Split(raw, '\n'), safe, values)
    ensures known == Additional(raw, safe).Keys
  {
    lines, known := Split(raw, '\n'), {};
    ghost var was, will := lines, Rewritten(lines, safe, values);
    var i := 0;
    while i < |lines|
      invariant 0 <= i <= |lines| == |was|
      invariant lines == will[..i] + was[i..]
      invariant known == KnownIn(was[..i], safe)
    {
      var line, k := RewriteLine(lines[i], safe, values);
      KnownGrows(was, i, safe);
      ReplacedAt(will, was, i);
      lines, known := lines[i := line], known + k;
      i := i + 1;
    }
    assert was[..i] == was && lines == will;
    KnownInTheText(raw, safe);
  }

  method AppendMissing(lines: seq<string>, known: set<string>, values: map<string, string>) returns (out: seq<string>)
    ensures exists missing ::
      Ascending(missing) && Elements(missing) == values.Keys - known && out == lines + Appended(missing, values)
  {
    out := lines;
    var keys := SortedSet(values.Keys);
    ghost var missing: seq<string> := [];
    var i := 0;
    while i < |keys|
      invariant 0 <= i <= |keys|
      invariant Ascending(missing) && Elements(missing) == Elements(keys[..i]) - known
      invariant out == lines + Appended(missing, values)
    {
      var k := keys[i];
      assert keys[..i + 1] == keys[..i] + [k];
      ElementsOfBoth(keys[..i], [k]);
      ElementsOfBoth(missing, [k]);
      if k !in known {
        NextIsAbove(missing, keys, i);
        assert Appended(missing + [k], values) == Appended(missing, values) + [Directive(k, Get(values, k))];
        out := out + [Directive(k, Get(values, k))];
        missing := missing + [k];
      }
      i := i + 1;
    }
    assert keys[..i] == keys;
  }

  lemma NextIsAbove(missing: seq<string>, keys: seq<string>, i: nat)
    requires i < |keys| && Ascending(keys) && Ascending(missing) && Elements(missing) <= Elements(keys[..i])
    ensures Ascending(missing + [keys[i]])
  {
    forall j | 0 <= j < |missing|
      ensures Below(missing[j], keys[i])
    {
      assert missing[j] in Elements(missing);
    }
  }

  method RewriteAdditional(raw: string, safe: set<string>, values: map<string, string>) returns (text: string)
    ensures Rewrites(raw, safe, values, text)
  {
    var lines, known := RewriteLines(raw, safe, values);
    var all := AppendMissing(lines, known, values);
    text := TrimSpace(Join(all, '\n'));
  }
}
