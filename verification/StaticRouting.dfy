/**
 The single-page fallback of internal/gateway/static.go: two managed lines are
 put behind `location / {` and cut out again, by string positions alone.
 */
module StaticRouting {
  import opened Wrappers
  import opened Text

  // The texts the rewriting is about; `cut` is what switching off cuts out again.
  datatype Managed = Managed(gap: string, marker: string, needle: string, line: string, word: string, cut: string)

  // The marker line and the one after it.
  function TwoLines(marker: string, line: string): string {
    marker + "\n" + line + "\n"
  }

  function Made(gap: string, marker: string, needle: string, line: string, word: string): Managed {
    Managed(gap, marker, needle, line, word, TwoLines(marker, line))
  }

  const GAP := "\n        "
  const MARKER := "# cloudpanel-gateway-spa-fallback"
  const NEEDLE := "location / {"
  const LINE := "        try_files $uri $uri/ /index.html;"
  const WORD := "try_files"

  const SPA := Made(GAP, MARKER, NEEDLE, LINE, WORD)

  // The marker line, which starts at `start`, and the line behind it.
  function PatchMarked(vhost: string, enable: bool, start: nat): Result<string>
    requires start <= |vhost|
  {
    var lineEnd := Until(vhost, '\n', start);
    if lineEnd == |vhost| then Err
    else
      var tryEnd := Until(vhost, '\n', lineEnd + 1);
      if tryEnd == |vhost| then Err
      else Ok(if enable then vhost else vhost[..start] + vhost[tryEnd + 1..])
  }

  function Patch(vhost: string, enable: bool, m: Managed): Result<string> {
    match Index(vhost, m.marker)
    case Some(start) => PatchMarked(vhost, enable, start)
    case None =>
      if !enable then Ok(vhost)
      else match Index(vhost, m.needle)
        case None => Err
        case Some(idx) =>
          var end := Until(vhost, '}', idx);
          if end == |vhost| || Index(vhost[idx..end], m.word).Some? then Err
          else
            var insert := idx + |m.needle|;
            Ok(vhost[..insert] + m.gap + m.cut + vhost[insert..])
  }

  function PatchSPAFallback(vhost: string, enable: bool): Result<string> {
    Patch(vhost, enable, SPA)
  }

  // What the reader of the vhost reports.
  predicate ReportsFallback(vhost: string, m: Managed) {
    Index(vhost, m.marker).Some?
  }

  /******* What the texts need to be like *******/

  predicate Blank(c: char) {
    c == ' ' || c == '\n'
  }

  ghost predicate OneLine(s: string) {
    s != "" && !Blank(s[0]) && forall k :: 0 <= k < |s| ==> s[k] != '\n'
  }

  ghost predicate CutShape(cut: string, marker: string, line: string) {
    && |cut| == |marker| + |line| + 2
    && At(cut, marker, 0) && cut[|marker|] == '\n' && At(cut, line, |marker| + 1) && cut[|cut| - 1] == '\n'
  }

  lemma TwoLinesHaveTheShape(marker: string, line: string)
    ensures CutShape(TwoLines(marker, line), marker, line)
  {
  }

  ghost predicate WellFormed(m: Managed) {
    && CutShape(m.cut, m.marker, m.line)
    && OneLine(m.marker) && OneLine(m.word) && Gaps(m.gap) && m.gap != ""
    && WithoutChar(m.line, '\n') && WithoutChar(m.needle, '}')
  }

  predicate WithoutChar(s: string, c: char) {
    forall k :: 0 <= k < |s| ==> s[k] != c
  }

  lemma MadeIsWellFormed(gap: string, marker: string, needle: string, line: string, word: string)
    requires OneLine(marker) && OneLine(word) && Gaps(gap) && gap != ""
    requires WithoutChar(line, '\n') && WithoutChar(needle, '}')
    ensures WellFormed(Made(gap, marker, needle, line, word))
  {
    TwoLinesHaveTheShape(marker, line);
  }

  lemma MarkerIsOneLine()
    ensures OneLine(MARKER)
  {
  }

  lemma LineIsOneLine()
    ensures WithoutChar(LINE, '\n')
  {
  }

  lemma ShortTexts()
    ensures OneLine(WORD) && Gaps(GAP) && GAP != "" && WithoutChar(NEEDLE, '}')
  {
  }

  lemma SpaIsWellFormed()
    ensures WellFormed(SPA)
  {
    MarkerIsOneLine();
    LineIsOneLine();
    ShortTexts();
    MadeIsWellFormed(GAP, MARKER, NEEDLE, LINE, WORD);
  }

  /******* Blanks inserted into a text *******/

  ghost predicate Gaps(w: string) {
    (forall k :: 0 <= k < |w| ==> Blank(w[k])) && (w != "" ==> w[0] == '\n')
  }

  function Repeat(gap: string, k: nat): string {
    if k == 0 then "" else gap + Repeat(gap, k - 1)
  }

  lemma {:induction false} RepeatIsGaps(gap: string, k: nat)
    requires Gaps(gap)
    ensures Gaps(Repeat(gap, k))
  {
    if k > 0 {
      RepeatIsGaps(gap, k - 1);
    }
  }

  // Inserted blanks make no new occurrence of a one-line text.
  lemma NoNewOccurrence(a: string, w: string, b: string, pat: string, p: nat)
    requires Gaps(w) && OneLine(pat) && At(a + w + b, pat, p)
    ensures p + |pat| <= |a| || |a| + |w| <= p || w == ""
    ensures w != "" && p + |pat| <= |a| ==> At(a + b, pat, p)
    ensures w != "" && |a| + |w| <= p ==> At(a + b, pat, p - |w|)
  {
    var s := a + w + b;
    AtMeans(s, pat, p);
    assert forall j :: |a| <= j < |a| + |w| ==> s[j] == w[j - |a|] && Blank(s[j]);
    if w != "" {
      assert s[|a|] == '\n';
      forall k | 0 <= k < |pat| && p + |pat| <= |a|
        ensures (a + b)[p + k] == pat[k]
      {
        assert s[p + k] == pat[k];
      }
      forall k | 0 <= k < |pat| && |a| + |w| <= p
        ensures (a + b)[p - |w| + k] == pat[k]
      {
        assert s[p + k] == pat[k];
      }
    }
  }

  lemma BlanksHideNothing(a: string, w: string, b: string, pat: string)
    requires Gaps(w) && OneLine(pat) && !Contains(a + b, pat)
    ensures !Contains(a + w + b, pat)
  {
    if w == "" {
      assert a + w + b == a + b;
    }
    forall p: nat | At(a + w + b, pat, p)
      ensures w == "" || exists q: nat :: At(a + b, pat, q)
    {
      NoNewOccurrence(a, w, b, pat, p);
    }
  }

  /******* The two shapes a vhost takes *******/

  function Off(v: string, i: nat, k: nat, m: Managed): string
    requires i <= |v|
  {
    v[..i] + Repeat(m.gap, k) + v[i..]
  }

  function On(v: string, i: nat, k: nat, m: Managed): string
    requires i <= |v|
  {
    v[..i] + m.gap + m.cut + (Repeat(m.gap, k) + v[i..])
  }

  function Shape(v: string, i: nat, k: nat, on: bool, m: Managed): string
    requires i <= |v|
  {
    if on then On(v, i, k, m) else Off(v, i, k, m)
  }

  // Enabling succeeds on v, and the block goes in at position i.
  ghost predicate Insertable(v: string, i: nat, m: Managed) {
    && i <= |v| && !Contains(v, m.marker)
    && i >= |m.needle| && Index(v, m.needle) == Some(i - |m.needle|)
    && exists e: nat :: BlockEnds(v, i, e, m)
  }

  // e is the first closing brace after the needle that ends at i.
  ghost predicate BlockEnds(v: string, i: nat, e: nat, m: Managed) {
    var idx := i - |m.needle|;
    && 0 <= idx <= e < |v| && v[e] == '}' && (forall j :: idx <= j < e ==> v[j] != '}')
    && !Contains(v[idx..e], m.word)
  }

  /** Enabling a vhost without the marker succeeds exactly on the insertable ones. */
  lemma EnablingSucceedsExactly(v: string, m: Managed)
    requires !Contains(v, m.marker)
    ensures Patch(v, true, m).Ok? <==> exists i: nat :: Insertable(v, i, m)
  {
    var n := Index(v, m.needle);
    if n.Some? {
      var e := Until(v, '}', n.value);
      if e < |v| && Index(v[n.value..e], m.word).None? {
        assert BlockEnds(v, n.value + |m.needle|, e, m);
        assert Insertable(v, n.value + |m.needle|, m);
      }
    }
    forall i: nat | Insertable(v, i, m)
      ensures Patch(v, true, m).Ok?
    {
      EnablingInserts(v, i, m);
    }
  }

  lemma EnablingInserts(v: string, i: nat, m: Managed)
    requires Insertable(v, i, m)
    ensures Patch(v, true, m) == Ok(v[..i] + m.gap + m.cut + v[i..])
    ensures Patch(v, false, m) == Ok(v)
    ensures !ReportsFallback(v, m)
  {
    var e: nat :| BlockEnds(v, i, e, m);
    UntilIs(v, '}', i - |m.needle|, e);
  }

  // Leftover blanks do not change where the block goes.
  lemma OffStaysInsertable(v: string, i: nat, k: nat, m: Managed)
    requires WellFormed(m) && Insertable(v, i, m)
    ensures Insertable(Off(v, i, k, m), i, m)
  {
    RepeatIsGaps(m.gap, k);
    var w, s := Repeat(m.gap, k), Off(v, i, k, m);
    assert v[..i] + v[i..] == v;
    BlanksHideNothing(v[..i], w, v[i..], m.marker);
    NeedleStays(v, i, k, m);
    var e: nat :| BlockEnds(v, i, e, m);
    EndStays(v, i, w, m, e, s);
    assert BlockEnds(s, i, e + |w|, m);
  }

  lemma NeedleStays(v: string, i: nat, k: nat, m: Managed)
    requires Insertable(v, i, m)
    ensures Index(Off(v, i, k, m), m.needle) == Some(i - |m.needle|)
  {
    var s, idx := Off(v, i, k, m), i - |m.needle|;
    assert |s| >= i && forall j :: 0 <= j < i ==> s[j] == v[j];
    SamePrefix(v, s, i, m.needle);
    FirstIsIndex(s, m.needle, idx);
  }

  lemma AroundTheGap(v: string, i: nat, w: string, s: string, idx: nat, e: nat)
    requires idx <= i <= e <= |v| && s == v[..i] + w + v[i..]
    ensures s[idx..e + |w|] == v[idx..i] + w + v[i..e] && v[idx..e] == v[idx..i] + v[i..e]
  {
  }

  // A text put in that lacks a character moves the next one behind it.
  lemma NoCharAcross(v: string, i: nat, w: string, s: string, from: nat, e: nat, c: char)
    requires from <= i <= e <= |v| && s == v[..i] + w + v[i..]
    requires (forall j :: from <= j < e ==> v[j] != c) && WithoutChar(w, c)
    ensures forall j :: from <= j < e + |w| ==> s[j] != c
  {
    PartsOf(v, i, w, s);
  }

  lemma BraceIsBehind(v: string, i: nat, m: Managed, e: nat)
    requires WithoutChar(m.needle, '}') && |m.needle| <= i <= |v| && At(v, m.needle, i - |m.needle|) && BlockEnds(v, i, e, m)
    ensures e >= i
  {
    AtMeans(v, m.needle, i - |m.needle|);
  }

  lemma NoBraceBefore(v: string, i: nat, w: string, m: Managed, e: nat, s: string)
    requires WellFormed(m) && Gaps(w) && |m.needle| <= i <= |v| && At(v, m.needle, i - |m.needle|) && BlockEnds(v, i, e, m)
    requires s == v[..i] + w + v[i..]
    ensures e >= i && s[e + |w|] == '}'
    ensures forall j :: i - |m.needle| <= j < e + |w| ==> s[j] != '}'
  {
    BraceIsBehind(v, i, m, e);
    NoCharAcross(v, i, w, s, i - |m.needle|, e, '}');
  }

  lemma EndStays(v: string, i: nat, w: string, m: Managed, e: nat, s: string)
    requires WellFormed(m) && Gaps(w) && |m.needle| <= i <= |v| && At(v, m.needle, i - |m.needle|) && BlockEnds(v, i, e, m)
    requires s == v[..i] + w + v[i..]
    ensures e >= i && BlockEnds(s, i, e + |w|, m)
  {
    var idx := i - |m.needle|;
    NoBraceBefore(v, i, w, m, e, s);
    AroundTheGap(v, i, w, s, idx, e);
    BlanksHideNothing(v[idx..i], w, v[i..e], m.word);
  }

  // A text with something put in at i.
  lemma PartsOf(v: string, i: nat, w: string, s: string)
    requires i <= |v| && s == v[..i] + w + v[i..]
    ensures s[..i] == v[..i] && s[i..] == w + v[i..]
    ensures forall j :: 0 <= j < i ==> s[j] == v[j]
    ensures forall j :: i <= j < i + |w| ==> s[j] == w[j - i]
    ensures forall j :: i + |w| <= j < |s| ==> s[j] == v[j - |w|]
  {
  }

  lemma FromOff(v: string, i: nat, k: nat, m: Managed)
    requires WellFormed(m) && Insertable(v, i, m)
    ensures Patch(Off(v, i, k, m), true, m) == Ok(On(v, i, k, m))
    ensures Patch(Off(v, i, k, m), false, m) == Ok(Off(v, i, k, m))
    ensures !ReportsFallback(Off(v, i, k, m), m)
  {
    OffStaysInsertable(v, i, k, m);
    EnablingInserts(Off(v, i, k, m), i, m);
    PartsOf(v, i, Repeat(m.gap, k), Off(v, i, k, m));
  }

  // The marker line and the managed line, from start on.
  ghost predicate Marked(s: string, start: nat, m: Managed) {
    var lineEnd := start + |m.marker|;
    && lineEnd + 1 + |m.line| < |s|
    && At(s, m.marker, start) && s[lineEnd] == '\n'
    && At(s, m.line, lineEnd + 1) && s[lineEnd + 1 + |m.line|] == '\n'
  }

  // Where the two line ends are in the enabled shape.
  lemma MarkedLineEnds(s: string, start: nat, m: Managed)
    requires WellFormed(m) && Marked(s, start, m)
    ensures
      var lineEnd := start + |m.marker|;
      && Until(s, '\n', start) == lineEnd
      && Until(s, '\n', lineEnd + 1) == lineEnd + 1 + |m.line|
  {
    var lineEnd := start + |m.marker|;
    LineEnds(s, start, m.marker, lineEnd);
    LineEnds(s, lineEnd + 1, m.line, lineEnd + 1 + |m.line|);
  }

  lemma ThirdPart(a: string, b: string, c: string, d: string, s: string)
    requires s == a + b + (c + d)
    ensures |a| + |b| + |c| <= |s| && At(s, c, |a| + |b|)
  {
  }

  lemma FirstMarker(a: string, gap: string, rest: string, marker: string, s: string)
    requires OneLine(marker) && Gaps(gap) && gap != "" && !Contains(a, marker)
    requires s == a + gap + rest && At(s, marker, |a| + |gap|)
    ensures Index(s, marker) == Some(|a| + |gap|)
  {
    forall p: nat | p < |a| + |gap|
      ensures !At(s, marker, p)
    {
      if At(s, marker, p) {
        NoNewOccurrence(a, gap, rest, marker, p);
        SamePrefix(a, s, |a|, marker);
      }
    }
    FirstIsIndex(s, marker, |a| + |gap|);
  }

  lemma CutPositions(s: string, start: nat, m: Managed)
    requires CutShape(m.cut, m.marker, m.line) && At(s, m.cut, start)
    ensures Marked(s, start, m)
  {
    AtInside(s, m.cut, start, m.marker, 0);
    AtInside(s, m.cut, start, m.line, |m.marker| + 1);
    assert s[start + |m.marker|] == m.cut[|m.marker|];
    assert s[start + (|m.cut| - 1)] == m.cut[|m.cut| - 1];
  }

  lemma LineEnds(s: string, i: nat, text: string, e: nat)
    requires e == i + |text| < |s| && s[e] == '\n' && At(s, text, i)
    requires forall j :: 0 <= j < |text| ==> text[j] != '\n'
    ensures Until(s, '\n', i) == e
  {
    forall j | i <= j < e
      ensures s[j] != '\n'
    {
      assert s[i + (j - i)] == text[j - i];
    }
    UntilIs(s, '\n', i, e);
  }

  lemma NotInThePrefix(v: string, i: nat, pat: string)
    requires i <= |v| && !Contains(v, pat)
    ensures !Contains(v[..i], pat)
  {
    SamePrefix(v, v[..i], i, pat);
    assert forall p: nat :: At(v[..i], pat, p) ==> At(v, pat, p);
  }

  // Where Patch cuts an enabled shape, and what is around the cut.
  lemma OnIsCut(a: string, rest: string, m: Managed, s: string) returns (start: nat, lineEnd: nat, next: nat)
    requires WellFormed(m) && !Contains(a, m.marker) && s == a + m.gap + m.cut + rest
    ensures Index(s, m.marker) == Some(start) && Until(s, '\n', start) == lineEnd
    ensures lineEnd < |s| && Until(s, '\n', lineEnd + 1) == next && start <= next < |s|
    ensures s[..start] == a + m.gap && s[next + 1..] == rest
  {
    CutIsThere(a, m.gap, m.cut, rest, s);
    start, lineEnd, next := OnPlaces(a, m.cut + rest, m, s);
  }

  lemma FromOn(v: string, i: nat, k: nat, m: Managed)
    requires WellFormed(m) && Insertable(v, i, m)
    ensures Patch(On(v, i, k, m), false, m) == Ok(Off(v, i, k + 1, m))
    ensures Patch(On(v, i, k, m), true, m) == Ok(On(v, i, k, m))
    ensures ReportsFallback(On(v, i, k, m), m)
  {
    var s, rest := On(v, i, k, m), Repeat(m.gap, k) + v[i..];
    NotInThePrefix(v, i, m.marker);
    var start, lineEnd, next := OnIsCut(v[..i], rest, m, s);
    PatchAt(s, start, m, false);
    PatchAt(s, start, m, true);
    MarkedAt(s, start, lineEnd, next, false);
    MarkedAt(s, start, lineEnd, next, true);
    Reassociate(v[..i], m.gap, Repeat(m.gap, k), v[i..]);
  }

  lemma Associate(a: string, b: string, c: string)
    ensures a + b + c == a + (b + c)
  {
  }

  lemma Reassociate(a: string, b: string, c: string, d: string)
    ensures a + b + (c + d) == a + (b + c) + d
  {
  }

  // Where Patch finds the managed lines again.
  lemma CutIsFound(s: string, start: nat, m: Managed)
    requires WellFormed(m) && At(s, m.cut, start)
    ensures At(s, m.marker, start)
    ensures Until(s, '\n', start) == start + |m.marker|
    ensures Until(s, '\n', start + |m.marker| + 1) == start + |m.cut| - 1
  {
    CutPositions(s, start, m);
    MarkedLineEnds(s, start, m);
  }

  // What Patch does with the positions it finds.
  lemma MarkedAt(s: string, start: nat, lineEnd: nat, next: nat, enable: bool)
    requires start <= next < |s| && Until(s, '\n', start) == lineEnd
    requires lineEnd < |s| && Until(s, '\n', lineEnd + 1) == next
    ensures PatchMarked(s, enable, start) == Ok(if enable then s else s[..start] + s[next + 1..])
  {
  }

  lemma PatchAt(s: string, start: nat, m: Managed, enable: bool)
    requires start <= |s| && Index(s, m.marker) == Some(start)
    ensures Patch(s, enable, m) == PatchMarked(s, enable, start) && ReportsFallback(s, m)
  {
  }

  lemma CutIsThere(a: string, gap: string, cut: string, rest: string, s: string)
    requires s == a + gap + cut + rest
    ensures At(s, cut, |a| + |gap|) && s == a + gap + (cut + rest)
    ensures s[..|a| + |gap|] == a + gap && s[|a| + |gap| + |cut|..] == rest
  {
    Associate(a + gap, cut, rest);
    ThirdPart(a, gap, cut, rest, s);
    CutOut(a + gap, cut, rest, s);
  }

  // Everything Patch looks for in a text with the managed lines in it.
  lemma OnPlaces(a: string, tail: string, m: Managed, s: string) returns (start: nat, lineEnd: nat, next: nat)
    requires WellFormed(m) && !Contains(a, m.marker)
    requires s == a + m.gap + tail && At(s, m.cut, |a| + |m.gap|)
    ensures Index(s, m.marker) == Some(start) && Until(s, '\n', start) == lineEnd
    ensures lineEnd < |s| && Until(s, '\n', lineEnd + 1) == next
    ensures start == |a| + |m.gap| <= next && next + 1 == start + |m.cut| <= |s|
  {
    start := |a| + |m.gap|;
    lineEnd, next := start + |m.marker|, start + |m.cut| - 1;
    CutIsFound(s, start, m);
    FirstMarker(a, m.gap, tail, m.marker, s);
  }

  lemma CutOut(a: string, b: string, c: string, s: string)
    requires s == a + b + c
    ensures s[..|a|] == a && s[|a| + |b|..] == c
  {
  }

  /******* Every sequence of requests *******/

  // The outcome of a sequence of requests, each handled by `step`.
  function RunAll(step: (string, bool) -> Result<string>, vhost: string, requests: seq<bool>): Result<string>
    decreases |requests|
  {
    if requests == [] then Ok(vhost)
    else match step(vhost, requests[0])
      case Err => Err
      case Ok(next) => RunAll(step, next, requests[1..])
  }

  function Patcher(m: Managed): (string, bool) -> Result<string> {
    (vhost, request) => Patch(vhost, request, m)
  }

  function PatchAll(vhost: string, requests: seq<bool>, m: Managed): Result<string> {
    RunAll(Patcher(m), vhost, requests)
  }

  // How often an enabled vhost is switched off.
  function Switches(requests: seq<bool>, on: bool): nat
    decreases |requests|
  {
    if requests == [] then 0
    else (if on && !requests[0] then 1 else 0) + Switches(requests[1..], requests[0])
  }

  function Last(requests: seq<bool>, on: bool): bool {
    if requests == [] then on else Last(requests[1..], requests[0])
  }

  lemma OneRequest(v: string, i: nat, k: nat, on: bool, request: bool, m: Managed)
    requires WellFormed(m) && Insertable(v, i, m)
    ensures Patch(Shape(v, i, k, on, m), request, m) ==
      Ok(Shape(v, i, if on && !request then k + 1 else k, request, m))
    ensures ReportsFallback(Shape(v, i, k, on, m), m) == on
  {
    if on {
      FromOn(v, i, k, m);
    } else {
      FromOff(v, i, k, m);
    }
  }

  // The shapes of v, by the number of switch-offs and the state.
  function Shapes(v: string, i: nat, m: Managed): (nat, bool) -> string
    requires i <= |v|
  {
    (k: nat, on: bool) => Shape(v, i, k, on, m)
  }

  ghost predicate StepStays(step: (string, bool) -> Result<string>, shapes: (nat, bool) -> string, k: nat, on: bool, request: bool) {
    step(shapes(k, on), request) == Ok(shapes(if on && !request then k + 1 else k, request))
  }

  ghost predicate Closed(step: (string, bool) -> Result<string>, shapes: (nat, bool) -> string) {
    forall k: nat, on: bool, request: bool :: StepStays(step, shapes, k, on, request)
  }

  lemma {:induction false} ShapesAreClosed(step: (string, bool) -> Result<string>, shapes: (nat, bool) -> string,
                                           k: nat, on: bool, requests: seq<bool>)
    requires Closed(step, shapes)
    ensures RunAll(step, shapes(k, on), requests) == Ok(shapes(k + Switches(requests, on), Last(requests, on)))
    decreases |requests|
  {
    if requests != [] {
      assert StepStays(step, shapes, k, on, requests[0]);
      ShapesAreClosed(step, shapes, if on && !requests[0] then k + 1 else k, requests[0], requests[1..]);
    }
  }

  lemma PatchingStays(v: string, i: nat, m: Managed, k: nat, on: bool, request: bool)
    requires WellFormed(m) && Insertable(v, i, m)
    ensures StepStays(Patcher(m), Shapes(v, i, m), k, on, request)
  {
    OneRequest(v, i, k, on, request, m);
  }

  lemma PatchingIsClosed(v: string, i: nat, m: Managed)
    requires WellFormed(m) && Insertable(v, i, m)
    ensures Closed(Patcher(m), Shapes(v, i, m))
  {
    forall k: nat, on: bool, request: bool
      ensures StepStays(Patcher(m), Shapes(v, i, m), k, on, request)
    {
      PatchingStays(v, i, m, k, on, request);
    }
  }

  lemma NoBlanksIsTheOriginal(v: string, i: nat, m: Managed)
    requires i <= |v|
    ensures Shapes(v, i, m)(0, false) == v
  {
  }

  lemma FromTheStart(step: (string, bool) -> Result<string>, shapes: (nat, bool) -> string, v: string, requests: seq<bool>)
    requires Closed(step, shapes) && shapes(0, false) == v
    ensures RunAll(step, v, requests) == Ok(shapes(Switches(requests, false), Last(requests, false)))
  {
    ShapesAreClosed(step, shapes, 0, false, requests);
  }

  lemma SequenceOutcome(v: string, i: nat, requests: seq<bool>, m: Managed)
    requires WellFormed(m) && Insertable(v, i, m)
    ensures PatchAll(v, requests, m) == Ok(Shape(v, i, Switches(requests, false), Last(requests, false), m))
  {
    var step, shapes := Patcher(m), Shapes(v, i, m);
    PatchingIsClosed(v, i, m);
    NoBlanksIsTheOriginal(v, i, m);
    FromTheStart(step, shapes, v, requests);
  }

  /** On any vhost without the marker on which enabling succeeds, every later sequence of
      requests succeeds; what is left is the original with one newline and eight blanks behind
      `location / {` for each switch-off, plus the managed block exactly when the last request
      enabled it. Enabling twice is enabling once, and the report is always the last request. */
  lemma EverySequenceSucceeds(v: string, requests: seq<bool>) returns (i: nat)
    requires !Contains(v, SPA.marker) && PatchSPAFallback(v, true).Ok?
    ensures Insertable(v, i, SPA)
    ensures
      var last := Last(requests, false);
      var result := Shape(v, i, Switches(requests, false), last, SPA);
      && PatchAll(v, requests, SPA) == Ok(result)
      && ReportsFallback(result, SPA) == last
      && (last ==> PatchSPAFallback(result, true) == Ok(result))
  {
    var m := SPA;
    SpaIsWellFormed();
    EnablingSucceedsExactly(v, m);
    i :| Insertable(v, i, m);
    SequenceOutcome(v, i, requests, m);
    OneRequest(v, i, Switches(requests, false), Last(requests, false), true, m);
  }
}
