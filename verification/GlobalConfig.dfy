/**
 pageSpeedGlobalConfig of internal/gateway/settings.go: nginx.conf gains the one
 managed FileCachePath directive after CloudPanel's own PageSpeed line, unless it
 is there already. Both regular expressions are written out as scanners.
 */
module GlobalConfig {
  import opened Wrappers
  import opened Text

  // The directive, the name whose path is managed, and the name of the line it goes behind.
  datatype Names = Names(directive: string, name: string, header: string)

  const NGINX := Names("pagespeed", "FileCachePath", "XHeaderValue")
  const CACHE_PATH := "/var/cache/ngx_pagespeed"
  const BEGIN_LINE := "    #" + " cloudpanel-gateway-pagespeed-global begin"
  const END_LINE := "    # cloudpanel-gateway-pagespeed-global end"

  // "    pagespeed FileCachePath /var/cache/ngx_pagespeed;"
  function ManagedLine(directive: string, name: string, path: string): string {
    "    " + directive + " " + name + " " + path + ";"
  }

  function Block(first: string, second: string, third: string): string {
    "\n" + first + "\n" + second + "\n" + third
  }

  predicate LineStart(s: string, i: nat)
    requires i <= |s|
  {
    i == 0 || s[i - 1] == '\n'
  }

  // Past the blanks from i on.
  function Skip(s: string, i: nat): (r: nat)
    requires i <= |s|
    ensures i <= r <= |s|
    ensures forall j {:trigger Space(s[j])} :: i <= j < r ==> Space(s[j])
    ensures r < |s| ==> !Space(s[r])
    decreases |s| - i
  {
    if i < |s| && Space(s[i]) then Skip(s, i + 1) else i
  }

  // \s*$ from b on.
  predicate ClosesLine(s: string, b: nat)
    requires b <= |s|
  {
    Skip(s, b) == |s| || Until(s, '\n', b) < Skip(s, b)
  }

  // Where the path of a matched directive starts and ends.
  datatype Span = Span(from: nat, to: nat)

  // \s+([^;]+);\s*$ from r on; the blanks in front may count as path, as trimming drops them.
  function CacheTail(s: string, r: nat): (found: Option<Span>)
    requires r <= |s|
    ensures found.Some? ==> found.value.from <= found.value.to <= |s|
  {
    if r == |s| || !Space(s[r]) then None
    else
      var h := Until(s, ';', r);
      if h == |s| || h < r + 2 || !ClosesLine(s, h + 1) then None else Some(Span(r, h))
  }

  // \s+FileCachePath and the rest, from b on.
  function CacheName(n: Names, s: string, b: nat): (found: Option<Span>)
    requires b <= |s|
    ensures found.Some? ==> found.value.from <= found.value.to <= |s|
  {
    var q := Skip(s, b);
    if q == b || !At(s, n.name, q) then None else CacheTail(s, q + |n.name|)
  }

  // pagespeed\s+FileCachePath and the rest, from p on.
  function CacheWord(n: Names, s: string, p: nat): (found: Option<Span>)
    requires p <= |s|
    ensures found.Some? ==> found.value.from <= found.value.to <= |s|
  {
    if At(s, n.directive, p) then CacheName(n, s, p + |n.directive|) else None
  }

  // ^\s*pagespeed\s+FileCachePath\s+([^;]+);\s*$ at position i.
  function CacheAt(n: Names, s: string, i: nat): (found: Option<Span>)
    requires i <= |s|
    ensures found.Some? ==> found.value.from <= found.value.to <= |s|
  {
    if LineStart(s, i) then CacheWord(n, s, Skip(s, i)) else None
  }

  // The path of a match, trimmed.
  predicate Catches(s: string, found: Option<Span>, path: string) {
    found.Some? && found.value.from <= found.value.to <= |s| && TrimSpace(s[found.value.from..found.value.to]) == path
  }

  // What matches at each position.
  function Caches(n: Names, s: string): (found: seq<Option<Span>>)
    ensures |found| == |s| + 1
    ensures forall i :: 0 <= i <= |s| ==> found[i] == CacheAt(n, s, i)
  {
    seq(|s| + 1, i requires 0 <= i <= |s| => CacheAt(n, s, i))
  }

  // \s+1;[^\n]*$ from b on.
  function AnchorTail(s: string, b: nat): (r: Option<nat>)
    requires b <= |s|
    ensures r.Some? ==> b < r.value <= |s|
  {
    var r := Skip(s, b);
    if r == b || r + 2 > |s| || s[r] != '1' || s[r + 1] != ';' then None else Some(Until(s, '\n', r + 2))
  }

  // \s+XHeaderValue and the rest, from b on.
  function AnchorName(n: Names, s: string, b: nat): (r: Option<nat>)
    requires b <= |s|
    ensures r.Some? ==> b < r.value <= |s|
  {
    var q := Skip(s, b);
    if q == b || !At(s, n.header, q) then None else AnchorTail(s, q + |n.header|)
  }

  // ^([ \t]*pagespeed\s+XHeaderValue\s+1;[^\n]*)$ at position i, giving the end of the match.
  function AnchorAt(n: Names, s: string, i: nat): (r: Option<nat>)
    requires i <= |s|
    ensures r.Some? ==> i < r.value <= |s|
  {
    var p := Skip(s, i);
    if !LineStart(s, i) || (exists j :: i <= j < p && s[j] != ' ' && s[j] != '\t') || !At(s, n.directive, p) then None
    else AnchorName(n, s, p + |n.directive|)
  }

  // Where an anchor starting at each position ends.
  function Anchors(n: Names, s: string): (ends: seq<Option<nat>>)
    ensures Ends(s, ends)
    ensures forall i :: 0 <= i <= |s| ==> ends[i] == AnchorAt(n, s, i)
  {
    seq(|s| + 1, i requires 0 <= i <= |s| => AnchorAt(n, s, i))
  }

  predicate Ends(s: string, ends: seq<Option<nat>>) {
    && |ends| == |s| + 1
    && forall i :: 0 <= i <= |s| && ends[i].Some? ==> i < ends[i].value <= |s|
  }

  // ReplaceAllString from position i on: the block goes behind every anchor.
  function Inserted(s: string, ends: seq<Option<nat>>, block: string, i: nat): string
    requires i <= |s| && Ends(s, ends)
    decreases |s| - i
  {
    match ends[i]
    case Some(e) => s[i..e] + block + Inserted(s, ends, block, e)
    case None => if i == |s| then "" else [s[i]] + Inserted(s, ends, block, i + 1)
  }

  function WithManaged(current: string, n: Names, path: string, block: string): Result<string> {
    var caches, anchors := Caches(n, current), Anchors(n, current);
    match FirstSome(caches, 0)
    case Some(i) => if !Catches(current, caches[i], path) then Err else Ok(current)
    case None => if FirstSome(anchors, 0).None? then Err else Ok(Inserted(current, anchors, block, 0))
  }

  function PageSpeedGlobalConfig(current: string): Result<string> {
    WithManaged(current, NGINX, CACHE_PATH, Block(BEGIN_LINE, ManagedLine(NGINX.directive, NGINX.name, CACHE_PATH), END_LINE))
  }

  /******* What the names need to be like *******/

  ghost predicate Word(w: string) {
    w != "" && forall k :: 0 <= k < |w| ==> !Space(w[k])
  }

  ghost predicate WellFormed(n: Names) {
    && Word(n.directive) && Word(n.name) && Word(n.header)
    && n.directive[0] != n.name[0] && n.directive[0] != n.header[0] && n.name[0] != n.header[0]
    && n.directive[0] != '1' && n.directive[0] != '#'
  }

  lemma NginxIsWellFormed()
    ensures WellFormed(NGINX)
  {
  }

  // A path that trimming leaves alone.
  ghost predicate PathText(path: string) {
    path != "" && forall k :: 0 <= k < |path| ==> !GoSpace(path[k]) && path[k] != ';'
  }

  lemma CachePathIsPath()
    ensures PathText(CACHE_PATH)
  {
  }

  /******* Idempotence *******/

  lemma SkipIs(s: string, i: nat, r: nat)
    requires i <= r < |s| && !Space(s[r])
    requires forall j {:trigger Space(s[j])} :: i <= j < r ==> Space(s[j])
    ensures Skip(s, i) == r
  {
  }

  // Up to the first anchor nothing changes.
  lemma {:induction false} FirstInsertion(s: string, ends: seq<Option<nat>>, block: string, i: nat, f: nat)
    requires i <= f <= |s| && Ends(s, ends) && ends[f].Some?
    requires forall j :: i <= j < f ==> ends[j].None?
    ensures Inserted(s, ends, block, i) == s[i..ends[f].value] + block + Inserted(s, ends, block, ends[f].value)
    decreases f - i
  {
    if i < f {
      FirstInsertion(s, ends, block, i + 1, f);
      assert s[i..ends[f].value] == [s[i]] + s[i + 1..ends[f].value];
    }
  }

  // The parts of an anchor: its directive at p, its name at q, "1;" at r and its end.
  datatype Parts = Parts(p: nat, q: nat, r: nat, e: nat)

  ghost predicate Shape(n: Names, s: string, a: Parts) {
    && a.p + |n.directive| < a.q && a.q + |n.header| < a.r && a.r + 2 <= a.e <= |s|
    && At(s, n.directive, a.p) && At(s, n.header, a.q) && s[a.r] == '1' && s[a.r + 1] == ';'
    && (a.p > 0 ==> Space(s[a.p - 1]))
    && (forall j {:trigger Space(s[j])} :: a.p + |n.directive| <= j < a.q ==> Space(s[j]))
    && (forall j {:trigger Space(s[j])} :: a.q + |n.header| <= j < a.r ==> Space(s[j]))
    && (forall j :: a.r <= j < a.e ==> s[j] != '\n')
  }

  lemma AnchorHasShape(n: Names, s: string, i: nat) returns (a: Parts)
    requires i <= |s| && Anchors(n, s)[i].Some?
    ensures Shape(n, s, a) && a.e == Anchors(n, s)[i].value
    ensures a.e < |s| ==> s[a.e] == '\n'
  {
    var p := Skip(s, i);
    var q := Skip(s, p + |n.directive|);
    var r := Skip(s, q + |n.header|);
    a := Parts(p, q, r, Until(s, '\n', r + 2));
  }

  lemma WordAt(s: string, w: string, i: nat, k: nat)
    requires At(s, w, i) && k < |w|
    ensures s[i + k] == w[k]
  {
  }

  // A word that starts before a blank-preceded position ends before it.
  lemma WordEndsBefore(s: string, w: string, i: nat, p: nat)
    requires At(s, w, i) && i < p <= |s| && Space(s[p - 1])
    requires Word(w)
    ensures i + |w| < p
  {
    SolidWord(s, w, i);
  }

  ghost predicate SameUpTo(s: string, t: string, n: nat) {
    n <= |s| && n <= |t| && forall j :: 0 <= j < n ==> s[j] == t[j]
  }

  // Everything decided before n is decided alike in both texts.
  lemma SkipLocal(s: string, t: string, n: nat, i: nat)
    requires SameUpTo(s, t, n) && i <= n && Skip(s, i) < n
    ensures Skip(t, i) == Skip(s, i)
  {
    SkipIs(t, i, Skip(s, i));
  }

  lemma AtLocal(s: string, t: string, n: nat, w: string, i: nat)
    requires SameUpTo(s, t, n) && i + |w| <= n
    ensures At(s, w, i) <==> At(t, w, i)
  {
  }

  lemma ShapeLocal(n: Names, s: string, t: string, a: Parts)
    requires Shape(n, s, a) && SameUpTo(s, t, a.e)
    ensures Shape(n, t, a)
  {
    AtLocal(s, t, a.e, n.directive, a.p);
    AtLocal(s, t, a.e, n.header, a.q);
  }

  lemma NotAt(s: string, w: string, p: nat)
    requires w != "" && p < |s| && s[p] != w[0]
    ensures !At(s, w, p)
  {
    AtMeans(s, w, p);
  }

  // The scanner does not match at the words of an anchor.
  lemma NoMatchOnAnchor(n: Names, s: string, a: Parts, i: nat)
    requires WellFormed(n) && Shape(n, s, a) && i <= |s| && (Skip(s, i) == a.p || Skip(s, i) == a.q || Skip(s, i) == a.r)
    ensures CacheAt(n, s, i) == None
  {
    WordAt(s, n.header, a.q, 0);
    if Skip(s, i) == a.p {
      SkipIs(s, a.p + |n.directive|, a.q);
      NotAt(s, n.name, a.q);
    } else {
      NotAt(s, n.directive, Skip(s, i));
    }
  }

  lemma LineEndAtLeast(s: string, i: nat, e: nat)
    requires i <= e <= |s| && forall j :: i <= j < e ==> s[j] != '\n'
    ensures Until(s, '\n', i) >= e
  {
  }

  // s has an anchor, and t agrees with s up to the end of it.
  ghost predicate Kept(n: Names, s: string, t: string, a: Parts) {
    Shape(n, s, a) && SameUpTo(s, t, a.e) && a.e < |t| && (a.e < |s| ==> s[a.e] == '\n')
  }

  lemma SameClose(n: Names, s: string, t: string, a: Parts, b: nat)
    requires Kept(n, s, t, a) && b <= a.r + 2
    requires !ClosesLine(s, b)
    ensures !ClosesLine(t, b)
  {
    var e := Skip(s, b);
    assert e < a.e;
    SkipLocal(s, t, a.e, b);
    LineEndAtLeast(t, b, e);
  }

  // In front of an anchor nothing new matches: stage by stage, from the semicolon back.
  lemma SameTail(n: Names, s: string, t: string, a: Parts, r: nat)
    requires Kept(n, s, t, a) && r < a.p
    requires CacheTail(s, r) == None
    ensures CacheTail(t, r) == None
  {
    if Space(t[r]) {
      var h := Until(s, ';', r);
      UntilIs(t, ';', r, h);
      if h >= r + 2 {
        SameClose(n, s, t, a, h + 1);
      }
    }
  }

  // A word of t in front of the anchor is a word of s.
  lemma WordIsOld(n: Names, s: string, t: string, a: Parts, w: string, p: nat)
    requires Kept(n, s, t, a) && p < a.p && At(t, w, p)
    requires Word(w)
    ensures p + |w| < a.p && At(s, w, p)
  {
    WordEndsBefore(t, w, p, a.p);
    AtLocal(s, t, a.e, w, p);
  }

  // The name of the other directive does not stand where the anchor starts.
  lemma NameIsOld(n: Names, s: string, t: string, a: Parts, q: nat)
    requires WellFormed(n) && Kept(n, s, t, a) && q <= a.p && At(t, n.name, q)
    ensures q + |n.name| < a.p && At(s, n.name, q)
  {
    WordAt(s, n.directive, a.p, 0);
    WordAt(t, n.name, q, 0);
    WordIsOld(n, s, t, a, n.name, q);
  }

  // The blanks from b on end at the anchor or before it.
  lemma SkipStopsAtAnchor(n: Names, s: string, t: string, a: Parts, b: nat)
    requires WellFormed(n) && Kept(n, s, t, a) && b <= a.p
    ensures Skip(t, b) == Skip(s, b) <= a.p
  {
    WordAt(s, n.directive, a.p, 0);
    assert !Space(s[a.p]);
    SkipLocal(s, t, a.e, b);
  }

  lemma SameName(n: Names, s: string, t: string, a: Parts, b: nat)
    requires WellFormed(n) && Kept(n, s, t, a) && b < a.p
    requires CacheName(n, s, b) == None
    ensures CacheName(n, t, b) == None
  {
    var q := Skip(s, b);
    SkipStopsAtAnchor(n, s, t, a, b);
    if q > b && At(t, n.name, q) {
      NameIsOld(n, s, t, a, q);
      SameTail(n, s, t, a, q + |n.name|);
    }
  }

  lemma DirectiveIsOld(n: Names, s: string, t: string, a: Parts, p: nat)
    requires WellFormed(n) && Kept(n, s, t, a) && p < a.p && At(t, n.directive, p)
    ensures p + |n.directive| < a.p && At(s, n.directive, p)
  {
    WordIsOld(n, s, t, a, n.directive, p);
  }

  lemma NoWordWithoutName(n: Names, t: string, p: nat)
    requires p <= |t| && (At(t, n.directive, p) ==> CacheName(n, t, p + |n.directive|) == None)
    ensures CacheWord(n, t, p) == None
  {
  }

  lemma SameWord(n: Names, s: string, t: string, a: Parts, p: nat)
    requires WellFormed(n) && Kept(n, s, t, a) && p < a.p
    requires CacheWord(n, s, p) == None
    ensures CacheWord(n, t, p) == None
  {
    if At(t, n.directive, p) {
      DirectiveIsOld(n, s, t, a, p);
      SameName(n, s, t, a, p + |n.directive|);
    }
    NoWordWithoutName(n, t, p);
  }

  lemma NoNewMatchBefore(n: Names, s: string, t: string, a: Parts, i: nat)
    requires WellFormed(n) && Kept(n, s, t, a) && i <= a.p
    requires CacheAt(n, s, i) == None
    ensures CacheAt(n, t, i) == None
  {
    SkipStopsAtAnchor(n, s, t, a, i);
    if Skip(s, i) == a.p {
      ShapeLocal(n, s, t, a);
      NoMatchOnAnchor(n, t, a, i);
    } else if LineStart(t, i) {
      SameWord(n, s, t, a, Skip(s, i));
    }
  }

  // Nor inside it.
  lemma NoMatchInside(n: Names, t: string, a: Parts, i: nat)
    requires WellFormed(n) && Shape(n, t, a) && a.p < i <= a.e
    ensures CacheAt(n, t, i) == None
  {
    if LineStart(t, i) {
      WordAt(t, n.header, a.q, 0);
      SolidWord(t, n.directive, a.p);
      SolidWord(t, n.header, a.q);
      assert t[i - 1] == '\n';
      if i <= a.q {
        SkipIs(t, i, a.q);
      } else {
        assert i <= a.r;
        SkipIs(t, i, a.r);
      }
      NoMatchOnAnchor(n, t, a, i);
    }
  }

  lemma SolidWord(s: string, w: string, i: nat)
    requires At(s, w, i)
    requires Word(w)
    ensures forall j :: i <= j < i + |w| ==> !Space(s[j])
  {
    forall j | i <= j < i + |w|
      ensures !Space(s[j])
    {
      WordAt(s, w, i, j - i);
    }
  }

  // The comment line in front of the managed one does not match, nor does anything inside it.
  lemma CommentDoesNotMatch(n: Names, t: string, line: string, b: nat, i: nat)
    requires WellFormed(n) && At(t, line, b) && b <= i <= b + |line|
    requires |line| > 4 && line[4] == '#' && (forall k :: 0 <= k < 4 ==> line[k] == ' ')
    requires forall k :: 0 <= k < |line| ==> line[k] != '\n'
    ensures CacheAt(n, t, i) == None
  {
    if i == b {
      forall k | 0 <= k <= 4
        ensures t[b + k] == line[k]
      {
        WordAt(t, line, b, k);
      }
      assert forall j :: b <= j < b + 4 ==> t[j] == line[j - b];
      SkipIs(t, b, b + 4);
      NotAt(t, n.directive, b + 4);
    } else {
      WordAt(t, line, b, i - 1 - b);
    }
  }

  lemma TrimOneBlank(path: string)
    requires path != "" && !GoSpace(path[0]) && !GoSpace(path[|path| - 1])
    ensures TrimSpace(" " + path) == path
  {
    assert (" " + path)[1..] == path;
    assert TrimLeft(path) == path;
    assert TrimLeft(" " + path) == path;
  }

  // The pieces of a managed line, and those behind its directive.
  ghost predicate LinePieces(t: string, m: nat, directive: string, name: string, path: string) {
    At(t, "    ", m) && At(t, directive, m + 4) && NamePieces(t, m + 4 + |directive|, name, path)
  }

  ghost predicate NamePieces(t: string, b: nat, name: string, path: string) {
    var r := b + 1 + |name|;
    At(t, " ", b) && At(t, name, b + 1) && At(t, " " + path, r) && At(t, ";\n", r + 1 + |path|)
  }

  lemma LineSplits(t: string, m: nat, directive: string, name: string, path: string)
    requires At(t, ManagedLine(directive, name, path) + "\n", m)
    ensures LinePieces(t, m, directive, name, path)
  {
    var p := m + 4;
    var b := p + |directive|;
    var w4 := (" " + path) + ";\n";
    var w3 := name + w4;
    var w2 := " " + w3;
    var w1 := directive + w2;
    assert ManagedLine(directive, name, path) + "\n" == "    " + w1;
    Pieces(t, m, "    ", w1, "    " + w1);
    Pieces(t, p, directive, w2, w1);
    Pieces(t, b, " ", w3, w2);
    Pieces(t, b + 1, name, w4, w3);
    Pieces(t, b + 1 + |name|, " " + path, ";\n", w4);
  }

  // A managed line reads back as the managed path.
  lemma ManagedLineMatches(n: Names, t: string, m: nat, path: string)
    requires WellFormed(n) && m <= |t| && LineStart(t, m) && PathText(path)
    requires LinePieces(t, m, n.directive, n.name, path)
    ensures Catches(t, CacheAt(n, t, m), path)
  {
    NameAndPathMatch(n, t, m + 4 + |n.directive|, path);
    DirectiveMatches(n, t, m, m + 4);
  }

  lemma NameAndPathMatch(n: Names, t: string, b: nat, path: string)
    requires WellFormed(n) && PathText(path) && NamePieces(t, b, n.name, path)
    ensures b <= |t| && Catches(t, CacheName(n, t, b), path)
  {
    var r := b + 1 + |n.name|;
    NameMatches(n, t, b, b + 1);
    TailMatches(t, r, r + 1 + |path|, path);
  }

  lemma Pieces(t: string, i: nat, a: string, b: string, whole: string)
    requires whole == a + b && At(t, whole, i)
    ensures At(t, a, i) && At(t, b, i + |a|)
  {
    forall k | 0 <= k < |a|
      ensures t[i + k] == a[k]
    {
      assert whole[k] == a[k];
    }
    forall k | 0 <= k < |b|
      ensures t[i + |a| + k] == b[k]
    {
      assert whole[|a| + k] == b[k];
    }
  }

  lemma BlanksThenWord(t: string, i: nat, p: nat, blanks: string, w: string)
    requires p == i + |blanks| && At(t, blanks, i) && At(t, w, p)
    requires forall k {:trigger Space(blanks[k])} :: 0 <= k < |blanks| ==> Space(blanks[k])
    requires w != "" && !Space(w[0])
    ensures Skip(t, i) == p
  {
    forall j | i <= j < p
      ensures Space(t[j])
    {
      WordAt(t, blanks, i, j - i);
    }
    WordAt(t, w, p, 0);
    SkipIs(t, i, p);
  }

  lemma NameMatches(n: Names, t: string, b: nat, q: nat)
    requires WellFormed(n) && q == b + 1 && At(t, " ", b) && At(t, n.name, q)
    ensures Skip(t, b) == q
    ensures CacheName(n, t, b) == CacheTail(t, q + |n.name|)
  {
    BlanksThenWord(t, b, q, " ", n.name);
  }

  lemma DirectiveMatches(n: Names, t: string, m: nat, p: nat)
    requires WellFormed(n) && m <= |t| && LineStart(t, m) && p == m + 4 && At(t, "    ", m) && At(t, n.directive, p)
    ensures CacheAt(n, t, m) == CacheName(n, t, p + |n.directive|)
  {
    BlanksThenWord(t, m, p, "    ", n.directive);
  }

  lemma TailMatches(t: string, r: nat, h: nat, path: string)
    requires At(t, " " + path, r) && h == r + 1 + |path| && At(t, ";\n", h)
    requires PathText(path)
    ensures Catches(t, CacheTail(t, r), path)
  {
    forall j | r <= j < h
      ensures t[j] == (" " + path)[j - r]
    {
      WordAt(t, " " + path, r, j - r);
    }
    WordAt(t, ";\n", h, 0);
    WordAt(t, ";\n", h, 1);
    UntilIs(t, ';', r, h);
    assert Until(t, '\n', h + 1) == h + 1;
    assert t[r..h] == " " + path;
    TrimOneBlank(path);
  }

  lemma CommentShape(rest: string)
    requires forall k :: 0 <= k < |rest| ==> rest[k] != '\n'
    requires rest != ""
    ensures
      var line := "    #" + rest;
      && |line| > 4 && line[4] == '#' && (forall k :: 0 <= k < 4 ==> line[k] == ' ')
      && (forall k :: 0 <= k < |line| ==> line[k] != '\n')
  {
  }

  // A text that keeps s up to the end of its first anchor and goes on with the two lines.
  ghost predicate Extends(n: Names, s: string, a: Parts, t: string, comment: string, line: string) {
    && Shape(n, s, a) && (a.e < |s| ==> s[a.e] == '\n')
    && SameUpTo(s, t, a.e) && At(t, "\n", a.e) && At(t, comment, a.e + 1)
    && At(t, "\n", a.e + 1 + |comment|) && At(t, line, a.e + 2 + |comment|)
    && |comment| > 4 && comment[4] == '#' && (forall k :: 0 <= k < 4 ==> comment[k] == ' ')
    && (forall k :: 0 <= k < |comment| ==> comment[k] != '\n')
  }

  lemma NothingBeforeTheLine(n: Names, s: string, a: Parts, t: string, comment: string, line: string, j: nat)
    requires WellFormed(n) && Extends(n, s, a, t, comment, line) && j < a.e + 2 + |comment|
    requires j <= |s| ==> CacheAt(n, s, j) == None
    ensures CacheAt(n, t, j) == None
  {
    if j <= a.p {
      NoNewMatchBefore(n, s, t, a, j);
    } else if j <= a.e {
      ShapeLocal(n, s, t, a);
      NoMatchInside(n, t, a, j);
    } else {
      CommentDoesNotMatch(n, t, comment, a.e + 1, j);
    }
  }

  ghost predicate CommentLine(line: string) {
    && |line| > 4 && line[4] == '#' && (forall k :: 0 <= k < 4 ==> line[k] == ' ')
    && (forall k :: 0 <= k < |line| ==> line[k] != '\n')
  }

  lemma BeginIsComment()
    ensures CommentLine(BEGIN_LINE)
  {
    CommentShape(" cloudpanel-gateway-pagespeed-global begin");
  }

  lemma BlockExtends(n: Names, s: string, a: Parts, first: string, line: string, third: string, rest: string, t: string)
    requires Shape(n, s, a) && (a.e < |s| ==> s[a.e] == '\n') && CommentLine(first)
    requires t == s[0..a.e] + Block(first, line, third) + rest
    ensures Extends(n, s, a, t, first, line + "\n")
  {
    var head := s[0..a.e];
    assert |head| == a.e;
    BlockLines(head, first, line, third, rest, t);
    HeadIsKept(s, t, a.e);
  }

  lemma HeadIsKept(s: string, t: string, e: nat)
    requires e <= |s| && At(t, s[0..e], 0)
    ensures SameUpTo(s, t, e)
  {
    forall j | 0 <= j < e
      ensures s[j] == t[j]
    {
      WordAt(t, s[0..e], 0, j);
    }
  }

  lemma NothingAnywhere(n: Names, s: string)
    requires FirstSome(Caches(n, s), 0).None?
    ensures forall j :: 0 <= j <= |s| ==> CacheAt(n, s, j) == None
  {
    var caches := Caches(n, s);
    forall j | 0 <= j <= |s|
      ensures CacheAt(n, s, j) == None
    {
      assert caches[j] == CacheAt(n, s, j);
    }
  }

  lemma BlockLines(head: string, first: string, second: string, third: string, rest: string, t: string)
    requires t == head + Block(first, second, third) + rest
    ensures
      var e := |head|;
      && At(t, head, 0) && At(t, "\n", e) && At(t, first, e + 1)
      && At(t, "\n", e + 1 + |first|) && At(t, second + "\n", e + 2 + |first|)
  {
    FourPieces(head, first, second + "\n", third + rest, t);
  }

  lemma FourPieces(head: string, comment: string, line: string, tail: string, t: string)
    requires t == head + ("\n" + (comment + ("\n" + (line + tail))))
    ensures
      var e := |head|;
      && At(t, head, 0) && At(t, "\n", e) && At(t, comment, e + 1)
      && At(t, "\n", e + 1 + |comment|) && At(t, line, e + 2 + |comment|)
  {
    var e := |head|;
    var w4 := line + tail;
    var w3 := "\n" + w4;
    var w2 := comment + w3;
    var w1 := "\n" + w2;
    Pieces(t, 0, head, w1, t);
    Pieces(t, e, "\n", w2, w1);
    Pieces(t, e + 1, comment, w3, w2);
    Pieces(t, e + 1 + |comment|, "\n", w4, w3);
    Pieces(t, e + 2 + |comment|, line, tail, w4);
  }

  // The managed path is the leftmost match of t.
  ghost predicate FindsManaged(n: Names, t: string, m: nat, path: string) {
    m <= |t| && Catches(t, CacheAt(n, t, m), path) && forall j :: 0 <= j < m ==> CacheAt(n, t, j) == None
  }

  lemma ManagedIsFirst(n: Names, t: string, m: nat, path: string, block: string)
    requires FindsManaged(n, t, m, path)
    ensures WithManaged(t, n, path, block) == Ok(t)
  {
    var caches := Caches(n, t);
    forall j | 0 <= j < m
      ensures caches[j].None?
    {
      assert caches[j] == CacheAt(n, t, j);
    }
    FirstSomeIs(caches, m);
  }

  lemma InsertionIsFound(n: Names, s: string, a: Parts, t: string, comment: string, path: string, block: string)
    requires WellFormed(n) && PathText(path) && FirstSome(Caches(n, s), 0).None?
    requires Extends(n, s, a, t, comment, ManagedLine(n.directive, n.name, path) + "\n")
    ensures WithManaged(t, n, path, block) == Ok(t)
  {
    NothingAnywhere(n, s);
    var m := a.e + 2 + |comment|;
    WordAt(t, "\n", m - 1, 0);
    LineSplits(t, m, n.directive, n.name, path);
    ManagedLineMatches(n, t, m, path);
    forall j | 0 <= j < m
      ensures CacheAt(n, t, j) == None
    {
      NothingBeforeTheLine(n, s, a, t, comment, ManagedLine(n.directive, n.name, path) + "\n", j);
    }
    ManagedIsFirst(n, t, m, path, block);
  }

  // Inserting the block behind the anchors of a text without the directive.
  lemma InsertedIsManaged(n: Names, s: string, path: string, first: string, third: string)
    requires WellFormed(n) && PathText(path) && CommentLine(first)
    ensures
      var block := Block(first, ManagedLine(n.directive, n.name, path), third);
      var once := WithManaged(s, n, path, block);
      once.Ok? ==> WithManaged(once.value, n, path, block) == once
  {
    var line := ManagedLine(n.directive, n.name, path);
    var block := Block(first, line, third);
    var anchors := Anchors(n, s);
    var f := FirstSome(anchors, 0);
    if FirstSome(Caches(n, s), 0).None? && f.Some? {
      var e := anchors[f.value].value;
      var t, rest := Inserted(s, anchors, block, 0), Inserted(s, anchors, block, e);
      FirstInsertion(s, anchors, block, 0, f.value);
      var a := AnchorHasShape(n, s, f.value);
      BlockExtends(n, s, a, first, line, third, rest, t);
      InsertionIsFound(n, s, a, t, first, path, block);
    }
  }

  /** Applying the change to its own result changes nothing: the managed directive is then
      the leftmost FileCachePath of the file. */
  lemma GlobalConfigIsIdempotent(current: string)
    ensures PageSpeedGlobalConfig(current).Ok? ==>
      PageSpeedGlobalConfig(PageSpeedGlobalConfig(current).value) == PageSpeedGlobalConfig(current)
  {
    NginxIsWellFormed();
    CachePathIsPath();
    BeginIsComment();
    InsertedIsManaged(NGINX, current, CACHE_PATH, BEGIN_LINE, END_LINE);
  }
}
