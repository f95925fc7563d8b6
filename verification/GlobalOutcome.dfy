/**
 What pageSpeedGlobalConfig of internal/gateway/settings.go does to nginx.conf, in
 terms of what its two regular expressions match: which texts it refuses, which it
 returns as they are, and where it puts the managed lines.
 */
module GlobalOutcome {
  import opened Wrappers
  import opened Text
  import opened GlobalConfig

  /******* What the expressions match *******/

  ghost predicate Blanks(s: string, i: nat, j: nat) {
    i <= j <= |s| && forall k :: i <= k < j ==> Space(s[k])
  }

  // ^[ \t]*pagespeed\s+XHeaderValue\s+1;[^\n]*$ from i to e, with its words at p, q and r.
  ghost predicate Header(n: Names, s: string, i: nat, p: nat, q: nat, r: nat, e: nat) {
    && i <= p && i <= |s| && LineStart(s, i) && p <= |s| && (forall k :: i <= k < p ==> s[k] == ' ' || s[k] == '\t')
    && At(s, n.directive, p) && p + |n.directive| < q && Blanks(s, p + |n.directive|, q)
    && At(s, n.header, q) && q + |n.header| < r && Blanks(s, q + |n.header|, r)
    && r + 2 <= e <= |s| && s[r] == '1' && s[r + 1] == ';'
    && (forall k :: r + 2 <= k < e ==> s[k] != '\n') && (e < |s| ==> s[e] == '\n')
  }

  // A header line from i to e.
  ghost predicate HeaderLine(n: Names, s: string, i: nat, e: nat) {
    exists p, q, r :: Header(n, s, i, p, q, r, e)
  }

  // ^\s*pagespeed\s+FileCachePath from i on, with its words at p and q.
  ghost predicate CacheWords(n: Names, s: string, i: nat, p: nat, q: nat) {
    && i <= |s| && LineStart(s, i) && Blanks(s, i, p)
    && At(s, n.directive, p) && p + |n.directive| < q && Blanks(s, p + |n.directive|, q) && At(s, n.name, q)
  }

  // \s+([^;]+);\s*$ from b to z, with the path from r to h.
  ghost predicate CachePath(s: string, b: nat, r: nat, h: nat, z: nat) {
    && b < r && Blanks(s, b, r) && r < h < |s| && (forall k :: r <= k < h ==> s[k] != ';') && s[h] == ';'
    && Blanks(s, h + 1, z) && (z < |s| ==> s[z] == '\n')
  }

  // ^\s*pagespeed\s+FileCachePath\s+([^;]+);\s*$ from i to z
  ghost predicate Cache(n: Names, s: string, i: nat, p: nat, q: nat, r: nat, h: nat, z: nat) {
    CacheWords(n, s, i, p, q) && CachePath(s, q + |n.name|, r, h, z)
  }

  // A directive that starts at i and names the path.
  ghost predicate CacheLine(n: Names, s: string, i: nat, path: string) {
    exists p: nat, q: nat, r: nat, h: nat, z: nat :: Cache(n, s, i, p, q, r, h, z) && TrimSpace(s[r..h]) == path
  }

  /******* The scanners find exactly that *******/

  lemma SkipsTo(s: string, i: nat, r: nat)
    requires Blanks(s, i, r) && r < |s| && !Space(s[r])
    ensures Skip(s, i) == r
  {
    SkipIs(s, i, r);
  }

  lemma HeaderIsFound(n: Names, s: string, i: nat, p: nat, q: nat, r: nat, e: nat)
    requires WellFormed(n) && Header(n, s, i, p, q, r, e)
    ensures AnchorAt(n, s, i) == Some(e)
  {
    WordAt(s, n.directive, p, 0);
    WordAt(s, n.header, q, 0);
    SkipsTo(s, i, p);
    SkipsTo(s, p + |n.directive|, q);
    SkipsTo(s, q + |n.header|, r);
  }

  lemma FoundIsHeader(n: Names, s: string, i: nat)
    requires i <= |s| && AnchorAt(n, s, i).Some?
    ensures HeaderLine(n, s, i, AnchorAt(n, s, i).value)
  {
    var p := Skip(s, i);
    var q := Skip(s, p + |n.directive|);
    var r := Skip(s, q + |n.header|);
    assert Header(n, s, i, p, q, r, AnchorAt(n, s, i).value);
  }

  /** The scanner finds a header line exactly where the expression matches, with the same end. */
  lemma AnchorsAreHeaders(n: Names, s: string, i: nat, e: nat)
    requires WellFormed(n) && i <= |s|
    ensures AnchorAt(n, s, i) == Some(e) <==> HeaderLine(n, s, i, e)
  {
    if HeaderLine(n, s, i, e) {
      var p, q, r :| Header(n, s, i, p, q, r, e);
      HeaderIsFound(n, s, i, p, q, r, e);
    }
    if AnchorAt(n, s, i) == Some(e) {
      FoundIsHeader(n, s, i);
    }
  }

  lemma ClosedLine(s: string, b: nat, z: nat)
    requires Blanks(s, b, z) && (z < |s| ==> s[z] == '\n')
    ensures ClosesLine(s, b)
  {
    if z == |s| {
      EndOfText(s, b);
    } else {
      SkipsPast(s, b, z);
    }
  }

  lemma EndOfText(s: string, b: nat)
    requires Blanks(s, b, |s|)
    ensures Skip(s, b) == |s|
  {
  }

  lemma SkipsPast(s: string, b: nat, z: nat)
    requires Blanks(s, b, z) && z < |s| && s[z] == '\n'
    ensures Until(s, '\n', b) < Skip(s, b)
  {
    assert Until(s, '\n', b) <= z;
    assert Space(s[z]);
    assert Skip(s, b) > z;
  }

  lemma TailIsFound(s: string, b: nat, r: nat, h: nat, z: nat)
    requires CachePath(s, b, r, h, z)
    ensures b <= |s| && Catches(s, CacheTail(s, b), TrimSpace(s[r..h]))
  {
    assert forall k :: b <= k < r ==> Space(s[k]) && s[k] != ';';
    UntilIs(s, ';', b, h);
    ClosedLine(s, h + 1, z);
    TrimmedBehindBlanks(s, b, r, h);
  }

  lemma {:induction false} TrimmedBehindBlanks(s: string, b: nat, r: nat, h: nat)
    requires b <= r <= h <= |s| && Blanks(s, b, r)
    ensures TrimSpace(s[b..h]) == TrimSpace(s[r..h])
    decreases r - b
  {
    if b < r {
      TrimmedBehindBlanks(s, b + 1, r, h);
      assert s[b..h][0] == s[b] && s[b..h][1..] == s[b + 1..h];
    }
  }

  lemma CacheStarts(n: Names, s: string, i: nat, p: nat, q: nat)
    requires WellFormed(n) && CacheWords(n, s, i, p, q)
    ensures CacheAt(n, s, i) == CacheTail(s, q + |n.name|)
  {
    WordAt(s, n.directive, p, 0);
    WordAt(s, n.name, q, 0);
    SkipsTo(s, i, p);
    SkipsTo(s, p + |n.directive|, q);
  }

  lemma CacheIsFound(n: Names, s: string, i: nat, p: nat, q: nat, b: nat, r: nat, h: nat, z: nat, path: string)
    requires WellFormed(n) && CacheWords(n, s, i, p, q) && b == q + |n.name| && CachePath(s, b, r, h, z)
    requires path == TrimSpace(s[r..h])
    ensures i <= |s| && Catches(s, CacheAt(n, s, i), path)
  {
    TailIsFound(s, b, r, h, z);
    CacheStarts(n, s, i, p, q);
  }

  lemma FoundTail(s: string, b: nat) returns (z: nat)
    requires b <= |s| && CacheTail(s, b).Some?
    ensures var h := CacheTail(s, b).value.to;
      && CacheTail(s, b).value.from == b && CachePath(s, b, b + 1, h, z) && TrimSpace(s[b..h]) == TrimSpace(s[b + 1..h])
  {
    var h := Until(s, ';', b);
    z := if Skip(s, h + 1) == |s| then |s| else Until(s, '\n', h + 1);
    TrimmedBehindBlanks(s, b, b + 1, h);
  }

  lemma FoundIsCache(n: Names, s: string, i: nat, path: string)
    requires i <= |s| && Catches(s, CacheAt(n, s, i), path)
    ensures CacheLine(n, s, i, path)
  {
    var p := Skip(s, i);
    var q := Skip(s, p + |n.directive|);
    var b := q + |n.name|;
    assert CacheWords(n, s, i, p, q) && CacheAt(n, s, i) == CacheTail(s, b);
    var z := FoundTail(s, b);
    assert Cache(n, s, i, p, q, b + 1, CacheTail(s, b).value.to, z);
  }

  lemma DirectiveIsFound(n: Names, s: string, i: nat, path: string)
    requires WellFormed(n) && CacheLine(n, s, i, path)
    ensures i <= |s| && Catches(s, CacheAt(n, s, i), path)
  {
    var p: nat, q: nat, r: nat, h: nat, z: nat :| Cache(n, s, i, p, q, r, h, z) && TrimSpace(s[r..h]) == path;
    CacheIsFound(n, s, i, p, q, q + |n.name|, r, h, z, path);
  }

  /** The scanner finds a directive exactly where the expression matches, with the same path. */
  lemma CachesAreDirectives(n: Names, s: string, i: nat, path: string)
    requires WellFormed(n) && i <= |s|
    ensures Catches(s, CacheAt(n, s, i), path) <==> CacheLine(n, s, i, path)
  {
    if Catches(s, CacheAt(n, s, i), path) {
      FoundIsCache(n, s, i, path);
    } else if CacheLine(n, s, i, path) {
      DirectiveIsFound(n, s, i, path);
    }
  }

  /******* Where the block goes *******/

  // The text from i on with the block in front of each of the positions.
  function Spread(s: string, at: set<nat>, block: string, i: nat): string
    requires i <= |s|
    decreases |s| - i, 1
  {
    (if i in at then block else "") + Behind(s, at, block, i)
  }

  // The same without a block at i itself.
  function Behind(s: string, at: set<nat>, block: string, i: nat): string
    requires i <= |s|
    decreases |s| - i, 0
  {
    if i == |s| then "" else [s[i]] + Spread(s, at, block, i + 1)
  }

  // Taking n characters out again in front of each of the positions of a text of that length.
  function Gathered(t: string, at: set<nat>, n: nat, i: nat, length: nat): string
    decreases length - i
  {
    var rest := if i in at then (if n <= |t| then t[n..] else "") else t;
    if i >= length || rest == "" then "" else [rest[0]] + Gathered(rest[1..], at, n, i + 1, length)
  }

  /** Taking the blocks out again gives back the original text. */
  lemma {:induction false} SpreadGathers(s: string, at: set<nat>, block: string, i: nat)
    requires i <= |s|
    ensures Gathered(Spread(s, at, block, i), at, |block|, i, |s|) == s[i..]
    decreases |s| - i
  {
    var t, rest := Spread(s, at, block, i), Behind(s, at, block, i);
    assert i in at ==> t[|block|..] == rest;
    assert i !in at ==> t == rest;
    if i < |s| {
      assert rest[0] == s[i] && rest[1..] == Spread(s, at, block, i + 1);
      SpreadGathers(s, at, block, i + 1);
    }
  }

  lemma {:induction false} NothingUpTo(s: string, at: set<nat>, block: string, i: nat, e: nat)
    requires i < e <= |s| && forall k :: i < k < e ==> k !in at
    ensures Behind(s, at, block, i) == s[i..e] + Spread(s, at, block, e)
    decreases e - i
  {
    if i + 1 < e {
      NothingUpTo(s, at, block, i + 1, e);
      OneMoreInFront(s, i, e, Spread(s, at, block, e), Behind(s, at, block, i + 1));
      assert Spread(s, at, block, i + 1) == "" + Behind(s, at, block, i + 1);
    } else {
      assert s[i..e] == [s[i]];
    }
  }

  lemma OneMoreInFront(s: string, i: nat, e: nat, rest: string, behind: string)
    requires i + 1 < e <= |s| && behind == s[i + 1..e] + rest
    ensures [s[i]] + ("" + behind) == s[i..e] + rest
  {
    assert s[i..e] == [s[i]] + s[i + 1..e];
  }

  ghost predicate EndsHeader(n: Names, s: string, e: nat) {
    exists j: nat :: HeaderLine(n, s, j, e)
  }

  // Where header lines end.
  ghost function HeaderEnds(n: Names, s: string): set<nat> {
    set e: nat | e <= |s| && EndsHeader(n, s, e)
  }

  // No other header line starts inside one.
  lemma NoHeaderInside(n: Names, s: string, i: nat, p: nat, q: nat, r: nat, e: nat, j: nat)
    requires WellFormed(n) && Header(n, s, i, p, q, r, e) && i < j <= e
    ensures AnchorAt(n, s, j) == None
  {
    if LineStart(s, j) {
      SolidWord(s, n.directive, p);
      SolidWord(s, n.header, q);
      assert s[j - 1] == '\n' && Space(s[j - 1]);
      WordAt(s, n.header, q, 0);
      if j <= q {
        SkipsTo(s, j, q);
        NotAt(s, n.directive, q);
      } else {
        assert j <= r;
        SkipsTo(s, j, r);
        NotAt(s, n.directive, r);
      }
    }
  }

  // No header line reaches across position i.
  ghost predicate Between(n: Names, s: string, i: nat) {
    forall j: nat, e: nat :: HeaderLine(n, s, j, e) && j < i ==> e <= i
  }

  lemma HeaderGoesOn(n: Names, s: string, j: nat, e: nat)
    requires WellFormed(n) && HeaderLine(n, s, j, e)
    ensures j < e <= |s| && AnchorAt(n, s, j) == Some(e)
  {
    var p, q, r :| Header(n, s, j, p, q, r, e);
    HeaderIsFound(n, s, j, p, q, r, e);
  }

  lemma HeadersGoOn(n: Names, s: string)
    requires WellFormed(n)
    ensures forall j: nat, e: nat :: HeaderLine(n, s, j, e) ==> j < e <= |s|
  {
    forall j: nat, e: nat | HeaderLine(n, s, j, e)
      ensures j < e <= |s|
    {
      HeaderGoesOn(n, s, j, e);
    }
  }

  // A header line that starts in front of the end of another one ends there too, or in front of it.
  lemma HeadersDoNotCross(n: Names, s: string, i: nat, e: nat, j: nat, x: nat)
    requires WellFormed(n) && Between(n, s, i) && HeaderLine(n, s, i, e) && HeaderLine(n, s, j, x) && j < e
    ensures x <= i || x == e
  {
    HeaderGoesOn(n, s, i, e);
    HeaderGoesOn(n, s, j, x);
    if i < j {
      var p, q, r :| Header(n, s, i, p, q, r, e);
      NoHeaderInside(n, s, i, p, q, r, e, j);
      assert false;
    }
  }

  lemma BetweenBehind(n: Names, s: string, i: nat, e: nat)
    requires WellFormed(n) && Between(n, s, i) && HeaderLine(n, s, i, e)
    ensures Between(n, s, e) && (forall k :: i < k < e ==> k !in HeaderEnds(n, s)) && e in HeaderEnds(n, s)
  {
    HeadersGoOn(n, s);
    assert EndsHeader(n, s, e);
    forall j: nat, x: nat | HeaderLine(n, s, j, x)
      ensures j < e ==> x <= i || x == e
    {
      if j < e {
        HeadersDoNotCross(n, s, i, e, j, x);
      }
    }
  }

  lemma BetweenNext(n: Names, s: string, i: nat)
    requires WellFormed(n) && i < |s| && Between(n, s, i) && AnchorAt(n, s, i) == None
    ensures Between(n, s, i + 1) && i + 1 !in HeaderEnds(n, s)
  {
    forall j: nat, e: nat | HeaderLine(n, s, j, e)
      ensures j <= i ==> e <= i
      ensures e != i + 1
    {
      HeaderGoesOn(n, s, j, e);
    }
  }

  /** Replacing every match is putting the block behind every header line. */
  lemma {:induction false} InsertedIsSpread(n: Names, s: string, block: string, i: nat)
    requires WellFormed(n) && i <= |s| && Between(n, s, i)
    ensures Inserted(s, Anchors(n, s), block, i) == Behind(s, HeaderEnds(n, s), block, i)
    decreases |s| - i
  {
    var ends, at := Anchors(n, s), HeaderEnds(n, s);
    if ends[i].Some? {
      var e := ends[i].value;
      FoundIsHeader(n, s, i);
      BetweenBehind(n, s, i, e);
      InsertedIsSpread(n, s, block, e);
      NothingUpTo(s, at, block, i, e);
      Regrouped(s[i..e], block, Behind(s, at, block, e));
    } else if i < |s| {
      BetweenNext(n, s, i);
      InsertedIsSpread(n, s, block, i + 1);
      assert "" + Behind(s, at, block, i + 1) == Behind(s, at, block, i + 1);
    }
  }

  lemma Regrouped(a: string, b: string, c: string)
    ensures a + b + c == a + (b + c)
  {
  }

  /******* The outcome *******/

  // The leftmost directive starts at i.
  ghost predicate Leftmost(n: Names, s: string, i: nat, path: string) {
    CacheLine(n, s, i, path) && forall j: nat, other: string :: j < i ==> !CacheLine(n, s, j, other)
  }

  ghost predicate HasDirective(n: Names, s: string) {
    exists i: nat, path: string :: CacheLine(n, s, i, path)
  }

  lemma LeftmostDecides(n: Names, s: string, path: string, block: string, i: nat, found: string)
    requires WellFormed(n) && Leftmost(n, s, i, found)
    ensures WithManaged(s, n, path, block) == if found == path then Ok(s) else Err
  {
    var caches := Caches(n, s);
    DirectiveIsFound(n, s, i, found);
    forall j | 0 <= j < i
      ensures caches[j].None?
    {
      NothingThere(n, s, j);
    }
    FirstSomeIs(caches, i);
    assert caches[i] == CacheAt(n, s, i);
  }

  lemma NothingThere(n: Names, s: string, j: nat)
    requires WellFormed(n) && j <= |s| && forall path: string :: !CacheLine(n, s, j, path)
    ensures CacheAt(n, s, j) == None
  {
    var found := CacheAt(n, s, j);
    if found.Some? {
      CachesAreDirectives(n, s, j, TrimSpace(s[found.value.from..found.value.to]));
    }
  }

  lemma FirstAnchor(n: Names, s: string)
    requires WellFormed(n)
    ensures FirstSome(Anchors(n, s), 0).Some? <==> exists i: nat, e: nat :: HeaderLine(n, s, i, e)
  {
    var anchors := Anchors(n, s);
    if FirstSome(anchors, 0).Some? {
      FoundIsHeader(n, s, FirstSome(anchors, 0).value);
    }
    if i: nat, e: nat :| HeaderLine(n, s, i, e) {
      HeaderGoesOn(n, s, i, e);
      assert anchors[i].Some?;
    }
  }

  lemma WithoutDirective(n: Names, s: string, path: string, block: string)
    requires WellFormed(n) && !HasDirective(n, s)
    ensures WithManaged(s, n, path, block).Ok? <==> exists i: nat, e: nat :: HeaderLine(n, s, i, e)
    ensures WithManaged(s, n, path, block).Ok? ==> WithManaged(s, n, path, block) == Ok(Spread(s, HeaderEnds(n, s), block, 0))
  {
    var caches := Caches(n, s);
    forall j | 0 <= j <= |s|
      ensures caches[j].None?
    {
      NothingThere(n, s, j);
    }
    FirstAnchor(n, s);
    InsertedIsSpread(n, s, block, 0);
    NoEndAtTheStart(n, s);
    assert "" + Behind(s, HeaderEnds(n, s), block, 0) == Behind(s, HeaderEnds(n, s), block, 0);
  }

  lemma NoEndAtTheStart(n: Names, s: string)
    requires WellFormed(n)
    ensures 0 !in HeaderEnds(n, s)
  {
    HeadersGoOn(n, s);
  }

  // The three managed lines, each behind a newline.
  const MANAGED := "\n" + BEGIN_LINE + "\n" + ("    pagespeed FileCachePath " + CACHE_PATH + ";") + "\n" + END_LINE

  lemma ManagedIsBlock()
    ensures Block(BEGIN_LINE, ManagedLine(NGINX.directive, NGINX.name, CACHE_PATH), END_LINE) == MANAGED
  {
    var line := ManagedLine(NGINX.directive, NGINX.name, CACHE_PATH);
    assert "    " + "pagespeed" + " " + "FileCachePath" + " " == "    pagespeed FileCachePath ";
    assert line == "    pagespeed FileCachePath " + CACHE_PATH + ";";
  }

  /** What becomes of nginx.conf. With a FileCachePath directive, the leftmost one decides: the text
      is returned as it is when that names the managed path, and refused otherwise. Without one, the
      text is refused exactly when it has no header line; else the managed lines stand behind every
      header line, and taking them out again gives back the original text. */
  lemma GlobalConfigOutcome(current: string)
    ensures forall i: nat, path: string :: Leftmost(NGINX, current, i, path) ==>
      PageSpeedGlobalConfig(current) == if path == CACHE_PATH then Ok(current) else Err
    ensures !HasDirective(NGINX, current) ==>
      && (PageSpeedGlobalConfig(current).Ok? <==> exists i: nat, e: nat :: HeaderLine(NGINX, current, i, e))
      && (PageSpeedGlobalConfig(current).Ok? ==>
            var t, at := PageSpeedGlobalConfig(current).value, HeaderEnds(NGINX, current);
            t == Spread(current, at, MANAGED, 0) && Gathered(t, at, |MANAGED|, 0, |current|) == current)
  {
    NginxIsWellFormed();
    ManagedIsBlock();
    forall i: nat, path: string | Leftmost(NGINX, current, i, path)
      ensures PageSpeedGlobalConfig(current) == if path == CACHE_PATH then Ok(current) else Err
    {
      LeftmostDecides(NGINX, current, CACHE_PATH, MANAGED, i, path);
    }
    if !HasDirective(NGINX, current) {
      WithoutDirective(NGINX, current, CACHE_PATH, MANAGED);
      SpreadGathers(current, HeaderEnds(NGINX, current), MANAGED, 0);
      assert current[0..] == current;
    }
  }

  /** With a directive at all, there is a leftmost one. */
  lemma {:induction false} LeftmostExists(n: Names, s: string, i: nat, path: string) returns (j: nat, first: string)
    requires CacheLine(n, s, i, path)
    ensures Leftmost(n, s, j, first)
    decreases i
  {
    if k: nat, other: string :| k < i && CacheLine(n, s, k, other) {
      j, first := LeftmostExists(n, s, k, other);
    } else {
      j, first := i, path;
    }
  }
}
