/** Searching, splitting and joining text, as the strings package does it. */
module Text {
  import opened Wrappers

  /******* First occurrence *******/

  predicate At(s: string, pat: string, i: nat) {
    i + |pat| <= |s| && forall k :: 0 <= k < |pat| ==> s[i + k] == pat[k]
  }

  // An occurrence read by the positions of the text.
  lemma AtMeans(s: string, pat: string, p: nat)
    ensures At(s, pat, p) ==> forall j :: p <= j < p + |pat| ==> s[j] == pat[j - p]
    ensures At(s, pat, p) && pat != "" ==> s[p] == pat[0] && s[p + |pat| - 1] == pat[|pat| - 1]
  {
    if At(s, pat, p) {
      forall j | p <= j < p + |pat|
        ensures s[j] == pat[j - p]
      {
        assert s[p + (j - p)] == pat[j - p];
      }
    }
  }

  lemma SamePrefix(v: string, s: string, i: nat, pat: string)
    requires i <= |v| && i <= |s| && forall j :: 0 <= j < i ==> s[j] == v[j]
    ensures forall p: nat :: p + |pat| <= i ==> (At(s, pat, p) <==> At(v, pat, p))
  {
  }

  lemma AtInside(s: string, whole: string, at: nat, part: string, k: nat)
    requires At(s, whole, at) && At(whole, part, k)
    ensures At(s, part, at + k)
  {
    forall x | 0 <= x < |part|
      ensures s[at + k + x] == part[x]
    {
      assert whole[k + x] == part[x];
      assert s[at + (k + x)] == whole[k + x];
    }
  }

  ghost predicate Contains(s: string, pat: string) {
    exists i: nat :: At(s, pat, i)
  }

  // strings.Index on the text from position i on.
  function IndexFrom(s: string, pat: string, i: nat): (r: Option<nat>)
    ensures r.Some? ==> r.value >= i && At(s, pat, r.value) && forall j: nat :: i <= j < r.value ==> !At(s, pat, j)
    ensures r.None? ==> forall j: nat :: i <= j ==> !At(s, pat, j)
    decreases |s| - i
  {
    if i + |pat| > |s| then None
    else if At(s, pat, i) then Some(i)
    else IndexFrom(s, pat, i + 1)
  }

  function Index(s: string, pat: string): (r: Option<nat>)
    ensures r.Some? ==> At(s, pat, r.value) && forall j: nat :: j < r.value ==> !At(s, pat, j)
    ensures r.None? <==> !Contains(s, pat)
  {
    IndexFrom(s, pat, 0)
  }

  lemma FirstIsIndex(s: string, pat: string, i: nat)
    requires At(s, pat, i)
    requires forall j: nat :: j < i ==> !At(s, pat, j)
    ensures Index(s, pat) == Some(i)
  {
  }

  // The first c from i on, or the end.
  function Until(s: string, c: char, i: nat): (r: nat)
    requires i <= |s|
    ensures i <= r <= |s|
    ensures forall j :: i <= j < r ==> s[j] != c
    ensures r < |s| ==> s[r] == c
    decreases |s| - i
  {
    if i < |s| && s[i] != c then Until(s, c, i + 1) else i
  }

  lemma UntilIs(s: string, c: char, i: nat, h: nat)
    requires i <= h < |s| && s[h] == c && forall j :: i <= j < h ==> s[j] != c
    ensures Until(s, c, i) == h
  {
  }

  // The first position that has something.
  function FirstSome<T>(found: seq<Option<T>>, i: nat): (r: Option<nat>)
    requires i <= |found|
    ensures r.Some? ==> i <= r.value < |found| && found[r.value].Some? && forall j :: i <= j < r.value ==> found[j].None?
    ensures r.None? ==> forall j :: i <= j < |found| ==> found[j].None?
    decreases |found| - i
  {
    if i == |found| then None
    else if found[i].Some? then Some(i)
    else FirstSome(found, i + 1)
  }

  lemma FirstSomeIs<T>(found: seq<Option<T>>, m: nat)
    requires m < |found| && found[m].Some? && forall j :: 0 <= j < m ==> found[j].None?
    ensures FirstSome(found, 0) == Some(m)
  {
  }

  /******* Splitting and joining on one character *******/

  function Split(s: string, c: char): (parts: seq<string>)
    ensures |parts| >= 1
  {
    if s == [] then [""]
    else if s[0] == c then [""] + Split(s[1..], c)
    else
      var rest := Split(s[1..], c);
      [[s[0]] + rest[0]] + rest[1..]
  }

  function Join(parts: seq<string>, c: char): string {
    if parts == [] then ""
    else if |parts| == 1 then parts[0]
    else parts[0] + [c] + Join(parts[1..], c)
  }

  lemma JoinBehind(first: string, rest: seq<string>, c: char)
    requires rest != []
    ensures Join([first] + rest, c) == first + [c] + Join(rest, c)
  {
    assert ([first] + rest)[1..] == rest;
  }

  lemma {:induction false} SplitPlain(a: string, c: char)
    requires c !in a
    ensures Split(a, c) == [a]
  {
    if a != [] {
      assert a[0] in a && [a[0]] + a[1..] == a;
      SplitPlain(a[1..], c);
    }
  }

  // Splitting off the first part.
  lemma {:induction false} SplitFirst(a: string, c: char, rest: string)
    requires c !in a
    ensures Split(a + [c] + rest, c) == [a] + Split(rest, c)
  {
    var s := a + [c] + rest;
    if a == [] {
      assert s[1..] == rest;
    } else {
      assert a[0] in a && s[0] == a[0] && s[1..] == a[1..] + [c] + rest;
      SplitFirst(a[1..], c, rest);
      assert ([a[1..]] + Split(rest, c))[1..] == Split(rest, c) && [a[0]] + a[1..] == a;
    }
  }

  lemma {:induction false} SplitJoin(parts: seq<string>, c: char)
    requires |parts| >= 1 && forall p :: p in parts ==> c !in p
    ensures Split(Join(parts, c), c) == parts
  {
    if |parts| == 1 {
      SplitPlain(parts[0], c);
    } else {
      SplitJoin(parts[1..], c);
      SplitFirst(parts[0], c, Join(parts[1..], c));
    }
  }

  // One character more in front of the first part.
  lemma JoinLonger(x: char, rest: seq<string>, c: char)
    requires rest != []
    ensures Join([[x] + rest[0]] + rest[1..], c) == [x] + Join(rest, c)
  {
    if |rest| > 1 {
      JoinBehind([x] + rest[0], rest[1..], c);
      assert [x] + rest[0] + [c] + Join(rest[1..], c) == [x] + (rest[0] + [c] + Join(rest[1..], c));
    }
  }

  lemma {:induction false} JoinSplit(s: string, c: char)
    ensures Join(Split(s, c), c) == s
    ensures forall p :: p in Split(s, c) ==> c !in p
  {
    if s != [] {
      JoinSplit(s[1..], c);
      var rest := Split(s[1..], c);
      if s[0] == c {
        JoinBehind("", rest, c);
        assert "" + [c] + s[1..] == s;
      } else {
        JoinLonger(s[0], rest, c);
        assert [s[0]] + s[1..] == s;
      }
    }
  }

  lemma {:induction false} JoinHolds(parts: seq<string>, c: char, x: char)
    requires x != c
    ensures x in Join(parts, c) <==> exists p :: p in parts && x in p
  {
    if |parts| > 1 {
      JoinHolds(parts[1..], c, x);
      assert parts == [parts[0]] + parts[1..];
      assert forall q :: q in parts <==> q == parts[0] || q in parts[1..];
    } else if |parts| == 1 {
      assert forall q :: q in parts <==> q == parts[0];
    }
  }

  function Count(s: string, c: char): nat {
    if s == [] then 0 else (if s[0] == c then 1 else 0) + Count(s[1..], c)
  }

  lemma {:induction false} CountAdds(a: string, b: string, c: char)
    ensures Count(a + b, c) == Count(a, c) + Count(b, c)
  {
    if a == [] {
      assert a + b == b;
    } else {
      assert (a + b)[0] == a[0] && (a + b)[1..] == a[1..] + b;
      CountAdds(a[1..], b, c);
    }
  }

  lemma {:induction false} CountSplit(s: string, c: char)
    ensures |Split(s, c)| == Count(s, c) + 1
    ensures Count(s, c) == 0 <==> c !in s
  {
    if s != [] {
      CountSplit(s[1..], c);
    }
  }

  /******* Blanks *******/

  // \s of a regular expression
  predicate Space(c: char) {
    c == ' ' || c == '\t' || c == '\n' || c == '\r' || c == '\U{0C}'
  }

  /******* Trimming *******/

  // unicode.IsSpace
  predicate GoSpace(c: char) {
    || c == ' ' || '\t' <= c <= '\r' || c == '\U{85}' || c == '\U{A0}' || c == '\U{1680}'
    || '\U{2000}' <= c <= '\U{200A}' || c == '\U{2028}' || c == '\U{2029}' || c == '\U{202F}'
    || c == '\U{205F}' || c == '\U{3000}'
  }

  function TrimLeft(s: string): string {
    if s != [] && GoSpace(s[0]) then TrimLeft(s[1..]) else s
  }

  function TrimRight(s: string): string {
    if s != [] && GoSpace(s[|s| - 1]) then TrimRight(s[..|s| - 1]) else s
  }

  // strings.TrimSpace
  function TrimSpace(s: string): string {
    TrimRight(TrimLeft(s))
  }

  lemma SolidEnds(s: string)
    requires s != "" && !GoSpace(s[0]) && !GoSpace(s[|s| - 1])
    ensures TrimSpace(s) == s
  {
  }

  // strings.TrimSuffix, for a suffix of one character
  function TrimSuffix(s: string, c: char): string {
    if s != [] && s[|s| - 1] == c then s[..|s| - 1] else s
  }
}
