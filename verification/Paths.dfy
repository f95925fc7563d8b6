/** filepath.Clean and filepath.Join on lists of components; symbolic links are not looked at. */
module Paths {
  import opened Text

  type Path = seq<string>

  // The components of a name, cleaned onto a stack of those already seen.
  function CleanOnto(stack: Path, parts: seq<string>, rooted: bool): Path
    decreases |parts|
  {
    if parts == [] then stack
    else
      var p, rest := parts[0], parts[1..];
      if p == "" || p == "." then CleanOnto(stack, rest, rooted)
      else if p != ".." then CleanOnto(stack + [p], rest, rooted)
      else if stack != [] && stack[|stack| - 1] != ".." then CleanOnto(stack[..|stack| - 1], rest, rooted)
      else if rooted then CleanOnto(stack, rest, rooted)
      else CleanOnto(stack + [".."], rest, rooted)
  }

  predicate IsAbs(name: string) {
    name != "" && name[0] == '/'
  }

  function Clean(name: string): Path {
    CleanOnto([], Split(name, '/'), IsAbs(name))
  }

  predicate Normal(p: string) {
    p != "" && p != "." && p != ".."
  }

  // Some number of "..", then normal components.
  ghost predicate CleanShape(p: Path) {
    exists k: nat :: Climbs(p, k)
  }

  ghost predicate Climbs(p: Path, k: nat) {
    && k <= |p| && (forall i :: 0 <= i < k ==> p[i] == "..") && (forall i :: k <= i < |p| ==> Normal(p[i]))
  }

  /** Cleaning a relative name leaves ".." components only in front; a rooted one has none. */
  lemma {:induction false} CleanLeavesShape(stack: Path, parts: seq<string>, rooted: bool, k: nat)
    requires Climbs(stack, k) && (rooted ==> k == 0)
    ensures CleanShape(CleanOnto(stack, parts, rooted))
    ensures rooted ==> Climbs(CleanOnto(stack, parts, rooted), 0)
    decreases |parts|
  {
    if parts != [] {
      var p, rest := parts[0], parts[1..];
      if p == "" || p == "." {
        CleanLeavesShape(stack, rest, rooted, k);
      } else if p != ".." {
        assert Climbs(stack + [p], k);
        CleanLeavesShape(stack + [p], rest, rooted, k);
      } else if stack != [] && stack[|stack| - 1] != ".." {
        assert Climbs(stack[..|stack| - 1], k);
        CleanLeavesShape(stack[..|stack| - 1], rest, rooted, k);
      } else if rooted {
        CleanLeavesShape(stack, rest, rooted, k);
      } else {
        assert k == |stack|;
        assert Climbs(stack + [".."], k + 1);
        CleanLeavesShape(stack + [".."], rest, rooted, k + 1);
      }
    }
  }

  // filepath.Join of an absolute directory and a cleaned relative name.
  function Joined(dest: Path, name: Path): Path {
    CleanOnto([], dest + name, true)
  }

  predicate Under(dest: Path, out: Path) {
    |out| > |dest| && out[..|dest|] == dest
  }

  lemma {:induction false} NormalStays(stack: Path, parts: seq<string>, rooted: bool)
    requires forall i :: 0 <= i < |parts| ==> Normal(parts[i])
    ensures CleanOnto(stack, parts, rooted) == stack + parts
    decreases |parts|
  {
    if parts == [] {
      assert stack + parts == stack;
    } else {
      NormalStays(stack + [parts[0]], parts[1..], rooted);
      assert stack + [parts[0]] + parts[1..] == stack + parts;
    }
  }

  lemma {:induction false} CleanSplits(stack: Path, a: seq<string>, b: seq<string>, rooted: bool)
    ensures CleanOnto(stack, a + b, rooted) == CleanOnto(CleanOnto(stack, a, rooted), b, rooted)
    decreases |a|
  {
    if a == [] {
      assert a + b == b;
    } else {
      var p, rest := a[0], a[1..];
      assert (a + b)[0] == p && (a + b)[1..] == rest + b;
      CleanSplits(stack, rest, b, rooted);
      CleanSplits(stack + [p], rest, b, rooted);
      if stack != [] {
        CleanSplits(stack[..|stack| - 1], rest, b, rooted);
      }
    }
  }

  /******* Which characters cleaning keeps *******/

  lemma {:induction false} PartIsInside(s: string, c: char, p: string)
    requires p in Split(s, c)
    ensures Contains(s, p)
  {
    if s == [] {
      assert At(s, p, 0);
    } else {
      var rest := Split(s[1..], c);
      if s[0] == c {
        if p == "" {
          assert At(s, p, 0);
        } else {
          assert p in rest;
          PartIsInside(s[1..], c, p);
          var i: nat :| At(s[1..], p, i);
          Later(s, p, i);
        }
      } else if p == [s[0]] + rest[0] {
        FirstPartIsFirst(s[1..], c);
        assert At(s, p, 0);
      } else {
        assert p in rest[1..] && p in rest;
        PartIsInside(s[1..], c, p);
        var i: nat :| At(s[1..], p, i);
        Later(s, p, i);
      }
    }
  }

  lemma Later(s: string, p: string, i: nat)
    requires s != [] && At(s[1..], p, i)
    ensures At(s, p, i + 1)
  {
    forall k | 0 <= k < |p|
      ensures s[i + 1 + k] == p[k]
    {
      assert s[1..][i + k] == p[k];
    }
  }

  lemma {:induction false} FirstPartIsFirst(s: string, c: char)
    ensures Split(s, c)[0] <= s
  {
    if s != [] && s[0] != c {
      FirstPartIsFirst(s[1..], c);
    }
  }

  // Without "..", the components that are dropped are empty or a single dot.
  lemma {:induction false} CleanKeeps(stack: Path, parts: seq<string>, x: char)
    requires x != '.' && ".." !in parts
    ensures (exists p :: p in CleanOnto(stack, parts, false) && x in p) <==>
      (exists p :: p in stack && x in p) || (exists p :: p in parts && x in p)
    decreases |parts|
  {
    if parts != [] {
      var p, rest := parts[0], parts[1..];
      assert p in parts && forall q :: q in parts <==> q == p || q in rest;
      CleanKeeps(if p == "" || p == "." then stack else stack + [p], rest, x);
    }
  }

  // The text of a cleaned name below a directory.
  function PathUnder(base: string, name: string): string {
    Join([base] + Clean(name), '/')
  }

  /** Cleaning and joining keep every character but the separator and the dot. */
  lemma PathUnderHolds(base: string, name: string, x: char)
    requires x != '/' && x != '.' && !IsAbs(name) && !Contains(name, "..")
    ensures x in PathUnder(base, name) <==> x in base || x in name
  {
    var parts := Split(name, '/');
    if ".." in parts {
      PartIsInside(name, '/', "..");
    }
    CleanKeeps([], parts, x);
    JoinSplit(name, '/');
    JoinHolds(parts, '/', x);
    JoinHolds([base] + Clean(name), '/', x);
    assert forall q :: q in [base] + Clean(name) <==> q == base || q in Clean(name);
  }
}
