/**
 The rules an uploaded ZIP is held to, twice: once when it is uploaded
 (validateArtifactZIP) and once when it is unpacked (extractZIP), both in
 internal/gateway/operations.go. Lexical path rules only.
 */
module Zip {
  import opened Wrappers
  import opened Text
  import opened Paths
  import Archive

  const MIN_FILE := 4
  const MAX_FILE := 0x640_0000        // 100 MiB
  const MAX_ENTRIES := 10000
  const MAX_EXPANDED := 0x2000_0000   // 512 MiB
  const MAX_RATIO := 100

  /******* The two rule sets *******/

  datatype Kind = Regular | Directory | Symlink | Special

  // Declared sizes are unsigned 64-bit numbers.
  type uint64 = x: int | 0 <= x < 0x1_0000_0000_0000_0000

  // `data` is what unpacking puts at the name, nothing for a directory, and None when the entry
  // cannot be read, created or written.
  datatype Entry = Entry(name: string, kind: Kind, size: uint64, compressed: uint64, data: Option<Archive.Bytes>)

  // int64(x), and the wrap-around of int64 arithmetic
  function Int64(x: int): int {
    (x + 0x8000_0000_0000_0000) % 0x1_0000_0000_0000_0000 - 0x8000_0000_0000_0000
  }

  // The checks both functions make first; `seen` holds the cleaned names before.
  predicate NameAllowed(e: Entry, seen: set<Path>) {
    var name := Clean(e.name);
    !(name == [] && !IsAbs(e.name)) && !IsAbs(e.name) && !(|name| > 1 && name[0] == "..") && name !in seen
  }

  function NewTotal(e: Entry, total: int): int {
    Int64(total + Int64(e.size))
  }

  predicate SizeAllowed(e: Entry, total: int) {
    && NewTotal(e, total) <= MAX_EXPANDED
    && !(e.compressed > 0 && Int64(e.size) > Int64(Int64(e.compressed) * MAX_RATIO))
  }

  predicate Validates(entries: seq<Entry>, seen: set<Path>, total: int)
    decreases |entries|
  {
    entries == [] ||
    (var e := entries[0];
     && NameAllowed(e, seen) && (e.kind == Directory || e.kind == Regular) && SizeAllowed(e, total)
     && Validates(entries[1..], seen + {Clean(e.name)}, NewTotal(e, total)))
  }

  // What unpacking asks of an entry before it creates anything.
  predicate Passes(e: Entry, dest: Path, seen: set<Path>, total: int) {
    && NameAllowed(e, seen) && e.kind != Symlink && SizeAllowed(e, total)
    && Under(dest, Joined(dest, Clean(e.name))) && e.kind != Special
  }

  // The paths unpacking writes to, None when a rule stops it.
  function Extracts(entries: seq<Entry>, dest: Path, seen: set<Path>, total: int): Option<seq<Path>>
    decreases |entries|
  {
    if entries == [] then Some([])
    else
      var e := entries[0];
      if !Passes(e, dest, seen, total) then None
      else match Extracts(entries[1..], dest, seen + {Clean(e.name)}, NewTotal(e, total))
        case None => None
        case Some(more) => Some([Joined(dest, Clean(e.name))] + more)
  }

  ghost predicate Destination(dest: Path) {
    forall i :: 0 <= i < |dest| ==> Normal(dest[i])
  }

  lemma AllowedNames(e: Entry, seen: set<Path>, dest: Path)
    requires NameAllowed(e, seen) && Destination(dest)
    ensures
      var name, out := Clean(e.name), Joined(dest, Clean(e.name));
      || (name == [".."] && !Under(dest, out))
      || ((forall i :: 0 <= i < |name| ==> Normal(name[i])) && name != [] && out == dest + name && Under(dest, out))
  {
    var name := Clean(e.name);
    assert Climbs([], 0);
    CleanLeavesShape([], Split(e.name, '/'), false, 0);
    var k: nat :| Climbs(name, k);
    CleanSplits([], dest, name, true);
    NormalStays([], dest, true);
    assert [] + dest == dest;
    if k == 0 {
      NormalStays(dest, name, true);
      assert (dest + name)[..|dest|] == dest;
    } else {
      assert name[0] == "..";
      assert name == [".."] && name[1..] == [];
    }
  }

  // No name cleans to the parent directory.
  ghost predicate NoDotDot(entries: seq<Entry>) {
    forall i :: 0 <= i < |entries| ==> Clean(entries[i].name) != [".."]
  }

  lemma NoDotDotBehind(entries: seq<Entry>)
    requires entries != []
    ensures NoDotDot(entries) <==> Clean(entries[0].name) != [".."] && NoDotDot(entries[1..])
  {
    assert forall i :: 1 <= i < |entries| ==> entries[i] == entries[1..][i - 1];
    assert forall i :: 0 <= i < |entries[1..]| ==> entries[1..][i] == entries[i + 1];
  }

  lemma FirstEntryAgrees(entries: seq<Entry>, dest: Path, seen: set<Path>, total: int)
    requires entries != [] && Destination(dest)
    ensures var e := entries[0];
      Extracts(entries, dest, seen, total).Some? <==>
        && NameAllowed(e, seen) && (e.kind == Directory || e.kind == Regular) && SizeAllowed(e, total)
        && Clean(e.name) != [".."]
        && Extracts(entries[1..], dest, seen + {Clean(e.name)}, NewTotal(e, total)).Some?
  {
    var e := entries[0];
    assert e.kind == Regular || e.kind == Directory || e.kind == Symlink || e.kind == Special;
    assert Clean(e.name) == [".."] ==> !Normal(Clean(e.name)[0]);
    if NameAllowed(e, seen) {
      AllowedNames(e, seen, dest);
    }
  }

  /** The rules agree, except on a name that cleans to "..", which only unpacking rejects. */
  lemma {:induction false} RulesAgreeExceptOnDotDot(entries: seq<Entry>, dest: Path, seen: set<Path>, total: int)
    requires Destination(dest)
    ensures Extracts(entries, dest, seen, total).Some? <==> Validates(entries, seen, total) && NoDotDot(entries)
    decreases |entries|
  {
    if entries != [] {
      NoDotDotBehind(entries);
      FirstEntryAgrees(entries, dest, seen, total);
      RulesAgreeExceptOnDotDot(entries[1..], dest, seen + {Clean(entries[0].name)}, NewTotal(entries[0], total));
    }
  }

  /** A ZIP that one rule set accepts and the other refuses. */
  lemma DotDotPassesValidation() returns (entries: seq<Entry>)
    ensures |entries| > 0 && Validates(entries, {}, 0)
    ensures forall dest :: Destination(dest) ==> Extracts(entries, dest, {}, 0).None?
  {
    var e := Entry("..", Regular, 0, 0, Some([]));
    entries := [e];
    assert Split("..", '/') == [".."] by {
      SplitPlain("..", '/');
    }
    assert [".."][1..] == [] && [] + [".."] == [".."];
    assert Clean("..") == [".."];
    assert entries[1..] == [];
    forall dest | Destination(dest)
      ensures Extracts(entries, dest, {}, 0).None?
    {
      RulesAgreeExceptOnDotDot(entries, dest, {}, 0);
      assert Clean(entries[0].name) == [".."];
    }
  }

  /** Every path unpacking writes to lies strictly under the destination, component by component,
      and all of them differ. */
  lemma {:induction false} ExtractedPathsAreContained(entries: seq<Entry>, dest: Path, seen: set<Path>, total: int)
    requires Destination(dest) && Extracts(entries, dest, seen, total).Some?
    ensures
      var outs := Extracts(entries, dest, seen, total).value;
      && |outs| == |entries|
      && (forall i :: 0 <= i < |outs| ==>
            && Under(dest, outs[i])
            && (forall k :: |dest| <= k < |outs[i]| ==> Normal(outs[i][k]))
            && outs[i][|dest|..] !in seen)
      && (forall i, j :: 0 <= i < j < |outs| ==> outs[i] != outs[j])
    decreases |entries|
  {
    if entries != [] {
      var e, rest := entries[0], entries[1..];
      var name := Clean(e.name);
      AllowedNames(e, seen, dest);
      ExtractedPathsAreContained(rest, dest, seen + {name}, NewTotal(e, total));
      var more := Extracts(rest, dest, seen + {name}, NewTotal(e, total)).value;
      var outs := Extracts(entries, dest, seen, total).value;
      assert outs == [dest + name] + more;
      assert (dest + name)[|dest|..] == name;
      forall j | 0 <= j < |more|
        ensures more[j] != dest + name
      {
        assert more[j][|dest|..] !in seen + {name};
      }
    }
  }

  /******* Declared sizes *******/

  function Sum(entries: seq<Entry>): nat {
    if entries == [] then 0 else entries[0].size + Sum(entries[1..])
  }

  const LARGEST := 0x8000_0000_0000_0000 - MAX_EXPANDED

  lemma NoWrap(x: int)
    requires -0x8000_0000_0000_0000 <= x < 0x8000_0000_0000_0000
    ensures Int64(x) == x
  {
  }

  lemma {:induction false} SmallSizesAddUp(entries: seq<Entry>, seen: set<Path>, total: int)
    requires Validates(entries, seen, total) && 0 <= total <= MAX_EXPANDED
    requires forall i :: 0 <= i < |entries| ==> entries[i].size < LARGEST
    ensures total + Sum(entries) <= MAX_EXPANDED
    decreases |entries|
  {
    if entries != [] {
      var e := entries[0];
      NoWrap(e.size);
      NoWrap(total + e.size);
      assert forall i :: 1 <= i < |entries| ==> entries[i] == entries[1..][i - 1];
      SmallSizesAddUp(entries[1..], seen + {Clean(e.name)}, total + e.size);
    }
  }

  lemma {:induction false} SumBoundsEach(entries: seq<Entry>, i: nat)
    requires i < |entries|
    ensures entries[i].size <= Sum(entries)
  {
    if i > 0 {
      SumBoundsEach(entries[1..], i - 1);
    }
  }

  /** The total of the declared sizes of an accepted ZIP is at most 512 MiB exactly when every
      one of them is below 2^63 - 512 MiB; larger ones wrap around. */
  lemma TotalIsBoundedExactly(entries: seq<Entry>)
    requires Validates(entries, {}, 0)
    ensures Sum(entries) <= MAX_EXPANDED <==> forall i :: 0 <= i < |entries| ==> entries[i].size < LARGEST
  {
    if forall i :: 0 <= i < |entries| ==> entries[i].size < LARGEST {
      SmallSizesAddUp(entries, {}, 0);
    }
    if Sum(entries) <= MAX_EXPANDED {
      forall i | 0 <= i < |entries|
        ensures entries[i].size < LARGEST
      {
        SumBoundsEach(entries, i);
      }
    }
  }

  /******* What is accepted *******/

  // At most a hundred bytes for each compressed one; nothing is asked when none are declared.
  predicate WithinRatio(e: Entry) {
    e.compressed == 0 || e.size <= 100 * e.compressed
  }

  // A file or directory with a relative name that is neither the destination itself nor climbs out of it with more behind.
  predicate Fine(e: Entry) {
    && (e.kind == Regular || e.kind == Directory) && WithinRatio(e)
    && !IsAbs(e.name) && Clean(e.name) != [] && (Clean(e.name)[0] == ".." ==> |Clean(e.name)| == 1)
  }

  ghost predicate AllFine(entries: seq<Entry>) {
    forall i :: 0 <= i < |entries| ==> Fine(entries[i])
  }

  ghost predicate DistinctNames(entries: seq<Entry>) {
    forall i, j :: 0 <= i < j < |entries| ==> Clean(entries[i].name) != Clean(entries[j].name)
  }

  ghost predicate Unseen(entries: seq<Entry>, seen: set<Path>) {
    forall i :: 0 <= i < |entries| ==> Clean(entries[i].name) !in seen
  }

  // No product or sum of these sizes wraps.
  predicate Modest(e: Entry) {
    e.size < LARGEST && 100 * e.compressed < 0x8000_0000_0000_0000
  }

  lemma RatioOfModest(e: Entry, total: int)
    requires 0 <= total <= MAX_EXPANDED && Modest(e)
    ensures NewTotal(e, total) == total + e.size
    ensures SizeAllowed(e, total) <==> total + e.size <= MAX_EXPANDED && WithinRatio(e)
  {
    NoWrap(e.size);
    NoWrap(total + e.size);
    NoWrap(e.compressed);
    NoWrap(e.compressed * MAX_RATIO);
  }

  lemma AllFineBehind(entries: seq<Entry>)
    requires entries != []
    ensures AllFine(entries) <==> Fine(entries[0]) && AllFine(entries[1..])
  {
    assert forall i :: 1 <= i < |entries| ==> entries[i] == entries[1..][i - 1];
    assert forall i :: 0 <= i < |entries[1..]| ==> entries[1..][i] == entries[i + 1];
  }

  lemma NamesBehind(entries: seq<Entry>, seen: set<Path>)
    requires entries != []
    ensures
      var name, rest := Clean(entries[0].name), entries[1..];
      DistinctNames(entries) && Unseen(entries, seen) <==>
        name !in seen && DistinctNames(rest) && Unseen(rest, seen + {name})
  {
    var name, rest := Clean(entries[0].name), entries[1..];
    assert forall i :: 0 <= i < |rest| ==> rest[i] == entries[i + 1];
    if name !in seen && DistinctNames(rest) && Unseen(rest, seen + {name}) {
      forall i, j | 0 <= i < j < |entries|
        ensures Clean(entries[i].name) != Clean(entries[j].name)
      {
        assert entries[j] == rest[j - 1];
        if i > 0 {
          assert entries[i] == rest[i - 1];
        }
      }
      assert forall j :: 1 <= j < |entries| ==> entries[j] == rest[j - 1];
    }
  }

  lemma {:induction false} AcceptedFrom(entries: seq<Entry>, seen: set<Path>, total: int)
    requires 0 <= total <= MAX_EXPANDED && forall i :: 0 <= i < |entries| ==> Modest(entries[i])
    ensures Validates(entries, seen, total) <==>
      AllFine(entries) && DistinctNames(entries) && Unseen(entries, seen) && total + Sum(entries) <= MAX_EXPANDED
    decreases |entries|
  {
    if entries != [] {
      var e := entries[0];
      RatioOfModest(e, total);
      AllFineBehind(entries);
      NamesBehind(entries, seen);
      assert forall i :: 1 <= i < |entries| ==> entries[i] == entries[1..][i - 1];
      if total + e.size <= MAX_EXPANDED {
        AcceptedFrom(entries[1..], seen + {Clean(e.name)}, total + e.size);
      }
    }
  }

  /** With sizes that do not wrap, the entries pass exactly when there are only files and directories
      with usable, different names, none expands more than a hundredfold, and 512 MiB hold them all. */
  lemma AcceptedExactly(entries: seq<Entry>)
    requires forall i :: 0 <= i < |entries| ==> Modest(entries[i])
    ensures Validates(entries, {}, 0) <==>
      AllFine(entries) && DistinctNames(entries) && Sum(entries) <= 512 * 1024 * 1024
  {
    AcceptedFrom(entries, {}, 0);
  }

  /** An accepted ZIP that declares more than the limit. */
  lemma HugeSizePasses() returns (entries: seq<Entry>)
    ensures Validates(entries, {}, 0) && Sum(entries) > MAX_EXPANDED
  {
    var e := Entry("a", Regular, 0xFFFF_FFFF_FFFF_FFFF, 0, Some([]));
    entries := [e];
    SplitPlain("a", '/');
    assert ["a"][1..] == [] && [] + ["a"] == ["a"];
    assert Clean("a") == ["a"];
    assert entries[1..] == [];
    assert Int64(e.size) == -1 && NewTotal(e, 0) == -1;
  }

  /******* What unpacking leaves below the destination *******/

  function Parent(p: Path): Path {
    if p == [] then [] else p[..|p| - 1]
  }

  // One entry put into the tree: os.MkdirAll, and a file that must not exist.
  function Placed(m: Archive.Tree, name: Path, e: Entry): Option<Archive.Tree> {
    if e.data.None? then None
    else if e.kind == Directory then Archive.MkdirAll(m, name)
    else match Archive.MkdirAll(m, Parent(name))
      case None => None
      case Some(n) => if name in n then None else Some(n[name := Archive.Content(e.data.value)])
  }

  function Unpacks(entries: seq<Entry>, dest: Path, seen: set<Path>, total: int, m: Archive.Tree): Option<Archive.Tree>
    decreases |entries|
  {
    if entries == [] then Some(m)
    else
      var e := entries[0];
      if !Passes(e, dest, seen, total) then None
      else match Placed(m, Clean(e.name), e)
        case None => None
        case Some(n) => Unpacks(entries[1..], dest, seen + {Clean(e.name)}, NewTotal(e, total), n)
  }

  function Name(e: Entry): Path {
    Clean(e.name)
  }

  // The directories above p, and p itself.
  predicate OnTheWay(q: Path, p: Path) {
    q != [] && q <= p
  }

  lemma WayToParent(q: Path, p: Path)
    requires p != []
    ensures OnTheWay(q, p) <==> OnTheWay(q, Parent(p)) || q == p
    ensures !OnTheWay(p, Parent(p))
  {
    if q <= p && q != p {
      assert q == p[..|q|] == Parent(p)[..|q|];
    }
  }

  // The paths of the entries and of the directories above them.
  ghost predicate Reached(done: seq<Entry>, q: Path) {
    exists i :: 0 <= i < |done| && OnTheWay(q, Name(done[i]))
  }

  ghost predicate FileAt(done: seq<Entry>, i: nat, q: Path) {
    i < |done| && done[i].kind != Directory && Name(done[i]) == q
  }

  ghost predicate IsFile(done: seq<Entry>, q: Path) {
    exists i: nat :: FileAt(done, i, q)
  }

  // The tree that the entries name: each file where its name says, and directories above.
  ghost predicate Built(m: Archive.Tree, done: seq<Entry>) {
    && (forall q :: q in m <==> Reached(done, q))
    && (forall i: nat, q :: FileAt(done, i, q) ==>
          q in m && done[i].data.Some? && m[q] == Archive.Content(done[i].data.value))
    && (forall q :: q in m && !IsFile(done, q) ==> m[q] == Archive.Folder)
  }

  /** What is there makes os.MkdirAll fail exactly when something other than a directory is on the
      way, and else the missing directories of the path are added and nothing more. */
  lemma {:induction false} MkdirAllExactly(m: Archive.Tree, p: Path)
    ensures Archive.MkdirAll(m, p).Some? <==> forall q :: q in m && OnTheWay(q, p) ==> m[q] == Archive.Folder
    ensures Archive.MkdirAll(m, p).Some? ==>
      var n := Archive.MkdirAll(m, p).value;
      && (forall q :: q in n <==> q in m || OnTheWay(q, p))
      && (forall q :: q in n ==> n[q] == if q in m then m[q] else Archive.Folder)
    decreases |p|
  {
    if p != [] {
      MkdirAllExactly(m, Parent(p));
      forall q
        ensures OnTheWay(q, p) <==> OnTheWay(q, Parent(p)) || q == p
      {
        WayToParent(q, p);
      }
    }
  }

  // An entry that comes next fits among those that are there.
  ghost predicate Fits(done: seq<Entry>, e: Entry) {
    && e.data.Some?
    && (forall q :: IsFile(done, q) ==> !OnTheWay(q, Name(e)))
    && (e.kind != Directory ==> !Reached(done, Name(e)))
  }

  ghost predicate NewName(done: seq<Entry>, e: Entry) {
    Name(e) != [] && forall i :: 0 <= i < |done| ==> Name(done[i]) != Name(e)
  }

  // Directories can be made down to p exactly when no file is on the way.
  lemma NoFileOnTheWay(m: Archive.Tree, done: seq<Entry>, p: Path)
    requires Built(m, done)
    ensures Archive.MkdirAll(m, p).Some? <==> forall q :: IsFile(done, q) ==> !OnTheWay(q, p)
  {
    MkdirAllExactly(m, p);
    if Archive.MkdirAll(m, p).Some? {
      forall q | IsFile(done, q)
        ensures !OnTheWay(q, p)
      {
        var i: nat :| FileAt(done, i, q);
      }
    }
  }

  lemma PlacedExactly(m: Archive.Tree, done: seq<Entry>, e: Entry)
    requires Built(m, done) && NewName(done, e)
    ensures Placed(m, Name(e), e).Some? <==> Fits(done, e)
  {
    if e.kind == Directory {
      NoFileOnTheWay(m, done, Name(e));
    } else {
      NoFileOnTheWay(m, done, Parent(Name(e)));
      MkdirAllExactly(m, Parent(Name(e)));
      forall q | IsFile(done, q)
        ensures OnTheWay(q, Name(e)) <==> OnTheWay(q, Parent(Name(e)))
      {
        WayToParent(q, Name(e));
      }
      WayToParent(Name(e), Name(e));
    }
  }

  lemma OneMoreReached(done: seq<Entry>, e: Entry, q: Path)
    ensures Reached(done + [e], q) <==> Reached(done, q) || OnTheWay(q, Name(e))
    ensures IsFile(done + [e], q) <==> IsFile(done, q) || (e.kind != Directory && q == Name(e))
  {
    var all := done + [e];
    if Reached(done, q) {
      var i :| 0 <= i < |done| && OnTheWay(q, Name(done[i]));
      assert all[i] == done[i];
    }
    if OnTheWay(q, Name(e)) {
      assert all[|done|] == e;
    }
    if IsFile(done, q) {
      var i: nat :| FileAt(done, i, q);
      assert FileAt(all, i, q);
    }
    if e.kind != Directory && q == Name(e) {
      assert FileAt(all, |done|, q);
    }
    if IsFile(all, q) {
      var i: nat :| FileAt(all, i, q);
      assert i < |done| ==> FileAt(done, i, q);
    }
  }

  // What placing an entry adds.
  lemma PlacedAdds(m: Archive.Tree, e: Entry)
    requires Name(e) != [] && Placed(m, Name(e), e).Some?
    ensures
      var n := Placed(m, Name(e), e).value;
      && (forall q :: q in n <==> q in m || OnTheWay(q, Name(e)))
      && (forall q :: q in n && q in m ==> n[q] == m[q])
      && (forall q :: q in n && q !in m ==>
            n[q] == (if q == Name(e) && e.kind != Directory then Archive.Content(e.data.value) else Archive.Folder))
  {
    if e.kind == Directory {
      MkdirAllExactly(m, Name(e));
    } else {
      MkdirAllExactly(m, Parent(Name(e)));
      forall q
        ensures OnTheWay(q, Name(e)) <==> OnTheWay(q, Parent(Name(e))) || q == Name(e)
      {
        WayToParent(q, Name(e));
      }
    }
  }

  lemma PlacedIsBuilt(m: Archive.Tree, done: seq<Entry>, e: Entry)
    requires Built(m, done) && NewName(done, e) && Placed(m, Name(e), e).Some?
    ensures Built(Placed(m, Name(e), e).value, done + [e])
  {
    var n, all := Placed(m, Name(e), e).value, done + [e];
    PlacedAdds(m, e);
    PlacedExactly(m, done, e);
    forall q
      ensures q in n <==> Reached(all, q)
      ensures q in n && !IsFile(all, q) ==> n[q] == Archive.Folder
    {
      OneMoreReached(done, e, q);
    }
    forall i: nat, q | FileAt(all, i, q)
      ensures q in n && all[i].data.Some? && n[q] == Archive.Content(all[i].data.value)
    {
      if i < |done| {
        assert FileAt(done, i, q);
      }
    }
  }

  // Every entry can be read, created and written, as far as it is up to the entry.
  predicate Creatable(entries: seq<Entry>) {
    forall i :: 0 <= i < |entries| ==> entries[i].data.Some?
  }

  // Entry i is a file and is on the way to entry j.
  ghost predicate Above(entries: seq<Entry>, i: nat, j: nat) {
    && i < |entries| && j < |entries| && i != j
    && entries[i].kind != Directory && OnTheWay(Name(entries[i]), Name(entries[j]))
  }

  ghost predicate NoFileAbove(entries: seq<Entry>) {
    forall i: nat, j: nat :: !Above(entries, i, j)
  }

  lemma FewerAbove(front: seq<Entry>, back: seq<Entry>)
    requires NoFileAbove(front + back)
    ensures NoFileAbove(front)
  {
    forall i: nat, j: nat
      ensures !Above(front, i, j)
    {
      assert !Above(front + back, i, j);
    }
  }

  // Fitting one by one does not depend on the order.
  lemma FitsExactly(done: seq<Entry>, e: Entry)
    requires NoFileAbove(done)
    ensures Fits(done, e) <==> e.data.Some? && NoFileAbove(done + [e])
  {
    var all, n := done + [e], |done|;
    if NoFileAbove(all) {
      forall q | IsFile(done, q)
        ensures !OnTheWay(q, Name(e))
      {
        var i: nat :| FileAt(done, i, q);
        assert !Above(all, i, n);
      }
      if e.kind != Directory && Reached(done, Name(e)) {
        var j :| 0 <= j < n && OnTheWay(Name(e), Name(done[j]));
        assert Above(all, n, j);
      }
    }
    if Fits(done, e) {
      forall i: nat, j: nat
        ensures !Above(all, i, j)
      {
        assert !Above(done, i, j);
        if i < n && j == n && Above(all, i, j) {
          assert FileAt(done, i, Name(done[i]));
        }
      }
    }
  }

  lemma {:induction false} UnpacksFrom(entries: seq<Entry>, dest: Path, seen: set<Path>, total: int, m: Archive.Tree, done: seq<Entry>)
    requires Destination(dest) && Built(m, done) && NoFileAbove(done)
    requires forall i :: 0 <= i < |done| ==> Name(done[i]) in seen
    ensures
      var r := Unpacks(entries, dest, seen, total, m);
      && (r.Some? <==> Extracts(entries, dest, seen, total).Some? && Creatable(entries) && NoFileAbove(done + entries))
      && (r.Some? ==> Built(r.value, done + entries))
    decreases |entries|
  {
    if entries == [] {
      assert done + entries == done;
    } else if Passes(entries[0], dest, seen, total) {
      var e, rest := entries[0], entries[1..];
      assert done + entries == done + [e] + rest;
      assert Creatable(entries) <==> e.data.Some? && Creatable(rest) by {
        assert entries == [e] + rest;
      }
      AllowedNames(e, seen, dest);
      PlacedExactly(m, done, e);
      FitsExactly(done, e);
      if Fits(done, e) {
        PlacedIsBuilt(m, done, e);
        UnpacksFrom(rest, dest, seen + {Name(e)}, NewTotal(e, total), Placed(m, Name(e), e).value, done + [e]);
      } else if NoFileAbove(done + entries) {
        FewerAbove(done + [e], rest);
      }
    }
  }

  /** A ZIP unpacks exactly when it is valid, no name cleans to "..", every entry can be read,
      created and written, directories too, and no file is on the way to another entry, wherever in the ZIP they stand; and then
      the tree below the destination is the one its entries name, whatever their order. */
  lemma UnpacksExactly(entries: seq<Entry>, dest: Path)
    requires Destination(dest)
    ensures
      var r := Unpacks(entries, dest, {}, 0, map[]);
      && (r.Some? <==> Validates(entries, {}, 0) && NoDotDot(entries) && Creatable(entries) && NoFileAbove(entries))
      && (r.Some? ==> Built(r.value, entries))
  {
    RulesAgreeExceptOnDotDot(entries, dest, {}, 0);
    UnpacksFrom(entries, dest, {}, 0, map[], []);
    assert [] + entries == entries;
  }

  function EmptyFile(name: string): Entry {
    Entry(name, Regular, 0, 0, Some([]))
  }

  lemma NothingIsSmall(e: Entry)
    requires e.size == e.compressed == 0
    ensures SizeAllowed(e, 0) && NewTotal(e, 0) == 0
  {
    NoWrap(0);
  }

  lemma NoneSeen(e: Entry, other: Path)
    requires !IsAbs(e.name) && Name(e) != [] && Name(e)[0] != ".." && Name(e) != other
    ensures NameAllowed(e, {}) && NameAllowed(e, {other})
  {
  }

  lemma TwoFilesValidate(a: Entry, b: Entry)
    requires NameAllowed(a, {}) && SizeAllowed(a, 0) && NewTotal(a, 0) == 0 && a.kind == Regular
    requires NameAllowed(b, {Name(a)}) && SizeAllowed(b, 0) && NewTotal(b, 0) == 0 && b.kind == Regular
    ensures Validates([a, b], {}, 0)
  {
    assert [a, b][1..] == [b] && [b][1..] == [];
    assert {} + {Name(a)} == {Name(a)};
  }

  lemma FileAboveFile(a: Entry, b: Entry, dest: Path)
    requires Destination(dest) && a.kind == Regular && OnTheWay(Name(a), Name(b)) && a != b
    ensures Unpacks([a, b], dest, {}, 0, map[]).None?
  {
    assert Above([a, b], 0, 1);
    UnpacksExactly([a, b], dest);
  }

  lemma FilesClash(x: string, y: string, dir: string, file: string, dest: Path)
    requires Clean(x) == [dir] && Clean(y) == [dir, file] && dir != ".." && !IsAbs(x) && !IsAbs(y) && Destination(dest)
    ensures
      var entries := [EmptyFile(x), EmptyFile(y)];
      && Validates(entries, {}, 0) && NoDotDot(entries) && Creatable(entries)
      && Unpacks(entries, dest, {}, 0, map[]).None?
  {
    var a, b := EmptyFile(x), EmptyFile(y);
    NoneSeen(a, [dir, file]);
    NoneSeen(b, [dir]);
    NothingIsSmall(a);
    NothingIsSmall(b);
    TwoFilesValidate(a, b);
    FileAboveFile(a, b, dest);
  }

  /** Two files, "a" and "a/b", pass validation and do not unpack. */
  lemma FileAsDirectoryPassesValidation(dest: Path) returns (entries: seq<Entry>)
    requires Destination(dest)
    ensures Validates(entries, {}, 0) && NoDotDot(entries) && Creatable(entries)
    ensures Unpacks(entries, dest, {}, 0, map[]).None?
  {
    var x, y, dir, file := PlainNames();
    entries := [EmptyFile(x), EmptyFile(y)];
    FilesClash(x, y, dir, file, dest);
  }

  lemma PlainNames() returns (x: string, y: string, dir: string, file: string)
    ensures Clean(x) == [dir] && Clean(y) == [dir, file] && dir != ".." && !IsAbs(x) && !IsAbs(y)
  {
    x, y, dir, file := "a", "a/b", "a", "b";
    SplitPlain("a", '/');
    SplitPlain("b", '/');
    SplitFirst("a", '/', "b");
    assert "a" + ['/'] + "b" == "a/b" && ["a"] + ["b"] == ["a", "b"];
    assert ["a"][1..] == [] && ["a", "b"][1..] == ["b"] && ["b"][1..] == [];
    assert [] + ["a"] == ["a"];
  }

  /******* The loops *******/

  function Files(entries: seq<Entry>): nat {
    if entries == [] then 0 else (if entries[0].kind == Directory then 0 else 1) + Files(entries[1..])
  }

  // `size` is the length of the ZIP itself.
  method ValidateArtifactZIP(size: nat, entries: seq<Entry>) returns (ok: bool)
    ensures ok <==> MIN_FILE <= size <= MAX_FILE && 0 < |entries| <= MAX_ENTRIES && Validates(entries, {}, 0)
  {
    if size < MIN_FILE || size > MAX_FILE {
      return false;
    }
    if |entries| == 0 || |entries| > MAX_ENTRIES {
      return false;
    }
    var seen: set<Path>, total := {}, 0;
    var i := 0;
    assert entries[0..] == entries;
    while i < |entries|
      invariant 0 <= i <= |entries|
      invariant Validates(entries, {}, 0) <==> Validates(entries[i..], seen, total)
    {
      var e := entries[i];
      assert entries[i..][0] == e && entries[i..][1..] == entries[i + 1..];
      var name := Clean(e.name);
      if (name == [] && !IsAbs(e.name)) || IsAbs(e.name) || (|name| > 1 && name[0] == "..") || name in seen {
        return false;
      }
      seen := seen + {name};
      if e.kind == Symlink || (e.kind != Directory && e.kind != Regular) {
        return false;
      }
      total := Int64(total + Int64(e.size));
      if total > MAX_EXPANDED || (e.compressed > 0 && Int64(e.size) > Int64(Int64(e.compressed) * MAX_RATIO)) {
        return false;
      }
      i := i + 1;
    }
    return true;
  }

  lemma OneUnpacks(entries: seq<Entry>, i: nat, dest: Path, seen: set<Path>, total: int, m: Archive.Tree)
    requires i < |entries|
    ensures
      var e, r := entries[i], Unpacks(entries[i..], dest, seen, total, m);
      if !Passes(e, dest, seen, total) || Placed(m, Clean(e.name), e).None? then r.None?
      else r == Unpacks(entries[i + 1..], dest, seen + {Clean(e.name)}, NewTotal(e, total), Placed(m, Clean(e.name), e).value)
    ensures Files(entries[i..]) == (if entries[i].kind == Directory then 0 else 1) + Files(entries[i + 1..])
  {
    assert entries[i..][1..] == entries[i + 1..];
  }

  method PlaceEntry(m: Archive.Tree, name: Path, e: Entry) returns (r: Option<Archive.Tree>)
    ensures r == Placed(m, name, e)
  {
    if e.data.None? {
      return None;
    }
    if e.kind == Directory {
      r := Archive.MkdirAll(m, name);
      return;
    }
    var made := Archive.MkdirAll(m, Parent(name));
    if made.None? {
      return None;
    }
    if name in made.value {
      return None;
    }
    return Some(made.value[name := Archive.Content(e.data.value)]);
  }

  // The checks of one entry; `seen` and `total` are those before it.
  method EntryPasses(e: Entry, dest: Path, seen: set<Path>, total: int) returns (ok: bool)
    ensures ok <==> Passes(e, dest, seen, total)
  {
    var name := Clean(e.name);
    if (name == [] && !IsAbs(e.name)) || IsAbs(e.name) || (|name| > 1 && name[0] == "..") || name in seen {
      return false;
    }
    if e.kind == Symlink {
      return false;
    }
    var sum := Int64(total + Int64(e.size));
    if sum > MAX_EXPANDED || (e.compressed > 0 && Int64(e.size) > Int64(Int64(e.compressed) * MAX_RATIO)) {
      return false;
    }
    if !Under(dest, Joined(dest, name)) {
      return false;
    }
    return e.kind == Directory || e.kind == Regular;
  }

  // `tree` is what is below the destination then, and `count` the number of files.
  method ExtractZIP(size: nat, entries: seq<Entry>, dest: Path) returns (tree: Option<Archive.Tree>, count: nat)
    ensures size > MAX_FILE || |entries| > MAX_ENTRIES ==> tree.None?
    ensures size <= MAX_FILE && |entries| <= MAX_ENTRIES ==> tree == Unpacks(entries, dest, {}, 0, map[])
    ensures tree.Some? ==> count == Files(entries)
  {
    count := 0;
    if size > MAX_FILE || |entries| > MAX_ENTRIES {
      return None, count;
    }
    var seen: set<Path>, total := {}, 0;
    var m: Archive.Tree := map[];
    var i := 0;
    ghost var whole, files := Unpacks(entries, dest, {}, 0, map[]), Files(entries);
    assert entries[0..] == entries;
    while i < |entries|
      invariant 0 <= i <= |entries|
      invariant whole == Unpacks(entries[i..], dest, seen, total, m)
      invariant count + Files(entries[i..]) == files
    {
      var e := entries[i];
      OneUnpacks(entries, i, dest, seen, total, m);
      var ok := EntryPasses(e, dest, seen, total);
      if !ok {
        return None, count;
      }
      var name := Clean(e.name);
      seen, total := seen + {name}, NewTotal(e, total);
      var placed := PlaceEntry(m, name, e);
      if placed.None? {
        return None, count;
      }
      m := placed.value;
      count := if e.kind == Directory then count else count + 1;
      i := i + 1;
    }
    return Some(m), count;
  }
}
