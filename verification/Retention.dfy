/**
 Backup retention of internal/gateway/operations.go: expired records go first,
 then the oldest completed ones until the encrypted sizes fit the quota.
 Records are listed newest first.
 */
module Retention {
  const QUOTA := 0x2_8000_0000   // 10 GiB

  datatype Record = Record(id: string, size: nat, completed: bool, expires: int)

  ghost predicate DistinctIds(rows: seq<Record>) {
    forall i, j :: 0 <= i < j < |rows| ==> rows[i].id != rows[j].id
  }

  function Ids(rows: seq<Record>): set<string> {
    set r | r in rows :: r.id
  }

  function Sum(rows: seq<Record>): nat {
    if rows == [] then 0 else rows[0].size + Sum(rows[1..])
  }

  function Unexpired(rows: seq<Record>, now: int): seq<Record> {
    if rows == [] then []
    else (if rows[0].expires > now then [rows[0]] else []) + Unexpired(rows[1..], now)
  }

  // The records the quota pass may not touch.
  function Pinned(rows: seq<Record>): seq<Record> {
    if rows == [] then []
    else (if rows[0].completed then [] else [rows[0]]) + Pinned(rows[1..])
  }

  // DELETE ... WHERE id=?
  function Without(rows: seq<Record>, id: string): seq<Record> {
    if rows == [] then []
    else (if rows[0].id == id then [] else [rows[0]]) + Without(rows[1..], id)
  }

  // Everything newer than the cut, and what is pinned behind it.
  function Kept(rows: seq<Record>, cut: nat): seq<Record>
    requires cut <= |rows|
  {
    rows[..cut] + Pinned(rows[cut..])
  }

  // The reference answer: the largest cut that fits the quota, 0 if none does.
  ghost predicate IsLongestFit(rows: seq<Record>, cut: nat) {
    && cut <= |rows|
    && (cut == 0 || Sum(Kept(rows, cut)) <= QUOTA)
    && (forall j :: cut < j <= |rows| ==> Sum(Kept(rows, j)) > QUOTA)
  }

  lemma LongestFitIsUnique(rows: seq<Record>, a: nat, b: nat)
    requires IsLongestFit(rows, a) && IsLongestFit(rows, b)
    ensures a == b
  {
  }

  /******* Sequence facts *******/

  lemma {:induction false} SumSplits(a: seq<Record>, b: seq<Record>)
    ensures Sum(a + b) == Sum(a) + Sum(b)
  {
    if a == [] {
      assert a + b == b;
    } else {
      assert (a + b)[1..] == a[1..] + b;
      SumSplits(a[1..], b);
    }
  }

  lemma {:induction false} WithoutSplits(a: seq<Record>, b: seq<Record>, id: string)
    ensures Without(a + b, id) == Without(a, id) + Without(b, id)
  {
    if a == [] {
      assert a + b == b;
    } else {
      assert (a + b)[1..] == a[1..] + b;
      WithoutSplits(a[1..], b, id);
    }
  }

  lemma {:induction false} WithoutAbsent(rows: seq<Record>, id: string)
    requires forall r :: r in rows ==> r.id != id
    ensures Without(rows, id) == rows
  {
    if rows != [] {
      WithoutAbsent(rows[1..], id);
    }
  }

  lemma {:induction false} UnexpiredSplits(a: seq<Record>, b: seq<Record>, now: int)
    ensures Unexpired(a + b, now) == Unexpired(a, now) + Unexpired(b, now)
  {
    if a == [] {
      assert a + b == b;
    } else {
      assert (a + b)[1..] == a[1..] + b;
      UnexpiredSplits(a[1..], b, now);
    }
  }

  lemma {:induction false} FilteredMembers(rows: seq<Record>, now: int)
    ensures forall r :: r in Unexpired(rows, now) <==> r in rows && r.expires > now
    ensures forall r :: r in Pinned(rows) <==> r in rows && !r.completed
  {
    if rows != [] {
      FilteredMembers(rows[1..], now);
    }
  }

  lemma {:induction false} FilteredDistinct(rows: seq<Record>, now: int)
    requires DistinctIds(rows)
    ensures DistinctIds(Unexpired(rows, now))
  {
    if rows != [] {
      FilteredDistinct(rows[1..], now);
      FilteredMembers(rows[1..], now);
    }
  }

  lemma WithoutOne(r: Record)
    ensures Without([r], r.id) == []
  {
    assert [r][1..] == [];
  }

  // Removing one record from the middle.
  lemma RemoveMiddle(a: seq<Record>, r: Record, b: seq<Record>)
    requires forall x :: x in a ==> x.id != r.id
    requires forall x :: x in b ==> x.id != r.id
    ensures Without(a + [r] + b, r.id) == a + b
  {
    WithoutSplits(a + [r], b, r.id);
    WithoutSplits(a, [r], r.id);
    WithoutAbsent(a, r.id);
    WithoutAbsent(b, r.id);
    WithoutOne(r);
    assert a + [] == a;
  }

  lemma {:induction false} AllCompletedPinsNothing(rows: seq<Record>)
    requires forall r :: r in rows ==> r.completed
    ensures Pinned(rows) == []
  {
    if rows != [] {
      AllCompletedPinsNothing(rows[1..]);
    }
  }

  /******* What the pass keeps *******/

  // What is left of the listing after an undisturbed pass.
  ghost predicate IsPruned(all: seq<Record>, now: int, kept: seq<Record>) {
    exists cut: nat :: IsLongestFit(Unexpired(all, now), cut) && kept == Kept(Unexpired(all, now), cut)
  }

  lemma AllCompletedKeepsPrefixes(u: seq<Record>)
    requires forall r :: r in u ==> r.completed
    ensures forall j :: 0 <= j <= |u| ==> Kept(u, j) == u[..j]
  {
    forall j | 0 <= j <= |u|
      ensures Kept(u, j) == u[..j]
    {
      AllCompletedPinsNothing(u[j..]);
    }
  }

  // The longest prefix whose sizes fit the quota.
  ghost predicate IsLongestPrefix(u: seq<Record>, kept: seq<Record>) {
    && kept <= u
    && Sum(kept) <= QUOTA
    && (forall j :: |kept| < j <= |u| ==> Sum(u[..j]) > QUOTA)
  }

  lemma FitIsPrefix(u: seq<Record>, cut: nat)
    requires cut <= |u| && forall j :: 0 <= j <= |u| ==> Kept(u, j) == u[..j]
    ensures IsLongestFit(u, cut) <==> IsLongestPrefix(u, u[..cut])
  {
    assert forall j :: cut < j <= |u| ==> Sum(Kept(u, j)) == Sum(u[..j]);
    assert Kept(u, cut) == u[..cut] && Sum(u[..0]) == 0;
  }

  /** With every record completed, the pass keeps exactly the longest prefix of the unexpired
      records whose sizes fit the quota. */
  lemma CompletedKeepsLongestPrefix(all: seq<Record>, now: int, kept: seq<Record>)
    requires forall r :: r in all ==> r.completed
    ensures IsPruned(all, now, kept) <==> IsLongestPrefix(Unexpired(all, now), kept)
  {
    var u := Unexpired(all, now);
    FilteredMembers(all, now);
    AllCompletedKeepsPrefixes(u);
    if kept <= u {
      var cut: nat := |kept|;
      FitIsPrefix(u, cut);
      assert kept == u[..cut] && Kept(u, cut) == u[..cut];
    }
    if IsPruned(all, now, kept) {
      var cut: nat :| IsLongestFit(u, cut) && kept == Kept(u, cut);
      assert kept == u[..cut];
      FitIsPrefix(u, cut);
    }
  }

  lemma {:induction false} PrefixSumsGrow(rows: seq<Record>, a: nat, b: nat)
    requires a <= b <= |rows|
    ensures Sum(rows[..a]) <= Sum(rows[..b])
  {
    assert rows[..b] == rows[..a] + rows[a..b];
    SumSplits(rows[..a], rows[a..b]);
  }

  lemma OutsideThePrefix(u: seq<Record>, kept: seq<Record>, at: nat)
    requires kept <= u && at < |u| && u[at] !in kept
    ensures |kept| <= at
  {
  }

  /** In a restore, the safety backup is listed first and pruned with the rest. The source
      backup survives that exactly when it is unexpired and the sizes from the newest record
      through the source fit the quota; a restore can therefore delete its own source. */
  lemma SourceSurvivesItsSafetyBackup(safety: Record, rows: seq<Record>, source: Record, now: int, kept: seq<Record>, at: nat)
    requires DistinctIds([safety] + rows)
    requires forall r :: r in [safety] + rows ==> r.completed
    requires source in rows
    requires IsPruned([safety] + rows, now, kept)
    requires var u := Unexpired([safety] + rows, now); source in u ==> at < |u| && u[at] == source
    ensures source in kept <==>
      && source.expires > now
      && var u := Unexpired([safety] + rows, now);
         at < |u| && Sum(u[..at + 1]) <= QUOTA
  {
    var all := [safety] + rows;
    var u := Unexpired(all, now);
    FilteredMembers(all, now);
    FilteredDistinct(all, now);
    CompletedKeepsLongestPrefix(all, now, kept);
    if source in u {
      KeptIsFitting(u, kept, at);
    }
    assert source in kept ==> source in u;
  }

  // With the longest prefix kept, a record is kept exactly when the sizes through it fit.
  lemma KeptIsFitting(u: seq<Record>, kept: seq<Record>, at: nat)
    requires DistinctIds(u) && IsLongestPrefix(u, kept) && at < |u|
    ensures u[at] in kept <==> Sum(u[..at + 1]) <= QUOTA
  {
    assert u[..|kept|] == kept;
    if u[at] in kept {
      var i :| 0 <= i < |kept| && kept[i] == u[at];
      assert u[i] == u[at] && i == at;
      PrefixSumsGrow(u, at + 1, |kept|);
    } else {
      OutsideThePrefix(u, kept, at);
    }
  }

  /** A restore that deletes the backup it is about to read. */
  lemma RestoreCanDeleteItsSource() returns (safety: Record, source: Record)
    ensures safety.size <= QUOTA && source.size <= QUOTA && safety.id != source.id
    ensures safety.completed && source.completed && safety.expires > 0 && source.expires > 0
    ensures IsPruned([safety, source], 0, [safety])
  {
    safety := Record("new", QUOTA, true, 2);
    source := Record("old", 1, true, 1);
    var all := [safety] + [source];
    assert [safety][1..] == [] && [source][1..] == [];
    UnexpiredSplits([safety], [source], 0);
    SumSplits([safety], [source]);
    assert Unexpired(all, 0) == all && all[..2] == all;
    assert IsLongestPrefix(all, [safety]);
    CompletedKeepsLongestPrefix(all, 0, [safety]);
    assert all == [safety, source];
  }

  /** The quota pass never removes a record that is not completed. */
  lemma PinnedRecordsStay(all: seq<Record>, now: int, kept: seq<Record>, r: Record)
    requires IsPruned(all, now, kept) && r in all && r.expires > now && !r.completed
    ensures r in kept
  {
    var u := Unexpired(all, now);
    var cut: nat :| IsLongestFit(u, cut) && kept == Kept(u, cut);
    FilteredMembers(all, now);
    FilteredMembers(u[cut..], now);
    var i :| 0 <= i < |u| && u[i] == r;
    if i >= cut {
      assert u[cut..][i - cut] == r;
    }
  }

  // The listing after the first loop has looked at k records.
  function Seen(all: seq<Record>, k: nat, now: int): seq<Record>
    requires k <= |all|
  {
    Unexpired(all[..k], now) + all[k..]
  }

  // The first loop after k records.
  ghost predicate Passed(all: seq<Record>, k: nat, now: int, active: seq<Record>, rows: seq<Record>, total: nat, removed: nat) {
    && k <= |all| && active == Unexpired(all[..k], now) && rows == Seen(all, k, now)
    && |rows| + removed == |all| && total == Sum(active)
  }

  lemma StepOverActive(all: seq<Record>, k: nat, now: int, active: seq<Record>, rows: seq<Record>, total: nat, removed: nat)
    requires k < |all| && all[k].expires > now && Passed(all, k, now, active, rows, total, removed)
    ensures Passed(all, k + 1, now, active + [all[k]], rows, total + all[k].size, removed)
  {
    var b := all[k];
    assert all[..k + 1] == all[..k] + [b] && all[k..] == [b] + all[k + 1..];
    UnexpiredSplits(all[..k], [b], now);
    assert [b][1..] == [];
    SumSplits(active, [b]);
  }

  lemma ExpiredAddsNothing(all: seq<Record>, k: nat, now: int)
    requires k < |all| && all[k].expires <= now
    ensures Unexpired(all[..k + 1], now) == Unexpired(all[..k], now)
  {
    assert all[..k + 1] == all[..k] + [all[k]];
    UnexpiredSplits(all[..k], [all[k]], now);
    assert [all[k]][1..] == [];
  }

  // The listing around an expired record, and without it.
  lemma SeenAround(all: seq<Record>, k: nat, now: int)
    requires DistinctIds(all) && k < |all| && all[k].expires <= now
    ensures
      var b, active := all[k], Unexpired(all[..k], now);
      && Seen(all, k, now) == active + [b] + all[k + 1..] && Seen(all, k + 1, now) == active + all[k + 1..]
      && (forall x :: x in active ==> x.id != b.id) && (forall x :: x in all[k + 1..] ==> x.id != b.id)
  {
    ExpiredAddsNothing(all, k, now);
    FilteredMembers(all[..k], now);
    assert all[k..] == [all[k]] + all[k + 1..];
  }

  lemma StepOverExpired(all: seq<Record>, k: nat, now: int, active: seq<Record>, rows: seq<Record>, total: nat, removed: nat)
    requires DistinctIds(all) && k < |all| && all[k].expires <= now && Passed(all, k, now, active, rows, total, removed)
    ensures Passed(all, k + 1, now, active, Without(rows, all[k].id), total, removed + 1)
  {
    ExpiredAddsNothing(all, k, now);
    SeenAround(all, k, now);
    RemoveMiddle(Unexpired(all[..k], now), all[k], all[k + 1..]);
  }

  lemma AllSeen(all: seq<Record>, now: int)
    ensures Seen(all, |all|, now) == Unexpired(all, now) == Unexpired(all[..|all|], now)
  {
    assert all[..|all|] == all;
  }

  lemma SumMiddle(a: seq<Record>, r: Record, b: seq<Record>)
    ensures Sum(a + [r] + b) == Sum(a + b) + r.size
  {
    SumSplits(a + [r], b);
    SumSplits(a, [r]);
    SumSplits(a, b);
    assert [r][1..] == [];
  }

  // What can be missing part-way through the first loop, and behind a cut.
  lemma MissingIsExpired(all: seq<Record>, k: nat, now: int)
    requires k <= |all|
    ensures forall r :: r in all && r !in Seen(all, k, now) ==> r.expires <= now
  {
    FilteredMembers(all[..k], now);
    assert all == all[..k] + all[k..];
  }

  lemma MissingIsCompleted(active: seq<Record>, cut: nat)
    requires cut <= |active|
    ensures forall r :: r in active && r !in Kept(active, cut) ==> r.completed
  {
    FilteredMembers(active[cut..], 0);
    assert active == active[..cut] + active[cut..];
  }

  lemma KeptStep(active: seq<Record>, i: nat)
    requires DistinctIds(active) && i < |active|
    ensures active[i].completed ==>
      && Without(Kept(active, i + 1), active[i].id) == Kept(active, i)
      && Sum(Kept(active, i + 1)) == Sum(Kept(active, i)) + active[i].size
      && |Kept(active, i + 1)| == |Kept(active, i)| + 1
    ensures !active[i].completed ==> Kept(active, i + 1) == Kept(active, i)
  {
    var b := active[i];
    var newer, behind := active[..i], Pinned(active[i + 1..]);
    FilteredMembers(active[i + 1..], 0);
    assert active[i..] == [b] + active[i + 1..];
    assert active[..i + 1] == newer + [b];
    if b.completed {
      RemoveMiddle(newer, b, behind);
      SumMiddle(newer, b, behind);
    } else {
      assert newer + [b] + behind == newer + ([b] + behind);
    }
  }

  // The files after removing records: theirs and that of the record on which the DELETE
  // failed are gone, those that cannot be removed stay.
  function FilesLeft(files: set<string>, before: seq<Record>, after: seq<Record>, lost: set<string>, f: Faults): set<string> {
    files - ((Ids(before) - Ids(after)) + lost - f.locked)
  }

  // At most the one record that a failed DELETE kept lost its file.
  ghost predicate Loses(rows: seq<Record>, lost: set<string>, f: Faults) {
    lost == {} || exists b :: b in rows && b.id in f.stuck && lost == {b.id}
  }

  // What removing records one by one does to rows and files: it stops at the first DELETE that
  // fails, and then `lost` names that record.
  ghost predicate Removes(files: set<string>, before: seq<Record>, after: seq<Record>, left: set<string>, lost: set<string>, f: Faults) {
    && Loses(after, lost, f) && Ids(after) <= Ids(before) && Ids(before) - Ids(after) !! f.stuck
    && left == FilesLeft(files, before, after, lost, f)
  }

  // Removing one record from a listing that has it once, with its row or without.
  lemma OneRemoved(files: set<string>, before: seq<Record>, now: seq<Record>, left: set<string>, b: Record, after: seq<Record>, f: Faults)
    requires Removes(files, before, now, left, {}, f) && Ids(after) == Ids(now) - {b.id} && b in now
    ensures
      var one := left - if b.id in f.locked then {} else {b.id};
      if b.id in f.stuck then Removes(files, before, now, one, {b.id}, f) else Removes(files, before, after, one, {}, f)
  {
    assert b.id in Ids(now);
  }

  lemma MiddleId(a: seq<Record>, r: Record, b: seq<Record>)
    requires forall x :: x in a ==> x.id != r.id
    requires forall x :: x in b ==> x.id != r.id
    ensures Ids(a + b) == Ids(a + [r] + b) - {r.id} && r.id in Ids(a + [r] + b)
  {
    var all := a + [r] + b;
    assert r in all;
    assert forall x :: x in a + b <==> x in a || x in b;
    assert forall x :: x in all <==> x in a || x == r || x in b;
  }

  // The listing not listed at all, the records whose DELETE fails, and those whose file stays.
  datatype Faults = Faults(unlisted: bool, stuck: set<string>, locked: set<string>)

  lemma NewIdIsNotOld(b: Record, rows: seq<Record>)
    requires DistinctIds([b] + rows)
    ensures b.id !in Ids(rows) && Ids([b] + rows) == Ids(rows) + {b.id}
  {
    var all := [b] + rows;
    forall r | r in rows
      ensures r.id != b.id
    {
      var i :| 0 <= i < |rows| && rows[i] == r;
      assert all[i + 1] == r && all[0] == b;
    }
    assert forall r :: r in all <==> r == b || r in rows;
  }

  // The pass at an expired record, and its files.
  lemma ExpiredGoes(files: set<string>, all: seq<Record>, k: nat, now: int, left: set<string>, f: Faults)
    requires DistinctIds(all) && k < |all| && all[k].expires <= now && Removes(files, all, Seen(all, k, now), left, {}, f)
    ensures
      var b := all[k];
      var one := left - if b.id in f.locked then {} else {b.id};
      if b.id in f.stuck then Removes(files, all, Seen(all, k, now), one, {b.id}, f)
      else Removes(files, all, Seen(all, k + 1, now), one, {}, f)
  {
    var b, active := all[k], Unexpired(all[..k], now);
    SeenAround(all, k, now);
    MiddleId(active, b, all[k + 1..]);
    OneRemoved(files, all, Seen(all, k, now), left, b, Seen(all, k + 1, now), f);
  }

  // How the first loop ends: with the unexpired records, or at an expired one whose DELETE failed.
  ghost predicate ExpiredRemoved(all: seq<Record>, now: int, rows: seq<Record>, active: seq<Record>, total: nat, removed: nat, lost: set<string>, ok: bool) {
    && |rows| + removed == |all| && (ok <==> lost == {})
    && (ok ==> rows == active == Unexpired(all, now) && total == Sum(active))
    && lost !! Ids(Unexpired(all, now))
    && forall r :: r in all && r !in rows ==> r.expires <= now
  }

  lemma FirstLoopStops(all: seq<Record>, k: nat, now: int, rows: seq<Record>, active: seq<Record>, total: nat, removed: nat)
    requires DistinctIds(all) && k < |all| && all[k].expires <= now && Passed(all, k, now, active, rows, total, removed)
    ensures ExpiredRemoved(all, now, rows, active, total, removed, {all[k].id}, false)
  {
    FilteredMembers(all, now);
    MissingIsExpired(all, k, now);
  }

  lemma FirstLoopEnds(all: seq<Record>, now: int, rows: seq<Record>, active: seq<Record>, total: nat, removed: nat)
    requires Passed(all, |all|, now, active, rows, total, removed)
    ensures ExpiredRemoved(all, now, rows, active, total, removed, {}, true)
  {
    AllSeen(all, now);
    MissingIsExpired(all, |all|, now);
  }

  // The pass at a completed record that does not fit.
  lemma CompletedGoes(files: set<string>, active: seq<Record>, i: nat, left: set<string>, f: Faults)
    requires DistinctIds(active) && i < |active| && active[i].completed && Removes(files, active, Kept(active, i + 1), left, {}, f)
    ensures
      var b := active[i];
      var one := left - if b.id in f.locked then {} else {b.id};
      if b.id in f.stuck then Removes(files, active, Kept(active, i + 1), one, {b.id}, f)
      else Removes(files, active, Kept(active, i), one, {}, f)
  {
    var b, behind := active[i], Pinned(active[i + 1..]);
    FilteredMembers(active[i + 1..], 0);
    assert active[i..] == [b] + active[i + 1..] && active[..i + 1] == active[..i] + [b];
    MiddleId(active[..i], b, behind);
    OneRemoved(files, active, Kept(active, i + 1), left, b, Kept(active, i), f);
  }

  // No cut behind i fits.
  ghost predicate NothingFits(active: seq<Record>, i: nat) {
    forall j :: i < j <= |active| ==> Sum(Kept(active, j)) > QUOTA
  }

  // The second loop down to record i.
  ghost predicate Reached(active: seq<Record>, i: nat, rows: seq<Record>, total: nat, removed: nat) {
    && i <= |active| && rows == Kept(active, i) && total == Sum(rows) && |rows| + removed == |active| && NothingFits(active, i)
  }

  lemma StepDown(active: seq<Record>, i: nat, rows: seq<Record>, total: nat, removed: nat)
    requires DistinctIds(active) && i < |active| && Reached(active, i + 1, rows, total, removed) && total > QUOTA
    ensures
      var b := active[i];
      if b.completed then total >= b.size && Reached(active, i, Without(rows, b.id), total - b.size, removed + 1)
      else Reached(active, i, rows, total, removed)
  {
    KeptStep(active, i);
  }

  // How the second loop ends: at the longest fit, or at a record behind it whose DELETE failed.
  ghost predicate QuotaFitted(active: seq<Record>, rows: seq<Record>, total: nat, removed: nat, lost: set<string>, ok: bool) {
    && |rows| + removed == |active| && (ok <==> lost == {})
    && (ok ==> total == Sum(rows) && exists cut: nat :: IsLongestFit(active, cut) && rows == Kept(active, cut))
    && (forall cut: nat :: IsLongestFit(active, cut) ==> lost !! Ids(Kept(active, cut)))
    && forall r :: r in active && r !in rows ==> r.completed
  }

  lemma SecondLoopStops(active: seq<Record>, i: nat, rows: seq<Record>, total: nat, removed: nat)
    requires DistinctIds(active) && i < |active| && active[i].completed && total > QUOTA
    requires Reached(active, i + 1, rows, total, removed)
    ensures QuotaFitted(active, rows, total, removed, {active[i].id}, false)
  {
    BehindTheCut(active, i);
    MissingIsCompleted(active, i + 1);
  }

  lemma SecondLoopEnds(active: seq<Record>, i: nat, rows: seq<Record>, total: nat, removed: nat)
    requires Reached(active, i, rows, total, removed) && (total <= QUOTA || i == 0)
    ensures QuotaFitted(active, rows, total, removed, {}, true)
  {
    assert IsLongestFit(active, i);
    MissingIsCompleted(active, i);
  }

  // A completed record from which on nothing fits is not kept.
  lemma BehindTheCut(active: seq<Record>, i: nat)
    requires DistinctIds(active) && i < |active| && active[i].completed
    requires NothingFits(active, i)
    ensures forall cut: nat :: IsLongestFit(active, cut) ==> active[i].id !in Ids(Kept(active, cut))
  {
    forall cut: nat | IsLongestFit(active, cut)
      ensures active[i].id !in Ids(Kept(active, cut))
    {
      FilteredMembers(active[cut..], 0);
    }
  }

  lemma PrunedIsUnexpired(all: seq<Record>, now: int)
    ensures forall kept :: IsPruned(all, now, kept) ==> Ids(kept) <= Ids(Unexpired(all, now))
  {
    var u := Unexpired(all, now);
    forall kept | IsPruned(all, now, kept)
      ensures Ids(kept) <= Ids(u)
    {
      var cut: nat :| IsLongestFit(u, cut) && kept == Kept(u, cut);
      FilteredMembers(u[cut..], 0);
    }
  }

  lemma TwoPasses(files: set<string>, all: seq<Record>, active: seq<Record>, rows: seq<Record>, lost: set<string>, f: Faults)
    requires Ids(rows) <= Ids(active) <= Ids(all)
    ensures FilesLeft(FilesLeft(files, all, active, {}, f), active, rows, lost, f) == FilesLeft(files, all, rows, lost, f)
  {
  }

  class BackupStore {
    var rows: seq<Record>
    var files: set<string>   // the encrypted files, named by record

    constructor (rows: seq<Record>, files: set<string>)
      ensures this.rows == rows && this.files == files
    {
      this.rows, this.files := rows, files;
    }

    method Remove(b: Record, f: Faults) returns (ok: bool)
      modifies this
      ensures ok <==> b.id !in f.stuck
      ensures files == old(files) - (if b.id in f.locked then {} else {b.id})
      ensures rows == if ok then Without(old(rows), b.id) else old(rows)
    {
      if b.id !in f.locked {
        files := files - {b.id};
      }
      ok := b.id !in f.stuck;
      if ok {
        rows := Without(rows, b.id);
      }
    }

    // The first loop of pruneBackups: expired records go, the rest is collected and summed.
    method RemoveExpired(now: int, f: Faults) returns (active: seq<Record>, total: nat, removed: nat, ghost lost: set<string>, ok: bool)
      requires DistinctIds(rows)
      modifies this
      ensures ExpiredRemoved(old(rows), now, rows, active, total, removed, lost, ok)
      ensures Removes(old(files), old(rows), rows, files, lost, f)
    {
      var all := rows;
      active, total, removed, lost := [], 0, 0, {};
      var k := 0;
      while k < |all|
        invariant Passed(all, k, now, active, rows, total, removed)
        invariant Removes(old(files), all, rows, files, {}, f)
      {
        var b := all[k];
        if b.expires <= now {
          StepOverExpired(all, k, now, active, rows, total, removed);
          ExpiredGoes(old(files), all, k, now, files, f);
          FirstLoopStops(all, k, now, rows, active, total, removed);
          ok := Remove(b, f);
          if !ok {
            lost := {b.id};
            return;
          }
          removed := removed + 1;
        } else {
          StepOverActive(all, k, now, active, rows, total, removed);
          active := active + [b];
          total := total + b.size;
        }
        k := k + 1;
      }
      FirstLoopEnds(all, now, rows, active, total, removed);
      ok := true;
    }

    // The second loop: oldest first, completed records go until the rest fits.
    method FitQuota(active: seq<Record>, sum: nat, f: Faults) returns (removed: nat, total: nat, ghost lost: set<string>, ok: bool)
      requires DistinctIds(active) && rows == active && sum == Sum(active)
      modifies this
      ensures QuotaFitted(active, rows, total, removed, lost, ok)
      ensures Removes(old(files), active, rows, files, lost, f)
    {
      removed, total, lost := 0, sum, {};
      var i := |active| - 1;
      assert active[..i + 1] == active && active[i + 1..] == [];
      while total > QUOTA && i >= 0
        invariant -1 <= i
        invariant Reached(active, i + 1, rows, total, removed)
        invariant Removes(old(files), active, rows, files, {}, f)
      {
        var b := active[i];
        StepDown(active, i, rows, total, removed);
        if b.completed {
          CompletedGoes(old(files), active, i, files, f);
          SecondLoopStops(active, i, rows, total, removed);
          ok := Remove(b, f);
          if !ok {
            lost := {b.id};
            return;
          }
          total := total - b.size;
          removed := removed + 1;
        }
        i := i - 1;
      }
      SecondLoopEnds(active, i + 1, rows, total, removed);
      ok := true;
    }

    // `lost` names the record whose row stayed although its file was removed.
    method PruneBackups(now: int, f: Faults) returns (removed: nat, ghost lost: set<string>, ok: bool)
      requires DistinctIds(rows)
      modifies this
      ensures |rows| + removed == |old(rows)|
      ensures ok <==> !f.unlisted && lost == {} && Sum(rows) <= QUOTA
      ensures f.unlisted ==> rows == old(rows) && lost == {}
      ensures !f.unlisted && lost == {} ==> IsPruned(old(rows), now, rows)
      // a failing DELETE stops the pass only at a record that the undisturbed pass removes
      ensures forall kept :: IsPruned(old(rows), now, kept) ==> lost !! Ids(kept)
      ensures Loses(rows, lost, f)
      ensures Ids(rows) <= Ids(old(rows)) && Ids(old(rows)) - Ids(rows) !! f.stuck
      ensures files == FilesLeft(old(files), old(rows), rows, lost, f)
      // whatever fails, only expired or completed records disappear
      ensures forall r :: r in old(rows) && r !in rows ==> r.expires <= now || r.completed
    {
      if f.unlisted {
        removed, lost, ok := 0, {}, false;
        return;
      }
      FilteredMembers(rows, now);
      FilteredDistinct(rows, now);
      var active, total;
      active, total, removed, lost, ok := RemoveExpired(now, f);
      PrunedIsUnexpired(old(rows), now);
      if !ok {
        return;
      }
      ghost var first := files;
      var more;
      more, total, lost, ok := FitQuota(active, total, f);
      removed := removed + more;
      ok := ok && total <= QUOTA;
      TwoPasses(old(files), old(rows), active, rows, lost, f);
    }

    // The end of createBackup: the encrypted file is there; the new record becomes the newest,
    // then the pass runs and its error is ignored.
    method RecordBackup(b: Record, now: int, insertFails: bool, f: Faults) returns (accepted: bool, pruned: nat, ghost lost: set<string>)
      requires DistinctIds([b] + rows) && b.id in files
      modifies this
      ensures accepted <==> b.size <= QUOTA && !insertFails
      ensures !accepted ==> rows == old(rows) && files == old(files) - (if b.id in f.locked then {} else {b.id}) && lost == {}
      ensures accepted ==> |rows| + pruned == |old(rows)| + 1
      ensures accepted && f.unlisted ==> rows == [b] + old(rows) && lost == {}
      ensures accepted && !f.unlisted && lost == {} ==> IsPruned([b] + old(rows), now, rows)
      ensures accepted ==> files == FilesLeft(old(files), [b] + old(rows), rows, lost, f)
      ensures Loses(rows, lost, f)
      // a record without its file is the one whose DELETE failed
      ensures Ids(old(rows)) <= old(files) ==> Ids(rows) - files <= lost
    {
      pruned, lost := 0, {};
      if b.size > QUOTA || insertFails {
        if b.id !in f.locked {
          files := files - {b.id};
        }
        NewIdIsNotOld(b, rows);
        return false, pruned, lost;
      }
      rows := [b] + rows;
      NewIdIsNotOld(b, old(rows));
      var fits;
      pruned, lost, fits := PruneBackups(now, f);
      accepted := true;
    }
  }
}
