/**
 restoreBackup of internal/gateway/operations.go from end to end: the safety backup
 and its retention pass, the encrypted file, the archive in it, and the swap.
 */
module Restore {
  import opened Wrappers
  import Archive
  import BackupStream
  import Retention

  type Bytes = BackupStream.Bytes

  // What a record says of a backup.
  datatype Backup = Backup(record: Retention.Record, components: Archive.Components, dbs: seq<string>, sum: string)

  // The cipher, the digest, the key, and what gzip and tar make of the bytes of an archive.
  datatype Tools = Tools(a: BackupStream.Aead, digest: Bytes -> string, key: Bytes, read: Bytes -> Archive.Bundle)

  // Whether the safety backup is made, key and directory are there, and the output can be written.
  datatype Faults = Faults(safety: bool, prepared: bool, output: bool, archive: Archive.Faults)

  predicate Includes(all: Archive.Components, c: Archive.Components) {
    && (Archive.WantFiles(c) ==> Archive.WantFiles(all))
    && (Archive.WantDatabases(c) ==> Archive.WantDatabases(all))
  }

  // `disk` holds the encrypted files that are there once the safety backup has been made.
  function RestoreBackup(
    t: Tools, s: Archive.Site, domain: string, b: Backup, c: Archive.Components, now: int, disk: map<string, Bytes>, f: Faults)
    : (Archive.Site, bool)
  {
    if now > b.record.expires || !Includes(b.components, c) || !f.safety || !f.prepared || b.record.id !in disk then (s, false)
    else match BackupStream.Decrypted(t.a, t.digest, t.key, disk[b.record.id], b.sum)
      case Err => (s, false)
      case Ok(plain) => if !f.output then (s, false) else Archive.Restored(s, domain, t.read(plain), c, b.dbs, f.archive)
  }

  /******* A backup that was made *******/

  // How a backup was made: the tree and dumps it is of, whether its archive was closed whole, and
  // how its plaintext was split and sealed.
  datatype Origin = Origin(
    root: Archive.Entries, exports: map<string, Archive.Bytes>, closed: bool, base: BackupStream.Nonce, pieces: seq<Bytes>)

  ghost predicate Possible(o: Origin, b: Backup) {
    && Archive.Plain(o.root) && Archive.Distinct(b.dbs) && (forall d :: d in b.dbs ==> d in o.exports)
    && BackupStream.Pieces(o.pieces)
  }

  ghost predicate Secure(t: Tools) {
    BackupStream.Correct(t.a) && BackupStream.NonceBound(t.a)
  }

  ghost function Sealed(t: Tools, o: Origin): Bytes
    requires Secure(t) && BackupStream.Pieces(o.pieces)
  {
    BackupStream.Frames(t.a, t.key, o.base, o.pieces, 0)
  }

  // The plaintext reads as the archive, or without an end when that was lost; the digest is that
  // of the frames.
  ghost predicate Made(t: Tools, domain: string, b: Backup, o: Origin)
    requires Secure(t) && Possible(o, b)
  {
    var bundle := Archive.Bundled(domain, b.components, o.root, b.dbs, o.exports, o.closed);
    var read := t.read(BackupStream.Plain(o.pieces));
    && b.sum == t.digest(Sealed(t, o))
    && bundle.Some? && (if o.closed then read == bundle.value else !read.whole)
  }

  // The file is the one that was written.
  ghost predicate Intact(t: Tools, o: Origin, file: Bytes)
    requires Secure(t) && BackupStream.Pieces(o.pieces)
  {
    && |file| >= BackupStream.HEADER && file[..5] == BackupStream.MAGIC && file[BackupStream.HEADER..] == Sealed(t, o)
    && (BackupStream.Count(o.pieces) > 0 ==> file[5..BackupStream.HEADER] == o.base)
  }

  // No file on the disk collides with the digest of the one that was written.
  ghost predicate NoCollision(t: Tools, o: Origin, file: Bytes)
    requires Secure(t) && BackupStream.Pieces(o.pieces)
  {
    |file| >= BackupStream.HEADER && t.digest(file[BackupStream.HEADER..]) == t.digest(Sealed(t, o)) ==>
      file[BackupStream.HEADER..] == Sealed(t, o)
  }

  // A digest without collisions.
  function Spelled(x: Bytes): string {
    seq(|x|, i requires 0 <= i < |x| => x[i] as char)
  }

  lemma SpelledDetermines(x: Bytes, y: Bytes)
    requires Spelled(x) == Spelled(y)
    ensures x == y
  {
    forall i | 0 <= i < |x|
      ensures x[i] == y[i]
    {
      assert Spelled(x)[i] == Spelled(y)[i];
    }
  }

  /** The assumptions can be met for every backup that can be made. */
  lemma ToolsExist(key: Bytes, domain: string, b: Backup, o: Origin) returns (t: Tools, sum: string)
    requires Possible(o, b) && Archive.Bundled(domain, b.components, o.root, b.dbs, o.exports, o.closed).Some?
    ensures Secure(t) && Made(t, domain, b.(sum := sum), o) && forall file: Bytes :: NoCollision(t, o, file)
  {
    var a := BackupStream.IdealCipherExists();
    var bundle := Archive.Bundled(domain, b.components, o.root, b.dbs, o.exports, o.closed).value;
    t := Tools(a, x => Spelled(x), key, _ => bundle);
    sum := Spelled(Sealed(t, o));
    forall file: Bytes | |file| >= BackupStream.HEADER && t.digest(file[BackupStream.HEADER..]) == t.digest(Sealed(t, o))
      ensures file[BackupStream.HEADER..] == Sealed(t, o)
    {
      SpelledDetermines(file[BackupStream.HEADER..], Sealed(t, o));
    }
  }

  // Unpacking, swapping and importing all work.
  predicate ArchiveWorks(s: Archive.Site, domain: string, b: Backup, o: Origin, c: Archive.Components, f: Archive.Faults) {
    var bundle := Archive.Bundled(domain, b.components, o.root, b.dbs, o.exports, o.closed);
    && bundle.Some? && Archive.IsStaged(bundle.value, f)
    && (Archive.WantFiles(c) ==> o.root != Archive.Nil && s.root.Some? && !f.away && !f.into)
    && (Archive.WantDatabases(c) ==> forall d :: d in b.dbs ==> d !in f.imports)
  }

  // Getting as far as the archive.
  ghost predicate Reaches(t: Tools, b: Backup, o: Origin, c: Archive.Components, now: int, disk: map<string, Bytes>, f: Faults)
    requires Secure(t) && BackupStream.Pieces(o.pieces)
  {
    && now <= b.record.expires && Includes(b.components, c) && f.safety && f.prepared && f.output
    && b.record.id in disk && Intact(t, o, disk[b.record.id])
  }

  lemma DecryptsExactly(t: Tools, b: Backup, o: Origin, file: Bytes)
    requires Secure(t) && BackupStream.Pieces(o.pieces) && NoCollision(t, o, file) && b.sum == t.digest(Sealed(t, o))
    ensures
      var r := BackupStream.Decrypted(t.a, t.digest, t.key, file, b.sum);
      && (r.Ok? <==> Intact(t, o, file)) && (r.Ok? ==> r.value == BackupStream.Plain(o.pieces))
  {
    BackupStream.AcceptsExactlyTheOriginal(t.a, t.digest, t.key, o.base, o.pieces, file);
  }

  lemma BrokenArchiveIsRefused(s: Archive.Site, domain: string, bundle: Archive.Bundle, c: Archive.Components, dbs: seq<string>, f: Archive.Faults)
    requires !bundle.whole
    ensures Archive.Restored(s, domain, bundle, c, dbs, f) == (s, false)
  {
  }

  /** Restoring a backup that was made: it succeeds exactly when the record has not expired and has
      the components asked for, the safety backup is made, the file of the backup is still there
      afterwards and is the one that was written, its archive was closed whole, and nothing fails in
      unpacking, swapping or importing; then the site is the one that was backed up. Short of the
      archive nothing changes at all. */
  lemma RestoreSucceedsExactly(
    t: Tools, s: Archive.Site, domain: string, b: Backup, o: Origin, c: Archive.Components, now: int, disk: map<string, Bytes>, f: Faults)
    requires Secure(t) && Possible(o, b) && Made(t, domain, b, o)
    requires b.record.id in disk ==> NoCollision(t, o, disk[b.record.id])
    ensures
      var (u, ok) := RestoreBackup(t, s, domain, b, c, now, disk, f);
      && (ok <==> Reaches(t, b, o, c, now, disk, f) && ArchiveWorks(s, domain, b, o, c, f.archive))
      && (!Reaches(t, b, o, c, now, disk, f) ==> u == s)
      && (ok && Archive.WantFiles(c) ==> u.root.Some? && Archive.Holds(u.root.value, o.root))
      && (ok && !Archive.WantFiles(c) ==> u.root == s.root)
      && (ok && Archive.WantDatabases(c) ==> u.databases == Archive.ReloadedUpTo(s.databases, b.dbs, o.exports, f.archive.imports))
      && (ok && !Archive.WantDatabases(c) ==> u.databases == s.databases)
  {
    if b.record.id in disk {
      DecryptsExactly(t, b, o, disk[b.record.id]);
    }
    if Reaches(t, b, o, c, now, disk, f) {
      if o.closed {
        Archive.RestoreIsAllOrNothing(s, domain, b.components, o.root, b.dbs, o.exports, o.closed, c, f.archive);
      } else {
        BrokenArchiveIsRefused(s, domain, t.read(BackupStream.Plain(o.pieces)), c, b.dbs, f.archive);
      }
    }
  }

  /******* With the pass after the safety backup *******/

  // The files that an undisturbed pass after the safety backup leaves.
  ghost predicate LeftByThePass(
    before: map<string, Bytes>, disk: map<string, Bytes>, safety: Retention.Record, rows: seq<Retention.Record>, kept: seq<Retention.Record>,
    at: int, p: Retention.Faults)
  {
    && Retention.IsPruned([safety] + rows, at, kept)
    && disk.Keys == Retention.FilesLeft(before.Keys, [safety] + rows, kept, {}, p)
    && forall id :: id in disk ==> disk[id] == before[id]
  }

  // The record is unexpired, and the sizes from the newest record through it fit the quota.
  ghost predicate Survives(safety: Retention.Record, rows: seq<Retention.Record>, source: Retention.Record, at: int, k: nat) {
    var u := Retention.Unexpired([safety] + rows, at);
    source.expires > at && k < |u| && Retention.Sum(u[..k + 1]) <= Retention.QUOTA
  }

  lemma SourceFileSurvivesExactly(
    before: map<string, Bytes>, disk: map<string, Bytes>, safety: Retention.Record, rows: seq<Retention.Record>, kept: seq<Retention.Record>,
    source: Retention.Record, at: int, k: nat, p: Retention.Faults)
    requires LeftByThePass(before, disk, safety, rows, kept, at, p) && source in rows
    requires Retention.DistinctIds([safety] + rows) && forall r :: r in [safety] + rows ==> r.completed
    requires var u := Retention.Unexpired([safety] + rows, at); source in u ==> k < |u| && u[k] == source
    ensures source.id in disk <==> source.id in before && (source.id in p.locked || Survives(safety, rows, source, at, k))
  {
    Retention.SourceSurvivesItsSafetyBackup(safety, rows, source, at, kept, k);
    Retention.PrunedIsUnexpired([safety] + rows, at);
    KeptById([safety] + rows, kept, source, at);
  }

  // Identifiers tell records apart.
  lemma KeptById(all: seq<Retention.Record>, kept: seq<Retention.Record>, source: Retention.Record, at: int)
    requires Retention.DistinctIds(all) && source in all && Retention.IsPruned(all, at, kept)
    ensures source.id in Retention.Ids(all)
    ensures source.id in Retention.Ids(kept) <==> source in kept
  {
    var u := Retention.Unexpired(all, at);
    var cut: nat :| Retention.IsLongestFit(u, cut) && kept == Retention.Kept(u, cut);
    Retention.FilteredMembers(all, at);
    Retention.FilteredMembers(u[cut..], at);
    if source.id in Retention.Ids(kept) {
      var r :| r in kept && r.id == source.id;
      assert r in u && r in all;
      var i, j :| 0 <= i < |all| && 0 <= j < |all| && all[i] == r && all[j] == source;
      assert i == j;
    }
  }

  /** The whole of restoreBackup: with completed records and no failing DELETE, it succeeds exactly
      when the backup survives its own safety backup (it is unexpired and the sizes from the newest
      record through it fit the quota, or its file could not be removed), its file is the one that
      was written, and everything else the restore needs is there and works. */
  lemma RestoreEndToEnd(
    t: Tools, s: Archive.Site, domain: string, b: Backup, o: Origin, c: Archive.Components, now: int, f: Faults,
    before: map<string, Bytes>, disk: map<string, Bytes>, safety: Retention.Record, rows: seq<Retention.Record>, kept: seq<Retention.Record>,
    at: int, k: nat, p: Retention.Faults)
    requires Secure(t) && Possible(o, b) && Made(t, domain, b, o)
    requires LeftByThePass(before, disk, safety, rows, kept, at, p) && b.record in rows
    requires Retention.DistinctIds([safety] + rows) && forall r :: r in [safety] + rows ==> r.completed
    requires var u := Retention.Unexpired([safety] + rows, at); b.record in u ==> k < |u| && u[k] == b.record
    requires b.record.id in before ==> NoCollision(t, o, before[b.record.id])
    ensures
      RestoreBackup(t, s, domain, b, c, now, disk, f).1 <==>
        && now <= b.record.expires && Includes(b.components, c) && f.safety && f.prepared && f.output
        && (b.record.id in p.locked || Survives(safety, rows, b.record, at, k))
        && b.record.id in before && Intact(t, o, before[b.record.id])
        && ArchiveWorks(s, domain, b, o, c, f.archive)
  {
    SourceFileSurvivesExactly(before, disk, safety, rows, kept, b.record, at, k, p);
    RestoreSucceedsExactly(t, s, domain, b, o, c, now, disk, f);
  }
}
