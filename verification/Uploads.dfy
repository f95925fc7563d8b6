/**
 The chunked artifact upload protocol of internal/gateway/http.go: a file that
 grows chunk by chunk and an `artifact_uploads` record beside it. The two drift
 apart when a write is short or a record update fails; the protocol has to
 notice.
 */
module Uploads {
  type Id = string
  type Bytes = seq<int>

  const MAX_CHUNK := 0x10_0000        // 1 MiB
  const MAX_CHUNKS := 100
  const MAX_COMPRESSED := 0x640_0000  // 100 MiB
  const TTL := 3600

  // What validateArtifactZIP says of a file that can be read.
  type Zip = Bytes -> bool

  datatype Upload = Upload(owner: string, size: nat, next: nat, total: nat, expires: int)

  datatype Artifact = Artifact(owner: string, size: nat, expires: int)

  datatype Path = Part(id: Id) | Stored(id: Id)

  // What the sessions did, in order: a chunk answered with success, a finished artifact row.
  datatype Event =
    | Accepted(upload: Id, index: int, data: Bytes)
    | Finished(upload: Id, artifact: Id, content: Bytes, total: nat)

  datatype World = World(
    uploads: map<Id, Upload>, artifacts: map<Id, Artifact>, files: map<Path, Bytes>, log: seq<Event>)

  // Which DELETE of the cleanup fails, and the files that cannot be removed.
  datatype CleanupFault = CleanupFault(artifacts: bool, uploads: bool, stuck: set<Path>)

  // Where a begin stops. A failed Close leaves the empty file, as does a failed removal.
  datatype BeginFault = Works | Directory | Create | Close | Record(stuck: bool)

  datatype Op =
    | Begin(token: string, total: int, id: Id, now: int, cleanup: CleanupFault, fault: BeginFault)
    // a failed write leaves the first `written` bytes behind
    | Append(token: string, id: Id, index: int, data: Bytes, now: int,
             writeFails: bool, written: nat, recordFails: bool)
    | Complete(token: string, id: Id, artifact: Id, now: int, readFails: bool,
               renameFails: bool, putFails: bool, undoFails: bool, deleteFails: bool)
    | Cleanup(now: int, failing: CleanupFault)

  /******* One operation *******/

  function Cleaned(w: World, now: int, f: CleanupFault): World {
    var deadArtifacts := set a | a in w.artifacts && w.artifacts[a].expires <= now;
    var w1 := w.(files := w.files - ((set a | a in deadArtifacts :: Stored(a)) - f.stuck));
    if f.artifacts then w1
    else
      var deadUploads := set u | u in w.uploads && w.uploads[u].expires <= now;
      var w2 := w1.(artifacts := w.artifacts - deadArtifacts,
                    files := w1.files - ((set u | u in deadUploads :: Part(u)) - f.stuck));
      if f.uploads then w2 else w2.(uploads := w.uploads - deadUploads)
  }

  function Begun(w: World, op: Op): (World, bool)
    requires op.Begin?
  {
    if op.total < 1 || op.total > MAX_CHUNKS || op.fault.Directory? then (w, false)
    else
      var w1 := Cleaned(w, op.now, op.cleanup);
      var created := w1.(files := w1.files[Part(op.id) := []]);
      if op.fault.Create? || Part(op.id) in w1.files then (w1, false)
      else match op.fault
        case Close => (created, false)
        case Record(stuck) => (if stuck then created else w1, false)
        case _ => (created.(uploads := w1.uploads[op.id := Upload(op.token, 0, 0, op.total, op.now + TTL)]), true)
  }

  // The checks of appendArtifactChunk before it writes.
  predicate MayAppend(w: World, op: Op)
    requires op.Append?
  {
    && 1 <= |op.data| <= MAX_CHUNK
    && op.id in w.uploads
    && var u := w.uploads[op.id];
       && u.owner == op.token && op.now <= u.expires
       && op.index == u.next && op.index < u.total
       && Part(op.id) in w.files && |w.files[Part(op.id)]| == u.size
       && u.size + |op.data| <= MAX_COMPRESSED
  }

  function Landed(op: Op): Bytes
    requires op.Append?
  {
    if !op.writeFails then op.data
    else if op.written <= |op.data| then op.data[..op.written] else op.data
  }

  function Appended(w: World, op: Op): (World, bool)
    requires op.Append?
  {
    if !MayAppend(w, op) then (w, false)
    else
      var u := w.uploads[op.id];
      var w1 := w.(files := w.files[Part(op.id) := w.files[Part(op.id)] + Landed(op)]);
      if op.writeFails || op.recordFails then (w1, false)
      else
        (w1.(uploads := w.uploads[op.id := u.(size := u.size + |op.data|, next := u.next + 1)],
             log := w.log + [Accepted(op.id, op.index, op.data)]), true)
  }

  predicate MayComplete(zip: Zip, w: World, op: Op)
    requires op.Complete?
  {
    && op.id in w.uploads
    && var u := w.uploads[op.id];
       && u.owner == op.token && op.now <= u.expires && u.next == u.total && u.size >= 4
       && Part(op.id) in w.files && !op.readFails && zip(w.files[Part(op.id)]) && !op.renameFails
  }

  function Completed(zip: Zip, w: World, op: Op): (World, bool)
    requires op.Complete?
  {
    if !MayComplete(zip, w, op) then (w, false)
    else
      var u, content := w.uploads[op.id], w.files[Part(op.id)];
      var moved := w.(files := (w.files - {Part(op.id)})[Stored(op.artifact) := content]);
      if op.putFails then (if op.undoFails then moved else w, false)
      else
        var stored := moved.(
          artifacts := w.artifacts[op.artifact := Artifact(op.token, u.size, op.now + TTL)],
          log := w.log + [Finished(op.id, op.artifact, content, u.total)]);
        if op.deleteFails then (stored, false) else (stored.(uploads := w.uploads - {op.id}), true)
  }

  function Next(zip: Zip, w: World, op: Op): World {
    if op.Begin? then Begun(w, op).0
    else if op.Append? then Appended(w, op).0
    else if op.Complete? then Completed(zip, w, op).0
    else Cleaned(w, op.now, op.failing)
  }

  /******* What every run keeps *******/

  // The chunks of one session, in the order they were accepted.
  function Chunks(log: seq<Event>, id: Id): seq<Bytes> {
    if log == [] then []
    else
      var last := log[|log| - 1];
      Chunks(log[..|log| - 1], id) + if last.Accepted? && last.upload == id then [last.data] else []
  }

  function Concat(chunks: seq<Bytes>): Bytes {
    if chunks == [] then [] else Concat(chunks[..|chunks| - 1]) + chunks[|chunks| - 1]
  }

  ghost predicate SessionOk(w: World, id: Id)
    requires id in w.uploads
  {
    var u, chunks := w.uploads[id], Chunks(w.log, id);
    && u.next <= u.total <= MAX_CHUNKS
    && |chunks| == u.next
    && u.size == |Concat(chunks)| <= u.next * MAX_CHUNK
    && (Part(id) in w.files ==>
          && Concat(chunks) <= w.files[Part(id)]
          && (|w.files[Part(id)]| != u.size ==> u.next < u.total))
  }

  // A finished artifact holds exactly the chunks of its session.
  ghost predicate FinishedOk(w: World, k: nat)
    requires k < |w.log| && w.log[k].Finished?
  {
    var e := w.log[k];
    && |Chunks(w.log, e.upload)| == e.total
    && e.content == Concat(Chunks(w.log, e.upload))
    && Part(e.upload) !in w.files
    && (Stored(e.artifact) in w.files ==> w.files[Stored(e.artifact)] == e.content)
  }

  ghost predicate OncePerSession(log: seq<Event>) {
    forall j, k :: 0 <= j < k < |log| && log[j].Finished? && log[k].Finished? ==>
      log[j].upload != log[k].upload && log[j].artifact != log[k].artifact
  }

  ghost predicate ArtifactOk(w: World, a: Id)
    requires a in w.artifacts
  {
    exists k :: 0 <= k < |w.log| && w.log[k].Finished? && w.log[k].artifact == a
      && |w.log[k].content| == w.artifacts[a].size
  }

  ghost predicate Inv(w: World) {
    && (forall id :: id in w.uploads ==> SessionOk(w, id))
    && (forall k :: 0 <= k < |w.log| && w.log[k].Finished? ==> FinishedOk(w, k))
    && OncePerSession(w.log)
    && (forall a :: a in w.artifacts ==> ArtifactOk(w, a))
  }

  // Identifiers come from a random generator and were never used before.
  ghost predicate Fresh(w: World, op: Op) {
    match op
    case Begin(_, _, id, _, _, _) =>
      && id !in w.uploads && Part(id) !in w.files
      && (forall k :: 0 <= k < |w.log| ==> w.log[k].upload != id)
    case Complete(_, _, a, _, _, _, _, _, _) =>
      && a !in w.artifacts && Stored(a) !in w.files
      && (forall k :: 0 <= k < |w.log| && w.log[k].Finished? ==> w.log[k].artifact != a)
    case _ => true
  }

  lemma ChunksGrow(log: seq<Event>, e: Event, id: Id)
    ensures e.Accepted? && e.upload == id ==> Chunks(log + [e], id) == Chunks(log, id) + [e.data]
    ensures !(e.Accepted? && e.upload == id) ==> Chunks(log + [e], id) == Chunks(log, id)
  {
    assert (log + [e])[..|log|] == log;
  }

  lemma {:induction false} NoChunks(log: seq<Event>, id: Id)
    requires forall k :: 0 <= k < |log| ==> log[k].upload != id
    ensures Chunks(log, id) == []
  {
    if log != [] {
      NoChunks(log[..|log| - 1], id);
    }
  }

  lemma ConcatGrows(chunks: seq<Bytes>, data: Bytes)
    ensures Concat(chunks + [data]) == Concat(chunks) + data
  {
    assert (chunks + [data])[..|chunks|] == chunks;
  }

  lemma CleanupKeepsInv(w: World, now: int, f: CleanupFault)
    requires Inv(w)
    ensures Inv(Cleaned(w, now, f))
  {
    var v := Cleaned(w, now, f);
    forall id | id in v.uploads
      ensures SessionOk(v, id)
    {
      assert SessionOk(w, id);
    }
    forall k | 0 <= k < |v.log| && v.log[k].Finished?
      ensures FinishedOk(v, k)
    {
      assert FinishedOk(w, k);
    }
    forall a | a in v.artifacts
      ensures ArtifactOk(v, a)
    {
      assert ArtifactOk(w, a);
    }
  }

  // What a begin that gets as far as its file leaves: the empty file, and its record or none.
  ghost predicate Opened(w: World, id: Id, u: Upload, v: World) {
    var created := w.(files := w.files[Part(id) := []]);
    v == created || v == created.(uploads := w.uploads[id := u])
  }

  lemma BegunOpens(w: World, op: Op)
    requires op.Begin?
    ensures
      var w1, v := Cleaned(w, op.now, op.cleanup), Begun(w, op).0;
      v == w || v == w1 || (op.total <= MAX_CHUNKS && Opened(w1, op.id, Upload(op.token, 0, 0, op.total, op.now + TTL), v))
  {
  }

  lemma OpenedKeepsInv(w: World, id: Id, u: Upload, v: World)
    requires Inv(w) && id !in w.uploads && (forall k :: 0 <= k < |w.log| ==> w.log[k].upload != id)
    requires Opened(w, id, u, v) && u.size == u.next == 0 && u.total <= MAX_CHUNKS
    ensures Inv(v)
  {
    NoChunks(w.log, id);
    forall x | x in v.uploads
      ensures SessionOk(v, x)
    {
      if x != id {
        assert SessionOk(w, x);
      }
    }
    forall k | 0 <= k < |v.log| && v.log[k].Finished?
      ensures FinishedOk(v, k)
    {
      assert FinishedOk(w, k);
    }
    forall a | a in v.artifacts
      ensures ArtifactOk(v, a)
    {
      assert ArtifactOk(w, a);
    }
  }

  lemma BeginKeepsInv(zip: Zip, w: World, op: Op)
    requires op.Begin? && Inv(w) && Fresh(w, op)
    ensures Inv(Next(zip, w, op))
  {
    var w1, v := Cleaned(w, op.now, op.cleanup), Next(zip, w, op);
    CleanupKeepsInv(w, op.now, op.cleanup);
    BegunOpens(w, op);
    if v != w && v != w1 {
      OpenedKeepsInv(w1, op.id, Upload(op.token, 0, 0, op.total, op.now + TTL), v);
    }
  }

  lemma AppendKeepsOther(w: World, op: Op, id: Id)
    requires op.Append? && MayAppend(w, op) && id in w.uploads && SessionOk(w, id) && id != op.id
    ensures id in Appended(w, op).0.uploads && SessionOk(Appended(w, op).0, id)
  {
    ChunksGrow(w.log, Accepted(op.id, op.index, op.data), id);
  }

  lemma AppendKeepsItsOwn(w: World, op: Op)
    requires op.Append? && MayAppend(w, op) && SessionOk(w, op.id)
    ensures op.id in Appended(w, op).0.uploads && SessionOk(Appended(w, op).0, op.id)
  {
    ChunksGrow(w.log, Accepted(op.id, op.index, op.data), op.id);
    ConcatGrows(Chunks(w.log, op.id), op.data);
  }

  lemma AppendKeepsSessions(w: World, op: Op, id: Id)
    requires op.Append? && Inv(w) && MayAppend(w, op) && id in w.uploads
    ensures id in Appended(w, op).0.uploads && SessionOk(Appended(w, op).0, id)
  {
    assert SessionOk(w, id);
    if id == op.id {
      AppendKeepsItsOwn(w, op);
    } else {
      AppendKeepsOther(w, op, id);
    }
  }

  lemma AppendKeepsFinished(w: World, op: Op, k: nat)
    requires op.Append? && Inv(w) && MayAppend(w, op)
    requires k < |w.log| && w.log[k].Finished?
    ensures FinishedOk(Appended(w, op).0, k)
  {
    assert FinishedOk(w, k);
    ChunksGrow(w.log, Accepted(op.id, op.index, op.data), w.log[k].upload);
  }

  lemma GrownLogKeepsArtifacts(w: World, v: World, a: Id)
    requires a in w.artifacts && ArtifactOk(w, a)
    requires w.log <= v.log && a in v.artifacts && v.artifacts[a] == w.artifacts[a]
    ensures ArtifactOk(v, a)
  {
    var k :| 0 <= k < |w.log| && w.log[k].Finished? && w.log[k].artifact == a
      && |w.log[k].content| == w.artifacts[a].size;
    assert v.log[k] == w.log[k];
  }

  lemma AppendKeepsInv(zip: Zip, w: World, op: Op)
    requires op.Append? && Inv(w)
    ensures Inv(Next(zip, w, op))
  {
    if MayAppend(w, op) {
      var v := Appended(w, op).0;
      forall id | id in v.uploads
        ensures SessionOk(v, id)
      {
        AppendKeepsSessions(w, op, id);
      }
      forall k | 0 <= k < |v.log| && v.log[k].Finished?
        ensures FinishedOk(v, k)
      {
        AppendKeepsFinished(w, op, k);
      }
      forall a | a in v.artifacts
        ensures ArtifactOk(v, a)
      {
        GrownLogKeepsArtifacts(w, v, a);
      }
    }
  }

  function FinishedEvent(zip: Zip, w: World, op: Op): Event
    requires op.Complete? && MayComplete(zip, w, op)
  {
    Finished(op.id, op.artifact, w.files[Part(op.id)], w.uploads[op.id].total)
  }

  lemma CompleteKeepsSessions(zip: Zip, w: World, op: Op, id: Id)
    requires op.Complete? && Inv(w) && MayComplete(zip, w, op) && id in Completed(zip, w, op).0.uploads
    ensures SessionOk(Completed(zip, w, op).0, id)
  {
    assert SessionOk(w, id);
    ChunksGrow(w.log, FinishedEvent(zip, w, op), id);
  }

  lemma CompleteKeepsFinished(zip: Zip, w: World, op: Op, k: nat)
    requires op.Complete? && Inv(w) && Fresh(w, op) && MayComplete(zip, w, op)
    requires k < |Completed(zip, w, op).0.log| && Completed(zip, w, op).0.log[k].Finished?
    ensures FinishedOk(Completed(zip, w, op).0, k)
    ensures k < |w.log| ==> w.log[k].upload != op.id
  {
    if k < |w.log| {
      assert FinishedOk(w, k);
      ChunksGrow(w.log, FinishedEvent(zip, w, op), w.log[k].upload);
    } else {
      assert SessionOk(w, op.id);
      ChunksGrow(w.log, FinishedEvent(zip, w, op), op.id);
    }
  }

  lemma CompleteKeepsArtifacts(zip: Zip, w: World, op: Op, a: Id)
    requires op.Complete? && Inv(w) && Fresh(w, op) && MayComplete(zip, w, op)
    requires a in Completed(zip, w, op).0.artifacts
    ensures ArtifactOk(Completed(zip, w, op).0, a)
  {
    var v := Completed(zip, w, op).0;
    if a in w.artifacts {
      GrownLogKeepsArtifacts(w, v, a);
    } else {
      assert SessionOk(w, op.id);
      assert v.log[|w.log|] == FinishedEvent(zip, w, op);
    }
  }

  lemma CompleteKeepsOnce(zip: Zip, w: World, op: Op)
    requires op.Complete? && Inv(w) && Fresh(w, op) && MayComplete(zip, w, op)
    ensures OncePerSession(Completed(zip, w, op).0.log)
  {
    var v := Completed(zip, w, op).0;
    forall k | 0 <= k < |w.log| && w.log[k].Finished?
      ensures w.log[k].upload != op.id
    {
      CompleteKeepsFinished(zip, w, op, k);
    }
    assert forall k :: 0 <= k < |w.log| ==> v.log[k] == w.log[k];
  }

  lemma CompleteKeepsInv(zip: Zip, w: World, op: Op)
    requires op.Complete? && Inv(w) && Fresh(w, op)
    ensures Inv(Next(zip, w, op))
  {
    if MayComplete(zip, w, op) {
      var v := Completed(zip, w, op).0;
      forall id | id in v.uploads
        ensures SessionOk(v, id)
      {
        CompleteKeepsSessions(zip, w, op, id);
      }
      forall k | 0 <= k < |v.log| && v.log[k].Finished?
        ensures FinishedOk(v, k)
      {
        CompleteKeepsFinished(zip, w, op, k);
      }
      forall a | a in v.artifacts
        ensures ArtifactOk(v, a)
      {
        CompleteKeepsArtifacts(zip, w, op, a);
      }
      CompleteKeepsOnce(zip, w, op);
    }
  }

  lemma StepKeepsInv(zip: Zip, w: World, op: Op)
    requires Inv(w) && Fresh(w, op)
    ensures Inv(Next(zip, w, op))
  {
    if op.Begin? {
      BeginKeepsInv(zip, w, op);
    } else if op.Append? {
      AppendKeepsInv(zip, w, op);
    } else if op.Complete? {
      CompleteKeepsInv(zip, w, op);
    } else {
      CleanupKeepsInv(w, op.now, op.failing);
    }
  }

  const EMPTY := World(map[], map[], map[], [])

  function Run(zip: Zip, w: World, ops: seq<Op>): World
    decreases |ops|
  {
    if ops == [] then w else Run(zip, Next(zip, w, ops[0]), ops[1..])
  }

  ghost predicate FreshRun(zip: Zip, w: World, ops: seq<Op>)
    decreases |ops|
  {
    ops == [] || (Fresh(w, ops[0]) && FreshRun(zip, Next(zip, w, ops[0]), ops[1..]))
  }

  /** Over every run, with any writes short and any record updates failing. */
  lemma {:induction false} RunKeepsInv(zip: Zip, w: World, ops: seq<Op>)
    requires Inv(w) && FreshRun(zip, w, ops)
    ensures Inv(Run(zip, w, ops))
    decreases |ops|
  {
    if ops != [] {
      StepKeepsInv(zip, w, ops[0]);
      RunKeepsInv(zip, Next(zip, w, ops[0]), ops[1..]);
    }
  }

  /******* What each operation does *******/

  // Only expired records and their files go, and nothing that stays is changed.
  ghost predicate OnlyExpiredGoes(w: World, v: World, now: int) {
    && (forall u :: u in w.uploads ==> if u in v.uploads then v.uploads[u] == w.uploads[u] else w.uploads[u].expires <= now)
    && (forall a :: a in w.artifacts ==> if a in v.artifacts then v.artifacts[a] == w.artifacts[a] else w.artifacts[a].expires <= now)
    && (forall p :: p in w.files ==> if p in v.files then v.files[p] == w.files[p] else IsExpired(w, p, now))
  }

  // The file of an expired record.
  predicate IsExpired(w: World, p: Path, now: int) {
    match p
    case Part(u) => u in w.uploads && w.uploads[u].expires <= now
    case Stored(a) => a in w.artifacts && w.artifacts[a].expires <= now
  }

  // No expired record is left, and none of their files that could be removed.
  ghost predicate NoExpiredLeft(w: World, v: World, now: int, stuck: set<Path>) {
    && (forall u :: u in v.uploads ==> u !in w.uploads || w.uploads[u].expires > now)
    && (forall a :: a in v.artifacts ==> a !in w.artifacts || w.artifacts[a].expires > now)
    && (forall p :: p in v.files && p in w.files && IsExpired(w, p, now) ==> p in stuck)
  }

  /** A cleanup takes away only what has expired, whatever fails: every unexpired upload and
      artifact keeps its record and its file, byte for byte. When no statement fails, no expired
      record stays, and no file of one that could be removed. */
  lemma CleanupTakesTheExpired(zip: Zip, w: World, now: int, f: CleanupFault)
    ensures
      var v := Next(zip, w, Cleanup(now, f));
      && OnlyExpiredGoes(w, v, now)
      && v.uploads.Keys <= w.uploads.Keys && v.artifacts.Keys <= w.artifacts.Keys && v.files.Keys <= w.files.Keys
      && v.log == w.log
      && (!f.artifacts && !f.uploads ==> NoExpiredLeft(w, v, now, f.stuck))
  {
  }

  /** A begin answers success exactly when the number of chunks is allowed and nothing fails; then
      there is a new record of the token with no chunks yet, and its empty file. */
  lemma BeginOpensASession(zip: Zip, w: World, op: Op)
    requires op.Begin? && op.id !in w.uploads && Part(op.id) !in w.files
    ensures
      var v, ok := Next(zip, w, op), Begun(w, op).1;
      && (ok <==> 1 <= op.total <= 100 && op.fault.Works?)
      && (ok ==>
            && op.id in v.uploads && v.uploads[op.id] == Upload(op.token, 0, 0, op.total, op.now + 3600)
            && Part(op.id) in v.files && v.files[Part(op.id)] == [])
      && (!ok ==> op.id !in v.uploads)
      && v.uploads.Keys <= w.uploads.Keys + {op.id} && v.artifacts.Keys <= w.artifacts.Keys
      && v.files.Keys <= w.files.Keys + {Part(op.id)} && v.log == w.log
  {
  }

  lemma OpenedAddsOnly(w: World, w1: World, v: World, id: Id, u: Upload, now: int)
    requires id !in w.uploads && Part(id) !in w.files && OnlyExpiredGoes(w, w1, now)
    requires Opened(w1, id, u, v)
    ensures OnlyExpiredGoes(w, v, now)
    ensures forall stuck :: NoExpiredLeft(w, w1, now, stuck) ==> NoExpiredLeft(w, v, now, stuck)
  {
  }

  /** Besides, a begin takes away what has expired and nothing else, whatever fails. */
  lemma BeginTakesTheExpired(zip: Zip, w: World, op: Op)
    requires op.Begin? && op.id !in w.uploads && Part(op.id) !in w.files
    ensures OnlyExpiredGoes(w, Next(zip, w, op), op.now)
    ensures 1 <= op.total <= 100 && !op.fault.Directory? && !op.cleanup.artifacts && !op.cleanup.uploads ==>
      NoExpiredLeft(w, Next(zip, w, op), op.now, op.cleanup.stuck)
  {
    var w1, v := Cleaned(w, op.now, op.cleanup), Next(zip, w, op);
    CleanupTakesTheExpired(zip, w, op.now, op.cleanup);
    assert w1 == Next(zip, w, Cleanup(op.now, op.cleanup));
    if 1 <= op.total <= 100 && !op.fault.Directory? && v != w1 {
      assert v != w ==> Opened(w1, op.id, Upload(op.token, 0, 0, op.total, op.now + TTL), v);
      OpenedAddsOnly(w, w1, v, op.id, Upload(op.token, 0, 0, op.total, op.now + TTL), op.now);
    }
  }

  // The session is there, the token's own, and has not expired.
  predicate MayUse(w: World, id: Id, token: string, now: int) {
    id in w.uploads && w.uploads[id].owner == token && now <= w.uploads[id].expires
  }

  // All but one session and its file are as they were.
  ghost predicate OthersStay(w: World, v: World, id: Id) {
    && (forall u :: u != id ==> (u in v.uploads <==> u in w.uploads) && (u in w.uploads ==> v.uploads[u] == w.uploads[u]))
    && (forall p :: p != Part(id) && p in w.files ==> p in v.files && v.files[p] == w.files[p])
  }

  /** A chunk is accepted exactly when it is the next one of the token's own unexpired session, of 1
      byte to 1 MiB, file and record agree, the whole stays within 100 MiB, and neither the write
      nor the record fails. Then it is behind what was there, and the record counts it. A request
      with another token, or past the expiry, changes nothing at all. */
  lemma AppendAcceptsTheNextChunk(zip: Zip, w: World, op: Op)
    requires op.Append?
    ensures
      var v, ok := Next(zip, w, op), Appended(w, op).1;
      && (ok <==>
            && MayUse(w, op.id, op.token, op.now) && 1 <= |op.data| <= 1024 * 1024
            && op.index == w.uploads[op.id].next < w.uploads[op.id].total
            && Part(op.id) in w.files && |w.files[Part(op.id)]| == w.uploads[op.id].size
            && w.uploads[op.id].size + |op.data| <= 100 * 1024 * 1024 && !op.writeFails && !op.recordFails)
      && (ok ==>
            var u := w.uploads[op.id];
            && op.id in v.uploads && v.uploads[op.id] == Upload(u.owner, u.size + |op.data|, u.next + 1, u.total, u.expires)
            && Part(op.id) in v.files && v.files[Part(op.id)] == w.files[Part(op.id)] + op.data)
      && (!ok ==> v.uploads == w.uploads)
      && (!ok && Part(op.id) in w.files ==> Part(op.id) in v.files && w.files[Part(op.id)] <= v.files[Part(op.id)])
      && (!MayUse(w, op.id, op.token, op.now) ==> v == w)
      && OthersStay(w, v, op.id) && v.artifacts == w.artifacts && v.files.Keys == w.files.Keys
  {
  }

  /** A session is completed exactly when it is the token's own and unexpired, has all its chunks and
      at least four bytes, its file is a valid ZIP, and nothing fails. Then its bytes are the
      artifact of the token, and session and partial file are gone. A request with another token, or
      past the expiry, changes nothing at all. */
  lemma CompleteMakesTheArtifact(zip: Zip, w: World, op: Op)
    requires op.Complete? && Stored(op.artifact) !in w.files && op.artifact !in w.artifacts
    ensures
      var v, ok := Next(zip, w, op), Completed(zip, w, op).1;
      && (ok <==>
            && MayUse(w, op.id, op.token, op.now) && w.uploads[op.id].next == w.uploads[op.id].total
            && w.uploads[op.id].size >= 4 && Part(op.id) in w.files && zip(w.files[Part(op.id)])
            && !op.readFails && !op.renameFails && !op.putFails && !op.deleteFails)
      && (ok ==>
            && op.id !in v.uploads && Part(op.id) !in v.files
            && Stored(op.artifact) in v.files && v.files[Stored(op.artifact)] == w.files[Part(op.id)]
            && op.artifact in v.artifacts
            && v.artifacts[op.artifact] == Artifact(op.token, w.uploads[op.id].size, op.now + 3600))
      && (!ok ==> v.uploads == w.uploads)
      && (op.artifact in v.artifacts ==> Stored(op.artifact) in v.files)
      && (!MayUse(w, op.id, op.token, op.now) ==> v == w)
      && OthersStay(w, v, op.id) && v.artifacts.Keys <= w.artifacts.Keys + {op.artifact}
      && forall a :: a in w.artifacts ==> a in v.artifacts && v.artifacts[a] == w.artifacts[a]
  {
  }

  /******* What that gives *******/

  /** Every finished artifact is exactly the accepted chunks 0..n-1 of its session in order,
      n being the announced number, and a session finishes at most once. */
  lemma ArtifactsAreWholeAndUnique(zip: Zip, ops: seq<Op>, j: nat, k: nat)
    requires FreshRun(zip, EMPTY, ops)
    requires j < |Run(zip, EMPTY, ops).log| && Run(zip, EMPTY, ops).log[j].Finished?
    requires k < |Run(zip, EMPTY, ops).log| && Run(zip, EMPTY, ops).log[k].Finished?
    ensures
      var log := Run(zip, EMPTY, ops).log;
      var chunks := Chunks(log, log[j].upload);
      && |chunks| == log[j].total
      && log[j].content == Concat(chunks)
      && (log[j].upload == log[k].upload ==> j == k)
  {
    RunKeepsInv(zip, EMPTY, ops);
    assert FinishedOk(Run(zip, EMPTY, ops), j);
  }

  /** The 100 MiB guard never decides anything: the chunk and session limits already imply it. */
  lemma SizeGuardNeverFires(zip: Zip, ops: seq<Op>, id: Id, data: Bytes)
    requires FreshRun(zip, EMPTY, ops) && id in Run(zip, EMPTY, ops).uploads
    requires |data| <= MAX_CHUNK && Run(zip, EMPTY, ops).uploads[id].next < Run(zip, EMPTY, ops).uploads[id].total
    ensures Run(zip, EMPTY, ops).uploads[id].size + |data| <= MAX_COMPRESSED
  {
    RunKeepsInv(zip, EMPTY, ops);
    assert SessionOk(Run(zip, EMPTY, ops), id);
  }

  /******* Which sessions can still finish *******/

  // File and record of the session are there and agree.
  ghost predicate InStep(w: World, id: Id) {
    id in w.uploads && Part(id) in w.files && |w.files[Part(id)]| == w.uploads[id].size
  }

  ghost predicate FinishedAt(log: seq<Event>, k: nat, id: Id) {
    k < |log| && log[k].Finished? && log[k].upload == id
  }

  // No chunk of the session is accepted between w and v, nor is it finished; its record
  // and its file are as they were or gone.
  ghost predicate Idle(w: World, v: World, id: Id) {
    && w.log <= v.log && Chunks(v.log, id) == Chunks(w.log, id)
    && (forall k: nat :: |w.log| <= k ==> !FinishedAt(v.log, k, id))
    && (id in v.uploads ==> id in w.uploads && v.uploads[id] == w.uploads[id])
    && (Part(id) in v.files ==> Part(id) in w.files && v.files[Part(id)] == w.files[Part(id)])
  }

  lemma IdleAppend(zip: Zip, w: World, op: Op, id: Id)
    requires op.Append? && (op.id != id || !MayAppend(w, op))
    ensures Idle(w, Next(zip, w, op), id)
  {
    ChunksGrow(w.log, Accepted(op.id, op.index, op.data), id);
  }

  lemma IdleComplete(zip: Zip, w: World, op: Op, id: Id)
    requires op.Complete? && (op.id != id || !MayComplete(zip, w, op))
    ensures Idle(w, Next(zip, w, op), id)
  {
    if MayComplete(zip, w, op) {
      ChunksGrow(w.log, FinishedEvent(zip, w, op), id);
    }
  }

  lemma IdleCleanup(w: World, now: int, f: CleanupFault, id: Id)
    ensures Idle(w, Cleaned(w, now, f), id)
  {
  }

  lemma IdleOpened(w: World, other: Id, u: Upload, v: World, id: Id)
    requires Opened(w, other, u, v) && other != id
    ensures Idle(w, v, id)
  {
  }

  lemma IdleTwice(u: World, v: World, w: World, id: Id)
    requires Idle(u, v, id) && Idle(v, w, id)
    ensures Idle(u, w, id)
  {
    forall k: nat | |u.log| <= k
      ensures !FinishedAt(w.log, k, id)
    {
      assert !FinishedAt(v.log, k, id);
    }
  }

  lemma IdleBegin(zip: Zip, w: World, op: Op, id: Id)
    requires op.Begin? && op.id != id
    ensures Idle(w, Next(zip, w, op), id)
  {
    var w1, v := Cleaned(w, op.now, op.cleanup), Next(zip, w, op);
    IdleCleanup(w, op.now, op.cleanup, id);
    BegunOpens(w, op);
    if v != w && v != w1 {
      IdleOpened(w1, op.id, Upload(op.token, 0, 0, op.total, op.now + TTL), v, id);
      IdleTwice(w, w1, v, id);
    }
  }

  // What is idle stays out of step.
  lemma OutOfStepStays(w: World, v: World, id: Id)
    requires !InStep(w, id) && Idle(w, v, id)
    ensures !InStep(v, id)
  {
  }

  // A step that accepts nothing for the session and does not finish it leaves it alone.
  lemma OtherStepIsIdle(zip: Zip, w: World, op: Op, id: Id)
    requires op.Begin? ==> op.id != id
    requires op.Append? ==> op.id != id || !MayAppend(w, op)
    requires op.Complete? ==> op.id != id || !MayComplete(zip, w, op)
    ensures Idle(w, Next(zip, w, op), id)
  {
    if op.Begin? {
      IdleBegin(zip, w, op, id);
    } else if op.Append? {
      IdleAppend(zip, w, op, id);
    } else if op.Complete? {
      IdleComplete(zip, w, op, id);
    } else {
      IdleCleanup(w, op.now, op.failing, id);
    }
  }

  lemma StepIsIdle(zip: Zip, w: World, op: Op, id: Id)
    requires Inv(w) && !InStep(w, id) && (op.Begin? ==> op.id != id)
    ensures Idle(w, Next(zip, w, op), id) && !InStep(Next(zip, w, op), id)
  {
    assert id in w.uploads ==> SessionOk(w, id);
    OtherStepIsIdle(zip, w, op, id);
    OutOfStepStays(w, Next(zip, w, op), id);
  }

  // No identifier is given out twice.
  ghost predicate NotBegun(ops: seq<Op>, id: Id) {
    forall op :: op in ops && op.Begin? ==> op.id != id
  }

  /** Once file and record of a session have drifted apart, or either is gone, no run whatever
      accepts another chunk of it or finishes it, or changes what is left of it. */
  lemma {:induction false} DriftedSessionsNeverFinish(zip: Zip, w: World, id: Id, ops: seq<Op>)
    requires Inv(w) && FreshRun(zip, w, ops) && NotBegun(ops, id) && !InStep(w, id)
    ensures Idle(w, Run(zip, w, ops), id)
    decreases |ops|
  {
    if ops != [] {
      assert ops[0] in ops;
      StepKeepsInv(zip, w, ops[0]);
      StepIsIdle(zip, w, ops[0], id);
      DriftedSessionsNeverFinish(zip, Next(zip, w, ops[0]), id, ops[1..]);
      IdleTwice(w, Next(zip, w, ops[0]), Run(zip, w, ops), id);
    }
  }

  // The clock of a run does not go back.
  ghost predicate Timely(now: int, ops: seq<Op>)
    decreases |ops|
  {
    ops == [] || (now <= ops[0].now && Timely(ops[0].now, ops[1..]))
  }

  // The run, from `now` on, finishes the session.
  ghost predicate Finishes(zip: Zip, w: World, id: Id, now: int, ops: seq<Op>) {
    && FreshRun(zip, w, ops) && NotBegun(ops, id) && Timely(now, ops)
    && exists k: nat :: |w.log| <= k && FinishedAt(Run(zip, w, ops).log, k, id)
  }

  // A content the session can still get: what is there, then a chunk for each missing one.
  ghost predicate Reachable(file: Bytes, u: Upload, content: Bytes) {
    var missing := u.total - u.next;
    file <= content && missing <= |content| - |file| <= missing * MAX_CHUNK
  }

  ghost predicate Completes(zip: Zip, file: Bytes, u: Upload, content: Bytes) {
    Reachable(file, u, content) && zip(content) && |content| >= 4
  }

  ghost predicate CanFinish(zip: Zip, w: World, id: Id, now: int) {
    && InStep(w, id) && now <= w.uploads[id].expires
    && exists content :: Completes(zip, w.files[Part(id)], w.uploads[id], content)
  }

  ghost predicate UnusedArtifact(w: World, a: Id) {
    && a !in w.artifacts && Stored(a) !in w.files
    && forall k :: 0 <= k < |w.log| && w.log[k].Finished? ==> w.log[k].artifact != a
  }

  // The next chunk on the way to a content.
  function NextLength(missing: nat, left: nat): nat
    requires 1 <= missing <= left
  {
    if left - (missing - 1) <= MAX_CHUNK then left - (missing - 1) else MAX_CHUNK
  }

  function NextChunk(w: World, id: Id, content: Bytes, now: int): Op
    requires InStep(w, id) && w.uploads[id].next < w.uploads[id].total
    requires Reachable(w.files[Part(id)], w.uploads[id], content)
  {
    var u := w.uploads[id];
    var n := NextLength(u.total - u.next, |content| - u.size);
    Append(u.owner, id, u.next, content[u.size..u.size + n], now, false, 0, false)
  }

  lemma LengthsLeft(missing: nat, left: nat)
    requires 1 <= missing <= left <= missing * MAX_CHUNK
    ensures
      var n := NextLength(missing, left);
      1 <= n <= MAX_CHUNK && missing - 1 <= left - n <= (missing - 1) * MAX_CHUNK
  {
  }

  lemma ChunkIsTaken(zip: Zip, w: World, id: Id, a: Id, content: Bytes, now: int)
    requires Inv(w) && InStep(w, id) && UnusedArtifact(w, a) && now <= w.uploads[id].expires
    requires w.uploads[id].next < w.uploads[id].total && Reachable(w.files[Part(id)], w.uploads[id], content)
    ensures
      var v := Next(zip, w, NextChunk(w, id, content, now));
      && InStep(v, id) && UnusedArtifact(v, a) && |v.log| > |w.log| && now <= v.uploads[id].expires
      && Reachable(v.files[Part(id)], v.uploads[id], content)
      && v.uploads[id].total == w.uploads[id].total && v.uploads[id].next == w.uploads[id].next + 1
  {
    var u, op := w.uploads[id], NextChunk(w, id, content, now);
    assert SessionOk(w, id);
    LengthsLeft(u.total - u.next, |content| - u.size);
    assert MayAppend(w, op);
    assert w.files[Part(id)] == content[..u.size];
    assert content[..u.size] + op.data == content[..u.size + |op.data|];
  }

  // The missing chunks one by one, and then the completion.
  lemma {:induction false} RestFinishes(zip: Zip, w: World, id: Id, a: Id, content: Bytes, now: int) returns (ops: seq<Op>)
    requires Inv(w) && InStep(w, id) && UnusedArtifact(w, a) && now <= w.uploads[id].expires
    requires w.uploads[id].next <= w.uploads[id].total && Completes(zip, w.files[Part(id)], w.uploads[id], content)
    ensures Finishes(zip, w, id, now, ops)
    decreases w.uploads[id].total - w.uploads[id].next
  {
    var u := w.uploads[id];
    if u.next < u.total {
      var op := NextChunk(w, id, content, now);
      ChunkIsTaken(zip, w, id, a, content, now);
      StepKeepsInv(zip, w, op);
      var v := Next(zip, w, op);
      var rest := RestFinishes(zip, v, id, a, content, now);
      ops := [op] + rest;
      assert ops[1..] == rest;
      var k: nat :| |v.log| <= k && FinishedAt(Run(zip, v, rest).log, k, id);
      assert |w.log| <= k && FinishedAt(Run(zip, w, ops).log, k, id);
    } else {
      assert content == w.files[Part(id)];
      var op := Complete(u.owner, id, a, now, false, false, false, false, false);
      ops := [op];
      assert ops[1..] == [] && Run(zip, w, ops) == Next(zip, w, op);
      assert FinishedAt(Run(zip, w, ops).log, |w.log|, id);
    }
  }

  // An accepted chunk reaches nothing new.
  lemma ChunkReachesLess(zip: Zip, w: World, op: Op, content: Bytes)
    requires op.Append? && Inv(w) && MayAppend(w, op)
    requires var v := Next(zip, w, op); InStep(v, op.id) && Completes(zip, v.files[Part(op.id)], v.uploads[op.id], content)
    ensures InStep(w, op.id) && op.now <= w.uploads[op.id].expires
    ensures Completes(zip, w.files[Part(op.id)], w.uploads[op.id], content)
  {
    var v, id := Next(zip, w, op), op.id;
    assert SessionOk(w, id);
    if v.uploads[id] == w.uploads[id] {
      assert v.files[Part(id)] == w.files[Part(id)] + Landed(op) && Landed(op) == [];
      assert v.files[Part(id)] == w.files[Part(id)];
    }
  }

  // A session that cannot finish is not finished by a later step, and still cannot finish.
  lemma StepKeepsFromFinishing(zip: Zip, w: World, op: Op, id: Id, now: int)
    requires Inv(w) && !CanFinish(zip, w, id, now) && now <= op.now && (op.Begin? ==> op.id != id)
    ensures !CanFinish(zip, Next(zip, w, op), id, op.now)
    ensures w.log <= Next(zip, w, op).log && forall k: nat :: |w.log| <= k ==> !FinishedAt(Next(zip, w, op).log, k, id)
  {
    var v := Next(zip, w, op);
    if !InStep(w, id) {
      StepIsIdle(zip, w, op, id);
    } else if op.Append? && op.id == id && MayAppend(w, op) {
      if CanFinish(zip, v, id, op.now) {
        var content :| Completes(zip, v.files[Part(id)], v.uploads[id], content);
        ChunkReachesLess(zip, w, op, content);
      }
    } else {
      if op.Complete? && op.id == id && MayComplete(zip, w, op) {
        assert Completes(zip, w.files[Part(id)], w.uploads[id], w.files[Part(id)]);
      }
      OtherStepIsIdle(zip, w, op, id);
    }
  }

  lemma {:induction false} NeverFinishes(zip: Zip, w: World, id: Id, now: int, ops: seq<Op>)
    requires Inv(w) && FreshRun(zip, w, ops) && NotBegun(ops, id) && Timely(now, ops) && !CanFinish(zip, w, id, now)
    ensures w.log <= Run(zip, w, ops).log && forall k: nat :: |w.log| <= k ==> !FinishedAt(Run(zip, w, ops).log, k, id)
    decreases |ops|
  {
    if ops != [] {
      var v := Next(zip, w, ops[0]);
      assert ops[0] in ops;
      StepKeepsInv(zip, w, ops[0]);
      StepKeepsFromFinishing(zip, w, ops[0], id, now);
      NeverFinishes(zip, v, id, ops[0].now, ops[1..]);
      forall k: nat | |w.log| <= k
        ensures !FinishedAt(Run(zip, w, ops).log, k, id)
      {
        assert !FinishedAt(v.log, k, id);
      }
    }
  }

  /** From now on, with a clock that does not go back, some run finishes the session if and only if
      it has not expired, its record and its file are there and agree, and what is there, with a
      chunk for each missing one, can become a valid ZIP of at least four bytes; with no chunk
      missing that is the file as it is. */
  lemma CanFinishExactly(zip: Zip, w: World, id: Id, now: int, a: Id)
    requires Inv(w) && UnusedArtifact(w, a)
    ensures (exists ops :: Finishes(zip, w, id, now, ops)) <==> CanFinish(zip, w, id, now)
    ensures InStep(w, id) && w.uploads[id].next == w.uploads[id].total ==>
      (CanFinish(zip, w, id, now) <==>
        now <= w.uploads[id].expires && zip(w.files[Part(id)]) && |w.files[Part(id)]| >= 4)
  {
    if CanFinish(zip, w, id, now) {
      assert SessionOk(w, id);
      var content :| Completes(zip, w.files[Part(id)], w.uploads[id], content);
      var ops := RestFinishes(zip, w, id, a, content, now);
    }
    forall ops | Finishes(zip, w, id, now, ops)
      ensures CanFinish(zip, w, id, now)
    {
      if !CanFinish(zip, w, id, now) {
        NeverFinishes(zip, w, id, now, ops);
      }
    }
    if InStep(w, id) && w.uploads[id].next == w.uploads[id].total {
      WholeFile(zip, w, id, now);
    }
  }

  lemma WholeFile(zip: Zip, w: World, id: Id, now: int)
    requires InStep(w, id) && w.uploads[id].next == w.uploads[id].total
    ensures CanFinish(zip, w, id, now) <==>
      now <= w.uploads[id].expires && zip(w.files[Part(id)]) && |w.files[Part(id)]| >= 4
  {
    var file, u := w.files[Part(id)], w.uploads[id];
    if zip(file) && |file| >= 4 {
      assert Completes(zip, file, u, file);
    }
    if CanFinish(zip, w, id, now) {
      var content :| Completes(zip, file, u, content);
      assert content == file;
    }
  }

  /******* The server *******/

  class UploadServer {
    var uploads: map<Id, Upload>
    var artifacts: map<Id, Artifact>
    var files: map<Path, Bytes>
    ghost var log: seq<Event>
    const zip: Zip

    ghost function View(): World
      reads this
    {
      World(uploads, artifacts, files, log)
    }

    constructor (zip: Zip)
      ensures View() == EMPTY && this.zip == zip
    {
      this.zip := zip;
      uploads, artifacts, files, log := map[], map[], map[], [];
    }

    method CleanupArtifacts(now: int, f: CleanupFault)
      modifies this
      ensures View() == Cleaned(old(View()), now, f)
    {
      var dead := set a | a in artifacts && artifacts[a].expires <= now;
      files := files - ((set a | a in dead :: Stored(a)) - f.stuck);
      if f.artifacts {
        return;
      }
      artifacts := artifacts - dead;
      dead := set u | u in uploads && uploads[u].expires <= now;
      files := files - ((set u | u in dead :: Part(u)) - f.stuck);
      if f.uploads {
        return;
      }
      uploads := uploads - dead;
    }

    method BeginArtifactUpload(op: Op) returns (ok: bool)
      requires op.Begin?
      modifies this
      ensures (View(), ok) == Begun(old(View()), op)
    {
      if op.total < 1 || op.total > MAX_CHUNKS || op.fault.Directory? {
        return false;
      }
      CleanupArtifacts(op.now, op.cleanup);
      var path := Part(op.id);
      if op.fault.Create? || path in files {
        return false;
      }
      ghost var cleaned := files;
      files := files[path := []];
      if op.fault.Close? {
        return false;
      }
      if op.fault.Record? {
        if !op.fault.stuck {
          files := files - {path};
          assert files == cleaned;
        }
        return false;
      }
      uploads := uploads[op.id := Upload(op.token, 0, 0, op.total, op.now + TTL)];
      return true;
    }

    method AppendArtifactChunk(op: Op) returns (ok: bool)
      requires op.Append?
      modifies this
      ensures (View(), ok) == Appended(old(View()), op)
    {
      if |op.data| == 0 || |op.data| > MAX_CHUNK {
        return false;
      }
      if op.id !in uploads {
        return false;
      }
      var u := uploads[op.id];
      if u.owner != op.token || op.now > u.expires {
        return false;
      }
      if op.index != u.next || op.index >= u.total {
        return false;
      }
      var path := Part(op.id);
      if path !in files || |files[path]| != u.size {
        return false;
      }
      if u.size + |op.data| > MAX_COMPRESSED {
        return false;
      }
      if op.writeFails {
        files := files[path := files[path] + if op.written <= |op.data| then op.data[..op.written] else op.data];
        return false;
      }
      files := files[path := files[path] + op.data];
      u := u.(size := u.size + |op.data|);
      u := u.(next := u.next + 1);
      if op.recordFails {
        return false;
      }
      uploads := uploads[op.id := u];
      log := log + [Accepted(op.id, op.index, op.data)];
      return true;
    }

    method CompleteArtifactUpload(op: Op) returns (ok: bool)
      requires op.Complete?
      requires Stored(op.artifact) !in files   // the identifier is new
      modifies this
      ensures (View(), ok) == Completed(zip, old(View()), op)
    {
      if op.id !in uploads {
        return false;
      }
      var u := uploads[op.id];
      if u.owner != op.token {
        return false;
      }
      if op.now > u.expires || u.next != u.total || u.size < 4 {
        return false;
      }
      var part, path := Part(op.id), Stored(op.artifact);
      if part !in files || op.readFails || !zip(files[part]) || op.renameFails {
        return false;
      }
      var content := files[part];
      ghost var before := files;
      files := (files - {part})[path := content];
      if op.putFails {
        if !op.undoFails {
          files := (files - {path})[part := content];
          assert files == before;
        }
        return false;
      }
      artifacts := artifacts[op.artifact := Artifact(op.token, u.size, op.now + TTL)];
      log := log + [Finished(op.id, op.artifact, content, u.total)];
      if op.deleteFails {
        return false;
      }
      uploads := uploads - {op.id};
      return true;
    }
  }
}
