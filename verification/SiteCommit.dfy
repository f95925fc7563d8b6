/**
 One settings change over two resources: CloudPanel's site row in a SQLite
 transaction and the nginx configuration behind the commit service
 (internal/gateway/settings.go and internal/gateway/nginx_commit.go).
 */
module SiteCommit {
  import opened Wrappers
  import opened GlobalConfig

  const MAX_CONTENT := 900 * 1024

  // The vhost of the site and nginx.conf.
  datatype Nginx = Nginx(vhost: string, global: string)

  // The first step of commitNginxVhost that fails.
  datatype CommitFault = CommitNone | ReadVhost | ReadGlobal | CachePath | WriteGlobal | WriteVhost | Validate | Reload

  // nginx.conf is written in place: `torn` is what a failed write leaves in it, `undoTorn` what
  // a failed compensating write does. The undo flags say which compensating writes work.
  datatype CommitChoice = CommitChoice(
    fault: CommitFault, torn: string, undoVhost: bool, undoGlobal: bool, undoTorn: string)

  predicate Acceptable(content: string, global: string) {
    0 < |content| <= MAX_CONTENT && |global| <= MAX_CONTENT
  }

  // An empty `global` means that only the vhost is to be replaced; `expected` is what the
  // service itself derives from the nginx.conf of the moment.
  function CommittedWith(n: Nginx, content: string, global: string, expected: Result<string>, c: CommitChoice): (Nginx, bool) {
    if !Acceptable(content, global) || c.fault == ReadVhost then (n, false)
    else if global != "" && (c.fault == ReadGlobal || expected != Ok(global)) then (n, false)
    else if c.fault == CachePath then (n, false)
    else if global != "" && c.fault == WriteGlobal then (n.(global := c.torn), false)
    else
      var undone := if global == "" || c.undoGlobal then n.global else c.undoTorn;
      match c.fault
      case WriteVhost => (n.(global := undone), false)
      case Validate | Reload => (Nginx(if c.undoVhost then n.vhost else content, undone), false)
      case _ => (Nginx(content, if global != "" then global else n.global), true)
  }

  function Committed(n: Nginx, content: string, global: string, c: CommitChoice): (Nginx, bool) {
    CommittedWith(n, content, global, PageSpeedGlobalConfig(n.global), c)
  }

  // The service gets as far as overwriting the vhost.
  predicate Reaches(content: string, global: string, expected: Result<string>, c: CommitChoice) {
    && Acceptable(content, global)
    && c.fault !in {ReadVhost, CachePath, WriteVhost}
    && (global != "" ==> expected == Ok(global) && c.fault !in {ReadGlobal, WriteGlobal})
  }

  // What a failed write in place, the first or the compensating one, leaves in nginx.conf.
  function Torn(content: string, global: string, expected: Result<string>, c: CommitChoice): Option<string> {
    if global == "" || !Acceptable(content, global) || expected != Ok(global) then None
    else if c.fault == WriteGlobal then Some(c.torn)
    else if c.fault in {WriteVhost, Validate, Reload} && !c.undoGlobal then Some(c.undoTorn)
    else None
  }

  /** A commit that succeeds installs exactly what was asked for. One that fails leaves the
      vhost old exactly unless a vhost that nginx rejected could not be put back, and leaves
      nginx.conf as it was exactly unless a write in place failed. */
  lemma CommitIsAllOrNothing(n: Nginx, content: string, global: string, expected: Result<string>, c: CommitChoice)
    ensures
      var (m, ok) := CommittedWith(n, content, global, expected, c);
      var torn := Torn(content, global, expected, c);
      && (ok <==> Reaches(content, global, expected, c) && c.fault !in {Validate, Reload})
      && (ok ==> m == Nginx(content, if global != "" then global else n.global))
      && (!ok ==>
            (m.vhost != n.vhost <==>
              content != n.vhost && Reaches(content, global, expected, c) && !c.undoVhost))
      && (!ok ==> m.global == if torn.Some? then torn.value else n.global)
  {
  }

  /******* A commit of the vhost alone *******/

  // How it ends for the vhost: new, old, or new although the commit failed.
  datatype VhostOutcome = Installed | KeptOld | LeftNew

  // `acceptable` says whether the service takes the text at all.
  function VhostOutcomeOf(acceptable: bool, c: CommitChoice): VhostOutcome {
    if !acceptable || c.fault in {ReadVhost, CachePath, WriteVhost} then KeptOld
    else if c.fault in {Validate, Reload} then (if c.undoVhost then KeptOld else LeftNew)
    else Installed
  }

  /** The three ways a commit of a vhost alone ends; nginx.conf is never touched. */
  lemma VhostCommitEnds(n: Nginx, content: string, c: CommitChoice)
    ensures
      var (m, ok) := Committed(n, content, "", c);
      var outcome := VhostOutcomeOf(Acceptable(content, ""), c);
      && (ok <==> outcome == Installed)
      && m == n.(vhost := if outcome == KeptOld then n.vhost else content)
  {
  }

  /******* mutateSiteWithCommit *******/

  datatype Site = Site(row: string, nginx: Nginx)

  // The first failing step outside the nginx commit itself.
  datatype Fault = NoFault | ReadBefore | BeginTx | UpdateRow | CommitTx

  datatype Choice = Choice(fault: Fault, commit: CommitChoice, rollback: CommitChoice)

  // `after` is the patched vhost, Err when patching failed; `global` the prerequisite, or empty.
  function Mutated(s: Site, row: string, after: Result<string>, global: string, c: Choice): (Site, bool) {
    if c.fault == ReadBefore || after.Err? || c.fault == BeginTx || c.fault == UpdateRow then (s, false)
    else
      var (n, ok) := Committed(s.nginx, after.value, global, c.commit);
      if !ok then (s.(nginx := n), false)
      else if c.fault == CommitTx then
        (s.(nginx := Committed(n, s.nginx.vhost, "", c.rollback).0), false)
      else (Site(row, n), true)
  }

  // A compensating commit puts the old vhost back: the service accepts the old text and either
  // all steps work, or validation fails and its own undo does too.
  predicate PutsBack(before: string, c: CommitChoice) {
    && Acceptable(before, "")
    && c.fault !in {ReadVhost, CachePath, WriteVhost}
    && (c.fault in {Validate, Reload} ==> !c.undoVhost)
  }

  // Exactly the failures after which the vhost is new and the row is old.
  predicate Splits(s: Site, after: string, global: string, c: Choice) {
    && after != s.nginx.vhost
    && c.fault in {NoFault, CommitTx}
    && Reaches(after, global, PageSpeedGlobalConfig(s.nginx.global), c.commit)
    && if c.commit.fault in {Validate, Reload} then !c.commit.undoVhost
       else c.fault == CommitTx && !PutsBack(s.nginx.vhost, c.rollback)
  }

  // What a failed change leaves in nginx.conf.
  function GlobalLeft(s: Site, after: Result<string>, global: string, c: Choice): string {
    var expected := PageSpeedGlobalConfig(s.nginx.global);
    if after.Err? || c.fault !in {NoFault, CommitTx} then s.nginx.global
    else if Reaches(after.value, global, expected, c.commit) && c.commit.fault !in {Validate, Reload} then
      if global != "" then global else s.nginx.global
    else if Torn(after.value, global, expected, c.commit).Some? then Torn(after.value, global, expected, c.commit).value
    else s.nginx.global
  }

  /** Success leaves row and vhost both new. Failure leaves the row old, and the vhost old
      exactly when Splits is false; nginx.conf is then the old one, the one with the managed
      directive when only the row failed, or what a failed write in place left. */
  lemma MutationIsAllOrNothing(s: Site, row: string, after: Result<string>, global: string, c: Choice)
    ensures
      var (t, ok) := Mutated(s, row, after, global, c);
      && (ok ==> after.Ok? && t == Site(row, Nginx(after.value, if global != "" then global else s.nginx.global)))
      && (ok && global != "" ==> PageSpeedGlobalConfig(s.nginx.global) == Ok(global))
      && (!ok ==> t.row == s.row && t.nginx.global == GlobalLeft(s, after, global, c))
      && (!ok ==> (t.nginx.vhost == s.nginx.vhost <==> after.Err? || !Splits(s, after.value, global, c)))
  {
    if after.Ok? && c.fault in {NoFault, CommitTx} {
      var expected := PageSpeedGlobalConfig(s.nginx.global);
      CommitIsAllOrNothing(s.nginx, after.value, global, expected, c.commit);
      var n := CommittedWith(s.nginx, after.value, global, expected, c.commit).0;
      RollbackPutsBack(n, s.nginx.vhost, PageSpeedGlobalConfig(n.global), c.rollback);
    }
  }

  lemma RollbackPutsBack(n: Nginx, before: string, expected: Result<string>, c: CommitChoice)
    ensures
      var m := CommittedWith(n, before, "", expected, c).0;
      m.global == n.global && (before == n.vhost || (m.vhost == before <==> PutsBack(before, c)))
  {
  }

  // Every compensating write works and in-place writes are not torn.
  predicate UndoWorks(s: Site, c: Choice) {
    && c.commit.undoVhost && c.commit.undoGlobal && c.commit.fault != WriteGlobal
    && PutsBack(s.nginx.vhost, c.rollback)
  }

  datatype Change = Change(row: string, after: Result<string>, global: bool, choice: Choice)

  // The prerequisite is computed from the nginx.conf of the moment.
  function Prerequisite(s: Site, change: Change): Result<string> {
    if !change.global then Ok("") else PageSpeedGlobalConfig(s.nginx.global)
  }

  function Applied(s: Site, change: Change): Site {
    match Prerequisite(s, change)
    case Err => s
    case Ok(global) => Mutated(s, change.row, change.after, global, change.choice).0
  }

  function Run(s: Site, changes: seq<Change>): Site
    decreases |changes|
  {
    if changes == [] then s else Run(Applied(s, changes[0]), changes[1..])
  }

  ghost predicate UndoWorksThroughout(s: Site, changes: seq<Change>)
    decreases |changes|
  {
    changes == [] || (UndoWorks(s, changes[0].choice) && UndoWorksThroughout(Applied(s, changes[0]), changes[1..]))
  }

  // Row and vhost name the same change, or are both as they were at the start.
  ghost predicate InStep(start: Site, changes: seq<Change>, s: Site) {
    || (s.row == start.row && s.nginx.vhost == start.nginx.vhost)
    || exists i :: 0 <= i < |changes| && s.row == changes[i].row && changes[i].after == Ok(s.nginx.vhost)
  }

  // One change leaves row and vhost both as they were or both as asked for.
  lemma AppliedIsOldOrNew(s: Site, change: Change)
    requires UndoWorks(s, change.choice)
    ensures
      var t := Applied(s, change);
      && ((t.row == s.row && t.nginx.vhost == s.nginx.vhost) || (t.row == change.row && change.after == Ok(t.nginx.vhost)))
      && (t.nginx.global == s.nginx.global || PageSpeedGlobalConfig(s.nginx.global) == Ok(t.nginx.global))
  {
    if Prerequisite(s, change).Ok? {
      MutationIsAllOrNothing(s, change.row, change.after, Prerequisite(s, change).value, change.choice);
    }
  }

  lemma StepStaysInStep(start: Site, done: seq<Change>, s: Site, change: Change, t: Site)
    requires InStep(start, done, s)
    requires (t.row == s.row && t.nginx.vhost == s.nginx.vhost) || (t.row == change.row && change.after == Ok(t.nginx.vhost))
    ensures InStep(start, done + [change], t)
  {
    var more := done + [change];
    assert more[|done|] == change;
    if t.row == s.row && t.nginx.vhost == s.nginx.vhost && !(s.row == start.row && s.nginx.vhost == start.nginx.vhost) {
      var i :| 0 <= i < |done| && s.row == done[i].row && done[i].after == Ok(s.nginx.vhost);
      assert more[i] == done[i];
    }
  }

  /** Over every run of changes, each failing at any step, row and vhost always belong to the
      same change, and nginx.conf is the original or the original with the managed directive. */
  lemma {:induction false} RunStaysInStep(start: Site, done: seq<Change>, s: Site, todo: seq<Change>)
    requires InStep(start, done, s) && UndoWorksThroughout(s, todo)
    requires s.nginx.global == start.nginx.global || PageSpeedGlobalConfig(start.nginx.global) == Ok(s.nginx.global)
    ensures InStep(start, done + todo, Run(s, todo))
    ensures
      var g := Run(s, todo).nginx.global;
      g == start.nginx.global || PageSpeedGlobalConfig(start.nginx.global) == Ok(g)
    decreases |todo|
  {
    if todo == [] {
      assert done + todo == done;
    } else {
      var t, more := Applied(s, todo[0]), done + [todo[0]];
      AppliedIsOldOrNew(s, todo[0]);
      StepStaysInStep(start, done, s, todo[0], t);
      GlobalConfigIsIdempotent(start.nginx.global);
      RunStaysInStep(start, more, t, todo[1..]);
      assert done + todo == more + todo[1..];
    }
  }

  class Server {
    var row: string
    var vhost: string
    var global: string

    ghost function View(): Site
      reads this
    {
      Site(row, Nginx(vhost, global))
    }

    constructor (s: Site)
      ensures View() == s
    {
      row, vhost, global := s.row, s.nginx.vhost, s.nginx.global;
    }

    method WriteVhostFile(content: string, works: bool) returns (ok: bool)
      modifies this`vhost
      ensures ok == works && vhost == if works then content else old(vhost)
    {
      if works {
        vhost := content;
      }
      ok := works;
    }

    // nginx.conf is written in place, so a failed write leaves something else behind.
    method WriteGlobalFile(content: string, works: bool, torn: string) returns (ok: bool)
      modifies this`global
      ensures ok == works && global == if works then content else torn
    {
      global := if works then content else torn;
      ok := works;
    }

    method CommitNginxVhost(content: string, globalContent: string, c: CommitChoice) returns (ok: bool)
      modifies this`vhost, this`global
      ensures (Nginx(vhost, global), ok) == Committed(Nginx(old(vhost), old(global)), content, globalContent, c)
    {
      if |content| == 0 || |content| > MAX_CONTENT || |globalContent| > MAX_CONTENT {
        return false;
      }
      if c.fault == ReadVhost {
        return false;
      }
      var before, globalBefore := vhost, global;
      if globalContent != "" {
        if c.fault == ReadGlobal {
          return false;
        }
        var expected := PageSpeedGlobalConfig(globalBefore);
        if expected.Err? || globalContent != expected.value {
          return false;
        }
      }
      if c.fault == CachePath {
        return false;
      }
      if globalContent != "" {
        ok := WriteGlobalFile(globalContent, c.fault != WriteGlobal, c.torn);
        if !ok {
          return;
        }
      }
      ok := WriteVhostFile(content, c.fault != WriteVhost);
      if !ok {
        if globalContent != "" {
          var _ := WriteGlobalFile(globalBefore, c.undoGlobal, c.undoTorn);
        }
        return;
      }
      if c.fault == Validate || c.fault == Reload {
        var _ := WriteVhostFile(before, c.undoVhost);
        if globalContent != "" {
          var _ := WriteGlobalFile(globalBefore, c.undoGlobal, c.undoTorn);
        }
        return false;
      }
      return true;
    }

    method MutateSite(newRow: string, after: Result<string>, globalAfter: string, c: Choice) returns (ok: bool)
      modifies this
      ensures (View(), ok) == Mutated(old(View()), newRow, after, globalAfter, c)
    {
      if c.fault == ReadBefore {
        return false;
      }
      var before := vhost;
      if after.Err? {
        return false;
      }
      if c.fault == BeginTx {
        return false;
      }
      var tx := newRow;
      if c.fault == UpdateRow {
        return false;
      }
      ok := CommitNginxVhost(after.value, globalAfter, c.commit);
      if !ok {
        return;
      }
      if c.fault == CommitTx {
        var _ := CommitNginxVhost(before, "", c.rollback);
        return false;
      }
      row := tx;
      return true;
    }
  }
}
