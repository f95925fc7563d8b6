/**
 The cron adapter of internal/gateway/cron.go: one SQLite transaction over
 cron_job and one rendered file for each site user, committed in that order
 with the file put back when the commit fails.
 */
module Cron {
  import opened Wrappers
  import opened Crontab
  import opened CronRunner
  import opened Numbers
  import opened Paths
  import opened Shell
  import opened Text

  const MAX_JOBS := 100

  datatype Schedule = Schedule(minute: string, hour: string, day: string, month: string, weekday: string)

  datatype Row = Row(id: int, site: int, schedule: Schedule, command: string, updatedAt: string)

  datatype Operation = Create | Update | Delete

  // `settled` stands for the checks made before the schedule is looked at: revision, confirmation.
  // `runnerOk` and `command` are the verdict of validateCronRunner and the rendered command.
  datatype Request = Request(
    op: Operation, site: int, jobId: int, schedule: Schedule, settled: bool, runnerOk: bool, command: Result<string>)

  // The first step that fails, in the order of the steps.
  datatype Fault = NoFault | BeginTx | Statement | QueryJobs | ReadFile | WriteFile | CommitTx | ReadBack

  // How putting the file back ends. A rewrite in place that fails leaves some text behind; a
  // removal that fails leaves the file as it was written.
  datatype Undo = Works | Fails(torn: string)

  // `files` holds the managed crontab of each user that has one.
  datatype State = State(rows: seq<Row>, sites: map<int, string>, files: map<string, string>)

  predicate ValidSchedule(t: Schedule) {
    && ValidCronField(t.minute, 0, 59) && ValidCronField(t.hour, 0, 23) && ValidCronField(t.day, 1, 31)
    && ValidCronField(t.month, 1, 12) && ValidCronField(t.weekday, 0, 7)
  }

  predicate Accepted(r: Request) {
    r.settled && (r.op == Delete || (ValidSchedule(r.schedule) && r.runnerOk && r.command.Ok?))
  }

  /******* Rows *******/

  function OfSite(rows: seq<Row>, site: int): seq<Row> {
    if rows == [] then []
    else (if rows[0].site == site then [rows[0]] else []) + OfSite(rows[1..], site)
  }

  // WHERE id=? AND site_id=?
  predicate Hits(row: Row, r: Request) {
    row.id == r.jobId && row.site == r.site
  }

  function CountHits(rows: seq<Row>, r: Request): nat {
    if rows == [] then 0 else (if Hits(rows[0], r) then 1 else 0) + CountHits(rows[1..], r)
  }

  function Rewritten(rows: seq<Row>, r: Request, now: string): seq<Row>
    requires r.command.Ok?
  {
    if rows == [] then []
    else
      [if Hits(rows[0], r) then rows[0].(schedule := r.schedule, command := r.command.value, updatedAt := now) else rows[0]]
      + Rewritten(rows[1..], r, now)
  }

  function Removed(rows: seq<Row>, r: Request): seq<Row> {
    if rows == [] then []
    else (if Hits(rows[0], r) then [] else [rows[0]]) + Removed(rows[1..], r)
  }

  // What the transaction makes of the table.
  function Mutated(rows: seq<Row>, r: Request, newId: int, now: string): Result<seq<Row>>
    requires Accepted(r)
  {
    match r.op
    case Create =>
      if |OfSite(rows, r.site)| >= MAX_JOBS then Err
      else Ok(rows + [Row(newId, r.site, r.schedule, r.command.value, now)])
    case Update => if r.jobId < 1 || CountHits(rows, r) != 1 then Err else Ok(Rewritten(rows, r, now))
    case Delete => if r.jobId < 1 || CountHits(rows, r) != 1 then Err else Ok(Removed(rows, r))
  }

  // cronJobsForUser: the rows of every site of the user, in id order.
  function JobsForUser(rows: seq<Row>, sites: map<int, string>, user: string): seq<Line> {
    if rows == [] then []
    else
      var row, rest := rows[0], JobsForUser(rows[1..], sites, user);
      if row.site in sites && sites[row.site] == user then
        [Line(row.schedule.minute, row.schedule.hour, row.schedule.day, row.schedule.month, row.schedule.weekday,
              user, row.command)] + rest
      else rest
  }

  /******* executeCron *******/

  // The file is written with the new table, then the transaction commits.
  function Committed(s: State, rows: seq<Row>, user: string, fault: Fault, undo: Undo): (State, bool) {
    var written := s.(files := s.files[user := RenderCronFile(JobsForUser(rows, s.sites, user))]);
    match fault
    case CommitTx =>
      (match undo
       case Works => (s, false)
       case Fails(torn) => (if user in s.files then s.(files := s.files[user := torn]) else written, false))
    case NoFault => (written.(rows := rows), true)
    case ReadBack => (written.(rows := rows), false)
    case _ => (s, false)
  }

  function Executed(s: State, r: Request, newId: int, now: string, fault: Fault, undo: Undo): (State, bool) {
    if r.site !in s.sites || !SiteUser(s.sites[r.site]) || !Accepted(r) || fault == BeginTx || fault == Statement then (s, false)
    else match Mutated(s.rows, r, newId, now)
      case Err => (s, false)
      case Ok(rows) => Committed(s, rows, s.sites[r.site], fault, undo)
  }

  // The file of a user says what the table says; no file counts as no jobs.
  ghost predicate Agrees(s: State, user: string) {
    if user in s.files then s.files[user] == RenderCronFile(JobsForUser(s.rows, s.sites, user))
    else JobsForUser(s.rows, s.sites, user) == []
  }

  ghost predicate AllAgree(s: State) {
    forall user: string :: Agrees(s, user)
  }

  ghost predicate SortedIds(rows: seq<Row>) {
    forall i, j :: 0 <= i < j < |rows| ==> rows[i].id < rows[j].id
  }

  // SQLite hands out row identifiers above all existing ones.
  ghost predicate FreshId(rows: seq<Row>, newId: int) {
    forall i :: 0 <= i < |rows| ==> rows[i].id < newId
  }

  lemma {:induction false} OtherUserJobs(rows: seq<Row>, sites: map<int, string>, r: Request, newId: int, now: string, user: string)
    requires Accepted(r) && r.site in sites && sites[r.site] != user
    ensures Mutated(rows, r, newId, now).Ok? ==>
      JobsForUser(Mutated(rows, r, newId, now).value, sites, user) == JobsForUser(rows, sites, user)
  {
    if r.op == Create {
      JobsAppend(rows, Row(newId, r.site, r.schedule, r.command.value, now), sites, user);
    } else {
      JobsUnhit(rows, sites, r, now, user);
    }
  }

  lemma {:induction false} JobsAppend(rows: seq<Row>, row: Row, sites: map<int, string>, user: string)
    requires row.site in sites && sites[row.site] != user
    ensures JobsForUser(rows + [row], sites, user) == JobsForUser(rows, sites, user)
  {
    if rows != [] {
      assert (rows + [row])[1..] == rows[1..] + [row];
      JobsAppend(rows[1..], row, sites, user);
    }
  }

  lemma {:induction false} JobsUnhit(rows: seq<Row>, sites: map<int, string>, r: Request, now: string, user: string)
    requires r.site in sites && sites[r.site] != user
    ensures JobsForUser(Removed(rows, r), sites, user) == JobsForUser(rows, sites, user)
    ensures r.command.Ok? ==> JobsForUser(Rewritten(rows, r, now), sites, user) == JobsForUser(rows, sites, user)
  {
    if rows != [] {
      JobsUnhit(rows[1..], sites, r, now, user);
      var removed := Removed(rows[1..], r);
      assert ([rows[0]] + removed)[1..] == removed && [] + removed == removed;
    }
  }

  // Row k belongs to a site of the user.
  predicate Serves(rows: seq<Row>, k: nat, sites: map<int, string>, user: string) {
    k < |rows| && rows[k].site in sites && sites[rows[k].site] == user
  }

  // The positions of the user's rows, in order.
  ghost predicate Positions(at: seq<nat>, rows: seq<Row>, sites: map<int, string>, user: string) {
    && (forall i, j :: 0 <= i < j < |at| ==> at[i] < at[j])
    && (forall k: nat :: k in at <==> Serves(rows, k, sites, user))
  }

  predicate IsLine(l: Line, row: Row, user: string) {
    && l.minute == row.schedule.minute && l.hour == row.schedule.hour && l.day == row.schedule.day
    && l.month == row.schedule.month && l.weekday == row.schedule.weekday && l.user == user && l.command == row.command
  }

  // The lines are those of the rows at the positions.
  ghost predicate LinesAt(lines: seq<Line>, at: seq<nat>, rows: seq<Row>, user: string) {
    |lines| == |at| && forall i :: 0 <= i < |at| ==> at[i] < |rows| && IsLine(lines[i], rows[at[i]], user)
  }

  /** The jobs of a user are the rows of the user's sites, each once and in the order of the table. */
  lemma {:induction false} JobsAreTheRows(rows: seq<Row>, sites: map<int, string>, user: string) returns (at: seq<nat>)
    ensures Positions(at, rows, sites, user) && LinesAt(JobsForUser(rows, sites, user), at, rows, user)
    decreases |rows|
  {
    if rows == [] {
      at := [];
    } else {
      var rest := JobsAreTheRows(rows[1..], sites, user);
      var moved := seq(|rest|, i requires 0 <= i < |rest| => rest[i] + 1);
      at := (if Serves(rows, 0, sites, user) then [0] else []) + moved;
      MovedPositions(rest, moved, at, rows, sites, user);
      MovedLines(JobsForUser(rows[1..], sites, user), rest, moved, rows, user);
      if Serves(rows, 0, sites, user) {
        OneMoreLine(JobsForUser(rows, sites, user), JobsForUser(rows[1..], sites, user), moved, rows, user);
      }
    }
  }

  ghost predicate Moved(rest: seq<nat>, moved: seq<nat>) {
    |moved| == |rest| && forall i :: 0 <= i < |rest| ==> moved[i] == rest[i] + 1
  }

  lemma MovedMembers(rest: seq<nat>, moved: seq<nat>, k: nat)
    requires k > 0 && Moved(rest, moved)
    ensures k - 1 in rest <==> k in moved
  {
    if k - 1 in rest {
      var i :| 0 <= i < |rest| && rest[i] == k - 1;
      assert moved[i] == k;
    }
  }

  lemma MovedPositions(rest: seq<nat>, moved: seq<nat>, at: seq<nat>, rows: seq<Row>, sites: map<int, string>, user: string)
    requires rows != [] && Positions(rest, rows[1..], sites, user) && Moved(rest, moved)
    requires at == (if Serves(rows, 0, sites, user) then [0] else []) + moved
    ensures Positions(at, rows, sites, user)
  {
    forall k: nat
      ensures k in at <==> Serves(rows, k, sites, user)
    {
      if k > 0 {
        assert Serves(rows, k, sites, user) <==> Serves(rows[1..], k - 1, sites, user);
        MovedMembers(rest, moved, k);
      }
    }
  }

  lemma MovedLines(lines: seq<Line>, rest: seq<nat>, moved: seq<nat>, rows: seq<Row>, user: string)
    requires rows != [] && LinesAt(lines, rest, rows[1..], user) && Moved(rest, moved)
    ensures LinesAt(lines, moved, rows, user)
  {
    assert forall i :: 0 <= i < |rest| ==> rows[1..][rest[i]] == rows[moved[i]];
  }

  lemma OneMoreLine(lines: seq<Line>, rest: seq<Line>, at: seq<nat>, rows: seq<Row>, user: string)
    requires rows != [] && LinesAt(rest, at, rows, user)
    requires lines != [] && IsLine(lines[0], rows[0], user) && lines[1..] == rest
    ensures LinesAt(lines, [0] + at, rows, user)
  {
    assert forall i :: 0 < i < |lines| ==> lines[i] == rest[i - 1];
  }

  // The change gets as far as the file.
  ghost predicate Reaches(s: State, r: Request, newId: int, now: string) {
    r.site in s.sites && SiteUser(s.sites[r.site]) && Accepted(r) && Mutated(s.rows, r, newId, now).Ok?
  }

  // The text in the user's file after a failed commit and a failed undo.
  ghost function LeftBehind(s: State, r: Request, newId: int, now: string, torn: string): string
    requires Reaches(s, r, newId, now)
  {
    var user := s.sites[r.site];
    if user in s.files then torn else RenderCronFile(JobsForUser(Mutated(s.rows, r, newId, now).value, s.sites, user))
  }

  /** Whatever step fails, every user's file keeps agreeing with the committed table, unless
      the file could not be put back after a failed commit; and then it disagrees exactly when
      the text left behind differs from what the table renders. */
  lemma ExecutionKeepsAgreement(s: State, r: Request, newId: int, now: string, fault: Fault, undo: Undo, user: string)
    requires Agrees(s, user)
    ensures fault != CommitTx || undo.Works? ==> Agrees(Executed(s, r, newId, now, fault, undo).0, user)
    ensures fault == CommitTx && undo.Fails? && Reaches(s, r, newId, now) ==>
      (Agrees(Executed(s, r, newId, now, fault, undo).0, user) <==>
        s.sites[r.site] == user ==>
          LeftBehind(s, r, newId, now, undo.torn) == RenderCronFile(JobsForUser(s.rows, s.sites, user)))
  {
    if r.site in s.sites && Accepted(r) && s.sites[r.site] != user {
      OtherUserJobs(s.rows, s.sites, r, newId, now, user);
    }
  }

  /** A successful change brings file and table together from any start. */
  lemma SuccessRestoresAgreement(s: State, r: Request, newId: int, now: string, undo: Undo)
    requires Executed(s, r, newId, now, NoFault, undo).1
    ensures r.site in s.sites && Agrees(Executed(s, r, newId, now, NoFault, undo).0, s.sites[r.site])
  {
  }

  /******* Other sites, the job limit, identifiers *******/

  lemma {:induction false} OtherSiteRows(rows: seq<Row>, r: Request, newId: int, now: string, site: int)
    requires Accepted(r) && site != r.site && Mutated(rows, r, newId, now).Ok?
    ensures OfSite(Mutated(rows, r, newId, now).value, site) == OfSite(rows, site)
  {
    if r.op == Create {
      OfSiteAppend(rows, Row(newId, r.site, r.schedule, r.command.value, now), site);
    } else {
      OfSiteUnhit(rows, r, now, site);
    }
  }

  lemma {:induction false} OfSiteAppend(rows: seq<Row>, row: Row, site: int)
    ensures OfSite(rows + [row], site) == OfSite(rows, site) + if row.site == site then [row] else []
  {
    if rows != [] {
      assert (rows + [row])[1..] == rows[1..] + [row];
      OfSiteAppend(rows[1..], row, site);
    }
  }

  lemma {:induction false} OfSiteUnhit(rows: seq<Row>, r: Request, now: string, site: int)
    requires site != r.site
    ensures OfSite(Removed(rows, r), site) == OfSite(rows, site)
    ensures r.command.Ok? ==> OfSite(Rewritten(rows, r, now), site) == OfSite(rows, site)
  {
    if rows != [] {
      OfSiteUnhit(rows[1..], r, now, site);
      var removed := Removed(rows[1..], r);
      assert ([rows[0]] + removed)[1..] == removed && [] + removed == removed;
    }
  }

  // How many jobs the change leaves the site with, and that exactly one row was hit.
  lemma {:induction false} HitsOfSite(rows: seq<Row>, r: Request, now: string)
    ensures |OfSite(Removed(rows, r), r.site)| == |OfSite(rows, r.site)| - CountHits(rows, r)
    ensures r.command.Ok? ==> |OfSite(Rewritten(rows, r, now), r.site)| == |OfSite(rows, r.site)|
  {
    if rows != [] {
      HitsOfSite(rows[1..], r, now);
      var removed := Removed(rows[1..], r);
      assert ([rows[0]] + removed)[1..] == removed && [] + removed == removed;
    }
  }

  /******* Which row a change is about *******/

  ghost predicate DistinctIds(rows: seq<Row>) {
    forall i, j :: 0 <= i < j < |rows| ==> rows[i].id != rows[j].id
  }

  // Row k is the job of the site with this id.
  ghost predicate IsJob(rows: seq<Row>, k: int, id: int, site: int) {
    0 <= k < |rows| && rows[k].id == id && rows[k].site == site
  }

  lemma {:induction false} NoHits(rows: seq<Row>, r: Request, now: string)
    requires forall k :: !IsJob(rows, k, r.jobId, r.site)
    ensures CountHits(rows, r) == 0 && Removed(rows, r) == rows
    ensures r.command.Ok? ==> Rewritten(rows, r, now) == rows
  {
    if rows != [] {
      assert !IsJob(rows, 0, r.jobId, r.site);
      forall k
        ensures !IsJob(rows[1..], k, r.jobId, r.site)
      {
        assert !IsJob(rows, k + 1, r.jobId, r.site);
      }
      NoHits(rows[1..], r, now);
      assert [rows[0]] + rows[1..] == rows;
    }
  }

  lemma {:induction false} OneHit(rows: seq<Row>, r: Request, now: string, k: nat)
    requires DistinctIds(rows) && IsJob(rows, k, r.jobId, r.site)
    ensures CountHits(rows, r) == 1 && Removed(rows, r) == rows[..k] + rows[k + 1..]
    ensures r.command.Ok? ==> Rewritten(rows, r, now) == rows[k := Row(r.jobId, r.site, r.schedule, r.command.value, now)]
  {
    if k == 0 {
      forall j
        ensures !IsJob(rows[1..], j, r.jobId, r.site)
      {
        assert 0 <= j < |rows| - 1 ==> rows[1..][j] == rows[j + 1];
      }
      NoHits(rows[1..], r, now);
    } else {
      assert IsJob(rows[1..], k - 1, r.jobId, r.site) && rows[0].id != rows[k].id;
      OneHit(rows[1..], r, now, k - 1);
      assert rows[..k] == [rows[0]] + rows[1..][..k - 1] && rows[k + 1..] == rows[1..][k..];
    }
  }

  // How many rows belong to the site.
  function SiteRows(rows: seq<Row>, site: int): set<nat> {
    set i: nat | i < |rows| && rows[i].site == site
  }

  lemma {:induction false} OfSiteCounts(rows: seq<Row>, site: int)
    ensures |OfSite(rows, site)| == |SiteRows(rows, site)|
  {
    if rows != [] {
      var front, last := rows[..|rows| - 1], rows[|rows| - 1];
      assert rows == front + [last];
      OfSiteCounts(front, site);
      OfSiteAppend(front, last, site);
      assert SiteRows(rows, site) == SiteRows(front, site) + if last.site == site then {|front|} else {};
    }
  }

  // Every check that a request has to pass, and the row it is about.
  ghost predicate Fits(s: State, r: Request) {
    && r.site in s.sites && SiteUser(s.sites[r.site]) && r.settled
    && (r.op != Delete ==>
          && r.runnerOk && r.command.Ok?
          && ValidCronField(r.schedule.minute, 0, 59) && ValidCronField(r.schedule.hour, 0, 23)
          && ValidCronField(r.schedule.day, 1, 31) && ValidCronField(r.schedule.month, 1, 12)
          && ValidCronField(r.schedule.weekday, 0, 7))
    && if r.op == Create then |SiteRows(s.rows, r.site)| < 100
       else r.jobId >= 1 && exists k :: IsJob(s.rows, k, r.jobId, r.site)
  }

  /** What a request does to the table, row by row: it succeeds exactly when it fits and no step
      fails, and it is committed exactly when it fits and at most reading back fails. A create then
      adds its row behind the others, an update writes schedule, command and time of the one row
      with that id and site, a delete takes that row away; all other rows stay as and where they
      were. Short of the commit the table does not change. */
  lemma ExecutionChangesOneRow(s: State, r: Request, newId: int, now: string, fault: Fault, undo: Undo)
    requires DistinctIds(s.rows)
    ensures
      var (t, ok) := Executed(s, r, newId, now, fault, undo);
      && (ok <==> Fits(s, r) && fault == NoFault)
      && t.sites == s.sites
      && if !(Fits(s, r) && fault in {NoFault, ReadBack}) then t.rows == s.rows
         else match r.op
           case Create => t.rows == s.rows + [Row(newId, r.site, r.schedule, r.command.value, now)]
           case Update =>
             exists k :: IsJob(s.rows, k, r.jobId, r.site)
               && t.rows == s.rows[k := Row(r.jobId, r.site, r.schedule, r.command.value, now)]
           case Delete =>
             exists k :: IsJob(s.rows, k, r.jobId, r.site) && t.rows == s.rows[..k] + s.rows[k + 1..]
  {
    OfSiteCounts(s.rows, r.site);
    if k :| IsJob(s.rows, k, r.jobId, r.site) {
      OneHit(s.rows, r, now, k);
    } else {
      NoHits(s.rows, r, now);
    }
  }

  // What an accepted change does to the numbers of jobs, site by site.
  lemma MutationCounts(rows: seq<Row>, r: Request, newId: int, now: string, site: int)
    requires Accepted(r) && Mutated(rows, r, newId, now).Ok?
    ensures
      var before, after := OfSite(rows, site), OfSite(Mutated(rows, r, newId, now).value, site);
      if site != r.site then after == before
      else |after| == match r.op
        case Create => |before| + 1
        case Update => |before|
        case Delete => |before| - 1
  {
    if site != r.site {
      OtherSiteRows(rows, r, newId, now, site);
    } else if r.op == Create {
      OfSiteAppend(rows, Row(newId, r.site, r.schedule, r.command.value, now), site);
    } else {
      HitsOfSite(rows, r, now);
    }
  }

  /** Creating adds exactly one job and never takes a site past the limit, updating keeps the
      number, deleting removes exactly one; rows of other sites are untouched. */
  lemma JobLimitHolds(s: State, r: Request, newId: int, now: string, fault: Fault, undo: Undo, site: int)
    ensures
      var (t, ok) := Executed(s, r, newId, now, fault, undo);
      var before, after := OfSite(s.rows, site), OfSite(t.rows, site);
      && (site != r.site || t.rows == s.rows ==> after == before)
      && (ok && site == r.site ==> |after| == match r.op
            case Create => |before| + 1
            case Update => |before|
            case Delete => |before| - 1)
      && (|before| <= MAX_JOBS ==> |after| <= MAX_JOBS)
  {
    if r.site in s.sites && Accepted(r) && Mutated(s.rows, r, newId, now).Ok? {
      MutationCounts(s.rows, r, newId, now, site);
    }
  }

  lemma {:induction false} RemovedKeepsOrder(rows: seq<Row>, r: Request, now: string)
    requires SortedIds(rows)
    ensures SortedIds(Removed(rows, r))
    ensures forall x :: x in Removed(rows, r) ==> x in rows
  {
    if rows != [] {
      RemovedKeepsOrder(rows[1..], r, now);
      forall x | x in Removed(rows[1..], r)
        ensures rows[0].id < x.id
      {
        var i :| 0 <= i < |rows[1..]| && rows[1..][i] == x;
        assert rows[i + 1] == x;
      }
    }
  }

  lemma {:induction false} RewrittenAt(rows: seq<Row>, r: Request, now: string)
    requires r.command.Ok?
    ensures |Rewritten(rows, r, now)| == |rows|
    ensures forall i :: 0 <= i < |rows| ==>
      Rewritten(rows, r, now)[i] ==
        if Hits(rows[i], r) then rows[i].(schedule := r.schedule, command := r.command.value, updatedAt := now) else rows[i]
  {
    if rows != [] {
      RewrittenAt(rows[1..], r, now);
    }
  }

  lemma ExecutionKeepsOrder(s: State, r: Request, newId: int, now: string, fault: Fault, undo: Undo)
    requires SortedIds(s.rows) && FreshId(s.rows, newId)
    ensures SortedIds(Executed(s, r, newId, now, fault, undo).0.rows)
  {
    if Accepted(r) {
      match r.op
      case Create =>
      case Update => RewrittenAt(s.rows, r, now);
      case Delete => RemovedKeepsOrder(s.rows, r, now);
    }
  }

  /******* Every run *******/

  datatype Step = Step(request: Request, newId: int, now: string, fault: Fault)

  function Run(s: State, steps: seq<Step>): State
    decreases |steps|
  {
    if steps == [] then s
    else Run(Executed(s, steps[0].request, steps[0].newId, steps[0].now, steps[0].fault, Works).0, steps[1..])
  }

  /** Over every run of requests, each failing at any step, all files agree with the table and
      no site passes the limit, provided the file can be put back after a failed commit. */
  lemma {:induction false} RunKeepsAgreement(s: State, steps: seq<Step>)
    requires AllAgree(s)
    requires forall site :: |OfSite(s.rows, site)| <= MAX_JOBS
    ensures AllAgree(Run(s, steps))
    ensures forall site :: |OfSite(Run(s, steps).rows, site)| <= MAX_JOBS
    decreases |steps|
  {
    if steps != [] {
      var t := Executed(s, steps[0].request, steps[0].newId, steps[0].now, steps[0].fault, Works).0;
      forall user: string
        ensures Agrees(t, user)
      {
        ExecutionKeepsAgreement(s, steps[0].request, steps[0].newId, steps[0].now, steps[0].fault, Works, user);
      }
      forall site
        ensures |OfSite(t.rows, site)| <= MAX_JOBS
      {
        JobLimitHolds(s, steps[0].request, steps[0].newId, steps[0].now, steps[0].fault, Works, site);
      }
      RunKeepsAgreement(t, steps[1..]);
    }
  }

  /******* What the daemon reads *******/

  ghost predicate ValidRows(rows: seq<Row>) {
    forall row :: row in rows ==> ValidSchedule(row.schedule)
  }

  ghost predicate OneLineRows(rows: seq<Row>) {
    forall row :: row in rows ==> '\n' !in row.command
  }

  lemma {:induction false} JobsAreRenderable(rows: seq<Row>, sites: map<int, string>, user: string)
    requires SiteUser(user) && ValidRows(rows)
    ensures forall l :: l in JobsForUser(rows, sites, user) ==> Renderable(l)
    ensures OneLineRows(rows) ==> forall l :: l in JobsForUser(rows, sites, user) ==> '\n' !in l.command
  {
    if rows != [] {
      JobsAreRenderable(rows[1..], sites, user);
      assert rows[0] in rows;
    }
  }

  lemma {:induction false} RowIsAJob(rows: seq<Row>, sites: map<int, string>, user: string, i: nat)
    requires i < |rows| && rows[i].site in sites && sites[rows[i].site] == user
    ensures exists l :: l in JobsForUser(rows, sites, user) && l.command == rows[i].command
  {
    if i == 0 {
      var l := Line(rows[0].schedule.minute, rows[0].schedule.hour, rows[0].schedule.day, rows[0].schedule.month,
                    rows[0].schedule.weekday, user, rows[0].command);
      assert JobsForUser(rows, sites, user)[0] == l;
    } else {
      RowIsAJob(rows[1..], sites, user, i - 1);
      var l :| l in JobsForUser(rows[1..], sites, user) && l.command == rows[i].command;
      assert l in JobsForUser(rows, sites, user);
    }
  }

  // A user's file, if there is one, reads as the jobs of the table.
  ghost predicate ReadsBack(s: State, user: string) {
    user in s.files ==> ParseCronFile(s.files[user]) == Some(JobsForUser(s.rows, s.sites, user))
  }

  /** A file that agrees with the table reads back as the committed jobs of its user exactly when
      none of their commands holds a newline. */
  lemma DaemonSeesTheTableExactly(s: State, user: string)
    requires Agrees(s, user) && user in s.files && SiteUser(user) && ValidRows(s.rows)
    ensures ReadsBack(s, user) <==> forall l :: l in JobsForUser(s.rows, s.sites, user) ==> '\n' !in l.command
  {
    JobsAreRenderable(s.rows, s.sites, user);
    FileReadsBackExactly(JobsForUser(s.rows, s.sites, user));
  }

  // What holds of a server whose jobs are all one line.
  ghost predicate Tidy(s: State) {
    AllAgree(s) && ValidRows(s.rows) && OneLineRows(s.rows) && forall user :: user in s.files ==> SiteUser(user)
  }

  ghost predicate AllReadBack(s: State) {
    forall user :: user in s.files ==> ReadsBack(s, user)
  }

  // The step commits a job whose command is more than one line.
  ghost predicate StoresNewline(s: State, step: Step) {
    var r := step.request;
    && Reaches(s, r, step.newId, step.now) && (step.fault == NoFault || step.fault == ReadBack)
    && r.op != Delete && '\n' in r.command.value
  }

  function After(s: State, step: Step): State {
    Executed(s, step.request, step.newId, step.now, step.fault, Works).0
  }

  lemma {:induction false} RewrittenRows(rows: seq<Row>, r: Request, now: string)
    requires r.command.Ok? && ValidSchedule(r.schedule) && ValidRows(rows)
    ensures ValidRows(Rewritten(rows, r, now))
    ensures OneLineRows(rows) && '\n' !in r.command.value ==> OneLineRows(Rewritten(rows, r, now))
    ensures CountHits(rows, r) > 0 ==>
      exists i :: 0 <= i < |Rewritten(rows, r, now)| && Rewritten(rows, r, now)[i].site == r.site
        && Rewritten(rows, r, now)[i].command == r.command.value
  {
    if rows != [] {
      assert rows[0] in rows;
      RewrittenRows(rows[1..], r, now);
      var out := Rewritten(rows, r, now);
      if Hits(rows[0], r) {
        assert out[0].site == r.site && out[0].command == r.command.value;
      } else if CountHits(rows[1..], r) > 0 {
        var i :| 0 <= i < |Rewritten(rows[1..], r, now)| && Rewritten(rows[1..], r, now)[i].site == r.site
          && Rewritten(rows[1..], r, now)[i].command == r.command.value;
        assert out[i + 1] == Rewritten(rows[1..], r, now)[i];
      }
    }
  }

  lemma {:induction false} RemovedRows(rows: seq<Row>, r: Request)
    ensures forall row :: row in Removed(rows, r) ==> row in rows
  {
    if rows != [] {
      RemovedRows(rows[1..], r);
    }
  }

  lemma MutatedRows(s: State, step: Step)
    requires Reaches(s, step.request, step.newId, step.now) && ValidRows(s.rows)
    ensures
      var r := step.request;
      var rows := Mutated(s.rows, r, step.newId, step.now).value;
      && ValidRows(rows)
      && (OneLineRows(s.rows) && (r.op == Delete || '\n' !in r.command.value) ==> OneLineRows(rows))
      && (r.op != Delete ==>
            exists i :: 0 <= i < |rows| && rows[i].site == r.site && rows[i].command == r.command.value)
  {
    var r := step.request;
    match r.op
    case Create =>
      var rows := Mutated(s.rows, r, step.newId, step.now).value;
      assert rows[|s.rows|].site == r.site && rows[|s.rows|].command == r.command.value;
    case Update => RewrittenRows(s.rows, r, step.now);
    case Delete => RemovedRows(s.rows, r);
  }

  lemma StepStaysTidy(s: State, step: Step)
    requires Tidy(s) && !StoresNewline(s, step)
    ensures Tidy(After(s, step))
  {
    var t := After(s, step);
    forall user: string
      ensures Agrees(t, user)
    {
      ExecutionKeepsAgreement(s, step.request, step.newId, step.now, step.fault, Works, user);
    }
    if Reaches(s, step.request, step.newId, step.now) {
      MutatedRows(s, step);
    }
  }

  lemma TidyReadsBack(s: State)
    requires Tidy(s)
    ensures AllReadBack(s)
  {
    forall user | user in s.files
      ensures ReadsBack(s, user)
    {
      JobsAreRenderable(s.rows, s.sites, user);
      DaemonSeesTheTableExactly(s, user);
    }
  }

  lemma StoredNewlineShows(s: State, step: Step)
    requires Tidy(s) && StoresNewline(s, step)
    ensures !AllReadBack(After(s, step))
  {
    var r := step.request;
    var t, user := After(s, step), s.sites[r.site];
    ExecutionKeepsAgreement(s, r, step.newId, step.now, step.fault, Works, user);
    MutatedRows(s, step);
    var i :| 0 <= i < |t.rows| && t.rows[i].site == r.site && t.rows[i].command == r.command.value;
    RowIsAJob(t.rows, t.sites, user, i);
    DaemonSeesTheTableExactly(t, user);
  }

  ghost predicate AlwaysReadsBack(s: State, steps: seq<Step>)
    decreases |steps|
  {
    AllReadBack(s) && (steps != [] ==> AlwaysReadsBack(After(s, steps[0]), steps[1..]))
  }

  ghost predicate NeverStoresNewline(s: State, steps: seq<Step>)
    decreases |steps|
  {
    steps != [] ==> !StoresNewline(s, steps[0]) && NeverStoresNewline(After(s, steps[0]), steps[1..])
  }

  /** From a table of one-line commands, every crontab reads back as the table all along a run
      exactly when no step of it commits a command with a newline. */
  lemma {:induction false} RunReadsBackExactly(s: State, steps: seq<Step>)
    requires Tidy(s)
    ensures AlwaysReadsBack(s, steps) <==> NeverStoresNewline(s, steps)
    decreases |steps|
  {
    TidyReadsBack(s);
    if steps != [] {
      if StoresNewline(s, steps[0]) {
        StoredNewlineShows(s, steps[0]);
      } else {
        StepStaysTidy(s, steps[0]);
        RunReadsBackExactly(After(s, steps[0]), steps[1..]);
      }
    }
  }

  /******* The same in terms of what was asked for *******/

  // What a request asks to run, and where.
  datatype Job = Job(env: Env, ask: Ask, args: seq<string>, confirm: bool)

  predicate AsksFor(r: Request, job: Job) {
    && r.runnerOk == ValidateCronRunner(job.env, job.ask, job.args, job.confirm)
    && r.command == RenderCronCommand(job.env, job.ask, job.args)
  }

  // The program or the target found for the job holds a newline.
  predicate NewlineInTarget(job: Job) {
    var r := Resolved(job.env, job.ask);
    r.Some? && ('\n' in Binary(r.value) || '\n' in Target(r.value))
  }

  // No step commits a job with a newline in its program or target.
  ghost predicate OneLineTargets(s: State, steps: seq<Step>, jobs: seq<Job>)
    requires |steps| == |jobs|
    decreases |steps|
  {
    steps != [] ==>
      && !(Reaches(s, steps[0].request, steps[0].newId, steps[0].now) && (steps[0].fault == NoFault || steps[0].fault == ReadBack)
           && steps[0].request.op != Delete && NewlineInTarget(jobs[0]))
      && OneLineTargets(After(s, steps[0]), steps[1..], jobs[1..])
  }

  lemma StoredNewlineIsInTheTarget(r: Request, job: Job)
    requires AsksFor(r, job) && Accepted(r) && r.op != Delete
    ensures '\n' in r.command.value <==> NewlineInTarget(job)
  {
    NewlinesComeFromTheTarget(job.env, job.ask, job.args, job.confirm);
  }

  lemma {:induction false} TargetsDecide(s: State, steps: seq<Step>, jobs: seq<Job>)
    requires |steps| == |jobs| && forall i :: 0 <= i < |steps| ==> AsksFor(steps[i].request, jobs[i])
    ensures NeverStoresNewline(s, steps) <==> OneLineTargets(s, steps, jobs)
    decreases |steps|
  {
    if steps != [] {
      TargetsDecide(After(s, steps[0]), steps[1..], jobs[1..]);
      if Reaches(s, steps[0].request, steps[0].newId, steps[0].now) && steps[0].request.op != Delete {
        StoredNewlineIsInTheTarget(steps[0].request, jobs[0]);
      }
    }
  }

  /** From a table of one-line commands, every crontab reads back as the table all along a run of
      requests exactly when no committed job has a newline in its program or target. */
  lemma TargetsDecideWhatIsRead(s: State, steps: seq<Step>, jobs: seq<Job>)
    requires Tidy(s) && |steps| == |jobs|
    requires forall i :: 0 <= i < |steps| ==> AsksFor(steps[i].request, jobs[i])
    ensures AlwaysReadsBack(s, steps) <==> OneLineTargets(s, steps, jobs)
  {
    RunReadsBackExactly(s, steps);
    TargetsDecide(s, steps, jobs);
  }

  lemma {:induction false} NothingToEscape(v: string)
    requires '\'' !in v
    ensures Escaped(v) == v
  {
    if v != [] {
      NothingToEscape(v[1..]);
      assert v == [v[0]] + v[1..];
    }
  }

  // A target of one plain component without dots.
  ghost predicate OneComponent(t: string) {
    t != "" && forall i :: 0 <= i < |t| ==> t[i] != '/' && t[i] != '.' && t[i] != '\''
  }

  lemma NoDots(t: string)
    requires OneComponent(t)
    ensures Index(t, "..").None? && Normal(t) && !IsAbs(t)
  {
    forall i: nat
      ensures !At(t, "..", i)
    {
      AtMeans(t, "..", i);
    }
    assert t[0] != '.' && t[0] != '/';
  }

  lemma PlainPath(base: string, t: string)
    requires OneComponent(t)
    ensures PathUnder(base, t) == base + "/" + t && TargetNamed(t)
  {
    NoDots(t);
    SplitPlain(t, '/');
    NormalStays([], [t], false);
    assert [] + [t] == [t];
    JoinBehind(base, [t], '/');
  }

  lemma PlainQuote(base: string, t: string)
    requires OneComponent(t) && '\'' !in base
    ensures ShellQuote(base + "/" + t) == "'" + base + "/" + t + "'"
  {
    NothingToEscape(base + "/" + t);
  }

  // The executable is there, and no symbolic link is involved.
  ghost predicate Executable(env: Env, base: string, t: string) {
    var p := base + "/" + t;
    env.htdocs == base && env.resolve(p) == Some(p) && env.regular(p) && env.executable(p)
  }

  lemma PlainTarget(env: Env, base: string, t: string)
    requires OneComponent(t) && '\'' !in base && |base| + |t| <= 252 && Executable(env, base, t)
    ensures ValidateCronRunner(env, AskExecutable(t), [], false)
    ensures RenderCronCommand(env, AskExecutable(t), []) == Ok("'" + base + "/" + t + "'")
  {
    PlainPath(base, t);
    PlainQuote(base, t);
    assert base + "/" <= base + "/" + t;
    assert SiteRootFile(env, t) == Some(base + "/" + t);
  }

  // The job behind the newline.
  function Second(user: string): Line {
    Line("0", "0", "1", "1", "0", user, "b'")
  }

  function EveryMinute(user: string, command: string): Line {
    Line("*", "*", "*", "*", "*", user, command)
  }

  lemma DigitField(c: char, min: int, max: int)
    requires Digit(c) && min <= c as int - '0' as int <= max
    ensures ValidCronField([c], min, max)
  {
    SplitPlain([c], ',');
    CountSplit([c], '/');
    CountSplit([c], '-');
    assert [c][..0] == "" && Digits([c]) == c as int - '0' as int;
    assert Atoi([c]) == Some(c as int - '0' as int);
    assert ValidCronNumber([c], min, max) && ValidItem([c], min, max);
  }

  lemma StarField(min: int, max: int)
    ensures ValidCronField("*", min, max)
  {
    SplitPlain("*", ',');
    CountSplit("*", '/');
    assert ValidItem("*", min, max);
  }

  lemma SecondIsRenderable(user: string)
    requires SiteUser(user)
    ensures Renderable(Second(user)) && '\n' !in Second(user).command
  {
    DigitField('0', 0, 59);
    DigitField('0', 0, 23);
    DigitField('1', 1, 31);
    DigitField('1', 1, 12);
    DigitField('0', 0, 7);
  }

  lemma EveryMinuteIsRenderable(user: string, command: string)
    requires SiteUser(user)
    ensures Renderable(EveryMinute(user, command))
  {
    StarField(0, 59);
    StarField(0, 23);
    StarField(1, 31);
    StarField(1, 12);
    StarField(0, 7);
  }

  const LEAD := "0 0 1 1 0 "

  lemma JoinTwo(a: string, b: string)
    ensures Join([a, b], ' ') == a + " " + b
  {
    JoinBehind(a, [b], ' ');
    assert [a] + [b] == [a, b] && a + [' '] == a + " ";
  }

  lemma SecondText(user: string)
    ensures Join(Parts(Second(user)), ' ') == LEAD + user + " b'"
  {
    var rest := [user, "b'"];
    JoinTwo(user, "b'");
    JoinBehind("0", rest, ' ');
    JoinBehind("1", ["0"] + rest, ' ');
    JoinBehind("1", ["1"] + (["0"] + rest), ' ');
    JoinBehind("0", ["1"] + (["1"] + (["0"] + rest)), ' ');
    JoinBehind("0", ["0"] + (["1"] + (["1"] + (["0"] + rest))), ' ');
    assert Parts(Second(user)) == ["0"] + (["0"] + (["1"] + (["1"] + (["0"] + rest))));
    LeadRegroups(user + " " + "b'");
    assert LEAD + (user + " " + "b'") == LEAD + user + " b'";
  }

  lemma LeadRegroups(behind: string)
    ensures "0" + [' '] + ("0" + [' '] + ("1" + [' '] + ("1" + [' '] + ("0" + [' '] + behind)))) == LEAD + behind
  {
  }

  // A file name that goes on as a job.
  function TwoLines(user: string): string {
    "a" + "\n" + (LEAD + user + " b")
  }

  lemma TwoLinesArePlain(user: string)
    requires SiteUser(user)
    ensures OneComponent(TwoLines(user)) && |TwoLines(user)| == |user| + 14
  {
  }

  lemma LinesRegroup(front: string, a: string, n: string, lead: string, user: string, tail: string, q: string)
    ensures front + (a + n + (lead + user + tail)) + q == front + a + n + (lead + user + (tail + q))
  {
  }

  lemma TwoLinesSplit(base: string, user: string)
    ensures "'" + base + "/" + TwoLines(user) + "'" == "'" + base + "/a" + "\n" + (LEAD + user + " b'")
  {
    var front := "'" + base + "/";
    LinesRegroup(front, "a", "\n", LEAD, user, " b", "'");
    assert front + "a" == "'" + base + "/a" && " b" + "'" == " b'";
  }

  lemma TwoLinesAreTwoJobs(base: string, user: string)
    requires SiteUser(user) && '\n' !in base
    ensures ParseCronFile(RenderCronFile([EveryMinute(user, "'" + base + "/" + TwoLines(user) + "'")])) ==
      Some([EveryMinute(user, "'" + base + "/a"), Second(user)])
  {
    SecondIsRenderable(user);
    EveryMinuteIsRenderable(user, "'" + base + "/a");
    SecondText(user);
    TwoLinesSplit(base, user);
    OneJobReadsAsTwo(EveryMinute(user, "'" + base + "/a"), Second(user));
  }

  function SiteBase(user: string, root: string): string {
    "/home/" + user + "/htdocs/" + root
  }

  lemma SiteBaseIsPlain(user: string, root: string)
    requires SiteUser(user) && '\'' !in root && '\n' !in root && |root| <= 150
    ensures var base := SiteBase(user, root); '\'' !in base && '\n' !in base && |base| + |user| <= 238
  {
  }

  lemma AcceptedBelow(env: Env, user: string, base: string)
    requires SiteUser(user) && '\'' !in base && '\n' !in base && |base| + |user| <= 238
    requires Executable(env, base, TwoLines(user))
    ensures ValidateCronRunner(env, AskExecutable(TwoLines(user)), [], false)
    ensures
      var command := RenderCronCommand(env, AskExecutable(TwoLines(user)), []);
      && command.Ok?
      && ParseCronFile(RenderCronFile([EveryMinute(user, command.value)])) ==
           Some([EveryMinute(user, "'" + base + "/a"), Second(user)])
  {
    TwoLinesArePlain(user);
    PlainTarget(env, base, TwoLines(user));
    TwoLinesAreTwoJobs(base, user);
  }

  /** An accepted job of any site that does not read back as itself: its target holds a newline,
      and the crontab made of the one job is read as two. */
  lemma AcceptedJobReadsAsTwo(env: Env, user: string, root: string)
    requires SiteUser(user) && '\'' !in root && '\n' !in root && |root| <= 150
    requires Executable(env, SiteBase(user, root), TwoLines(user))
    ensures ValidateCronRunner(env, AskExecutable(TwoLines(user)), [], false)
    ensures
      var command := RenderCronCommand(env, AskExecutable(TwoLines(user)), []);
      && command.Ok?
      && ParseCronFile(RenderCronFile([EveryMinute(user, command.value)])) ==
           Some([EveryMinute(user, "'" + SiteBase(user, root) + "/a"), Second(user)])
  {
    SiteBaseIsPlain(user, root);
    AcceptedBelow(env, user, SiteBase(user, root));
  }

  /******* From the request to the shell *******/

  // The line that is rendered for an accepted job.
  ghost predicate LineOf(l: Line, job: Job) {
    && Renderable(l) && ValidateCronRunner(job.env, job.ask, job.args, job.confirm)
    && RenderCronCommand(job.env, job.ask, job.args) == Ok(l.command)
  }

  // The words asked for; nothing is asked of a raw command.
  function AskedOf(job: Job): Option<seq<string>> {
    if job.ask.AskRaw? || Resolved(job.env, job.ask).None? then None else Some(Asked(job.env, job.ask, job.args))
  }

  ghost predicate RunsAsAsked(read: Line, job: Job) {
    AskedOf(job).Some? ==> Tokenise(Delivered(read.command, PERCENT)) == AskedOf(job)
  }

  ghost predicate WordsAllowed(job: Job) {
    AskedOf(job).Some? ==> forall w :: w in AskedOf(job).value ==> '%' !in w && '\n' !in w
  }

  // What the daemon reads of the file is the jobs it was rendered from, and each runs as asked.
  ghost predicate FileRunsAsAsked(lines: seq<Line>, jobs: seq<Job>)
    requires |lines| == |jobs|
  {
    && ParseCronFile(RenderCronFile(lines)) == Some(lines)
    && forall i :: 0 <= i < |jobs| ==> RunsAsAsked(lines[i], jobs[i])
  }

  lemma OneJobRunsAsAskedExactly(l: Line, job: Job)
    requires LineOf(l, job)
    ensures '\n' !in l.command && RunsAsAsked(l, job) <==> WordsAllowed(job)
  {
    var r := Resolved(job.env, job.ask).value;
    NewlinesComeFromTheTarget(job.env, job.ask, job.args, job.confirm);
    if !job.ask.AskRaw? {
      AcceptedJobsRunAsAskedExactly(job.env, job.ask, job.args, job.confirm);
      WordsOfRunner(r, job.args);
    }
  }

  lemma WordsOfRunner(r: Runner, args: seq<string>)
    requires !r.RawCommand?
    ensures Target(r) in Argv(r) + args && (Binary(r) == "" || Binary(r) in Argv(r) + args)
  {
    var words := Argv(r);
    assert r.HttpRequest? ==> words[|CURL| + 1] == r.url;
    assert (r.PhpScript? || r.NodeScript?) ==> words[0] == r.binary && words[1] == r.target;
    assert r.SiteExecutable? ==> words[0] == r.target;
    assert forall w :: w in words ==> w in words + args;
  }

  /** A whole crontab of accepted jobs, as the daemon and then the shell see it: the daemon reads
      exactly these jobs and every typed one runs with exactly the program, target and arguments
      asked for, if and only if none of those words holds a percent sign or a newline. */
  lemma CrontabRunsAsAskedExactly(lines: seq<Line>, jobs: seq<Job>)
    requires |lines| == |jobs| && forall i :: 0 <= i < |jobs| ==> LineOf(lines[i], jobs[i])
    ensures FileRunsAsAsked(lines, jobs) <==> forall i :: 0 <= i < |jobs| ==> WordsAllowed(jobs[i])
  {
    FileReadsBackExactly(lines);
    forall i | 0 <= i < |jobs|
      ensures '\n' !in lines[i].command && RunsAsAsked(lines[i], jobs[i]) <==> WordsAllowed(jobs[i])
    {
      OneJobRunsAsAskedExactly(lines[i], jobs[i]);
    }
    if FileRunsAsAsked(lines, jobs) {
      assert forall i :: 0 <= i < |lines| ==> lines[i] in lines;
    }
  }

  class CronAdapter {
    var rows: seq<Row>
    const sites: map<int, string>
    var files: map<string, string>

    ghost function View(): State
      reads this
    {
      State(rows, sites, files)
    }

    constructor (s: State)
      ensures View() == s
    {
      rows, sites, files := s.rows, s.sites, s.files;
    }

    method WriteCronFile(user: string, content: string, works: bool) returns (ok: bool)
      modifies this`files
      ensures ok == works && files == if works then old(files)[user := content] else old(files)
    {
      if works {
        files := files[user := content];
      }
      ok := works;
    }

    // An existing file is rewritten in place, a new one is removed.
    method RestoreCronFile(user: string, previous: string, existed: bool, undo: Undo)
      modifies this`files
      ensures existed ==> files == old(files)[user := if undo.Works? then previous else undo.torn]
      ensures !existed ==> files == if undo.Works? then old(files) - {user} else old(files)
    {
      if existed {
        files := files[user := if undo.Works? then previous else undo.torn];
      } else if undo.Works? {
        files := files - {user};
      }
    }

    // The statements of the transaction.
    static method MutateRows(table: seq<Row>, r: Request, newId: int, now: string) returns (out: Result<seq<Row>>)
      requires Accepted(r)
      ensures out == Mutated(table, r, newId, now)
    {
      match r.op {
        case Create =>
          if |OfSite(table, r.site)| >= MAX_JOBS {
            return Err;
          }
          return Ok(table + [Row(newId, r.site, r.schedule, r.command.value, now)]);
        case Update =>
          if r.jobId < 1 {
            return Err;
          }
          if CountHits(table, r) != 1 {
            return Err;
          }
          return Ok(Rewritten(table, r, now));
        case Delete =>
          if r.jobId < 1 {
            return Err;
          }
          if CountHits(table, r) != 1 {
            return Err;
          }
          return Ok(Removed(table, r));
      }
    }

    method ExecuteCron(r: Request, newId: int, now: string, fault: Fault, undo: Undo) returns (ok: bool)
      modifies this
      ensures (View(), ok) == Executed(old(View()), r, newId, now, fault, undo)
    {
      if r.site !in sites {
        return false;
      }
      var user := sites[r.site];
      if !SiteUser(user) {
        return false;
      }
      if !r.settled {
        return false;
      }
      if r.op != Delete {
        if !ValidSchedule(r.schedule) || !r.runnerOk || r.command.Err? {
          return false;
        }
      }
      if fault == BeginTx || fault == Statement {
        return false;
      }
      var changed := MutateRows(rows, r, newId, now);
      if changed.Err? {
        return false;
      }
      ok := WriteAndCommit(changed.value, user, fault, undo);
    }

    method WriteAndCommit(tx: seq<Row>, user: string, fault: Fault, undo: Undo) returns (ok: bool)
      requires fault != BeginTx && fault != Statement
      modifies this
      ensures (View(), ok) == Committed(old(View()), tx, user, fault, undo)
    {
      if fault == QueryJobs || fault == ReadFile {
        return false;
      }
      var jobs := JobsForUser(tx, sites, user);
      var existed := user in files;
      var previous := if existed then files[user] else "";
      ghost var before := files;
      ok := WriteCronFile(user, RenderCronFile(jobs), fault != WriteFile);
      if !ok {
        return;
      }
      if fault == CommitTx {
        RestoreCronFile(user, previous, existed, undo);
        assert undo.Works? ==> files == before;
        assert undo.Fails? && existed ==> files == before[user := undo.torn];
        return false;
      }
      rows := tx;
      ok := fault != ReadBack;
    }
  }
}
