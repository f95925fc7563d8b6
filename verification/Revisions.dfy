/**
 The byte strings the revision HMACs are computed over (internal/gateway/cron.go,
 node.go and settings.go): fields joined by NUL. Which states share a revision is
 decided by which states share this text.
 */
module Revisions {
  import opened Numbers
  import opened Text

  const NUL := '\0'

  ghost predicate Clear(s: string) {
    NUL !in s
  }

  ghost predicate AllClear(parts: seq<string>) {
    forall p :: p in parts ==> Clear(p)
  }

  lemma ItoaIsClear(n: int)
    ensures Clear(Itoa(n))
  {
    DecimalReads(if n < 0 then -n else n);
  }

  /******* Joined texts *******/

  lemma JoinIsInjective(a: seq<string>, b: seq<string>)
    requires |a| >= 1 && |b| >= 1 && AllClear(a) && AllClear(b)
    requires Join(a, NUL) == Join(b, NUL)
    ensures a == b
  {
    SplitJoin(a, NUL);
    SplitJoin(b, NUL);
  }

  // Joining a joined list inside a list.
  lemma {:induction false} JoinFlattens(a: seq<string>, b: seq<string>, c: seq<string>)
    requires |b| >= 1
    ensures Join(a + [Join(b, NUL)] + c, NUL) == Join(a + b + c, NUL)
    decreases |a| + |b|
  {
    if a != [] {
      assert (a + [Join(b, NUL)] + c)[1..] == a[1..] + [Join(b, NUL)] + c;
      assert (a + b + c)[1..] == a[1..] + b + c;
      JoinFlattens(a[1..], b, c);
    } else if |b| == 1 {
      assert a + [Join(b, NUL)] + c == a + b + c;
    } else {
      JoinFlattens(a, b[1..], c);
      assert a + [Join(b, NUL)] + c == [Join(b, NUL)] + c && a + b + c == b + c;
      assert a + [Join(b[1..], NUL)] + c == [Join(b[1..], NUL)] + c && a + b[1..] + c == b[1..] + c;
      assert (b + c)[1..] == b[1..] + c;
      HeadJoins(b[0], Join(b[1..], NUL), c);
    }
  }

  lemma HeadJoins(x: string, y: string, c: seq<string>)
    ensures Join([x + [NUL] + y] + c, NUL) == x + [NUL] + Join([y] + c, NUL)
  {
    assert ([x + [NUL] + y] + c)[1..] == c && ([y] + c)[1..] == c;
    if c == [] {
      assert [x + [NUL] + y] + c == [x + [NUL] + y] && [y] + c == [y];
    } else {
      assert x + [NUL] + y + [NUL] + Join(c, NUL) == x + [NUL] + (y + [NUL] + Join(c, NUL));
    }
  }

  /******* nodeRevision *******/

  datatype NodeState = NodeState(
    domain: string, version: string, port: int, entrypoint: string, args: seq<string>, updatedAt: string)

  function NodeText(n: NodeState): string {
    Join([n.domain, n.version, Itoa(n.port), n.entrypoint, Join(n.args, NUL), n.updatedAt], NUL)
  }

  ghost predicate ClearNode(n: NodeState) {
    AllClear([n.domain, n.version, n.entrypoint, n.updatedAt]) && AllClear(n.args)
  }

  // No argument and one empty argument look the same.
  function Shown(args: seq<string>): seq<string> {
    if args == [] then [""] else args
  }

  function NodeFields(n: NodeState): seq<string> {
    [n.domain, n.version, Itoa(n.port), n.entrypoint] + Shown(n.args) + [n.updatedAt]
  }

  lemma NodeTextIsFields(n: NodeState)
    requires ClearNode(n)
    ensures NodeText(n) == Join(NodeFields(n), NUL) && AllClear(NodeFields(n))
  {
    var front := [n.domain, n.version, Itoa(n.port), n.entrypoint];
    assert Join(Shown(n.args), NUL) == Join(n.args, NUL);
    assert [n.domain, n.version, Itoa(n.port), n.entrypoint, Join(n.args, NUL), n.updatedAt] ==
           front + [Join(Shown(n.args), NUL)] + [n.updatedAt];
    JoinFlattens(front, Shown(n.args), [n.updatedAt]);
    ItoaIsClear(n.port);
  }

  /** Two NUL-free configurations share their revision text exactly when they are equal, an
      empty argument list counting as one empty argument; with arguments it determines them. */
  lemma NodeTextDetermines(a: NodeState, b: NodeState)
    requires ClearNode(a) && ClearNode(b)
    ensures NodeText(a) == NodeText(b) <==> a.(args := Shown(a.args)) == b.(args := Shown(b.args))
    ensures a.args != [] && b.args != [] && NodeText(a) == NodeText(b) ==> a == b
  {
    NodeTextIsFields(a);
    NodeTextIsFields(b);
    if NodeText(a) == NodeText(b) {
      var x, y := NodeFields(a), NodeFields(b);
      JoinIsInjective(x, y);
      assert x[0] == a.domain && x[1] == a.version && x[2] == Itoa(a.port) && x[3] == a.entrypoint;
      assert y[0] == b.domain && y[1] == b.version && y[2] == Itoa(b.port) && y[3] == b.entrypoint;
      assert x[|x| - 1] == a.updatedAt && y[|y| - 1] == b.updatedAt;
      assert x[4..|x| - 1] == Shown(a.args) && y[4..|y| - 1] == Shown(b.args);
      ItoaIsInjective(a.port, b.port);
    }
  }

  /******* cronRevision *******/

  datatype CronJob = CronJob(
    id: int, minute: string, hour: string, day: string, month: string, weekday: string, updatedAt: string)

  function JobFields(j: CronJob): seq<string> {
    [Itoa(j.id), j.minute, j.hour, j.day, j.month, j.weekday, j.updatedAt]
  }

  // One Write for each job.
  function JobsText(jobs: seq<CronJob>): string {
    if jobs == [] then "" else [NUL] + Join(JobFields(jobs[0]), NUL) + JobsText(jobs[1..])
  }

  function CronText(domain: string, jobs: seq<CronJob>): string {
    domain + JobsText(jobs)
  }

  function AllFields(jobs: seq<CronJob>): seq<string> {
    if jobs == [] then [] else JobFields(jobs[0]) + AllFields(jobs[1..])
  }

  ghost predicate ClearJob(j: CronJob) {
    AllClear([j.minute, j.hour, j.day, j.month, j.weekday, j.updatedAt])
  }

  lemma {:induction false} JoinSplits(a: seq<string>, b: seq<string>)
    requires |a| >= 1 && |b| >= 1
    ensures Join(a + b, NUL) == Join(a, NUL) + [NUL] + Join(b, NUL)
    decreases |a|
  {
    assert (a + b)[1..] == a[1..] + b;
    if |a| == 1 {
      assert a[1..] + b == b;
    } else {
      JoinSplits(a[1..], b);
      assert a[0] + [NUL] + (Join(a[1..], NUL) + [NUL] + Join(b, NUL)) ==
             a[0] + [NUL] + Join(a[1..], NUL) + [NUL] + Join(b, NUL);
    }
  }

  lemma {:induction false} CronTextIsFields(head: seq<string>, jobs: seq<CronJob>)
    requires |head| >= 1
    ensures Join(head, NUL) + JobsText(jobs) == Join(head + AllFields(jobs), NUL)
    decreases |jobs|
  {
    if jobs == [] {
      assert head + [] == head && Join(head, NUL) + "" == Join(head, NUL);
    } else {
      var f, rest := JobFields(jobs[0]), jobs[1..];
      JoinSplits(head, f);
      CronTextIsFields(head + f, rest);
      ListsRegroup(head, f, AllFields(rest));
      TextsRegroup(Join(head, NUL), [NUL], Join(f, NUL), JobsText(rest));
    }
  }

  lemma ListsRegroup(a: seq<string>, b: seq<string>, c: seq<string>)
    ensures a + b + c == a + (b + c)
  {
  }

  lemma TextsRegroup(a: string, b: string, c: string, d: string)
    ensures a + (b + c + d) == a + b + c + d
  {
  }

  lemma {:induction false} FieldsAreClear(jobs: seq<CronJob>)
    requires forall j :: j in jobs ==> ClearJob(j)
    ensures AllClear(AllFields(jobs)) && |AllFields(jobs)| == 7 * |jobs|
  {
    if jobs != [] {
      assert ClearJob(jobs[0]);
      ItoaIsClear(jobs[0].id);
      FieldsAreClear(jobs[1..]);
      JobIsClear(jobs[0]);
    }
  }

  lemma JobIsClear(j: CronJob)
    requires ClearJob(j)
    ensures AllClear(JobFields(j))
  {
    ItoaIsClear(j.id);
    var six := [j.minute, j.hour, j.day, j.month, j.weekday, j.updatedAt];
    assert JobFields(j) == [Itoa(j.id)] + six;
  }

  lemma JobFieldsDetermine(a: CronJob, b: CronJob)
    requires JobFields(a) == JobFields(b)
    ensures a == b
  {
    var x, y := JobFields(a), JobFields(b);
    assert x[0] == y[0] && x[1] == y[1] && x[2] == y[2] && x[3] == y[3] && x[4] == y[4] && x[5] == y[5] && x[6] == y[6];
    ItoaIsInjective(a.id, b.id);
  }

  lemma {:induction false} AllFieldsDetermine(a: seq<CronJob>, b: seq<CronJob>)
    requires AllFields(a) == AllFields(b)
    requires |AllFields(a)| == 7 * |a| && |AllFields(b)| == 7 * |b|
    ensures a == b
    decreases |a|
  {
    if a != [] {
      var x, y := AllFields(a), AllFields(b);
      assert x[..7] == JobFields(a[0]) && x[7..] == AllFields(a[1..]);
      assert y[..7] == JobFields(b[0]) && y[7..] == AllFields(b[1..]);
      JobFieldsDetermine(a[0], b[0]);
      AllFieldsDetermine(a[1..], b[1..]);
      assert a == [a[0]] + a[1..] && b == [b[0]] + b[1..];
    }
  }

  /** The cron revision text determines the domain and every listed field of every job in order. */
  lemma CronTextDetermines(domain1: string, jobs1: seq<CronJob>, domain2: string, jobs2: seq<CronJob>)
    requires Clear(domain1) && Clear(domain2)
    requires (forall j :: j in jobs1 ==> ClearJob(j)) && (forall j :: j in jobs2 ==> ClearJob(j))
    requires CronText(domain1, jobs1) == CronText(domain2, jobs2)
    ensures domain1 == domain2 && jobs1 == jobs2
  {
    CronTextIsFields([domain1], jobs1);
    CronTextIsFields([domain2], jobs2);
    FieldsAreClear(jobs1);
    FieldsAreClear(jobs2);
    var x, y := [domain1] + AllFields(jobs1), [domain2] + AllFields(jobs2);
    JoinIsInjective(x, y);
    assert x[0] == y[0] && x[1..] == AllFields(jobs1) && y[1..] == AllFields(jobs2);
    AllFieldsDetermine(jobs1, jobs2);
  }

  /******* siteRevision *******/

  // The seven PHP fields behind the version.
  datatype SiteState = SiteState(
    domain: string, updatedAt: string, root: string, pageSpeed: string, php: bool, version: string, limits: seq<string>)

  function SiteText(s: SiteState): string {
    Join([s.domain, s.updatedAt, s.root, s.pageSpeed], NUL) + if s.php then Join([s.version] + s.limits, NUL) else ""
  }

  ghost predicate ClearSite(s: SiteState) {
    && AllClear([s.domain, s.updatedAt, s.root, s.pageSpeed]) && Clear(s.version) && AllClear(s.limits)
    && |s.limits| == 7
  }

  // Nothing separates the PageSpeed settings from the PHP version.
  function SiteFields(s: SiteState): seq<string> {
    if s.php then [s.domain, s.updatedAt, s.root] + [s.pageSpeed + s.version] + s.limits
    else [s.domain, s.updatedAt, s.root, s.pageSpeed]
  }

  lemma NulRegroups(front: string, a: string, b: string, rest: string)
    ensures front + [NUL] + a + (b + [NUL] + rest) == front + [NUL] + (a + b + [NUL] + rest)
  {
  }

  lemma SiteTextIsFields(s: SiteState)
    requires ClearSite(s)
    ensures SiteText(s) == Join(SiteFields(s), NUL) && AllClear(SiteFields(s))
  {
    var front := [s.domain, s.updatedAt, s.root];
    var four := [s.domain, s.updatedAt, s.root, s.pageSpeed];
    assert four == front + [s.pageSpeed];
    assert s.domain in four && s.updatedAt in four && s.root in four && s.pageSpeed in four;
    if s.php {
      JoinSplits(front, [s.pageSpeed]);
      JoinSplits([s.version], s.limits);
      JoinSplits([s.pageSpeed + s.version], s.limits);
      JoinSplits(front, [s.pageSpeed + s.version] + s.limits);
      assert SiteFields(s) == front + ([s.pageSpeed + s.version] + s.limits);
      NulRegroups(Join(front, NUL), s.pageSpeed, s.version, Join(s.limits, NUL));
    }
  }

  /** Two NUL-free sites share their revision text exactly when they agree on everything, the
      PageSpeed settings and the PHP version only as their concatenation. */
  lemma SiteTextDetermines(a: SiteState, b: SiteState)
    requires ClearSite(a) && ClearSite(b)
    ensures SiteText(a) == SiteText(b) <==>
      && a.domain == b.domain && a.updatedAt == b.updatedAt && a.root == b.root && a.php == b.php
      && (if a.php then a.pageSpeed + a.version == b.pageSpeed + b.version && a.limits == b.limits
          else a.pageSpeed == b.pageSpeed)
  {
    SiteTextIsFields(a);
    SiteTextIsFields(b);
    if SiteText(a) == SiteText(b) {
      var x, y := SiteFields(a), SiteFields(b);
      JoinIsInjective(x, y);
      assert |x| == if a.php then 11 else 4;
      assert |y| == if b.php then 11 else 4;
      assert x[0] == a.domain && x[1] == a.updatedAt && x[2] == a.root;
      assert y[0] == b.domain && y[1] == b.updatedAt && y[2] == b.root;
      if a.php {
        assert x[3] == a.pageSpeed + a.version && y[3] == b.pageSpeed + b.version;
        assert x[4..] == a.limits && y[4..] == b.limits;
      } else {
        assert x[3] == a.pageSpeed && y[3] == b.pageSpeed;
      }
    }
  }
}
