/**
 The Node.js release machine of internal/gateway/node.go for one site: the
 `current` symlink, the systemd unit, the stored configuration, the release
 rows and CloudPanel's own runtime settings are five copies of one fact, kept in
 step by hand-written switch and undo code.
 */
module NodeRelease {
  import opened Wrappers
  import SiteCommit

  type Id = string
  type Path = string

  datatype Config = Config(
    version: string, port: int, entrypoint: string, args: seq<string>, health: string,
    active: Id, previous: Id, updatedAt: string)

  datatype Status = Active | Previous | Failed

  datatype Release = Release(entrypoint: string, path: Path, status: Status)

  // What the rendered unit file depends on.
  datatype Unit = Unit(release: Path, entrypoint: string, args: seq<string>, version: string, port: int)

  // CloudPanel's nodejs_settings row and the loopback port its vhost proxies to
  // (None when the vhost has no loopback proxy to patch).
  datatype Panel = Panel(version: string, port: int, proxy: Option<int>)

  datatype Host = Host(
    config: Config, releases: map<Id, Release>, current: Option<Path>, unit: Option<Unit>, panel: Panel)

  const RELEASES := "/releases/"

  function ReleasePath(id: Id): Path {
    RELEASES + id
  }

  function UnitFor(n: Config, release: Path): Unit {
    Unit(release, n.entrypoint, n.args, n.version, n.port)
  }

  /******* CloudPanel's own settings *******/

  // The first step in front of the nginx commit that fails in updateCloudPanelNodeSettings.
  datatype PanelFault = PanelNone | PanelTx | PanelReadVhost

  // `acceptable` and `commit` drive the nginx commit of the patched vhost; `undo` says whether
  // the compensating UPDATE works.
  datatype PanelChoice = PanelChoice(fault: PanelFault, acceptable: bool, commit: SiteCommit.CommitChoice, undo: bool)

  // How the nginx commit ends; a vhost without a loopback proxy is never committed.
  function ProxyOutcome(p: Panel, c: PanelChoice): SiteCommit.VhostOutcome {
    if p.proxy.None? then SiteCommit.KeptOld else SiteCommit.VhostOutcomeOf(c.acceptable, c.commit)
  }

  function UpdatedPanel(p: Panel, version: string, port: int, c: PanelChoice): (Panel, bool) {
    var committed := p.(version := version, port := port);
    if c.fault == PanelTx then (p, false)
    else if c.fault == PanelReadVhost then (committed, false)
    else match ProxyOutcome(p, c)
      case Installed => (committed.(proxy := Some(port)), true)
      case KeptOld => (if c.undo then p else committed, false)
      case LeftNew => ((if c.undo then p else committed).(proxy := Some(port)), false)
  }

  // After a failure the row is the new one: the vhost could not be read, or the UPDATE that
  // takes the row back failed.
  predicate RowStays(c: PanelChoice) {
    c.fault == PanelReadVhost || (c.fault == PanelNone && !c.undo)
  }

  // After a failure the vhost is the new one.
  predicate VhostStays(p: Panel, c: PanelChoice) {
    c.fault == PanelNone && ProxyOutcome(p, c) == SiteCommit.LeftNew
  }

  /** A success changes row and vhost together. A failure changes the row exactly when it could
      not be taken back, and the vhost exactly when the nginx commit could not put it back; so
      where they named one port they still do exactly when both stay or neither does, or the
      port was already the one asked for. */
  lemma PanelIsAllOrNothing(p: Panel, version: string, port: int, c: PanelChoice)
    ensures
      var (q, ok) := UpdatedPanel(p, version, port, c);
      && (ok ==> q == Panel(version, port, Some(port)))
      && (!ok ==>
            && (q.version, q.port) == (if RowStays(c) then (version, port) else (p.version, p.port))
            && q.proxy == (if VhostStays(p, c) then Some(port) else p.proxy))
      && (!ok && p.proxy == Some(p.port) ==>
            (q.proxy == Some(q.port) <==> RowStays(c) == VhostStays(p, c) || port == p.port))
  {
  }

  /******* Deploying *******/

  datatype DeployRequest = DeployRequest(entrypoint: string, args: seq<string>, health: string)

  // The first step of deployNodeRelease that fails. Preflight stands for every
  // check and staging step before the symlink is replaced. A rollback inserts no
  // row; there InsertRow has no step of its own and reads as Systemd.
  datatype Fault = NoFault | Preflight | WriteUnit | PutConfig | InsertRow | Systemd

  // The first state-changing step of the undo code whose failure stops it.
  datatype UndoFault = UndoNone | UndoLink | UndoUnit | UndoPut

  // Failures to remove the unit and to mark the row are ignored by the undo of a first deploy.
  datatype Undo = Undo(first: UndoFault, removed: bool, marked: bool)

  const UNDONE := Undo(UndoNone, true, true)

  function DeployedConfig(n: Config, r: DeployRequest, id: Id, now: string): Config {
    n.(entrypoint := r.entrypoint, args := r.args, health := r.health,
       previous := n.active, active := id, updatedAt := now)
  }

  function Deployed(h: Host, r: DeployRequest, id: Id, now: string): Host {
    var n := DeployedConfig(h.config, r, id, now);
    h.(config := n,
       releases := h.releases[id := Release(r.entrypoint, ReleasePath(id), Active)],
       current := Some(ReleasePath(id)),
       unit := Some(UnitFor(n, ReleasePath(id))))
  }

  // Active and previous change places and everything follows the release that becomes active.
  function Swapped(h: Host, now: string): Host
    requires h.config.previous in h.releases
  {
    var row := h.releases[h.config.previous];
    var n := h.config.(active := h.config.previous, previous := h.config.active,
                       entrypoint := row.entrypoint, updatedAt := now);
    h.(config := n, current := Some(row.path), unit := Some(UnitFor(n, row.path)))
  }

  function Cleared(n: Config, now: string): Config {
    n.(active := "", previous := "", entrypoint := "", args := [], health := "", updatedAt := now)
  }

  // deactivateFailedNode: the unit goes away, the configuration is emptied, the row is marked.
  function Deactivated(h: Host, id: Id, now: string, undo: Undo): Host {
    var stopped := if undo.removed then h.(unit := None) else h;
    if undo.first == UndoPut then stopped
    else
      stopped.(config := Cleared(h.config, now),
               releases := if undo.marked then Marked(h.releases, id, Failed) else h.releases)
  }

  function Marked(releases: map<Id, Release>, id: Id, status: Status): map<Id, Release> {
    if id in releases then releases[id := releases[id].(status := status)] else releases
  }

  // rollbackNodePointer, cut short where `undo` says.
  function PointedBack(h: Host, now: string, undo: UndoFault): Host {
    if h.config.previous == "" || h.config.previous !in h.releases then h
    else
      var full := Swapped(h, now);
      match undo
      case UndoNone => full
      case UndoLink => h
      case UndoUnit => h.(current := full.current)
      case UndoPut => h.(current := full.current, unit := full.unit)
  }

  function DeployOutcome(h: Host, r: DeployRequest, id: Id, now: string, fault: Fault, undo: Undo): (Host, bool) {
    var full := Deployed(h, r, id, now);
    match fault
    case NoFault => (full, true)
    case Preflight => (h, false)
    case WriteUnit => (h.(current := full.current), false)
    case PutConfig => (h.(current := full.current, unit := full.unit), false)
    case InsertRow => (full.(releases := h.releases), false)
    case Systemd =>
      (if h.config.active == "" then Deactivated(full, id, now, undo) else PointedBack(full, now, undo.first), false)
  }

  /******* Rolling back *******/

  function Relabelled(releases: map<Id, Release>, active: Id, previous: Id): map<Id, Release> {
    map id | id in releases ::
      releases[id].(status := if id == active then Active else if id == previous then Previous else releases[id].status)
  }

  // `relabel` says whether the final UPDATE of the status column, whose error is ignored, works.
  function RollbackOutcome(h: Host, now: string, fault: Fault, relabel: bool): (Host, bool) {
    if h.config.previous == "" || h.config.previous !in h.releases then (h, false)
    else
      var full := Swapped(h, now);
      match fault
      case NoFault =>
        (if relabel then full.(releases := Relabelled(full.releases, full.config.active, full.config.previous)) else full, true)
      case Preflight => (h, false)
      case WriteUnit => (h.(current := full.current), false)
      case PutConfig => (h.(current := full.current, unit := full.unit), false)
      case InsertRow | Systemd => (full, false)
  }

  /******* Updating the runtime *******/

  // An empty version or health path and a zero port mean "leave it".
  datatype UpdateRequest = UpdateRequest(version: string, port: int, health: string)

  function Requested(n: Config, r: UpdateRequest): Config {
    n.(version := if r.version != "" then r.version else n.version,
       port := if r.port != 0 then r.port else n.port,
       health := if r.health != "" then r.health else n.health)
  }

  // The first step of the update that fails. UpdateLookup stands for the lookups of the release
  // row and the site layout behind the panel update.
  datatype UpdateFault = UpdateNone | UpdatePreflight | UpdateLookup | UpdateUnit | UpdateSystemd | UpdatePut

  // `panel` drives the first call of updateCloudPanelNodeSettings, `panelUndo` the
  // compensating one, `unitUndo` the rewrite of the old unit.
  datatype UpdateChoice = UpdateChoice(fault: UpdateFault, panel: PanelChoice, panelUndo: PanelChoice, unitUndo: bool)

  // The new unit of the active release, once the panel has been updated.
  function Restarted(h: Host, n: Config, c: UpdateChoice): (Host, bool) {
    if c.fault == UpdateLookup || n.active !in h.releases then (h, false)
    else
      var path := h.releases[n.active].path;
      var written := h.(unit := Some(UnitFor(n, path)));
      match c.fault
      case UpdateUnit => (Compensated(h, h.config, path, c), false)
      case UpdateSystemd => (Compensated(written, h.config, path, c), false)
      case _ => (written, true)
  }

  function UpdateOutcome(h: Host, r: UpdateRequest, now: string, c: UpdateChoice): (Host, bool) {
    var n := Requested(h.config, r);
    if c.fault == UpdatePreflight then (h, false)
    else
      var (panel, panelOk) := UpdatedPanel(h.panel, n.version, n.port, c.panel);
      var h1 := h.(panel := panel);
      if !panelOk then (h1, false)
      else
        var (h2, ok) := if n.active == "" then (h1, true) else Restarted(h1, n, c);
        if !ok || c.fault == UpdatePut then (h2, false) else (h2.(config := n.(updatedAt := now)), true)
  }

  function Compensated(h: Host, before: Config, path: Path, c: UpdateChoice): Host {
    h.(panel := UpdatedPanel(h.panel, before.version, before.port, c.panelUndo).0,
       unit := if c.unitUndo then Some(UnitFor(before, path)) else h.unit)
  }

  /******* What every run keeps *******/

  ghost predicate Consistent(h: Host) {
    && (h.config.active != "" ==>
          && h.config.active in h.releases
          && h.current == Some(h.releases[h.config.active].path)
          && h.unit == Some(UnitFor(h.config, h.releases[h.config.active].path))
          && h.config.entrypoint == h.releases[h.config.active].entrypoint
          && h.config.active != h.config.previous)
    && (h.config.active == "" ==> h.unit == None)
    && (h.config.previous != "" ==> h.config.active != "" && h.config.previous in h.releases)
    && (forall id :: id in h.releases ==> id != "" && h.releases[id].path == ReleasePath(id))
  }

  // CloudPanel's row, its vhost and the stored configuration name the same runtime.
  ghost predicate PanelAgrees(h: Host) {
    h.panel == Panel(h.config.version, h.config.port, Some(h.config.port))
  }

  datatype Op =
    | Deploy(request: DeployRequest, id: Id, now: string, fault: Fault, undo: Undo)
    | Rollback(now: string, fault: Fault, relabel: bool)
    | Restart
    | Update(update: UpdateRequest, now: string, choice: UpdateChoice)

  function Next(h: Host, op: Op): Host {
    match op
    case Deploy(r, id, now, fault, undo) => DeployOutcome(h, r, id, now, fault, undo).0
    case Rollback(now, fault, relabel) => RollbackOutcome(h, now, fault, relabel).0
    case Restart => h
    case Update(r, now, c) => UpdateOutcome(h, r, now, c).0
  }

  // New release identifiers come from a random generator and are fresh.
  predicate Fresh(h: Host, op: Op) {
    op.Deploy? ==> op.id != "" && op.id !in h.releases && op.id != h.config.active && op.id != h.config.previous
  }

  // Exactly the failures that leave the copies apart.
  predicate Breaks(h: Host, op: Op) {
    match op
    case Deploy(_, _, _, fault, undo) =>
      || fault == InsertRow || fault == PutConfig
      || (h.config.active != "" && fault == WriteUnit)
      // a unit removed without its configuration, or the other way round
      || (fault == Systemd && h.config.active == "" && (undo.first == UndoPut <==> undo.removed))
      || (fault == Systemd && h.config.active != "" && (undo.first == UndoUnit || undo.first == UndoPut))
    case Rollback(_, fault, _) => h.config.previous != "" && (fault == WriteUnit || fault == PutConfig)
    case Restart => false
    case Update(r, _, c) =>
      var n := Requested(h.config, r);
      && h.config.active != ""
      && UpdatedPanel(h.panel, n.version, n.port, c.panel).1
      && UnitFor(n, "") != UnitFor(h.config, "")
      && (c.fault == UpdatePut || (c.fault == UpdateSystemd && !c.unitUndo))
  }

  lemma PathsAreDistinct(a: Id, b: Id)
    ensures ReleasePath(a) == ReleasePath(b) ==> a == b
  {
    assert ReleasePath(a)[|RELEASES|..] == a;
    assert ReleasePath(b)[|RELEASES|..] == b;
  }

  lemma DeployKeepsConsistencyExactly(h: Host, op: Op)
    requires op.Deploy? && Consistent(h) && Fresh(h, op)
    ensures Consistent(Next(h, op)) <==> !Breaks(h, op)
  {
    PathsAreDistinct(h.config.active, op.id);
    match op.fault
    case NoFault =>
    case Preflight =>
    case WriteUnit =>
    case PutConfig =>
    case InsertRow =>
    case Systemd =>
      match op.undo.first
      case UndoNone =>
      case UndoLink =>
      case UndoUnit =>
      case UndoPut =>
  }

  lemma RollbackKeepsConsistencyExactly(h: Host, op: Op)
    requires op.Rollback? && Consistent(h)
    ensures Consistent(Next(h, op)) <==> !Breaks(h, op)
  {
    PathsAreDistinct(h.config.active, h.config.previous);
    match op.fault
    case NoFault =>
    case Preflight =>
    case WriteUnit =>
    case PutConfig =>
    case InsertRow =>
    case Systemd =>
  }

  lemma UpdateKeepsConsistencyExactly(h: Host, op: Op)
    requires op.Update? && Consistent(h)
    ensures Consistent(Next(h, op)) <==> !Breaks(h, op)
  {
    match op.choice.fault
    case UpdateNone =>
    case UpdatePreflight =>
    case UpdateLookup =>
    case UpdateUnit =>
    case UpdateSystemd =>
    case UpdatePut =>
  }

  /** One operation keeps the copies together exactly when it does not fail at one of
      the listed points. */
  lemma StepKeepsConsistencyExactly(h: Host, op: Op)
    requires Consistent(h) && Fresh(h, op)
    ensures Consistent(Next(h, op)) <==> !Breaks(h, op)
  {
    match op
    case Deploy(_, _, _, _, _) => DeployKeepsConsistencyExactly(h, op);
    case Rollback(_, _, _) => RollbackKeepsConsistencyExactly(h, op);
    case Restart =>
    case Update(_, _, _) => UpdateKeepsConsistencyExactly(h, op);
  }

  // Exactly the failures after which CloudPanel's row or vhost names another runtime
  // than the stored configuration.
  predicate PanelBreaks(h: Host, op: Op) {
    op.Update? &&
    var n, c := Requested(h.config, op.update), op.choice;
    && c.fault != UpdatePreflight
    && (n.version != h.config.version || n.port != h.config.port)
    && if !UpdatedPanel(h.panel, n.version, n.port, c.panel).1 then
         RowStays(c.panel) || (VhostStays(h.panel, c.panel) && n.port != h.config.port)
       else if h.config.active != "" && c.fault in {UpdateUnit, UpdateSystemd} then
         NotTakenBack(Panel(n.version, n.port, Some(n.port)), c.panelUndo, n.port != h.config.port)
       else c.fault == UpdatePut || (h.config.active != "" && c.fault == UpdateLookup)
  }

  // The second call of updateCloudPanelNodeSettings does not bring back both row and vhost.
  predicate NotTakenBack(p: Panel, c: PanelChoice, portDiffers: bool) {
    match c.fault
    case PanelTx => true
    case PanelReadVhost => portDiffers
    case PanelNone => match ProxyOutcome(p, c)
      case Installed => false
      case KeptOld => c.undo || portDiffers
      case LeftNew => c.undo
  }

  /** The runtime settings stay in step with CloudPanel exactly when PanelBreaks is false. */
  lemma StepKeepsPanelExactly(h: Host, op: Op)
    requires Consistent(h) && PanelAgrees(h)
    ensures PanelAgrees(Next(h, op)) <==> !PanelBreaks(h, op)
  {
    if op.Update? {
      match op.choice.fault
      case UpdateNone =>
      case UpdatePreflight =>
      case UpdateLookup =>
      case UpdateUnit =>
      case UpdateSystemd =>
      case UpdatePut =>
    }
  }

  // Only systemctl (nginx reloads included) or the readiness probe fails, and undo code
  // is not itself interrupted. A vhost once patched is acceptable again.
  predicate OnlySystemdFails(op: Op) {
    match op
    case Deploy(_, _, _, fault, undo) => fault in {NoFault, Preflight, Systemd} && undo.first == UndoNone && undo.removed
    case Rollback(_, fault, _) => fault in {NoFault, Preflight, Systemd}
    case Restart => true
    case Update(_, _, c) =>
      && c.fault in {UpdateNone, UpdatePreflight, UpdateSystemd} && c.unitUndo
      && c.panel.fault == PanelNone && c.panel.undo && c.panel.commit.undoVhost
      && c.panelUndo.fault == PanelNone && SiteCommit.VhostOutcomeOf(c.panelUndo.acceptable, c.panelUndo.commit) == SiteCommit.Installed
  }

  ghost predicate FreshRun(h: Host, ops: seq<Op>)
    decreases |ops|
  {
    ops == [] || (Fresh(h, ops[0]) && FreshRun(Next(h, ops[0]), ops[1..]))
  }

  function Run(h: Host, ops: seq<Op>): Host
    decreases |ops|
  {
    if ops == [] then h else Run(Next(h, ops[0]), ops[1..])
  }

  /** Over every run in which only systemd or readiness fails, symlink, unit, stored
      configuration, release row and CloudPanel settings all name the same release. */
  lemma {:induction false} RunStaysConsistent(h: Host, ops: seq<Op>)
    requires Consistent(h) && PanelAgrees(h) && FreshRun(h, ops)
    requires forall op :: op in ops ==> OnlySystemdFails(op)
    ensures Consistent(Run(h, ops)) && PanelAgrees(Run(h, ops))
    decreases |ops|
  {
    if ops != [] {
      assert OnlySystemdFails(ops[0]);
      StepKeepsConsistencyExactly(h, ops[0]);
      StepKeepsPanelExactly(h, ops[0]);
      RunStaysConsistent(Next(h, ops[0]), ops[1..]);
    }
  }

  /******* What each operation does *******/

  // The rows are those of before but for `id`.
  ghost predicate OnlyRow(before: map<Id, Release>, after: map<Id, Release>, id: Id) {
    (forall x :: x in before ==> x in after && (x != id ==> after[x] == before[x]))
    && (forall x :: x in after ==> x == id || x in before)
  }

  /** A deploy succeeds exactly when no step fails. Then the new release is active and the old
      active one previous; configuration, symlink, unit and its own row are those of the request,
      and everything else is as it was. */
  lemma SuccessfulDeploy(h: Host, r: DeployRequest, id: Id, now: string, fault: Fault, undo: Undo)
    ensures
      var (g, ok) := DeployOutcome(h, r, id, now, fault, undo);
      && (ok <==> fault == NoFault)
      && (ok ==>
            && g.config.active == id && g.config.previous == h.config.active
            && g.config.entrypoint == r.entrypoint && g.config.args == r.args && g.config.health == r.health
            && g.config.updatedAt == now && g.config.version == h.config.version && g.config.port == h.config.port
            && g.current == Some("/releases/" + id)
            && g.unit == Some(Unit("/releases/" + id, r.entrypoint, r.args, h.config.version, h.config.port))
            && id in g.releases && g.releases[id] == Release(r.entrypoint, "/releases/" + id, Active)
            && OnlyRow(h.releases, g.releases, id) && g.panel == h.panel)
  {
  }

  /** A deploy that fails changes nothing when it fails before the symlink, and never the panel,
      the version, the port or the row of another release; before its own row is written no row
      changes at all. */
  lemma FailedDeployTouches(h: Host, r: DeployRequest, id: Id, now: string, fault: Fault, undo: Undo)
    requires fault != NoFault
    ensures
      var g := DeployOutcome(h, r, id, now, fault, undo).0;
      && (fault == Preflight ==> g == h)
      && g.panel == h.panel && g.config.version == h.config.version && g.config.port == h.config.port
      && OnlyRow(h.releases, g.releases, id) && (fault != Systemd ==> g.releases == h.releases)
  {
  }

  /** What a deploy that stops on the way has done: the symlink first, then the unit, then the
      configuration. */
  lemma StoppedDeploy(h: Host, r: DeployRequest, id: Id, now: string, fault: Fault, undo: Undo)
    requires fault in {WriteUnit, PutConfig, InsertRow}
    ensures
      var g := DeployOutcome(h, r, id, now, fault, undo).0;
      && g.current == Some("/releases/" + id)
      && g.unit == (if fault == WriteUnit then h.unit
                    else Some(Unit("/releases/" + id, r.entrypoint, r.args, h.config.version, h.config.port)))
      && (fault != InsertRow ==> g.config == h.config)
      && (fault == InsertRow ==>
            g.config == Config(h.config.version, h.config.port, r.entrypoint, r.args, r.health, id, h.config.active, now))
  {
  }

  /** A rollback succeeds exactly when there is a previous release and no step fails. Then active
      and previous have changed places, symlink and unit are those of the release that is active
      again, with its own entrypoint, the labels say so unless writing them failed, and everything
      else is as it was; without a previous release nothing changes. */
  lemma SuccessfulRollback(h: Host, now: string, fault: Fault, relabel: bool)
    ensures
      var (g, ok) := RollbackOutcome(h, now, fault, relabel);
      var known := h.config.previous != "" && h.config.previous in h.releases;
      && (ok <==> known && fault == NoFault)
      && (!known || fault == Preflight ==> g == h)
      && (ok ==>
            var row := h.releases[h.config.previous];
            && g.config.active == h.config.previous && g.config.previous == h.config.active
            && g.config.entrypoint == row.entrypoint && g.config.updatedAt == now
            && g.config.args == h.config.args && g.config.health == h.config.health
            && g.config.version == h.config.version && g.config.port == h.config.port
            && g.current == Some(row.path)
            && g.unit == Some(Unit(row.path, row.entrypoint, h.config.args, h.config.version, h.config.port))
            && g.panel == h.panel && g.releases.Keys == h.releases.Keys
            && (forall id :: id in h.releases ==>
                  && g.releases[id].path == h.releases[id].path && g.releases[id].entrypoint == h.releases[id].entrypoint
                  && g.releases[id].status ==
                       if relabel && id == h.config.previous then Active
                       else if relabel && id == h.config.active then Previous
                       else h.releases[id].status))
  {
  }

  // What a field is after a request that may leave it open.
  predicate Follows(after: string, before: string, asked: string) {
    after == if asked == "" then before else asked
  }

  /** A runtime update succeeds exactly when the panel accepts it and no step fails. Then version,
      port and health path are those asked for, or the old ones where nothing was asked; the panel
      and its vhost name that version and port, the unit of an active release runs it, and
      everything else is as it was. */
  lemma SuccessfulUpdate(h: Host, r: UpdateRequest, now: string, c: UpdateChoice)
    requires Consistent(h)
    ensures
      var (g, ok) := UpdateOutcome(h, r, now, c);
      var version := if r.version == "" then h.config.version else r.version;
      var port := if r.port == 0 then h.config.port else r.port;
      && (ok <==>
            && c.fault != UpdatePreflight && c.fault != UpdatePut && UpdatedPanel(h.panel, version, port, c.panel).1
            && (h.config.active != "" ==> c.fault == UpdateNone))
      && (ok ==>
            && Follows(g.config.version, h.config.version, r.version) && Follows(g.config.health, h.config.health, r.health)
            && g.config.port == port && g.config.updatedAt == now
            && g.config.entrypoint == h.config.entrypoint && g.config.args == h.config.args
            && g.config.active == h.config.active && g.config.previous == h.config.previous
            && g.panel == Panel(version, port, Some(port))
            && g.releases == h.releases && g.current == h.current
            && (if h.config.active == "" then g.unit == h.unit
                else g.unit == Some(Unit(h.releases[h.config.active].path, h.config.entrypoint, h.config.args, version, port))))
      && (!ok ==> g.config == h.config && g.releases == h.releases && g.current == h.current)
  {
  }

  /******* Rollback and failed deploys *******/

  /** Two successful rollbacks undo each other on everything but timestamps and labels,
      and the labels then name the active and the previous release. */
  lemma TwoRollbacksCancel(h: Host, now1: string, now2: string)
    requires Consistent(h) && h.config.previous != ""
    ensures
      var (h1, ok1) := RollbackOutcome(h, now1, NoFault, true);
      var (h2, ok2) := RollbackOutcome(h1, now2, NoFault, true);
      && ok1 && ok2
      && h1.config.active == h.config.previous && h1.config.previous == h.config.active
      && h2.config == h.config.(updatedAt := now2)
      && h2.current == h.current && h2.unit == h.unit && h2.panel == h.panel
      && h2.releases.Keys == h.releases.Keys
      && (forall id :: id in h.releases ==>
            && h2.releases[id].path == h.releases[id].path
            && h2.releases[id].entrypoint == h.releases[id].entrypoint
            && h2.releases[id].status ==
                 if id == h.config.active then Active
                 else if id == h.config.previous then Previous
                 else h.releases[id].status)
  {
    var h1 := RollbackOutcome(h, now1, NoFault, true).0;
    RollbackKeepsConsistencyExactly(h, Rollback(now1, NoFault, true));
    assert Consistent(h1);
  }

  /** A deploy whose service never becomes ready puts the old release back everywhere,
      but records the failed one as previous and keeps the request's arguments and health path. */
  lemma FailedDeployPutsBackTheReleaseOnly(h: Host, r: DeployRequest, id: Id, now: string, later: string)
    requires Consistent(h) && h.config.active != "" && id != "" && id !in h.releases
    ensures
      var (f, ok) := DeployOutcome(h, r, id, now, Systemd, UNDONE);
      && !ok
      && f.config == h.config.(previous := id, args := r.args, health := r.health, updatedAt := now)
      && f.current == h.current
      && f.unit == Some(UnitFor(f.config, h.releases[h.config.active].path))
      && (f.unit == h.unit <==> r.args == h.config.args)
      // so the next rollback activates the release that never became ready
      && RollbackOutcome(f, later, NoFault, true).0.config.active == id
      && RollbackOutcome(f, later, NoFault, true).0.current == Some(ReleasePath(id))
  {
    var full := Deployed(h, r, id, now);
    assert full.config.previous in full.releases;
  }

  /** A failed first deploy leaves an empty configuration and nothing to roll back to; the unit
      is gone exactly when it could be removed, and the row is marked unless that failed. */
  lemma FailedFirstDeployLeavesNothingActive(h: Host, r: DeployRequest, id: Id, now: string, undo: Undo)
    requires Consistent(h) && h.config.active == "" && id != "" && id !in h.releases && undo.first != UndoPut
    ensures
      var (f, ok) := DeployOutcome(h, r, id, now, Systemd, undo);
      && !ok && f.panel == h.panel
      && (f.unit == None <==> undo.removed)
      && f.config == h.config.(active := "", previous := "", entrypoint := "", args := [], health := "", updatedAt := now)
      && f.releases == h.releases[id := Release(r.entrypoint, ReleasePath(id), if undo.marked then Failed else Active)]
      && !RollbackOutcome(f, now, NoFault, true).1
  {
    var full := Deployed(h, r, id, now);
    assert full.releases[id := Release(r.entrypoint, ReleasePath(id), Failed)] ==
           h.releases[id := Release(r.entrypoint, ReleasePath(id), Failed)];
  }

  /******* The operations themselves *******/

  class NodeSite {
    var config: Config
    var releases: map<Id, Release>
    var current: Option<Path>
    var unit: Option<Unit>
    var panel: Panel

    ghost function View(): Host
      reads this
    {
      Host(config, releases, current, unit, panel)
    }

    // currentNodeSettings: the first configuration copies CloudPanel's settings.
    constructor (p: Panel, now: string)
      ensures View() == Host(Config(p.version, p.port, "", [], "", "", "", now), map[], None, None, p)
      ensures Consistent(View())
      ensures p.proxy == Some(p.port) ==> PanelAgrees(View())
    {
      config := Config(p.version, p.port, "", [], "", "", "", now);
      releases, current, unit, panel := map[], None, None, p;
    }

    method PointCurrent(path: Path, works: bool) returns (ok: bool)
      modifies this`current
      ensures ok == works
      ensures current == if works then Some(path) else old(current)
    {
      if works {
        current := Some(path);
      }
      ok := works;
    }

    method WriteNodeUnit(n: Config, release: Path, works: bool) returns (ok: bool)
      modifies this`unit
      ensures ok == works
      ensures unit == if works then Some(UnitFor(n, release)) else old(unit)
    {
      if works {
        unit := Some(Unit(release, n.entrypoint, n.args, n.version, n.port));
      }
      ok := works;
    }

    method PutNodeConfig(n: Config, works: bool) returns (ok: bool)
      modifies this`config
      ensures ok == works
      ensures config == if works then n else old(config)
    {
      if works {
        config := n;
      }
      ok := works;
    }

    method UpdateCloudPanelNodeSettings(version: string, port: int, c: PanelChoice) returns (ok: bool)
      modifies this`panel
      ensures (panel, ok) == UpdatedPanel(old(panel), version, port, c)
    {
      var oldVersion, oldPort := panel.version, panel.port;
      if c.fault == PanelTx {
        return false;
      }
      panel := panel.(version := version, port := port);
      if c.fault == PanelReadVhost {
        return false;
      }
      ok := false;
      if panel.proxy.Some? {
        ok := CommitProxy(port, c);
      }
      if !ok && c.undo {
        panel := panel.(version := oldVersion, port := oldPort);
      }
    }

    // The nginx commit of the vhost with the new port.
    method CommitProxy(port: int, c: PanelChoice) returns (ok: bool)
      requires panel.proxy.Some?
      modifies this`panel
      ensures
        var outcome := SiteCommit.VhostOutcomeOf(c.acceptable, c.commit);
        && (ok <==> outcome == SiteCommit.Installed)
        && panel == if outcome == SiteCommit.KeptOld then old(panel) else old(panel).(proxy := Some(port))
    {
      var outcome := SiteCommit.VhostOutcomeOf(c.acceptable, c.commit);
      if outcome != SiteCommit.KeptOld {
        panel := panel.(proxy := Some(port));
      }
      ok := outcome == SiteCommit.Installed;
    }

    method RollbackNodePointer(now: string, undo: UndoFault)
      modifies this
      ensures View() == PointedBack(old(View()), now, undo)
    {
      var n := config;
      if n.previous == "" || n.previous !in releases {
        return;
      }
      var path, entry := releases[n.previous].path, releases[n.previous].entrypoint;
      var ok := PointCurrent(path, undo != UndoLink);
      if !ok {
        return;
      }
      n := n.(active := n.previous, previous := n.active);
      n := n.(entrypoint := entry, updatedAt := now);
      ok := WriteNodeUnit(n, path, undo != UndoUnit);
      if ok {
        ok := PutNodeConfig(n, undo != UndoPut);
      }
    }

    method DeactivateFailedNode(id: Id, now: string, undo: Undo)
      modifies this
      ensures View() == Deactivated(old(View()), id, now, undo)
    {
      if undo.removed {
        unit := None;
      }
      var n := config.(active := "", previous := "", entrypoint := "", args := [], health := "");
      n := n.(updatedAt := now);
      var ok := PutNodeConfig(n, undo.first != UndoPut);
      if ok && undo.marked && id in releases {
        releases := releases[id := releases[id].(status := Failed)];
      }
    }

    method DeployNodeRelease(r: DeployRequest, id: Id, now: string, fault: Fault, undo: Undo) returns (ok: bool)
      modifies this
      ensures (View(), ok) == DeployOutcome(old(View()), r, id, now, fault, undo)
    {
      var n := config;
      if fault == Preflight {
        return false;
      }
      var release := ReleasePath(id);
      var before := n.active;
      ok := PointCurrent(release, true);
      n := n.(entrypoint := r.entrypoint, args := r.args, health := r.health);
      n := n.(previous := before, active := id, updatedAt := now);
      ok := WriteNodeUnit(n, release, fault != WriteUnit);
      if !ok {
        return;
      }
      ok := PutNodeConfig(n, fault != PutConfig);
      if !ok {
        return;
      }
      if fault == InsertRow {
        return false;
      }
      releases := releases[id := Release(r.entrypoint, release, Active)];
      if fault == Systemd {
        if before == "" {
          DeactivateFailedNode(id, now, undo);
        } else {
          RollbackNodePointer(now, undo.first);
        }
        return false;
      }
      return true;
    }

    method RollbackNodeRelease(now: string, fault: Fault, relabel: bool) returns (ok: bool)
      modifies this
      ensures (View(), ok) == RollbackOutcome(old(View()), now, fault, relabel)
    {
      var n := config;
      if n.previous == "" || n.previous !in releases {
        return false;
      }
      var path, entry := releases[n.previous].path, releases[n.previous].entrypoint;
      ok := PointCurrent(path, fault != Preflight);
      if !ok {
        return;
      }
      var active, previous := n.active, n.previous;
      n := n.(active := previous, previous := active, entrypoint := entry, updatedAt := now);
      ok := WriteNodeUnit(n, path, fault != WriteUnit);
      if !ok {
        return;
      }
      ok := PutNodeConfig(n, fault != PutConfig);
      if !ok {
        return;
      }
      if fault == Systemd || fault == InsertRow {
        return false;
      }
      if relabel {
        releases := map id | id in releases ::
          releases[id].(status := if id == previous then Active else if id == active then Previous else releases[id].status);
      }
      return true;
    }

    method UpdateSettings(r: UpdateRequest, now: string, c: UpdateChoice) returns (ok: bool)
      modifies this
      ensures (View(), ok) == UpdateOutcome(old(View()), r, now, c)
    {
      var n, previous := config, config;
      if c.fault == UpdatePreflight {
        return false;
      }
      if r.version != "" {
        n := n.(version := r.version);
      }
      if r.port != 0 {
        n := n.(port := r.port);
      }
      if r.health != "" {
        n := n.(health := r.health);
      }
      ok := UpdateCloudPanelNodeSettings(n.version, n.port, c.panel);
      if !ok {
        return;
      }
      if n.active != "" {
        ok := RestartUnit(n, previous, c);
        if !ok {
          return;
        }
      }
      n := n.(updatedAt := now);
      ok := PutNodeConfig(n, c.fault != UpdatePut);
    }

    // The unit of the active release is rewritten and restarted, or everything is taken back.
    method RestartUnit(n: Config, previous: Config, c: UpdateChoice) returns (ok: bool)
      requires previous == config
      modifies this`panel, this`unit
      ensures (View(), ok) == Restarted(old(View()), n, c)
    {
      if c.fault == UpdateLookup || n.active !in releases {
        return false;
      }
      var path := releases[n.active].path;
      ok := WriteNodeUnit(n, path, c.fault != UpdateUnit);
      if !ok || c.fault == UpdateSystemd {
        var _ := UpdateCloudPanelNodeSettings(previous.version, previous.port, c.panelUndo);
        var _ := WriteNodeUnit(previous, path, c.unitUndo);
        return false;
      }
    }
  }
}
