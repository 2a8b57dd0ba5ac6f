/**
 The controller's StartCell with its recovery, reapply and fallback paths
 (internal/controller/start_cell.go, percell_volume.go, get_cell.go). Script
 says which calls a run makes for any answers the runner may give; the method
 StartCell follows it, and the results are about every script.
 */
module CellStart {
  import opened Wrappers
  import opened Text
  import opened Cells

  // ----- Per-cell volumes -----

  /** volumeForEnsureMount */
  function VolumeFor(b: Body, m: Mount): Volume {
    match m.ref
    case Some(v) => v
    case None => Volume(m.source, b.realm, b.space, b.stack)
  }

  /** The volumes a body asks the daemon to provision. */
  function EnsureVolumes(b: Body): set<Volume> {
    set c, m | c in b.containers && m in c.mounts && m.isVolume && m.ensure :: VolumeFor(b, m)
  }

  /** A provisioning pass goes through when none of them is among those the runner fails on. */
  predicate Provisions(b: Body, failing: set<Volume>) { EnsureVolumes(b) !! failing }

  // ----- The running-container guard -----

  /** rootContainerID: the first container flagged root, else the recorded id, else none. */
  function RootID(b: Body): string {
    RootIDFrom(b.containers, b.rootContainerID)
  }

  function RootIDFrom(cs: seq<Container>, fallback: string): string {
    if cs == [] then fallback else if cs[0].root then cs[0].id else RootIDFrom(cs[1..], fallback)
  }

  /** hasNonRootContainerSpec */
  predicate HasWorkload(b: Body) {
    exists c <- b.containers :: !c.root
  }

  /** The id the guard leaves out of its check, if any. */
  function SkippedID(b: Body): string {
    if HasWorkload(b) then RootID(b) else ""
  }

  /** The guard refuses: a counted container is running, or nothing is known and the cell claims Ready. */
  predicate Busy(cell: Cell) {
    if cell.status.containers != [] then
      exists st <- cell.status.containers :: !(SkippedID(cell.body) != "" && st.id == SkippedID(cell.body)) && st.ready
    else
      cell.status.state == Ready
  }

  // ----- Which calls a run makes -----

  datatype Change = Same | InPlace | Breaking

  datatype Call =
    | Provision(body: Body, ok: bool)
    | Recreate(body: Body, answer: Option<Cell>)
    | Start(body: Body, answer: Option<Cell>)
    | Update(body: Body, answer: Option<Cell>)
    | Save(cell: Cell, ok: bool)

  datatype Result = Refused | Broken | Started(cell: Cell)

  /** Everything the runner gets to decide in one run; failing are the volumes a provisioning pass fails on. */
  datatype Answers = Answers(fetched: Option<Cell>, failing: set<Volume>, recovered: Option<Cell>, idle: IdleAnswers)

  datatype IdleAnswers = IdleAnswers(reapply: ReapplyAnswers, started: Option<Cell>, saved: bool)

  datatype ReapplyAnswers = ReapplyAnswers(
    configFound: bool, materialized: Option<Body>, failing: set<Volume>,
    recreated: Option<Cell>, firstStart: Option<Cell>, updated: Option<Cell>)

  predicate Named(b: Body) {
    TrimSpace(b.name) != "" && TrimSpace(b.realm) != "" && TrimSpace(b.space) != "" && TrimSpace(b.stack) != ""
  }

  /** validateAndGetCell's check that the stored cell is the one asked for. */
  predicate SamePlace(request: Body, b: Body) {
    b.realm == TrimSpace(request.realm) && b.space == TrimSpace(request.space) && b.stack == TrimSpace(request.stack)
  }

  /** The live cell with the request's per-invocation environment. */
  function WithRuntimeEnv(cell: Cell, request: Body): Cell {
    cell.(body := cell.body.(runtimeEnv := request.runtimeEnv))
  }

  /** The cell the run is about, once it is found. */
  function Live(request: Body, ans: Answers): Option<Cell> {
    if !Named(request) || ans.fetched.None? || !SamePlace(request, ans.fetched.value.body) then None
    else Some(WithRuntimeEnv(ans.fetched.value, request))
  }

  function Script(diff: (Body, Body) -> Change, request: Body, ans: Answers): (seq<Call>, Result) {
    match Live(request, ans)
    case None => ([], Refused)
    case Some(live) => ScriptFor(diff, live, ans)
  }

  function ScriptFor(diff: (Body, Body) -> Change, live: Cell, ans: Answers): (seq<Call>, Result) {
    if !Provisions(live.body, ans.failing) then ([Provision(live.body, false)], Refused)
    else
      var (calls, res) := Provisioned(diff, live, ans);
      ([Provision(live.body, true)] + calls, res)
  }

  function Provisioned(diff: (Body, Body) -> Change, live: Cell, ans: Answers): (seq<Call>, Result) {
    match live.status.state
    case Pending | Unknown => ([], Refused)
    case Failed | Error | Degraded =>
      ([Recreate(live.body, ans.recovered)], if ans.recovered.Some? then Started(ans.recovered.value) else Broken)
    case Ready | Stopped | Exited => if Busy(live) then ([], Refused) else Idle(diff, live, ans.idle)
  }

  /** A startable cell: reapply the lineage Config if asked, else or failing that start the stored spec. */
  function Idle(diff: (Body, Body) -> Change, live: Cell, ans: IdleAnswers): (seq<Call>, Result) {
    var (calls, back) := Reapply(diff, live, ans.reapply);
    match back
    case Some(cell) => (calls, Started(cell))
    case None => var (rest, res) := Plain(live, ans); (calls + rest, res)
  }

  /** runner.StartCell on the stored spec, then the metadata write. */
  function Plain(live: Cell, ans: IdleAnswers): (seq<Call>, Result) {
    match ans.started
    case None => ([Start(live.body, None)], Broken)
    case Some(cell) =>
      ([Start(live.body, ans.started), Save(cell, ans.saved)], if ans.saved then Started(cell) else Broken)
  }

  /** The stored identity wins over the Config's view of it. */
  function Rekeyed(desired: Body, live: Body): Body {
    desired.(name := live.name, id := live.id, realm := live.realm, space := live.space, stack := live.stack,
             runtimeEnv := live.runtimeEnv)
  }

  predicate WantsReapply(live: Cell) {
    live.status.sync.outOfSync && live.status.sync.error == "" && Lineage(live.body).Some?
  }

  /** The freshly materialised body when it differs from the stored one. */
  function Desired(diff: (Body, Body) -> Change, live: Cell, ans: ReapplyAnswers): Option<Body> {
    if !WantsReapply(live) || !ans.configFound || ans.materialized.None? then None
    else
      var desired := Rekeyed(ans.materialized.value, live.body);
      if diff(desired, live.body) == Same then None else Some(desired)
  }

  /** reapplyOutOfSyncFromConfig: the calls made, and the running cell unless the caller must fall back. */
  function Reapply(diff: (Body, Body) -> Change, live: Cell, ans: ReapplyAnswers): (seq<Call>, Option<Cell>) {
    match Desired(diff, live, ans)
    case None => ([], None)
    case Some(desired) =>
      if diff(desired, live.body) == Breaking then ReapplyBreaking(desired, ans)
      else ReapplyInPlace(live, desired, ans)
  }

  function ReapplyBreaking(desired: Body, ans: ReapplyAnswers): (seq<Call>, Option<Cell>) {
    if !Provisions(desired, ans.failing) then ([Provision(desired, false)], None)
    else ([Provision(desired, true), Recreate(desired, ans.recreated)], ans.recreated)
  }

  function ReapplyInPlace(live: Cell, desired: Body, ans: ReapplyAnswers): (seq<Call>, Option<Cell>) {
    if ans.firstStart.None? then ([Start(live.body, None)], None)
    else if !Provisions(desired, ans.failing) then
      ([Start(live.body, ans.firstStart), Provision(desired, false)], ans.firstStart)
    else ([Start(live.body, ans.firstStart), Provision(desired, true), Update(desired, ans.updated)],
          if ans.updated.Some? then ans.updated else ans.firstStart)
  }

  // ----- The controller following the script -----

  /** What the controller asks of the runner; each answer is given. */
  class Runner {
    ghost var calls: seq<Call>
    /** The volumes reconciled successfully so far. */
    ghost var ready: set<Volume>

    constructor ()
      ensures calls == [] && ready == {}
    {
      calls := [];
      ready := {};
    }

    /** ReconcileVolume */
    method EnsureVolume(v: Volume, failing: set<Volume>) returns (ok: bool)
      modifies this`ready
      ensures ok <==> v !in failing
      ensures ready == if ok then old(ready) + {v} else old(ready)
    {
      ok := v !in failing;
      if ok {
        ready := ready + {v};
      }
    }

    /** The mounts of one container. */
    method EnsureMounts(b: Body, c: Container, failing: set<Volume>) returns (ok: bool)
      modifies this`ready
      ensures ok <==> forall m | m in c.mounts && m.isVolume && m.ensure :: VolumeFor(b, m) !in failing
      ensures old(ready) <= ready
      ensures ok ==> forall m | m in c.mounts && m.isVolume && m.ensure :: VolumeFor(b, m) in ready
    {
      ok := true;
      for j := 0 to |c.mounts|
        invariant ok && old(ready) <= ready
        invariant forall m | m in c.mounts[..j] && m.isVolume && m.ensure ::
          VolumeFor(b, m) !in failing && VolumeFor(b, m) in ready
      {
        var m := c.mounts[j];
        if m.isVolume && m.ensure {
          ok := EnsureVolume(VolumeFor(b, m), failing);
          if !ok {
            return;
          }
        }
      }
      assert c.mounts[..|c.mounts|] == c.mounts;
    }

    /** ensurePerCellVolumes */
    method Provision(b: Body, failing: set<Volume>) returns (ok: bool)
      modifies this
      ensures calls == old(calls) + [Call.Provision(b, ok)]
      ensures ok <==> Provisions(b, failing)
      ensures old(ready) <= ready && (ok ==> EnsureVolumes(b) <= ready)
    {
      ok := true;
      for i := 0 to |b.containers|
        invariant ok && calls == old(calls) && old(ready) <= ready
        invariant forall c, m | c in b.containers[..i] && m in c.mounts && m.isVolume && m.ensure ::
          VolumeFor(b, m) !in failing && VolumeFor(b, m) in ready
      {
        ok := EnsureMounts(b, b.containers[i], failing);
        if !ok {
          calls := calls + [Call.Provision(b, false)];
          return;
        }
      }
      assert b.containers[..|b.containers|] == b.containers;
      calls := calls + [Call.Provision(b, true)];
    }

    method RecreateCell(b: Body, answer: Option<Cell>)
      requires EnsureVolumes(b) <= ready
      modifies this`calls
      ensures calls == old(calls) + [Recreate(b, answer)]
    {
      calls := calls + [Recreate(b, answer)];
    }

    method StartCell(b: Body, answer: Option<Cell>)
      requires EnsureVolumes(b) <= ready
      modifies this`calls
      ensures calls == old(calls) + [Start(b, answer)]
    {
      calls := calls + [Start(b, answer)];
    }

    method UpdateCell(b: Body, answer: Option<Cell>)
      requires EnsureVolumes(b) <= ready
      modifies this`calls
      ensures calls == old(calls) + [Update(b, answer)]
    {
      calls := calls + [Update(b, answer)];
    }

    method SaveMetadata(cell: Cell, ok: bool)
      modifies this`calls
      ensures calls == old(calls) + [Save(cell, ok)]
    {
      calls := calls + [Save(cell, ok)];
    }
  }

  /** The loop of the running-container guard. */
  method AnyRunning(statuses: seq<ContainerStatus>, rootID: string) returns (running: bool)
    ensures running <==> exists st <- statuses :: !(rootID != "" && st.id == rootID) && st.ready
  {
    for i := 0 to |statuses|
      invariant forall st <- statuses[..i] :: !(!(rootID != "" && st.id == rootID) && st.ready)
    {
      var st := statuses[i];
      if rootID != "" && st.id == rootID {
        continue;
      }
      if st.ready {
        return true;
      }
    }
    assert statuses[..|statuses|] == statuses;
    running := false;
  }

  /** The running-container guard. */
  method Guard(live: Cell) returns (busy: bool)
    ensures busy <==> Busy(live)
  {
    if live.status.containers != [] {
      var rootID := "";
      if HasWorkload(live.body) {
        rootID := RootID(live.body);
      }
      busy := AnyRunning(live.status.containers, rootID);
    } else {
      busy := live.status.state == Ready;
    }
  }

  method StartCell(r: Runner, diff: (Body, Body) -> Change, request: Body, ans: Answers) returns (res: Result)
    modifies r
    ensures r.calls == old(r.calls) + Script(diff, request, ans).0
    ensures res == Script(diff, request, ans).1
  {
    if !Named(request) {
      return Refused;
    }
    var fetched := ans.fetched;
    if fetched.None? || !SamePlace(request, fetched.value.body) {
      return Refused;
    }
    res := StartLive(r, diff, WithRuntimeEnv(fetched.value, request), ans);
  }

  method StartLive(r: Runner, diff: (Body, Body) -> Change, live: Cell, ans: Answers) returns (res: Result)
    modifies r
    ensures r.calls == old(r.calls) + ScriptFor(diff, live, ans).0
    ensures res == ScriptFor(diff, live, ans).1
  {
    var ok := r.Provision(live.body, ans.failing);
    if !ok {
      return Refused;
    }
    match live.status.state {
      case Pending | Unknown =>
        return Refused;
      case Failed | Error | Degraded =>
        r.RecreateCell(live.body, ans.recovered);
        return if ans.recovered.Some? then Started(ans.recovered.value) else Broken;
      case Ready | Stopped | Exited =>
    }
    var busy := Guard(live);
    if busy {
      return Refused;
    }
    res := StartIdle(r, diff, live, ans.idle);
  }

  method StartIdle(r: Runner, diff: (Body, Body) -> Change, live: Cell, ans: IdleAnswers) returns (res: Result)
    requires EnsureVolumes(live.body) <= r.ready
    modifies r
    ensures r.calls == old(r.calls) + Idle(diff, live, ans).0
    ensures res == Idle(diff, live, ans).1
  {
    var back := ReapplyFromConfig(r, diff, live, ans.reapply);
    if back.Some? {
      return Started(back.value);
    }
    r.StartCell(live.body, ans.started);
    if ans.started.None? {
      return Broken;
    }
    r.SaveMetadata(ans.started.value, ans.saved);
    res := if ans.saved then Started(ans.started.value) else Broken;
  }

  method ReapplyFromConfig(r: Runner, diff: (Body, Body) -> Change, live: Cell, ans: ReapplyAnswers)
    returns (back: Option<Cell>)
    requires EnsureVolumes(live.body) <= r.ready
    modifies r
    ensures r.calls == old(r.calls) + Reapply(diff, live, ans).0
    ensures back == Reapply(diff, live, ans).1
    ensures EnsureVolumes(live.body) <= r.ready
  {
    if !live.status.sync.outOfSync || live.status.sync.error != "" || Lineage(live.body).None? {
      return None;
    }
    if !ans.configFound || ans.materialized.None? {
      return None;
    }
    var desired := Rekeyed(ans.materialized.value, live.body);
    var change := diff(desired, live.body);
    if change == Same {
      return None;
    }
    if change == Breaking {
      back := RebuildFrom(r, desired, ans);
    } else {
      back := UpdateInPlace(r, live, desired, ans);
    }
  }

  /** reapplyBreaking */
  method RebuildFrom(r: Runner, desired: Body, ans: ReapplyAnswers) returns (back: Option<Cell>)
    modifies r
    ensures r.calls == old(r.calls) + ReapplyBreaking(desired, ans).0
    ensures back == ReapplyBreaking(desired, ans).1
    ensures old(r.ready) <= r.ready
  {
    var ok := r.Provision(desired, ans.failing);
    if !ok {
      return None;
    }
    r.RecreateCell(desired, ans.recreated);
    back := ans.recreated;
  }

  /** reapplyCompatibleInPlace */
  method UpdateInPlace(r: Runner, live: Cell, desired: Body, ans: ReapplyAnswers) returns (back: Option<Cell>)
    requires EnsureVolumes(live.body) <= r.ready
    modifies r
    ensures r.calls == old(r.calls) + ReapplyInPlace(live, desired, ans).0
    ensures back == ReapplyInPlace(live, desired, ans).1
    ensures old(r.ready) <= r.ready
  {
    r.StartCell(live.body, ans.firstStart);
    if ans.firstStart.None? {
      return None;
    }
    var ok := r.Provision(desired, ans.failing);
    if !ok {
      return ans.firstStart;
    }
    r.UpdateCell(desired, ans.updated);
    back := if ans.updated.Some? then ans.updated else ans.firstStart;
  }

  // ----- What every run guarantees -----

  predicate IsContainerCall(c: Call) {
    c.Recreate? || c.Start? || c.Update?
  }

  /** Every start, recreate or update of a body comes after a successful provisioning pass over that body. */
  ghost predicate ProvisionedFirst(calls: seq<Call>) {
    forall i | 0 <= i < |calls| && IsContainerCall(calls[i]) ::
      exists j | 0 <= j < i :: calls[j] == Provision(calls[i].body, true)
  }

  /** The same, once the given body has been provisioned. */
  ghost predicate CoveredGiven(b: Body, calls: seq<Call>) {
    forall i | 0 <= i < |calls| && IsContainerCall(calls[i]) ::
      calls[i].body == b || exists j | 0 <= j < i :: calls[j] == Provision(calls[i].body, true)
  }

  lemma ReapplyCovered(diff: (Body, Body) -> Change, live: Cell, ans: ReapplyAnswers)
    ensures CoveredGiven(live.body, Reapply(diff, live, ans).0)
  {
    match Desired(diff, live, ans) {
      case None =>
      case Some(desired) =>
        var breaking, gentle := ReapplyBreaking(desired, ans).0, ReapplyInPlace(live, desired, ans).0;
        assert CoveredGiven(live.body, breaking) by {
          assert |breaking| == 2 ==> breaking[0] == Provision(desired, true);
        }
        assert CoveredGiven(live.body, gentle) by {
          assert |gentle| == 3 ==> gentle[1] == Provision(desired, true);
        }
    }
  }

  lemma CoveredTogether(b: Body, before: seq<Call>, after: seq<Call>)
    requires CoveredGiven(b, before) && forall c <- after :: IsContainerCall(c) ==> c.body == b
    ensures CoveredGiven(b, before + after)
  {
    var calls := before + after;
    forall i | 0 <= i < |calls| && IsContainerCall(calls[i]) && calls[i].body != b
      ensures exists j | 0 <= j < i :: calls[j] == Provision(calls[i].body, true)
    {
      assert calls[i] !in after;
      assert i < |before|;
      var j :| 0 <= j < i && before[j] == Provision(before[i].body, true);
      assert calls[j] == before[j];
    }
  }

  lemma CoveredAfter(b: Body, calls: seq<Call>)
    requires CoveredGiven(b, calls)
    ensures ProvisionedFirst([Provision(b, true)] + calls)
  {
    var all := [Provision(b, true)] + calls;
    forall i | 0 <= i < |all| && IsContainerCall(all[i])
      ensures exists j | 0 <= j < i :: all[j] == Provision(all[i].body, true)
    {
      assert all[0] == Provision(b, true) && all[i] == calls[i - 1];
      if all[i].body != b {
        var j :| 0 <= j < i - 1 && calls[j] == Provision(calls[i - 1].body, true);
        assert all[j + 1] == calls[j];
      }
    }
  }

  lemma IdleCovered(diff: (Body, Body) -> Change, live: Cell, ans: IdleAnswers)
    ensures CoveredGiven(live.body, Idle(diff, live, ans).0)
  {
    ReapplyCovered(diff, live, ans.reapply);
    CoveredTogether(live.body, Reapply(diff, live, ans.reapply).0, Plain(live, ans).0);
  }

  lemma ProvisionedCovered(diff: (Body, Body) -> Change, live: Cell, ans: Answers)
    ensures CoveredGiven(live.body, Provisioned(diff, live, ans).0)
  {
    IdleCovered(diff, live, ans.idle);
  }

  lemma ScriptCovered(diff: (Body, Body) -> Change, live: Cell, ans: Answers)
    ensures ProvisionedFirst(ScriptFor(diff, live, ans).0)
  {
    ProvisionedCovered(diff, live, ans);
    CoveredAfter(live.body, Provisioned(diff, live, ans).0);
  }

  lemma ProvisionedBeforeUse(diff: (Body, Body) -> Change, request: Body, ans: Answers)
    ensures ProvisionedFirst(Script(diff, request, ans).0)
  {
    match Live(request, ans) {
      case None =>
      case Some(live) => ScriptCovered(diff, live, ans);
    }
  }

  /** When each kind of call is made: recreation only to recover the stored body or on a breaking difference of an
      out-of-sync lineage cell, starts and updates only on an idle cell, nothing on a pending or unknown one. */
  lemma CallsAreEarned(diff: (Body, Body) -> Change, live: Cell, ans: Answers, c: Call)
    requires c in ScriptFor(diff, live, ans).0 && IsContainerCall(c)
    ensures live.status.state !in {Pending, Unknown}
    ensures live.status.state in {Failed, Error, Degraded} ==> c == Recreate(live.body, ans.recovered)
    ensures live.status.state !in {Failed, Error, Degraded} ==> !Busy(live)
    ensures live.status.state !in {Failed, Error, Degraded} && !(c.Start? && c.body == live.body) ==>
      && WantsReapply(live) && Desired(diff, live, ans.idle.reapply) == Some(c.body)
      && (c.Recreate? <==> diff(c.body, live.body) == Breaking)
  {
    var calls := ScriptFor(diff, live, ans).0;
    var (again, back) := Reapply(diff, live, ans.idle.reapply);
    assert live.status.state !in {Pending, Unknown, Failed, Error, Degraded} && !Busy(live) ==>
      c in again || c in Plain(live, ans.idle).0;
  }

  /** An update is issued only to a cell the same run has just started on its stored body. */
  lemma UpdateFollowsStart(diff: (Body, Body) -> Change, live: Cell, ans: Answers, i: nat)
    requires i < |ScriptFor(diff, live, ans).0| && ScriptFor(diff, live, ans).0[i].Update?
    ensures i >= 2 && ScriptFor(diff, live, ans).0[i - 2] == Start(live.body, ans.idle.reapply.firstStart)
    ensures ans.idle.reapply.firstStart.Some?
  {
    var (again, back) := Reapply(diff, live, ans.idle.reapply);
    assert ScriptFor(diff, live, ans).0[1..][i - 1].Update?;
    assert back.None? ==> forall c <- again :: !c.Update?;
  }

  /** Why a request is turned down: not found under its name and place, volumes not ready, a state that is not
      startable, or a container still running. */
  ghost predicate RefusedFor(request: Body, ans: Answers) {
    match Live(request, ans)
    case None => true
    case Some(live) => LiveRefusedFor(live, ans)
  }

  ghost predicate LiveRefusedFor(live: Cell, ans: Answers) {
    || !Provisions(live.body, ans.failing)
    || live.status.state in {Pending, Unknown}
    || (live.status.state !in {Failed, Error, Degraded} && Busy(live))
  }

  /** A start request is never dropped: it is refused exactly for one of four reasons, ends in a cell some call
      returned, or fails only after the stored body itself was tried. */
  lemma RequestIsHonoured(diff: (Body, Body) -> Change, request: Body, ans: Answers)
    ensures var (calls, res) := Script(diff, request, ans);
            && (res.Refused? <==> RefusedFor(request, ans))
            && (res.Started? ==> exists c <- calls :: IsContainerCall(c) && c.answer == Some(res.cell))
            && (res.Broken? ==> Live(request, ans).Some? && LastTry(Live(request, ans).value, ans, calls))
  {
    match Live(request, ans) {
      case None =>
      case Some(live) => LiveIsHonoured(diff, live, ans);
    }
  }

  /** The last call was the one on the stored body, or the write after it, and it failed. */
  ghost predicate LastTry(live: Cell, ans: Answers, calls: seq<Call>) {
    && calls != []
    && var last := calls[|calls| - 1];
    if live.status.state in {Failed, Error, Degraded} then last == Recreate(live.body, None)
    else last == Start(live.body, None) || (ans.idle.started.Some? && last == Save(ans.idle.started.value, false))
  }

  lemma LiveIsHonoured(diff: (Body, Body) -> Change, live: Cell, ans: Answers)
    ensures var (calls, res) := ScriptFor(diff, live, ans);
            && (res.Refused? <==> LiveRefusedFor(live, ans))
            && (res.Started? ==> exists c <- calls :: IsContainerCall(c) && c.answer == Some(res.cell))
            && (res.Broken? ==> LastTry(live, ans, calls))
  {
    var (calls, res) := ScriptFor(diff, live, ans);
    if Provisions(live.body, ans.failing) && live.status.state in {Ready, Stopped, Exited} && !Busy(live) {
      var (again, back) := Reapply(diff, live, ans.idle.reapply);
      var (plain, end) := Plain(live, ans.idle);
      if back.Some? {
        StartedByReapply(diff, live, ans.idle.reapply);
        assert forall c <- again :: c in calls;
      } else {
        assert calls == [Provision(live.body, true)] + (again + plain);
        assert calls[|calls| - 1] == plain[|plain| - 1];
        assert plain[0] in calls;
      }
    } else if res.Started? {
      assert calls[1] == Recreate(live.body, ans.recovered);
    }
  }

  lemma StartedByReapply(diff: (Body, Body) -> Change, live: Cell, ans: ReapplyAnswers)
    requires Reapply(diff, live, ans).1.Some?
    ensures exists c <- Reapply(diff, live, ans).0 :: IsContainerCall(c) && c.answer == Reapply(diff, live, ans).1
  {
    var (calls, back) := Reapply(diff, live, ans);
    var desired := Desired(diff, live, ans).value;
    if diff(desired, live.body) == Breaking {
      assert calls[1].answer == back;
    } else if Provisions(desired, ans.failing) && ans.updated.Some? {
      assert calls[2].answer == back;
    } else {
      assert calls[0].answer == back;
    }
  }

  /** A request is about the stored cell exactly when all its names are given and the cell found lies where it says;
      and then about that cell as stored, with the request's own environment. */
  lemma LiveExactly(request: Body, ans: Answers)
    ensures Live(request, ans).Some? <==>
            && TrimSpace(request.name) != "" && ans.fetched.Some?
            && "" != TrimSpace(request.realm) == ans.fetched.value.body.realm
            && "" != TrimSpace(request.space) == ans.fetched.value.body.space
            && "" != TrimSpace(request.stack) == ans.fetched.value.body.stack
    ensures Live(request, ans).Some? ==>
      var live, stored := Live(request, ans).value, ans.fetched.value;
      && live.status == stored.status && SameIdentity(live.body, stored.body)
      && SameDeclaration(live.body, stored.body) && live.body.runtimeEnv == request.runtimeEnv
  {
  }

  // ----- Whom the calls are about, and which cell comes back -----

  ghost predicate SameIdentity(a: Body, b: Body) {
    a.name == b.name && a.id == b.id && a.realm == b.realm && a.space == b.space && a.stack == b.stack
  }

  /** The same declaration, identity and runtime environment aside. */
  ghost predicate SameDeclaration(a: Body, b: Body) {
    && a.labels == b.labels && a.rootContainerID == b.rootContainerID && a.containers == b.containers
    && a.envOverrides == b.envOverrides
  }

  lemma BodyOfCall(diff: (Body, Body) -> Change, live: Cell, ans: Answers, c: Call)
    requires c in ScriptFor(diff, live, ans).0 && !c.Save?
    ensures || c.body == live.body
            || (ans.idle.reapply.materialized.Some?
                && c.body == Rekeyed(ans.idle.reapply.materialized.value, live.body))
  {
    var (again, back) := Reapply(diff, live, ans.idle.reapply);
    if c != Provision(live.body, true) && c != Provision(live.body, false) && c != Recreate(live.body, ans.recovered) {
      assert c in again || c in Plain(live, ans.idle).0;
    }
  }

  /** Every call is about the cell that was asked for, with the request's own environment, and declares what is stored
      or what the Config materialised to. */
  lemma CallsAddressTheCell(diff: (Body, Body) -> Change, request: Body, ans: Answers, c: Call)
    requires c in Script(diff, request, ans).0 && !c.Save?
    ensures ans.fetched.Some?
    ensures var stored := ans.fetched.value.body;
            && SameIdentity(c.body, stored) && c.body.runtimeEnv == request.runtimeEnv
            && stored.realm == TrimSpace(request.realm) != "" && stored.space == TrimSpace(request.space) != ""
            && stored.stack == TrimSpace(request.stack) != ""
            && (|| SameDeclaration(c.body, stored)
                || (ans.idle.reapply.materialized.Some?
                    && SameDeclaration(c.body, ans.idle.reapply.materialized.value)))
  {
    BodyOfCall(diff, Live(request, ans).value, ans, c);
  }

  /** The answer of the last container call that succeeded. */
  ghost function LastAnswer(calls: seq<Call>): Option<Cell> {
    if calls == [] then None
    else
      var last := calls[|calls| - 1];
      if IsContainerCall(last) && last.answer.Some? then last.answer else LastAnswer(calls[..|calls| - 1])
  }

  lemma {:induction false} LastAnswerConcat(a: seq<Call>, b: seq<Call>)
    ensures LastAnswer(a + b) == if LastAnswer(b).Some? then LastAnswer(b) else LastAnswer(a)
  {
    if b == [] {
      assert a + b == a;
    } else {
      assert (a + b)[..|a + b| - 1] == a + b[..|b| - 1];
      LastAnswerConcat(a, b[..|b| - 1]);
    }
  }

  lemma LastOfOne(c: Call)
    ensures LastAnswer([c]) == if IsContainerCall(c) then c.answer else None
  {
    assert [c][..0] == [];
  }

  lemma LastOfReapply(diff: (Body, Body) -> Change, live: Cell, ans: ReapplyAnswers)
    ensures LastAnswer(Reapply(diff, live, ans).0) == Reapply(diff, live, ans).1
  {
    match Desired(diff, live, ans) {
      case None =>
      case Some(desired) =>
        var start, update := Start(live.body, ans.firstStart), Update(desired, ans.updated);
        LastOfOne(start);
        LastOfOne(update);
        LastOfOne(Recreate(desired, ans.recreated));
        LastOfOne(Provision(desired, true));
        LastOfOne(Provision(desired, false));
        LastAnswerConcat([Provision(desired, true)], [Recreate(desired, ans.recreated)]);
        LastAnswerConcat([start], [Provision(desired, false)]);
        LastAnswerConcat([Provision(desired, true)], [update]);
        LastAnswerConcat([start], [Provision(desired, true)] + [update]);
        assert [start] + ([Provision(desired, true)] + [update]) == [start, Provision(desired, true), update];
        assert [start] + [Provision(desired, false)] == [start, Provision(desired, false)];
        assert [Provision(desired, true)] + [Recreate(desired, ans.recreated)] ==
               [Provision(desired, true), Recreate(desired, ans.recreated)];
    }
  }

  lemma LastOfPlain(live: Cell, ans: IdleAnswers)
    ensures LastAnswer(Plain(live, ans).0) == ans.started
  {
    LastOfOne(Start(live.body, ans.started));
    if ans.started.Some? {
      var save := Save(ans.started.value, ans.saved);
      LastOfOne(save);
      LastAnswerConcat([Start(live.body, ans.started)], [save]);
      assert [Start(live.body, ans.started)] + [save] == [Start(live.body, ans.started), save];
    }
  }

  lemma LastOfIdle(diff: (Body, Body) -> Change, live: Cell, ans: IdleAnswers)
    ensures var (calls, res) := Idle(diff, live, ans); res.Started? ==> LastAnswer(calls) == Some(res.cell)
  {
    LastOfReapply(diff, live, ans.reapply);
    LastOfPlain(live, ans);
    LastAnswerConcat(Reapply(diff, live, ans.reapply).0, Plain(live, ans).0);
  }

  /** A request that succeeds returns what the last container call that succeeded answered. */
  lemma StartedIsLastAnswer(diff: (Body, Body) -> Change, request: Body, ans: Answers)
    ensures var (calls, res) := Script(diff, request, ans); res.Started? ==> LastAnswer(calls) == Some(res.cell)
  {
    match Live(request, ans) {
      case None =>
      case Some(live) =>
        var (calls, res) := Provisioned(diff, live, ans);
        LastOfIdle(diff, live, ans.idle);
        LastOfOne(Recreate(live.body, ans.recovered));
        LastAnswerConcat([Provision(live.body, true)], calls);
    }
  }

  // ----- What a request gets done -----

  /** The body a reapply asks for: declared as the Config materialised it, under the stored identity. */
  ghost predicate Reapplied(desired: Body, made: Body, live: Body) {
    SameIdentity(desired, live) && SameDeclaration(desired, made) && desired.runtimeEnv == live.runtimeEnv
  }

  /** Startable, past the guard and provisioned. */
  ghost predicate Startable(live: Cell, ans: Answers) {
    Provisions(live.body, ans.failing) && live.status.state in {Ready, Stopped, Exited} && !Busy(live)
  }

  /** Out of sync without error, and the Config it came from materialises. */
  ghost predicate CanReapply(live: Cell, ans: ReapplyAnswers) {
    && live.status.sync.outOfSync && live.status.sync.error == "" && Lineage(live.body).Some?
    && ans.configFound && ans.materialized.Some?
  }

  /** A drifted cell is rebuilt from its Config on a breaking difference, and updated in place on any other; when that
      goes well it is the cell returned. */
  lemma DriftIsReapplied(diff: (Body, Body) -> Change, live: Cell, ans: Answers, desired: Body)
    requires Startable(live, ans) && CanReapply(live, ans.idle.reapply)
    requires Reapplied(desired, ans.idle.reapply.materialized.value, live.body)
    ensures var (calls, res) := ScriptFor(diff, live, ans);
            var a := ans.idle.reapply;
            && (diff(desired, live.body) == Breaking && Provisions(desired, a.failing) && a.recreated.Some? ==>
                  Recreate(desired, a.recreated) in calls && res == Started(a.recreated.value))
            && (diff(desired, live.body) == InPlace && a.firstStart.Some? && Provisions(desired, a.failing)
                && a.updated.Some? ==>
                  Update(desired, a.updated) in calls && res == Started(a.updated.value))
  {
    var a := ans.idle.reapply;
    assert desired == Rekeyed(a.materialized.value, live.body);
    var (calls, back) := Reapply(diff, live, a);
    if back.Some? {
      assert ScriptFor(diff, live, ans).0 == [Provision(live.body, true)] + calls;
      assert |calls| > 0 && calls[|calls| - 1] in calls;
    }
  }

  /** A startable cell whose reapply does not apply or does not work is started as stored, and a failed one rebuilt as
      stored; when that goes well it is the cell returned. */
  lemma StoredCellIsStarted(diff: (Body, Body) -> Change, live: Cell, ans: Answers, cell: Cell)
    ensures var (calls, res) := ScriptFor(diff, live, ans);
            && (Startable(live, ans) && !CanReapply(live, ans.idle.reapply)
                && ans.idle.started == Some(cell) && ans.idle.saved ==>
                  Start(live.body, Some(cell)) in calls && res == Started(cell))
            && (Startable(live, ans) && ans.idle.reapply.recreated.None? && ans.idle.reapply.firstStart.None?
                && ans.idle.started == Some(cell) && ans.idle.saved ==>
                  Start(live.body, Some(cell)) in calls && res == Started(cell))
            && (Provisions(live.body, ans.failing) && live.status.state in {Failed, Error, Degraded}
                && ans.recovered == Some(cell) ==>
                  Recreate(live.body, Some(cell)) in calls && res == Started(cell))
  {
    var (calls, res) := ScriptFor(diff, live, ans);
    if Startable(live, ans) {
      var (again, back) := Reapply(diff, live, ans.idle.reapply);
      var plain := Plain(live, ans.idle).0;
      if back.None? {
        assert calls == [Provision(live.body, true)] + (again + plain);
        assert plain[0] in calls;
      }
    } else if Provisions(live.body, ans.failing) && live.status.state in {Failed, Error, Degraded} {
      assert calls[1] == Recreate(live.body, ans.recovered);
    }
  }

  // ----- Provisioned volumes are found -----

  /** The scopes ResolveVolumeMount looks a bare name up in, deepest first. */
  function Candidates(b: Body, name: string): seq<Volume> {
    (if b.realm != "" && b.space != "" && b.stack != "" then [Volume(name, b.realm, b.space, b.stack)] else [])
    + (if b.realm != "" && b.space != "" then [Volume(name, b.realm, b.space, "")] else [])
    + (if b.realm != "" then [Volume(name, b.realm, "", "")] else [])
  }

  function FirstThere(vs: seq<Volume>, there: set<Volume>): Option<Volume> {
    if vs == [] then None else if vs[0] in there then Some(vs[0]) else FirstThere(vs[1..], there)
  }

  /** ResolveVolumeMount: explicit coordinates, or the first scope that has a volume of the name. */
  function Resolve(b: Body, m: Mount, there: set<Volume>): Option<Volume> {
    match m.ref
    case Some(v) => if v in there then Some(v) else None
    case None => FirstThere(Candidates(b, m.source), there)
  }

  /** Once a call's body is provisioned, each of its ensure mounts resolves, and to the volume provisioned for it. */
  lemma EnsuredMountsResolve(diff: (Body, Body) -> Change, request: Body, ans: Answers, c: Call,
                             there: set<Volume>, k: Container, m: Mount)
    requires c in Script(diff, request, ans).0 && IsContainerCall(c) && EnsureVolumes(c.body) <= there
    requires k in c.body.containers && m in k.mounts && m.isVolume && m.ensure
    ensures Resolve(c.body, m, there) == Some(VolumeFor(c.body, m))
  {
    CallsAddressTheCell(diff, request, ans, c);
    assert VolumeFor(c.body, m) in EnsureVolumes(c.body);
    if m.ref.None? {
      assert Candidates(c.body, m.source)[0] == VolumeFor(c.body, m);
    }
  }

  // ----- What the guard means -----

  lemma {:induction false} RootIDMeaning(cs: seq<Container>, fallback: string)
    ensures (exists c <- cs :: c.root && c.id == RootIDFrom(cs, fallback))
            || ((forall c <- cs :: !c.root) && RootIDFrom(cs, fallback) == fallback)
  {
    if cs != [] && !cs[0].root {
      RootIDMeaning(cs[1..], fallback);
      assert forall c <- cs :: c == cs[0] || c in cs[1..];
    }
  }

  /** A container other than a flagged root is running; on a cell without workloads the root is the workload. */
  ghost predicate RunningWorkload(cell: Cell) {
    exists st <- cell.status.containers ::
      st.ready && (HasWorkload(cell.body) ==> forall c <- cell.body.containers :: c.root ==> c.id != st.id)
  }

  /** Nothing is flagged root, so the recorded root id stands in for it, and everything running carries that id. */
  ghost predicate Overlooked(cell: Cell) {
    && HasWorkload(cell.body) && (forall c <- cell.body.containers :: !c.root)
    && cell.body.rootContainerID != ""
    && (exists st <- cell.status.containers :: st.ready)
    && (forall st <- cell.status.containers :: st.ready ==> st.id == cell.body.rootContainerID)
  }

  /** The guard overlooks a running workload exactly then. */
  lemma GuardOverlooksExactly(cell: Cell)
    ensures RunningWorkload(cell) && !Busy(cell) <==> Overlooked(cell)
  {
    RootIDMeaning(cell.body.containers, cell.body.rootContainerID);
  }

  /** The guard counts every running container but the root of a cell with workloads, and goes by the state when it
      knows of none. */
  lemma GuardExactly(cell: Cell)
    ensures cell.status.containers == [] ==> (Busy(cell) <==> cell.status.state == Ready)
    ensures cell.status.containers != [] && !HasWorkload(cell.body) ==>
      (Busy(cell) <==> exists st <- cell.status.containers :: st.ready)
    ensures forall root <- cell.body.containers ::
      root.root && root.id != "" && OnlyRoot(cell.body, root) && HasWorkload(cell.body)
      && cell.status.containers != [] ==>
      (Busy(cell) <==> exists st <- cell.status.containers :: st.ready && st.id != root.id)
  {
    RootIDMeaning(cell.body.containers, cell.body.rootContainerID);
  }

  /** No other container is flagged root under another id. */
  ghost predicate OnlyRoot(b: Body, root: Container) {
    forall c <- b.containers :: c.root ==> c.id == root.id
  }

  /** A cell whose only container runs under the recorded root id without being flagged root. */
  lemma UnflaggedRootIsOverlooked(b: Body)
    requires b.containers == [Container("web", false, [], [])] && b.rootContainerID == "web"
    ensures var cell := Cell(b, Status(Ready, [ContainerStatus("web", true)], Sync(false, "", "")));
            RunningWorkload(cell) && !Busy(cell)
  {
    var cell := Cell(b, Status(Ready, [ContainerStatus("web", true)], Sync(false, "", "")));
    assert b.containers[0] in b.containers && cell.status.containers[0] in cell.status.containers;
    assert Overlooked(cell);
    GuardOverlooksExactly(cell);
  }

  /** So a start or update reaches a cell with a running workload only then, and a provisioned startable cell like
      that is started. */
  lemma StartsOverWorkloadExactly(diff: (Body, Body) -> Change, live: Cell, ans: Answers)
    requires Provisions(live.body, ans.failing)
    requires live.status.state in {Ready, Stopped, Exited} && RunningWorkload(live)
    ensures (exists c <- ScriptFor(diff, live, ans).0 :: IsContainerCall(c)) <==> Overlooked(live)
  {
    GuardOverlooksExactly(live);
    var calls := ScriptFor(diff, live, ans).0;
    if Busy(live) {
      assert calls == [Provision(live.body, true)];
    } else {
      IdleCallsSomething(diff, live, ans.idle);
      var c :| c in Idle(diff, live, ans.idle).0 && IsContainerCall(c);
      assert c in calls;
    }
  }

  lemma IdleCallsSomething(diff: (Body, Body) -> Change, live: Cell, ans: IdleAnswers)
    ensures exists c <- Idle(diff, live, ans).0 :: IsContainerCall(c)
  {
    var (calls, back) := Reapply(diff, live, ans.reapply);
    if back.Some? {
      StartedByReapply(diff, live, ans.reapply);
    } else {
      assert Plain(live, ans).0[0] in Idle(diff, live, ans).0;
    }
  }
}
