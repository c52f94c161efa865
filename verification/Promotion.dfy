/** End to end: leases, task versions and snapshots meet in the promotion node. */
module Promotion {
  import opened Basics
  import Leases
  import Tasks
  import opened Snapshots

  /** What the node is called with: the run context, the task, and the version the run worked on. */
  datatype Call = Call(
    context: Option<(Id, nat)>, ws: Id, taskId: Id, version: Option<int>, scopeNone: bool,
    planId: Option<Id>, freshId: Id, artifacts: Id)

  function NewSnapshot(c: Call, headVersion: int): Snapshot {
    Snapshot(c.freshId, c.taskId, c.version.GetOr(headVersion), c.artifacts, false, REUSABLE)
  }

  /** promote: the fence's answer comes first, then the snapshot repository compares versions. */
  function Promoted(store: Tasks.Store, snaps: Snaps, c: Call, allowed: bool): Snaps {
    var task := Tasks.Visible(store.repo, c.ws, c.taskId);
    if task.None? || c.scopeNone then snaps
    else
      var snapshot := NewSnapshot(c, task.value.version);
      if !allowed then Saved(snaps, snapshot.(isCurrent := false, validity := Validity.SUPERSEDED))
      else PromoteStep(snaps, snapshot, task.value.version).0
  }

  datatype Outcome =
    | NoTask
    | Reused(current: Option<Id>)
    | StaleFence(snapshot: Id)
    | StaleVersion(snapshot: Id)
    | Activated(snapshot: Id)

  function OutcomeOf(store: Tasks.Store, snaps: Snaps, c: Call, allowed: bool): Outcome {
    var task := Tasks.Visible(store.repo, c.ws, c.taskId);
    if task.None? then NoTask
    else if c.scopeNone then
      var current := snaps.Current(c.taskId);
      Reused(if current.Some? then Some(current.value.snapshotId) else None)
    else if !allowed then StaleFence(c.freshId)
    else if c.version.GetOr(task.value.version) != task.value.version then StaleVersion(c.freshId)
    else Activated(c.freshId)
  }

  datatype PlanStatus = PLANNED | RUNNING | COMPLETED | PARTIAL | FAILED | SUPERSEDED

  class PlanRepository {
    var plans: map<Id, PlanStatus>

    /** get_plan and save_plan with another status. */
    method Close(id: Option<Id>, status: PlanStatus)
      modifies this
      ensures plans == PlansAfter(old(plans), id, status)
    {
      if id.Some? && id.value in plans {
        plans := plans[id.value := status];
      }
    }
  }

  function PlansAfter(plans: map<Id, PlanStatus>, id: Option<Id>, status: PlanStatus): map<Id, PlanStatus> {
    if id.Some? && id.value in plans then plans[id.value := status] else plans
  }

  /** The inner function of the node. */
  method PromoteSnapshot(tasks: Tasks.TaskRepository, snapshots: SnapshotRepository, plans: PlanRepository,
                         ghost store: Tasks.Store, c: Call, allowed: bool)
    returns (outcome: Outcome)
    requires store.repo == tasks.Abstract()
    modifies snapshots, plans
    ensures snapshots.Abstract() == Promoted(store, old(snapshots.Abstract()), c, allowed)
    ensures outcome == OutcomeOf(store, old(snapshots.Abstract()), c, allowed)
    ensures plans.plans == match outcome
                           case Reused(_) => PlansAfter(old(plans.plans), c.planId, COMPLETED)
                           case Activated(_) => PlansAfter(old(plans.plans), c.planId, COMPLETED)
                           case StaleVersion(_) => PlansAfter(old(plans.plans), c.planId, PlanStatus.SUPERSEDED)
                           case _ => old(plans.plans)
  {
    var task := tasks.GetTask(c.ws, c.taskId);
    if task.None? {
      return NoTask;
    }
    if c.scopeNone {
      var current := snapshots.Current(c.taskId);
      plans.Close(c.planId, COMPLETED);
      return Reused(if current.Some? then Some(current.value.snapshotId) else None);
    }
    var snapshot := NewSnapshot(c, task.value.version);
    if !allowed {
      snapshots.Save(snapshot.(isCurrent := false, validity := Validity.SUPERSEDED));
      return StaleFence(c.freshId);
    }
    var promoted := snapshots.Promote(snapshot, task.value.version);
    plans.Close(c.planId, if promoted then COMPLETED else PlanStatus.SUPERSEDED);
    return if promoted then Activated(c.freshId) else StaleVersion(c.freshId);
  }

  predicate FenceAllowed(s: Leases.State, c: Call) {
    c.context.Some? ==> Leases.CanPromote(s, c.context.value.0, c.context.value.1)
  }

  /** The node over the in-memory coordinator, which both of its forms ask in the same step. */
  method PromoteExecutionSnapshot(coordinator: Leases.InMemoryCoordinator, tasks: Tasks.TaskRepository,
                                  snapshots: SnapshotRepository, plans: PlanRepository,
                                  ghost store: Tasks.Store, c: Call)
    returns (outcome: Outcome)
    requires store.repo == tasks.Abstract()
    modifies snapshots, plans
    ensures
      var allowed := FenceAllowed(coordinator.Abstract(), c);
      && snapshots.Abstract() == Promoted(store, old(snapshots.Abstract()), c, allowed)
      && outcome == OutcomeOf(store, old(snapshots.Abstract()), c, allowed)
  {
    var allowed := true;
    if c.context.Some? {
      allowed := coordinator.Promotable(c.context.value.0, c.context.value.1);
    }
    outcome := PromoteSnapshot(tasks, snapshots, plans, store, c, allowed);
  }

  // ---------------------------------------------------------------------------------------------
  // Tasks and snapshots together

  /** A current snapshot belongs to an existing task and shows a version that task has reached. */
  ghost predicate Reached(snaps: Snaps, repo: Tasks.Repo) {
    forall t <- snaps.current ::
      t in repo.tasks && snaps.current[t] in snaps.snapshots
      && snaps.snapshots[snaps.current[t]].taskVersion <= repo.tasks[t].version
  }

  ghost predicate SoundStores(store: Tasks.Store, snaps: Snaps) {
    Tasks.Consistent(store.repo) && OneCurrent(snaps) && Reached(snaps, store.repo)
  }

  /** Current snapshots stay or are replaced by ones of at least their version. */
  ghost predicate NeverBack(s: Snaps, s': Snaps) {
    forall t :: s.Current(t).Some? ==>
      s'.Current(t).Some? && s.Current(t).value.taskVersion <= s'.Current(t).value.taskVersion
  }

  lemma NeverBackTransitive(a: Snaps, b: Snaps, c: Snaps)
    requires NeverBack(a, b) && NeverBack(b, c)
    ensures NeverBack(a, c)
  {
  }

  lemma HeadsGrow(r: Tasks.Repo, r': Tasks.Repo, id: Id)
    requires Tasks.Consistent(r) && Tasks.Consistent(r') && Tasks.Extends(r, r') && id in r.tasks
    ensures id in r'.tasks && r.tasks[id].version <= r'.tasks[id].version
  {
    assert Tasks.Headed(r.tasks[id], r.versions[id]) && Tasks.Headed(r'.tasks[id], r'.versions[id]);
  }

  lemma TaskStepKeeps(store: Tasks.Store, snaps: Snaps, t: Tasks.Event)
    requires SoundStores(store, snaps) && Tasks.Legal(store, t)
    ensures SoundStores(Tasks.Step(store, t), snaps)
  {
    hide Tasks.Step, Tasks.Consistent, Tasks.Extends, OneCurrent;
    Tasks.StepKeeps(store, t);
    assert Tasks.Extends(store.repo, Tasks.Step(store, t).repo);
    forall id <- snaps.current ensures id in Tasks.Step(store, t).repo.tasks
        && store.repo.tasks[id].version <= Tasks.Step(store, t).repo.tasks[id].version
    {
      HeadsGrow(store.repo, Tasks.Step(store, t).repo, id);
    }
  }

  /** Promoting keeps what is stored, and a new current snapshot has its task's head version. */
  lemma PromoteKeepsReached(repo: Tasks.Repo, snaps: Snaps, v: Snapshot)
    requires Reached(snaps, repo) && OneCurrent(snaps) && v.taskId in repo.tasks && v.snapshotId !in snaps.snapshots
    ensures var s' := PromoteStep(snaps, v, repo.tasks[v.taskId].version).0; Reached(s', repo) && NeverBack(snaps, s')
  {
    var version := repo.tasks[v.taskId].version;
    var s' := PromoteStep(snaps, v, version).0;
    PromoteKeepsOneCurrent(snaps, v, version);
    assert forall id <- snaps.snapshots ::
      id in s'.snapshots && s'.snapshots[id].taskVersion == snaps.snapshots[id].taskVersion;
    hide PromoteStep;
  }

  lemma PromotedKeeps(store: Tasks.Store, snaps: Snaps, c: Call, allowed: bool)
    requires SoundStores(store, snaps) && c.freshId !in snaps.snapshots
    ensures var s' := Promoted(store, snaps, c, allowed); SoundStores(store, s') && NeverBack(snaps, s')
  {
    hide Tasks.Consistent;
    var task := Tasks.Visible(store.repo, c.ws, c.taskId);
    if task.Some? && !c.scopeNone {
      var snapshot := NewSnapshot(c, task.value.version);
      if allowed {
        hide Reached, NeverBack, OneCurrent;
        PromoteKeepsOneCurrent(snaps, snapshot, task.value.version);
        PromoteKeepsReached(store.repo, snaps, snapshot);
      } else {
        SavingAsideKeepsOneCurrent(snaps, snapshot.(isCurrent := false, validity := Validity.SUPERSEDED));
        hide OneCurrent;
      }
    }
  }

  /** Only an allowed call for the head version changes a current entry: its own task's, to its own snapshot. */
  lemma PromotedChangesCurrent(store: Tasks.Store, snaps: Snaps, c: Call, allowed: bool, t: Id)
    requires SoundStores(store, snaps) && c.freshId !in snaps.snapshots
    requires Promoted(store, snaps, c, allowed).Current(t) != snaps.Current(t)
    ensures allowed && c.taskId == t && t in store.repo.tasks
    ensures var now := Promoted(store, snaps, c, allowed).Current(t);
            now.Some? && now.value.snapshotId == c.freshId && now.value.taskVersion == store.repo.tasks[t].version
  {
    var snapshot := NewSnapshot(c, Tasks.Visible(store.repo, c.ws, c.taskId).value.version);
    if allowed {
      PromoteKeepsOneCurrent(snaps, snapshot, store.repo.tasks[c.taskId].version);
    }
  }

  /** What one promotion does to current entries: it changes one exactly when it activates its snapshot. */
  lemma ActivatedIff(store: Tasks.Store, snaps: Snaps, c: Call, allowed: bool)
    requires SoundStores(store, snaps) && c.freshId !in snaps.snapshots
    ensures OutcomeOf(store, snaps, c, allowed).Activated?
            <==> exists t: Id :: Promoted(store, snaps, c, allowed).Current(t) != snaps.Current(t)
  {
    var task, after := Tasks.Visible(store.repo, c.ws, c.taskId), Promoted(store, snaps, c, allowed);
    if OutcomeOf(store, snaps, c, allowed).Activated? {
      PromoteKeepsOneCurrent(snaps, NewSnapshot(c, task.value.version), task.value.version);
      CurrentIsStored(snaps, c.taskId);
      assert after.Current(c.taskId).value.snapshotId == c.freshId;
      assert after.Current(c.taskId) != snaps.Current(c.taskId);
    } else if t: Id :| after.Current(t) != snaps.Current(t) {
      PromotedChangesCurrent(store, snaps, c, allowed, t);
      PromoteKeepsOneCurrent(snaps, NewSnapshot(c, task.value.version), task.value.version);
    }
  }

  lemma CurrentIsStored(s: Snaps, t: Id)
    requires OneCurrent(s)
    ensures s.Current(t).Some? ==> s.Current(t).value.snapshotId in s.snapshots
  {
  }

  // ---------------------------------------------------------------------------------------------
  // Interleavings of claims, heartbeats, late finishes, mutations and promotions

  datatype System = System(leases: Leases.State, store: Tasks.Store, snaps: Snaps)

  const START := System(Leases.EMPTY, Tasks.EMPTY_STORE, NO_SNAPSHOTS)

  datatype Event =
    | Lease(lease: Leases.Event)
    | Task(task: Tasks.Event)
    | Promote(call: Call)

  function Step(s: System, e: Event): System {
    match e
    case Lease(l) => s.(leases := Leases.Step(s.leases, l))
    case Task(t) => s.(store := Tasks.Step(s.store, t))
    case Promote(c) => s.(snaps := Promoted(s.store, s.snaps, c, FenceAllowed(s.leases, c)))
  }

  ghost predicate Legal(s: System, e: Event) {
    match e
    case Lease(l) => Leases.Legal(s.leases, l)
    case Task(t) => Tasks.Legal(s.store, t)
    case Promote(c) => c.freshId !in s.snaps.snapshots
  }

  ghost function Exec(es: seq<Event>): System {
    if es == [] then START
    else
      var n := |es| - 1;
      Step(Exec(es[..n]), es[n])
  }

  ghost predicate LegalRun(es: seq<Event>) {
    forall i :: 0 <= i < |es| ==> Legal(Exec(es[..i]), es[i])
  }

  ghost predicate Sound(s: System) {
    Leases.WellFormed(s.leases) && SoundStores(s.store, s.snaps)
  }

  lemma StepKeepsSound(s: System, e: Event)
    requires Sound(s) && Legal(s, e)
    ensures Sound(Step(s, e)) && NeverBack(s.snaps, Step(s, e).snaps)
  {
    hide SoundStores, Promoted, Leases.WellFormed, Leases.Step, Tasks.Step;
    match e
    case Lease(l) => Leases.StepKeepsWellFormed(s.leases, l);
    case Task(t) => TaskStepKeeps(s.store, s.snaps, t);
    case Promote(c) => PromotedKeeps(s.store, s.snaps, c, FenceAllowed(s.leases, c));
  }

  lemma PrefixIsLegal(es: seq<Event>, n: nat)
    requires LegalRun(es) && n <= |es|
    ensures LegalRun(es[..n])
  {
    forall i | 0 <= i < n
      ensures Legal(Exec(es[..n][..i]), es[..n][i])
    {
      assert es[..n][..i] == es[..i];
    }
  }

  /** In every interleaving each task has at most one CURRENT snapshot, the one its entry names, of a version the
      task has reached. */
  lemma {:induction false} RunIsSound(es: seq<Event>)
    requires LegalRun(es)
    ensures Sound(Exec(es))
  {
    if es != [] {
      var n := |es| - 1;
      PrefixIsLegal(es, n);
      RunIsSound(es[..n]);
      assert Legal(Exec(es[..n]), es[n]);
      StepKeepsSound(Exec(es[..n]), es[n]);
    }
  }

  lemma LastStepKeeps(es: seq<Event>)
    requires LegalRun(es) && es != []
    ensures var front := es[..|es| - 1];
            LegalRun(front) && Sound(Exec(front)) && Legal(Exec(front), es[|es| - 1])
            && Exec(es) == Step(Exec(front), es[|es| - 1]) && NeverBack(Exec(front).snaps, Exec(es).snaps)
  {
    hide Sound, NeverBack, Step, Legal;
    var n := |es| - 1;
    PrefixIsLegal(es, n);
    RunIsSound(es[..n]);
    assert Legal(Exec(es[..n]), es[n]);
    StepKeepsSound(Exec(es[..n]), es[n]);
  }

  /** A task's current snapshot never goes back to an older version, late runs included. */
  lemma {:induction false} CurrentVersionNeverDecreases(es: seq<Event>, n: nat)
    requires LegalRun(es) && n <= |es|
    ensures NeverBack(Exec(es[..n]).snaps, Exec(es).snaps)
  {
    hide Exec, LegalRun, Sound, Step, Legal;
    if n == |es| {
      assert es[..n] == es;
    } else {
      hide NeverBack;
      var front := es[..|es| - 1];
      assert front[..n] == es[..n];
      LastStepKeeps(es);
      CurrentVersionNeverDecreases(front, n);
      NeverBackTransitive(Exec(es[..n]).snaps, Exec(front).snaps, Exec(es).snaps);
    }
  }

  /** The lease operations of an interleaving, in order. */
  function LeaseEvents(es: seq<Event>): seq<Leases.Event> {
    if es == [] then []
    else
      var n := |es| - 1;
      LeaseEvents(es[..n]) + if es[n].Lease? then [es[n].lease] else []
  }

  /** The coordinator cannot tell what else happens around it. */
  lemma {:induction false} LeasesRunAlone(es: seq<Event>)
    requires LegalRun(es)
    ensures Exec(es).leases == Leases.Exec(LeaseEvents(es)) && Leases.LegalRun(LeaseEvents(es))
  {
    if es != [] {
      var n := |es| - 1;
      var before := LeaseEvents(es[..n]);
      PrefixIsLegal(es, n);
      LeasesRunAlone(es[..n]);
      assert Legal(Exec(es[..n]), es[n]);
      if es[n].Lease? {
        var ls := LeaseEvents(es);
        assert ls == before + [es[n].lease] && ls[..|before|] == before;
        forall i | 0 <= i < |ls|
          ensures Leases.Legal(Leases.Exec(ls[..i]), ls[i])
        {
          if i < |before| {
            assert ls[..i] == before[..i];
          }
        }
      } else {
        assert LeaseEvents(es) == before;
      }
    }
  }

  /** What holds where a run promotes. */
  lemma PromotionAt(es: seq<Event>, i: nat)
    requires LegalRun(es) && i < |es| && es[i].Promote?
    ensures var s, c := Exec(es[..i]), es[i].call;
            Sound(s) && c.freshId !in s.snaps.snapshots
            && Exec(es[..i + 1]).snaps == Promoted(s.store, s.snaps, c, FenceAllowed(s.leases, c))
            && s.leases == Leases.Exec(LeaseEvents(es[..i])) && Leases.LegalRun(LeaseEvents(es[..i]))
  {
    hide Sound, Promoted, NeverBack, LeaseEvents, Leases.LegalRun, Leases.Exec, Leases.Step, Tasks.Step, FenceAllowed,
      Leases.Legal, Tasks.Legal, Exec, LegalRun;
    var front := es[..i + 1];
    assert front[..i] == es[..i] && front[i] == es[i];
    PrefixIsLegal(es, i + 1);
    LastStepKeeps(front);
    LeasesRunAlone(es[..i]);
  }

  lemma OnlyPromotionsChange(es: seq<Event>, i: nat)
    requires i < |es| && !es[i].Promote?
    ensures Exec(es[..i + 1]).snaps == Exec(es[..i]).snaps
  {
    assert es[..i + 1][..i] == es[..i];
  }

  /** A snapshot becomes current only at a promotion step, for the head version of the task at that step, and, when the
      run carries a lease, under the largest token ever issued for its thread. */
  lemma BecomesCurrentOnlyFenced(es: seq<Event>, i: nat, t: Id)
    requires LegalRun(es) && i < |es|
    requires Exec(es[..i + 1]).snaps.Current(t) != Exec(es[..i]).snaps.Current(t)
    ensures var s, now := Exec(es[..i]), Exec(es[..i + 1]).snaps.Current(t);
            && es[i].Promote? && es[i].call.taskId == t && t in s.store.repo.tasks
            && now.Some? && now.value.snapshotId == es[i].call.freshId
            && now.value.taskVersion == s.store.repo.tasks[t].version
            && (es[i].call.context.Some? ==>
                  var (run, token) := es[i].call.context.value;
                  var ls := LeaseEvents(es[..i]);
                  run in s.leases.runs
                  && forall k :: 0 <= k < |ls| && Leases.Issued(ls, k).Some?
                                 && Leases.Issued(ls, k).value.Key() == s.leases.runs[run].Key()
                       ==> Leases.Issued(ls, k).value.fence <= token)
  {
    hide Exec, LegalRun, Promoted, LeaseEvents, Leases.Exec, Leases.LegalRun, Leases.Issued;
    if !es[i].Promote? {
      OnlyPromotionsChange(es, i);
    } else {
      var s, c := Exec(es[..i]), es[i].call;
      PromotionAt(es, i);
      PromotedChangesCurrent(s.store, s.snaps, c, FenceAllowed(s.leases, c), t);
      if c.context.Some? {
        Leases.PromotableIsNewest(LeaseEvents(es[..i]), c.context.value.0, c.context.value.1);
      }
    }
  }

  /** A worker whose lease was overtaken by a later claim never changes what is current. */
  lemma OvertakenWorkerCannotPublish(es: seq<Event>, i: nat, a: nat, b: nat)
    requires LegalRun(es) && i < |es| && es[i].Promote? && es[i].call.context.Some?
    requires var ls := LeaseEvents(es[..i]);
             && a < b < |ls| && Leases.Issued(ls, a).Some? && Leases.Issued(ls, b).Some?
             && Leases.Issued(ls, a).value.Key() == Leases.Issued(ls, b).value.Key()
             && es[i].call.context.value == (Leases.Issued(ls, a).value.who.runId, Leases.Issued(ls, a).value.fence)
    ensures forall t: Id :: Exec(es[..i + 1]).snaps.Current(t) == Exec(es[..i]).snaps.Current(t)
  {
    hide Exec, Promoted, Sound, LegalRun, LeaseEvents, Leases.Exec, Leases.CanPromote, Leases.Issued, Leases.LegalRun;
    var s, c := Exec(es[..i]), es[i].call;
    PromotionAt(es, i);
    Leases.OvertakenNeverPromotes(LeaseEvents(es[..i]), a, b);
    SoundHasStores(s);
    ActivatedIff(s.store, s.snaps, c, FenceAllowed(s.leases, c));
  }

  lemma SoundHasStores(s: System)
    requires Sound(s)
    ensures SoundStores(s.store, s.snaps)
  {
  }

  // ---------------------------------------------------------------------------------------------
  // What a promotion answers and leaves behind

  /** The outcome follows from what the caller can see: the task, the scope, the fence's answer, and the versions. */
  lemma OutcomeIff(store: Tasks.Store, snaps: Snaps, c: Call, allowed: bool)
    ensures
      var outcome := OutcomeOf(store, snaps, c, allowed);
      var known := c.taskId in store.repo.tasks && store.repo.tasks[c.taskId].workspaceId == c.ws;
      && (outcome.NoTask? <==> !known)
      && (outcome.Reused? <==> known && c.scopeNone)
      && (outcome.Reused? ==>
            outcome.current == if snaps.Current(c.taskId).Some? then Some(snaps.Current(c.taskId).value.snapshotId) else None)
      && (outcome == StaleFence(c.freshId) <==> known && !c.scopeNone && !allowed)
      && (outcome == StaleVersion(c.freshId) <==>
            known && !c.scopeNone && allowed && c.version.Some? && c.version.value != store.repo.tasks[c.taskId].version)
      && (outcome == Activated(c.freshId) <==>
            known && !c.scopeNone && allowed && (c.version.None? || c.version.value == store.repo.tasks[c.taskId].version))
  {
  }

  /** Without a task or under scope NONE nothing is stored. A rejected snapshot is kept aside as superseded, an activated
      one as current, each with the run's artifacts and version; of the others only the former current one changes. */
  lemma StoredAs(store: Tasks.Store, snaps: Snaps, c: Call, allowed: bool)
    requires SoundStores(store, snaps) && c.freshId !in snaps.snapshots
    ensures
      var s', outcome := Promoted(store, snaps, c, allowed), OutcomeOf(store, snaps, c, allowed);
      if outcome.NoTask? || outcome.Reused? then s' == snaps
      else
        var version := if c.version.Some? then c.version.value else store.repo.tasks[c.taskId].version;
        && s'.snapshots.Keys == snaps.snapshots.Keys + {c.freshId}
        && s'.snapshots[c.freshId] == Snapshot(c.freshId, c.taskId, version, c.artifacts, outcome.Activated?,
                                               if outcome.Activated? then CURRENT else Validity.SUPERSEDED)
        && (forall id <- snaps.snapshots ::
              s'.snapshots[id] == if outcome.Activated? && snaps.Current(c.taskId) == Some(snaps.snapshots[id])
                                  then snaps.snapshots[id].(isCurrent := false, validity := REUSABLE) else snaps.snapshots[id])
        && s'.current == if outcome.Activated? then snaps.current[c.taskId := c.freshId] else snaps.current
  {
    CurrentIsStored(snaps, c.taskId);
    hide Tasks.Consistent, Reached;
  }

  /** Closing a plan gives it its status and touches no other; an unknown one is not made. */
  lemma PlanCloses(plans: map<Id, PlanStatus>, id: Option<Id>, status: PlanStatus, p: Id)
    ensures Get(PlansAfter(plans, id, status), p) == if id == Some(p) && p in plans then Some(status) else Get(plans, p)
  {
  }
}
