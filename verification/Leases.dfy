/** The in-memory execution coordinator: leases on chat threads, guarded by fence tokens. */
module Leases {
  import opened Basics

  datatype Status =
    | Created | Claimed | Running | WaitingInterrupt | Completed | Failed | Superseded | Recoverable

  predicate Active(s: Status) {
    s.Claimed? || s.Running?
  }

  predicate Reclaimable(s: Status) {
    Active(s) || s.Failed? || s.Recoverable?
  }

  type Time = int

  /** What a lease is about. */
  datatype Key = Thread(workspaceId: Id, threadId: Id)

  datatype RequestKey = RequestOf(workspaceId: Id, requestId: Id)

  /** The part of a run that no operation rewrites. */
  datatype Identity = Identity(runId: Id, requestId: Id, threadId: Id, workspaceId: Id, userId: Id)

  datatype Run = Run(
    who: Identity,
    status: Status, leaseOwner: Option<Id>, leaseExpires: Option<Time>, heartbeatAt: Option<Time>,
    fence: nat, traceId: Id, response: Option<Id>, errorCode: Option<Id>,
    startedAt: Time, finishedAt: Option<Time>)
  {
    function Key(): Key { Thread(who.workspaceId, who.threadId) }

    function RequestKey(): RequestKey { RequestOf(who.workspaceId, who.requestId) }

    /** Holds an unexpired lease at the given time. */
    predicate Holds(now: Time) {
      Active(status) && leaseExpires.Some? && leaseExpires.value > now
    }
  }

  datatype Request = Request(
    requestId: Id, threadId: Id, workspaceId: Id, userId: Id,
    owner: Id, leaseSeconds: int, traceId: Id)
  {
    function Key(): Key { Thread(workspaceId, threadId) }
  }

  datatype ClaimResult = Returned(run: Run) | AlreadyClaimed
  {
    /** A claim that came back without a stored response holds a new lease; one with a response is a replay. */
    predicate Granted() { Returned? && run.response.None? }
  }

  datatype State = State(
    runs: map<Id, Run>,
    requests: map<RequestKey, Id>,
    active: map<Key, Id>,
    fences: map<Key, nat>)
  {
    /** The run an earlier claim of the same request created. */
    function Prior(rk: RequestKey): Option<Run> {
      if rk in requests && requests[rk] in runs then Some(runs[requests[rk]]) else None
    }

    /** The run the thread's active entry names. */
    function Holder(k: Key): Option<Run> {
      if k in active && active[k] in runs then Some(runs[active[k]]) else None
    }

    function Fence(k: Key): nat {
      if k in fences then fences[k] else 0
    }
  }

  const EMPTY := State(map[], map[], map[], map[])

  // ---------------------------------------------------------------------------------------------
  // Specification: one function from state to state for every operation

  function NewRun(q: Request, id: Id, fence: nat, now: Time): Run {
    Run.Run(Identity(id, q.requestId, q.threadId, q.workspaceId, q.userId), Running, Some(q.owner),
            Some(now + q.leaseSeconds), Some(now), fence, q.traceId, None, None, now, None)
  }

  function ReclaimedRun(prior: Run, q: Request, fence: nat, now: Time): Run {
    prior.(status := Running, leaseOwner := Some(q.owner), leaseExpires := Some(now + q.leaseSeconds),
           heartbeatAt := Some(now), fence := fence, traceId := q.traceId, response := None,
           errorCode := None, startedAt := now, finishedAt := None)
  }

  /** The lease that ran out is released before the request's own prior run is even looked at. */
  function Expire(s: State, k: Key): State {
    var active := s.Holder(k);
    if active.Some? && Active(active.value.status) then
      s.(runs := s.runs[active.value.who.runId := active.value.(status := Recoverable)])
    else s
  }

  function Grant(s: State, k: Key, run: Run): State {
    s.(runs := s.runs[run.who.runId := run], active := s.active[k := run.who.runId], fences := s.fences[k := run.fence])
  }

  function Reclaimed(s: State, q: Request, now: Time, prior: Run): State {
    Grant(Expire(s, q.Key()), q.Key(), ReclaimedRun(prior, q, s.Fence(q.Key()) + 1, now))
  }

  function Admitted(s: State, q: Request, now: Time, freshId: Id): State {
    var s1 := Expire(s, q.Key());
    Grant(s1, q.Key(), NewRun(q, freshId, s.Fence(q.Key()) + 1, now)).(
      requests := s1.requests[RequestOf(q.workspaceId, q.requestId) := freshId])
  }

  function ClaimStep(s: State, q: Request, now: Time, freshId: Id): (State, ClaimResult) {
    var k := q.Key();
    var prior := s.Prior(RequestOf(q.workspaceId, q.requestId));
    var active := s.Holder(k);
    if prior.Some? && prior.value.response.Some? then (s, Returned(prior.value))
    else if active.Some? && active.value.Holds(now) then (s, AlreadyClaimed)
    else if prior.None? then (Admitted(s, q, now, freshId), Returned(NewRun(q, freshId, s.Fence(k) + 1, now)))
    else if prior.value.who.threadId == q.threadId && Reclaimable(prior.value.status) then
      (Reclaimed(s, q, now, prior.value), Returned(ReclaimedRun(prior.value, q, s.Fence(k) + 1, now)))
    else (Expire(s, k), AlreadyClaimed)
  }

  function HeartbeatStep(s: State, runId: Id, fence: nat, leaseSeconds: int, now: Time): (State, bool) {
    var run := Get(s.runs, runId);
    if run.None? || run.value.fence != fence || !Active(run.value.status) then (s, false)
    else
      (s.(runs := s.runs[runId := run.value.(heartbeatAt := Some(now), leaseExpires := Some(now + leaseSeconds))]), true)
  }

  function FinishStep(s: State, runId: Id, fence: nat, status: Status, response: Option<Id>,
                      errorCode: Option<Id>, now: Time): (State, bool)
  {
    var run := Get(s.runs, runId);
    if run.None? || run.value.fence != fence then (s, false)
    else
      var finished := run.value.(
        status := status, leaseOwner := None, leaseExpires := None,
        finishedAt := if status.WaitingInterrupt? || status.Recoverable? then None else Some(now),
        response := response, errorCode := errorCode);
      (s.(runs := s.runs[runId := finished], active := s.active - {run.value.Key()}), true)
  }

  predicate CanPromote(s: State, runId: Id, fence: nat) {
    runId in s.runs
    && Get(s.active, s.runs[runId].Key()) == Some(runId)
    && s.runs[runId].fence == fence
    && Active(s.runs[runId].status)
  }

  // ---------------------------------------------------------------------------------------------
  // The coordinator object

  class InMemoryCoordinator {
    var runs: map<Id, Run>
    var requests: map<RequestKey, Id>
    var active: map<Key, Id>
    var fences: map<Key, nat>

    ghost function Abstract(): State
      reads this
    {
      State(runs, requests, active, fences)
    }

    constructor ()
      ensures Abstract() == EMPTY
    {
      runs, requests, active, fences := map[], map[], map[], map[];
    }

    method Claim(q: Request, now: Time, freshId: Id) returns (r: ClaimResult)
      requires forall id <- runs :: runs[id].who.runId == id
      modifies this
      ensures (Abstract(), r) == ClaimStep(old(Abstract()), q, now, freshId)
    {
      var k := q.Key();
      var priorId := Get(requests, RequestOf(q.workspaceId, q.requestId));
      var prior := if priorId.Some? then Get(runs, priorId.value) else None;
      if prior.Some? && prior.value.response.Some? {
        return Returned(prior.value);
      }
      var activeId := Get(active, k);
      var holder := if activeId.Some? then Get(runs, activeId.value) else None;
      if holder.Some? && Active(holder.value.status) && holder.value.leaseExpires.Some? && holder.value.leaseExpires.value > now {
        return AlreadyClaimed;
      }
      if holder.Some? && Active(holder.value.status) {
        runs := runs[holder.value.who.runId := holder.value.(status := Recoverable)];
      }
      var fence := (if k in fences then fences[k] else 0) + 1;
      if prior.Some? {
        if prior.value.who.threadId != q.threadId || !Reclaimable(prior.value.status) {
          return AlreadyClaimed;
        }
        var reclaimed := ReclaimedRun(prior.value, q, fence, now);
        runs := runs[prior.value.who.runId := reclaimed];
        active := active[k := prior.value.who.runId];
        fences := fences[k := fence];
        return Returned(reclaimed);
      }
      var run := NewRun(q, freshId, fence, now);
      runs := runs[freshId := run];
      requests := requests[RequestOf(q.workspaceId, q.requestId) := freshId];
      active := active[k := freshId];
      fences := fences[k := fence];
      return Returned(run);
    }

    method Heartbeat(runId: Id, fence: nat, leaseSeconds: int, now: Time) returns (ok: bool)
      modifies this
      ensures (Abstract(), ok) == HeartbeatStep(old(Abstract()), runId, fence, leaseSeconds, now)
    {
      var run := Get(runs, runId);
      if run.None? || run.value.fence != fence || !Active(run.value.status) {
        return false;
      }
      runs := runs[runId := run.value.(heartbeatAt := Some(now), leaseExpires := Some(now + leaseSeconds))];
      return true;
    }

    method Promotable(runId: Id, fence: nat) returns (ok: bool)
      ensures ok == CanPromote(Abstract(), runId, fence)
    {
      var run := Get(runs, runId);
      if run.None? {
        return false;
      }
      var holder := Get(active, run.value.Key());
      return holder == Some(runId) && run.value.fence == fence && Active(run.value.status);
    }

    method Finish(runId: Id, fence: nat, status: Status, response: Option<Id>,
                  errorCode: Option<Id>, now: Time) returns (ok: bool)
      modifies this
      ensures (Abstract(), ok) == FinishStep(old(Abstract()), runId, fence, status, response, errorCode, now)
    {
      var run := Get(runs, runId);
      if run.None? || run.value.fence != fence {
        return false;
      }
      var finishedAt := if status == WaitingInterrupt || status == Recoverable then None else Some(now);
      runs := runs[runId := run.value.(
        status := status, leaseOwner := None, leaseExpires := None, finishedAt := finishedAt,
        response := response, errorCode := errorCode)];
      active := active - {run.value.Key()};
      return true;
    }
  }

  // ---------------------------------------------------------------------------------------------
  // Runs of the protocol

  datatype Event =
    | Claim(q: Request, now: Time, freshId: Id)
    | Heartbeat(runId: Id, fence: nat, leaseSeconds: int, now: Time)
    | Finish(runId: Id, fence: nat, status: Status, response: Option<Id>, errorCode: Option<Id>, now: Time)

  function Step(s: State, e: Event): State {
    match e
    case Claim(q, now, freshId) => ClaimStep(s, q, now, freshId).0
    case Heartbeat(id, fence, seconds, now) => HeartbeatStep(s, id, fence, seconds, now).0
    case Finish(id, fence, status, response, error, now) => FinishStep(s, id, fence, status, response, error, now).0
  }

  /** A new run id (uuid4) is one that was never used. */
  predicate Legal(s: State, e: Event) {
    e.Claim? ==> e.freshId !in s.runs
  }

  function Exec(es: seq<Event>): State {
    if es == [] then EMPTY
    else
      var n := |es| - 1;
      Step(Exec(es[..n]), es[n])
  }

  ghost predicate LegalRun(es: seq<Event>) {
    forall i :: 0 <= i < |es| ==> Legal(Exec(es[..i]), es[i])
  }

  /** The run that event i of a history put in charge of a thread, with its new token. */
  function Issued(es: seq<Event>, i: nat): Option<Run>
    requires i < |es|
  {
    var e := es[i];
    if !e.Claim? then None
    else
      var r := ClaimStep(Exec(es[..i]), e.q, e.now, e.freshId).1;
      if r.Granted() then Some(r.run) else None
  }

  ghost predicate WellFormed(s: State) {
    && (forall id <- s.runs :: s.runs[id].who.runId == id)
    && (forall rk <- s.requests ::
          s.requests[rk] in s.runs
          && s.runs[s.requests[rk]].RequestKey() == rk)
    && (forall id <- s.runs :: s.runs[id].fence <= s.Fence(s.runs[id].Key()))
    && (forall k <- s.active ::
          s.active[k] in s.runs && s.runs[s.active[k]].Key() == k && s.runs[s.active[k]].fence == s.Fence(k))
  }

  /** What every step respects: fences never go back, and a run stays on its thread and request. */
  ghost predicate Follows(s: State, s': State) {
    && (forall k :: s.Fence(k) <= s'.Fence(k))
    && (forall id <- s.runs ::
          id in s'.runs && s'.runs[id].who == s.runs[id].who)
  }

  /** Rewriting a run's status, lease or response in place touches nothing the tables rely on. */
  lemma RewriteKeepsWellFormed(s: State, id: Id, run: Run)
    requires WellFormed(s) && id in s.runs
    requires run.who == s.runs[id].who
    requires run.fence == s.runs[id].fence
    ensures WellFormed(s.(runs := s.runs[id := run])) && Follows(s, s.(runs := s.runs[id := run]))
  {
  }

  /** Putting a run in charge of its thread under the next token keeps the tables consistent. */
  lemma GrantKeepsWellFormed(s: State, run: Run)
    requires WellFormed(s) && run.fence == s.Fence(run.Key()) + 1
    requires run.who.runId in s.runs ==> s.runs[run.who.runId].who == run.who
    ensures WellFormed(Grant(s, run.Key(), run)) && Follows(s, Grant(s, run.Key(), run))
  {
  }

  lemma ExpireKeepsWellFormed(s: State, k: Key)
    requires WellFormed(s)
    ensures WellFormed(Expire(s, k)) && Follows(s, Expire(s, k))
    ensures Expire(s, k).fences == s.fences && Expire(s, k).requests == s.requests
    ensures Expire(s, k).runs.Keys == s.runs.Keys
  {
    var active := s.Holder(k);
    if active.Some? && Active(active.value.status) {
      var id := s.active[k];
      assert s.runs[id].who.runId == id;
      RewriteKeepsWellFormed(s, active.value.who.runId, active.value.(status := Recoverable));
    }
  }

  lemma RecordKeepsWellFormed(s: State, id: Id)
    requires WellFormed(s) && id in s.runs
    ensures WellFormed(s.(requests := s.requests[s.runs[id].RequestKey() := id]))
  {
  }

  lemma FollowsTransitive(s: State, s1: State, s2: State)
    requires Follows(s, s1) && Follows(s1, s2)
    ensures Follows(s, s2)
  {
  }

  /** A request that was claimed before keeps its run, now on the thread's next token. */
  lemma ReclaimedRunFits(s: State, q: Request, now: Time)
    requires WellFormed(s)
    requires var prior := s.Prior(RequestOf(q.workspaceId, q.requestId));
             prior.Some? && prior.value.who.threadId == q.threadId
    ensures var prior := s.Prior(RequestOf(q.workspaceId, q.requestId)).value;
            var run := ReclaimedRun(prior, q, s.Fence(q.Key()) + 1, now);
            run.Key() == q.Key() && run.fence == s.Fence(q.Key()) + 1
            && run.who.runId in s.runs && s.runs[run.who.runId].who == run.who
  {
    var id := s.requests[RequestOf(q.workspaceId, q.requestId)];
    assert s.runs[id].who.runId == id && s.runs[id].RequestKey() == RequestOf(q.workspaceId, q.requestId);
  }

  lemma ReclaimKeepsWellFormed(s: State, q: Request, now: Time)
    requires WellFormed(s)
    requires var prior := s.Prior(RequestOf(q.workspaceId, q.requestId));
             prior.Some? && prior.value.who.threadId == q.threadId
    ensures var s' := Reclaimed(s, q, now, s.Prior(RequestOf(q.workspaceId, q.requestId)).value);
            WellFormed(s') && Follows(s, s')
  {
    var prior := s.Prior(RequestOf(q.workspaceId, q.requestId)).value;
    var run, s1 := ReclaimedRun(prior, q, s.Fence(q.Key()) + 1, now), Expire(s, q.Key());
    ReclaimedRunFits(s, q, now);
    ExpireKeepsWellFormed(s, q.Key());
    hide Expire, ReclaimedRun, WellFormed, Grant;
    assert s1.runs[run.who.runId].who == run.who && run.fence == s1.Fence(run.Key()) + 1;
    hide *;
    GrantKeepsWellFormed(s1, run);
    FollowsTransitive(s, s1, Grant(s1, run.Key(), run));
    ReclaimedIs(s, q, now, prior);
  }

  lemma ReclaimedIs(s: State, q: Request, now: Time, prior: Run)
    ensures Reclaimed(s, q, now, prior)
            == Grant(Expire(s, q.Key()), q.Key(), ReclaimedRun(prior, q, s.Fence(q.Key()) + 1, now))
  {
  }

  /** The case of a request seen for the first time. */
  lemma FirstClaimKeepsWellFormed(s: State, q: Request, now: Time, freshId: Id)
    requires WellFormed(s) && freshId !in s.runs
    ensures WellFormed(Admitted(s, q, now, freshId)) && Follows(s, Admitted(s, q, now, freshId))
  {
    var run := NewRun(q, freshId, s.Fence(q.Key()) + 1, now);
    ExpireKeepsWellFormed(s, q.Key());
    hide Expire;
    GrantKeepsWellFormed(Expire(s, q.Key()), run);
    RecordKeepsWellFormed(Grant(Expire(s, q.Key()), q.Key(), run), freshId);
  }

  /** The four ways a claim can leave the state. */
  lemma ClaimOutcomes(s: State, q: Request, now: Time, freshId: Id)
    ensures
      var s', prior := ClaimStep(s, q, now, freshId).0, s.Prior(RequestOf(q.workspaceId, q.requestId));
      || s' == s
      || s' == Expire(s, q.Key())
      || (prior.Some? && prior.value.who.threadId == q.threadId && s' == Reclaimed(s, q, now, prior.value))
      || (prior.None? && s' == Admitted(s, q, now, freshId))
  {
    hide Expire, Grant, NewRun, ReclaimedRun, Reclaimable;
  }

  lemma ClaimKeepsWellFormed(s: State, q: Request, now: Time, freshId: Id)
    requires WellFormed(s) && freshId !in s.runs
    ensures WellFormed(ClaimStep(s, q, now, freshId).0) && Follows(s, ClaimStep(s, q, now, freshId).0)
  {
    hide *;
    ClaimOutcomes(s, q, now, freshId);
    FollowsItself(s);
    ExpireKeepsWellFormed(s, q.Key());
    var prior := s.Prior(RequestOf(q.workspaceId, q.requestId));
    if prior.None? {
      FirstClaimKeepsWellFormed(s, q, now, freshId);
    } else if prior.value.who.threadId == q.threadId {
      ReclaimKeepsWellFormed(s, q, now);
    }
  }

  lemma FollowsItself(s: State)
    ensures Follows(s, s)
  {
  }

  lemma FinishKeepsWellFormed(s: State, runId: Id, fence: nat, status: Status, response: Option<Id>,
                              errorCode: Option<Id>, now: Time)
    requires WellFormed(s)
    ensures var s' := FinishStep(s, runId, fence, status, response, errorCode, now).0;
            WellFormed(s') && Follows(s, s')
  {
    var s' := FinishStep(s, runId, fence, status, response, errorCode, now).0;
    if s' != s {
      var s1 := s.(runs := s'.runs);
      RewriteKeepsWellFormed(s, runId, s'.runs[runId]);
      assert s' == s1.(active := s.active - {s.runs[runId].Key()});
    }
  }

  /** Everything the coordinator does keeps its tables consistent, late heartbeats and finishes included. */
  lemma StepKeepsWellFormed(s: State, e: Event)
    requires WellFormed(s) && Legal(s, e)
    ensures WellFormed(Step(s, e)) && Follows(s, Step(s, e))
  {
    match e
    case Claim(q, now, freshId) => ClaimKeepsWellFormed(s, q, now, freshId);
    case Heartbeat(id, _, _, _) =>
      if Step(s, e) != s {
        RewriteKeepsWellFormed(s, id, Step(s, e).runs[id]);
      }
    case Finish(id, fence, status, response, error, now) =>
      FinishKeepsWellFormed(s, id, fence, status, response, error, now);
  }

  lemma EmptyIsWellFormed()
    ensures WellFormed(EMPTY)
  {
  }

  lemma {:induction false} RunIsWellFormed(es: seq<Event>)
    requires LegalRun(es)
    ensures WellFormed(Exec(es))
  {
    if es == [] {
      EmptyIsWellFormed();
    } else {
      hide WellFormed, Follows, Step, Legal;
      var front := es[..|es| - 1];
      PrefixIsLegal(es, |es| - 1);
      RunIsWellFormed(front);
      assert Legal(Exec(front), es[|es| - 1]);
      StepKeepsWellFormed(Exec(front), es[|es| - 1]);
    }
  }

  lemma PrefixIsLegal(es: seq<Event>, n: nat)
    requires LegalRun(es) && n <= |es|
    ensures LegalRun(es[..n])
  {
    forall i | 0 <= i < n
      ensures Legal(Exec(es[..n][..i]), es[..n][i])
    {
      assert es[..n][..i] == es[..i];
    }
  }

  /** A granted claim raises its thread's fence by one, and hands that value out. */
  lemma GrantRaisesFence(s: State, q: Request, now: Time, freshId: Id)
    requires WellFormed(s) && freshId !in s.runs
    requires ClaimStep(s, q, now, freshId).1.Granted()
    ensures var (s', r) := ClaimStep(s, q, now, freshId);
            r.run.Key() == q.Key() && r.run.fence == s.Fence(q.Key()) + 1 == s'.Fence(q.Key())
            && CanPromote(s', r.run.who.runId, r.run.fence) && s'.runs[r.run.who.runId] == r.run
  {
  }

  /** The last event's token, when it issued one, is the thread's fence after it. */
  lemma IssuedLast(es: seq<Event>)
    requires LegalRun(es) && es != [] && Issued(es, |es| - 1).Some?
    ensures var run := Issued(es, |es| - 1).value;
            run.fence == Exec(es).Fence(run.Key())
            && run.who.runId in Exec(es).runs && Exec(es).runs[run.who.runId] == run
  {
    var e := es[|es| - 1];
    PrefixIsLegal(es, |es| - 1);
    RunIsWellFormed(es[..|es| - 1]);
    GrantRaisesFence(Exec(es[..|es| - 1]), e.q, e.now, e.freshId);
  }

  /** A token stays at most its thread's fence, and its run stays on that thread, from then on. */
  lemma {:induction false} IssuedBelowFence(es: seq<Event>, i: nat, run: Run)
    requires LegalRun(es) && i < |es| && Issued(es, i) == Some(run)
    ensures run.fence <= Exec(es).Fence(run.Key())
    ensures run.who.runId in Exec(es).runs && Exec(es).runs[run.who.runId].who == run.who
  {
    var n := |es| - 1;
    if i == n {
      IssuedLast(es);
    } else {
      var front := es[..n];
      assert front[..i] == es[..i];
      PrefixIsLegal(es, n);
      IssuedBelowFence(front, i, run);
      RunIsWellFormed(front);
      StepKeepsWellFormed(Exec(front), es[n]);
    }
  }

  /** Tokens of one thread grow strictly from each claim to the next. */
  lemma TokensIncrease(es: seq<Event>, i: nat, j: nat)
    requires LegalRun(es) && i < j < |es|
    requires Issued(es, i).Some? && Issued(es, j).Some?
    requires Issued(es, i).value.Key() == Issued(es, j).value.Key()
    ensures Issued(es, i).value.fence < Issued(es, j).value.fence
  {
    var before := es[..j];
    PrefixIsLegal(es, j);
    RunIsWellFormed(before);
    assert before[..i] == es[..i];
    assert Issued(before, i) == Issued(es, i);
    IssuedBelowFence(before, i, Issued(es, i).value);
    GrantRaisesFence(Exec(before), es[j].q, es[j].now, es[j].freshId);
  }

  /** Whoever may promote holds the largest token ever issued for its thread. */
  lemma PromotableIsNewest(es: seq<Event>, runId: Id, fence: nat)
    requires LegalRun(es) && CanPromote(Exec(es), runId, fence)
    ensures forall i :: 0 <= i < |es| && Issued(es, i).Some? && Issued(es, i).value.Key() == Exec(es).runs[runId].Key()
              ==> Issued(es, i).value.fence <= fence
  {
    RunIsWellFormed(es);
    forall i | 0 <= i < |es| && Issued(es, i).Some? && Issued(es, i).value.Key() == Exec(es).runs[runId].Key()
      ensures Issued(es, i).value.fence <= fence
    {
      IssuedBelowFence(es, i, Issued(es, i).value);
    }
  }

  /** A thread has at most one promotable (run, token) at any time. */
  lemma OnePromotable(es: seq<Event>, r1: Id, f1: nat, r2: Id, f2: nat)
    requires LegalRun(es)
    requires CanPromote(Exec(es), r1, f1) && CanPromote(Exec(es), r2, f2)
    requires Exec(es).runs[r1].Key() == Exec(es).runs[r2].Key()
    ensures r1 == r2 && f1 == f2
  {
    assert Get(Exec(es).active, Exec(es).runs[r1].Key()) == Some(r1);
  }

  /** Once a later claim was granted on the thread, the earlier token is dead for good. */
  lemma OvertakenNeverPromotes(es: seq<Event>, i: nat, j: nat)
    requires LegalRun(es) && i < j < |es|
    requires Issued(es, i).Some? && Issued(es, j).Some?
    requires Issued(es, i).value.Key() == Issued(es, j).value.Key()
    ensures !CanPromote(Exec(es), Issued(es, i).value.who.runId, Issued(es, i).value.fence)
  {
    var stale := Issued(es, i).value;
    TokensIncrease(es, i, j);
    if CanPromote(Exec(es), stale.who.runId, stale.fence) {
      IssuedBelowFence(es, i, stale);
      PromotableIsNewest(es, stale.who.runId, stale.fence);
      assert false;
    }
  }

  // ---------------------------------------------------------------------------------------------
  // Lease exclusion

  /** Every run with an active status is the one its thread's active entry names. */
  ghost predicate Exclusive(s: State) {
    forall id <- s.runs :: Active(s.runs[id].status) ==> Get(s.active, s.runs[id].Key()) == Some(id)
  }

  /** Releasing the lease that ran out leaves nobody active on the thread. */
  lemma ExpireIdlesThread(s: State, k: Key)
    requires WellFormed(s) && Exclusive(s)
    ensures Exclusive(Expire(s, k))
    ensures forall id <- Expire(s, k).runs :: Expire(s, k).runs[id].Key() == k ==> !Active(Expire(s, k).runs[id].status)
  {
  }

  lemma GrantKeepsExclusive(s: State, run: Run)
    requires Exclusive(s)
    requires run.who.runId in s.runs ==> s.runs[run.who.runId].Key() == run.Key()
    requires forall id <- s.runs :: s.runs[id].Key() == run.Key() ==> !Active(s.runs[id].status)
    ensures Exclusive(Grant(s, run.Key(), run))
  {
  }

  lemma GrantNewKeepsExclusive(s: State, q: Request, now: Time, freshId: Id)
    requires WellFormed(s) && Exclusive(s) && freshId !in s.runs
    ensures Exclusive(Admitted(s, q, now, freshId))
  {
    ExpireIdlesThread(s, q.Key());
    ExpireKeepsWellFormed(s, q.Key());
    hide Expire;
    GrantKeepsExclusive(Expire(s, q.Key()), NewRun(q, freshId, s.Fence(q.Key()) + 1, now));
  }

  lemma NobodyHolds(s: State, q: Request, now: Time, freshId: Id)
    requires WellFormed(s) && Exclusive(s)
    ensures ClaimStep(s, q, now, freshId).1.Granted() ==>
              forall id <- s.runs :: s.runs[id].Key() == q.Key() ==> !s.runs[id].Holds(now)
  {
    hide Reclaimed, Admitted;
    forall id <- s.runs | s.runs[id].Key() == q.Key() && Active(s.runs[id].status)
      ensures s.Holder(q.Key()) == Some(s.runs[id])
    {
    }
  }

  /** Claims keep exclusion, and a granted one found no unexpired lease on its thread. */
  lemma ClaimKeepsExclusive(s: State, q: Request, now: Time, freshId: Id)
    requires WellFormed(s) && Exclusive(s) && freshId !in s.runs
    ensures Exclusive(ClaimStep(s, q, now, freshId).0)
    ensures ClaimStep(s, q, now, freshId).1.Granted() ==>
              forall id <- s.runs :: s.runs[id].Key() == q.Key() ==> !s.runs[id].Holds(now)
  {
    ClaimOutcomes(s, q, now, freshId);
    ExpireIdlesThread(s, q.Key());
    ExpireKeepsWellFormed(s, q.Key());
    var prior := s.Prior(RequestOf(q.workspaceId, q.requestId));
    hide Expire, Grant, WellFormed, Follows, ReclaimedRun, NewRun;
    if prior.None? {
      GrantNewKeepsExclusive(s, q, now, freshId);
    } else if prior.value.who.threadId == q.threadId {
      ReclaimedRunFits(s, q, now);
      GrantKeepsExclusive(Expire(s, q.Key()), ReclaimedRun(prior.value, q, s.Fence(q.Key()) + 1, now));
    }
    NobodyHolds(s, q, now, freshId);
  }

  /** The caller's entry is not another run's live lease: what `finish` would have to check before its pop. */
  predicate PopsOwnEntry(s: State, runId: Id)
    requires runId in s.runs
  {
    var holder := Get(s.active, s.runs[runId].Key());
    holder.Some? && holder.value != runId && holder.value in s.runs ==> !Active(s.runs[holder.value].status)
  }

  /** An accepted finish with a non-active status keeps exclusion exactly when it pops no other run's live lease. */
  lemma FinishKeepsExclusiveIff(s: State, runId: Id, fence: nat, status: Status,
                                response: Option<Id>, errorCode: Option<Id>, now: Time)
    requires WellFormed(s) && Exclusive(s) && !Active(status)
    requires FinishStep(s, runId, fence, status, response, errorCode, now).1
    ensures Exclusive(FinishStep(s, runId, fence, status, response, errorCode, now).0) <==> PopsOwnEntry(s, runId)
  {
    var s' := FinishStep(s, runId, fence, status, response, errorCode, now).0;
    var k := s.runs[runId].Key();
    if !PopsOwnEntry(s, runId) {
      var other := s.active[k];
      assert s'.runs[other] == s.runs[other] && k !in s'.active;
    }
  }

  function Continued(s: State, es: seq<Event>): State {
    if es == [] then s else Step(Continued(s, es[..|es| - 1]), es[|es| - 1])
  }

  /** The clock after the events: the time of the last one. */
  function Clock(start: Time, es: seq<Event>): Time {
    if es == [] then start else es[|es| - 1].now
  }

  /** A fresh id, a clock that does not run backwards, and a finish that ends its run and pops no other's live lease. */
  ghost predicate MayFollow(s: State, clock: Time, e: Event) {
    Legal(s, e) && Disciplined(s, e) && clock <= e.now
  }

  /** What may happen from the given time on. */
  ghost predicate Continues(s: State, start: Time, es: seq<Event>) {
    forall i :: 0 <= i < |es| ==> MayFollow(Continued(s, es[..i]), Clock(start, es[..i]), es[i])
  }

  /** No two runs of a thread hold unexpired leases. */
  ghost predicate OneLive(s: State, now: Time) {
    forall a <- s.runs, b <- s.runs ::
      s.runs[a].Key() == s.runs[b].Key() && s.runs[a].Holds(now) && s.runs[b].Holds(now) ==> a == b
  }

  /** The condition a history must meet: each accepted finish ends its run and pops no live lease of another. */
  ghost predicate Disciplined(s: State, e: Event) {
    e.Finish? && e.runId in s.runs && s.runs[e.runId].fence == e.fence ==>
      !Active(e.status) && PopsOwnEntry(s, e.runId)
  }

  lemma StepKeepsExclusive(s: State, e: Event)
    requires WellFormed(s) && Exclusive(s) && Legal(s, e) && Disciplined(s, e)
    ensures Exclusive(Step(s, e))
  {
    match e
    case Claim(q, now, freshId) => ClaimKeepsExclusive(s, q, now, freshId);
    case Heartbeat(_, _, _, _) =>
    case Finish(id, fence, status, response, error, now) =>
      if FinishStep(s, id, fence, status, response, error, now).1 {
        FinishKeepsExclusiveIff(s, id, fence, status, response, error, now);
      }
  }

  lemma ContinuesPrefix(s: State, start: Time, es: seq<Event>)
    requires Continues(s, start, es) && es != []
    ensures var front := es[..|es| - 1];
            Continues(s, start, front) && MayFollow(Continued(s, front), Clock(start, front), es[|es| - 1])
  {
    hide Continued, MayFollow, Clock;
    var n := |es| - 1;
    var front := es[..n];
    forall i | 0 <= i < n ensures MayFollow(Continued(s, front[..i]), Clock(start, front[..i]), front[i]) {
      assert front[..i] == es[..i] && front[i] == es[i];
    }
    assert MayFollow(Continued(s, es[..n]), Clock(start, es[..n]), es[n]);
  }

  lemma {:induction false} ContinuedIsExclusive(s: State, start: Time, es: seq<Event>)
    requires WellFormed(s) && Exclusive(s) && Continues(s, start, es)
    ensures WellFormed(Continued(s, es)) && Exclusive(Continued(s, es))
  {
    hide WellFormed, Exclusive, Step, Legal, Disciplined, Continues;
    if es != [] {
      var front := es[..|es| - 1];
      ContinuesPrefix(s, start, es);
      ContinuedIsExclusive(s, start, front);
      StepKeepsExclusive(Continued(s, front), es[|es| - 1]);
      StepKeepsWellFormed(Continued(s, front), es[|es| - 1]);
    }
  }

  lemma UnusedRequest(s: State, ws: Id) returns (requestId: Id)
    ensures RequestOf(ws, requestId) !in s.requests
  {
    var used := set rk | rk in s.requests :: rk.requestId;
    requestId := Unused(used);
    assert forall rk <- s.requests :: rk.requestId in used;
  }

  /** On a thread without an entry, a new request is admitted beside a run that is still active; a heartbeat of that
      run makes both leases live. */
  lemma TwoLive(s: State, q: Request, freshId: Id, other: Id, now: Time)
    requires q.Key() !in s.active && RequestOf(q.workspaceId, q.requestId) !in s.requests && freshId !in s.runs
    requires other in s.runs && s.runs[other].Key() == q.Key() && Active(s.runs[other].status) && q.leaseSeconds == 2
    ensures var s' := Step(Step(s, Claim(q, now, freshId)), Heartbeat(other, s.runs[other].fence, 2, now));
            !OneLive(s', now + 1)
  {
    var s1 := Step(s, Claim(q, now, freshId));
    assert s.Holder(q.Key()).None? && s.Prior(RequestOf(q.workspaceId, q.requestId)).None?;
    assert s1 == Admitted(s, q, now, freshId) && Expire(s, q.Key()) == s;
    assert s1.runs == s.runs[freshId := NewRun(q, freshId, s.Fence(q.Key()) + 1, now)];
    var s2 := Step(s1, Heartbeat(other, s.runs[other].fence, 2, now));
    assert s2.runs[freshId] == s1.runs[freshId] && s2.runs[freshId].Holds(now + 1);
    assert s2.runs[other].Holds(now + 1) && s2.runs[other].Key() == q.Key() == s2.runs[freshId].Key();
  }

  lemma TwoSteps(s: State, start: Time, a: Event, b: Event)
    ensures Continued(s, [a, b]) == Step(Step(s, a), b) && Clock(start, [a, b]) == b.now
    ensures Continues(s, start, [a, b]) <==> MayFollow(s, start, a) && MayFollow(Step(s, a), a.now, b)
  {
    hide Step, MayFollow;
    var es := [a, b];
    assert es[..0] == [] && es[..1] == [a] && [a][..0] == [] && es[..|es| - 1] == [a];
    assert es[0] == a && es[1] == b;
    assert Continued(s, es[..0]) == s && Continued(s, es[..1]) == Step(s, a);
    assert Clock(start, es[..0]) == start && Clock(start, es[..1]) == a.now;
  }

  /** A foreign pop lets a new request in, and a heartbeat of the popped run then makes its lease live as well, even if
      it had expired. */
  lemma ForeignPopContinues(s: State, e: Event) returns (es: seq<Event>)
    requires WellFormed(s) && e.Finish? && FinishStep(s, e.runId, e.fence, e.status, e.response, e.errorCode, e.now).1
    requires !PopsOwnEntry(s, e.runId)
    ensures Continues(Step(s, e), e.now, es) && Clock(e.now, es) <= e.now + 1
    ensures !OneLive(Continued(Step(s, e), es), e.now + 1)
  {
    var k := s.runs[e.runId].Key();
    var other, s1 := s.active[k], Step(s, e);
    var freshId := Unused(s1.runs.Keys);
    var requestId := UnusedRequest(s1, k.workspaceId);
    var q := Request(requestId, k.threadId, k.workspaceId, 0, 0, 2, 0);
    assert k !in s1.active && other in s1.runs && s1.runs[other] == s.runs[other] && freshId !in s1.runs;
    assert s1.runs[other].Key() == k == q.Key() && Active(s1.runs[other].status);
    var claim, beat := Claim(q, e.now, freshId), Heartbeat(other, s1.runs[other].fence, 2, e.now);
    es := [claim, beat];
    assert MayFollow(s1, e.now, claim) && MayFollow(Step(s1, claim), e.now, beat);
    hide Step, OneLive, Continues, WellFormed, MayFollow, Clock;
    TwoSteps(s1, e.now, claim, beat);
    TwoLive(s1, q, freshId, other, e.now);
  }

  /** An accepted finish with a non-active status is safe, whatever disciplined events follow in time, exactly when it
      pops no other run's entry: otherwise two leases of the thread can be live at once. */
  lemma FinishIsSafeIff(s: State, e: Event)
    requires WellFormed(s) && Exclusive(s) && e.Finish? && !Active(e.status)
    requires FinishStep(s, e.runId, e.fence, e.status, e.response, e.errorCode, e.now).1
    ensures (forall es: seq<Event>, now: Time :: Continues(Step(s, e), e.now, es) && Clock(e.now, es) <= now ==>
               OneLive(Continued(Step(s, e), es), now))
            <==> PopsOwnEntry(s, e.runId)
  {
    if PopsOwnEntry(s, e.runId) {
      FinishKeepsWellFormed(s, e.runId, e.fence, e.status, e.response, e.errorCode, e.now);
      FinishKeepsExclusiveIff(s, e.runId, e.fence, e.status, e.response, e.errorCode, e.now);
      forall es: seq<Event>, now: Time | Continues(Step(s, e), e.now, es)
        ensures OneLive(Continued(Step(s, e), es), now)
      {
        ContinuedIsExclusive(Step(s, e), e.now, es);
      }
    } else {
      var es := ForeignPopContinues(s, e);
    }
  }

  ghost predicate DisciplinedRun(es: seq<Event>) {
    forall i :: 0 <= i < |es| ==> Disciplined(Exec(es[..i]), es[i])
  }

  /** In such a history no two leases of a thread are ever live together. */
  lemma {:induction false} DisciplinedRunIsExclusive(es: seq<Event>)
    requires LegalRun(es) && DisciplinedRun(es)
    ensures Exclusive(Exec(es))
  {
    if es != [] {
      var n := |es| - 1;
      var front, e := es[..n], es[n];
      hide WellFormed, Exclusive, Step, Legal, Disciplined;
      PrefixIsLegal(es, n);
      forall i | 0 <= i < n
        ensures Disciplined(Exec(front[..i]), front[i])
      {
        assert front[..i] == es[..i];
      }
      DisciplinedRunIsExclusive(front);
      RunIsWellFormed(front);
      assert Legal(Exec(front), e) && Disciplined(Exec(front), e);
      StepKeepsExclusive(Exec(front), e);
    }
  }

  /** Over all disciplined histories, a claim is granted only when no lease on its thread is live. */
  lemma GrantMeansNoLiveLease(es: seq<Event>, i: nat)
    requires LegalRun(es) && DisciplinedRun(es) && i < |es| && Issued(es, i).Some?
    ensures forall id <- Exec(es[..i]).runs ::
              Exec(es[..i]).runs[id].Key() == es[i].q.Key() ==> !Exec(es[..i]).runs[id].Holds(es[i].now)
  {
    var before := es[..i];
    PrefixIsLegal(es, i);
    forall j | 0 <= j < i
      ensures Disciplined(Exec(before[..j]), before[j])
    {
      assert before[..j] == es[..j];
    }
    DisciplinedRunIsExclusive(before);
    RunIsWellFormed(before);
    ClaimKeepsExclusive(Exec(before), es[i].q, es[i].now, es[i].freshId);
  }

  /** Without the condition exclusion is lost at once: after the pop, any new request of the thread is granted
      a lease while the popped one is still live. */
  lemma ForeignPopAdmitsSecondLease(s: State, e: Event, q: Request, freshId: Id)
    requires WellFormed(s) && e.Finish? && FinishStep(s, e.runId, e.fence, e.status, e.response, e.errorCode, e.now).1
    requires var holder := s.Holder(s.runs[e.runId].Key());
             holder.Some? && holder.value.who.runId != e.runId && holder.value.Holds(e.now)
    requires q.Key() == s.runs[e.runId].Key() && s.Prior(RequestOf(q.workspaceId, q.requestId)).None? && freshId !in s.runs
    ensures var other := s.Holder(q.Key()).value;
            var (s', r) := ClaimStep(Step(s, e), q, e.now, freshId);
            r.Granted() && r.run.Holds(e.now + q.leaseSeconds - 1)
            && other.who.runId in s'.runs && s'.runs[other.who.runId] == other && r.run.who.runId != other.who.runId
  {
    var id := s.active[q.Key()];
    assert s.runs[id].who.runId == id;
  }

  /** Such a state is reached by three steps: claim, claim after expiry, late finish of the first run. */
  lemma ForeignPopHappens()
    ensures var s2 := Step(Step(EMPTY, Claim(Request(1, 7, 9, 5, 0, 10, 0), 0, 101)), Claim(Request(2, 7, 9, 5, 0, 10, 0), 11, 102));
            FinishStep(s2, 101, 1, Completed, None, None, 12).1 && !PopsOwnEntry(s2, 101)
            && s2.Holder(Thread(9, 7)).Some? && s2.Holder(Thread(9, 7)).value.Holds(12)
  {
    var q1 := Request(1, 7, 9, 5, 0, 10, 0);
    var s1 := Step(EMPTY, Claim(q1, 0, 101));
    assert s1.runs == map[101 := NewRun(q1, 101, 1, 0)];
    assert s1.active == map[Thread(9, 7) := 101] && s1.fences == map[Thread(9, 7) := 1];
    assert s1.requests == map[RequestOf(9, 1) := 101];
    var q2 := Request(2, 7, 9, 5, 0, 10, 0);
    var s2 := Step(s1, Claim(q2, 11, 102));
    assert Expire(s1, Thread(9, 7)).runs == map[101 := NewRun(q1, 101, 1, 0).(status := Recoverable)];
    assert s2.runs == map[101 := NewRun(q1, 101, 1, 0).(status := Recoverable), 102 := NewRun(q2, 102, 2, 11)];
    assert s2.active == map[Thread(9, 7) := 102];
  }

  // ---------------------------------------------------------------------------------------------
  // What a claim answers

  /** Every run is the one its request is filed under. */
  ghost predicate Filed(s: State) {
    forall id <- s.runs :: Get(s.requests, s.runs[id].RequestKey()) == Some(id)
  }

  /** Steps that admit no new run leave the filing alone. */
  lemma SameRunsKeepFiled(s: State, s': State)
    requires Filed(s) && Follows(s, s') && s'.runs.Keys == s.runs.Keys && s'.requests == s.requests
    ensures Filed(s')
  {
  }

  lemma AdmittedKeepsFiled(s: State, q: Request, now: Time, freshId: Id)
    requires WellFormed(s) && Filed(s) && freshId !in s.runs
    requires s.Prior(RequestOf(q.workspaceId, q.requestId)).None?
    ensures Filed(Admitted(s, q, now, freshId))
  {
    var rk, s1 := RequestOf(q.workspaceId, q.requestId), Expire(s, q.Key());
    assert rk !in s.requests;
    ExpireKeepsWellFormed(s, q.Key());
    SameRunsKeepFiled(s, s1);
    hide Expire, WellFormed, Follows;
    assert NewRun(q, freshId, s.Fence(q.Key()) + 1, now).RequestKey() == rk;
  }

  lemma ClaimKeepsFiled(s: State, q: Request, now: Time, freshId: Id)
    requires WellFormed(s) && Filed(s) && freshId !in s.runs
    ensures Filed(ClaimStep(s, q, now, freshId).0)
  {
    ClaimOutcomes(s, q, now, freshId);
    ClaimKeepsWellFormed(s, q, now, freshId);
    ExpireKeepsWellFormed(s, q.Key());
    var prior := s.Prior(RequestOf(q.workspaceId, q.requestId));
    var s' := ClaimStep(s, q, now, freshId).0;
    hide ClaimStep, Expire, NewRun, ReclaimedRun, Filed;
    if prior.None? {
      AdmittedKeepsFiled(s, q, now, freshId);
    } else if prior.value.who.threadId == q.threadId {
      ReclaimedRunFits(s, q, now);
    }
    if s'.runs.Keys == s.runs.Keys && s'.requests == s.requests {
      SameRunsKeepFiled(s, s');
    }
    if s' == Expire(s, q.Key()) {
      SameRunsKeepFiled(s, s');
    }
  }

  lemma StepKeepsFiled(s: State, e: Event)
    requires WellFormed(s) && Filed(s) && Legal(s, e)
    ensures Filed(Step(s, e))
  {
    match e
    case Claim(q, now, freshId) => ClaimKeepsFiled(s, q, now, freshId);
    case Heartbeat(_, _, _, _) =>
    case Finish(_, _, _, _, _, _) =>
  }

  lemma {:induction false} RunIsFiled(es: seq<Event>)
    requires LegalRun(es)
    ensures Filed(Exec(es))
  {
    if es != [] {
      hide Filed, WellFormed, Step, Legal;
      var front := es[..|es| - 1];
      PrefixIsLegal(es, |es| - 1);
      RunIsFiled(front);
      RunIsWellFormed(front);
      assert Legal(Exec(front), es[|es| - 1]);
      StepKeepsFiled(Exec(front), es[|es| - 1]);
    }
  }

  /** The request's run has a response on record. */
  ghost predicate Responded(s: State, rk: RequestKey, id: Id, x: Id) {
    Get(s.requests, rk) == Some(id) && id in s.runs && s.runs[id].who.runId == id && s.runs[id].response == Some(x)
  }

  /** An accepted finish of the run. */
  predicate Finishes(s: State, e: Event, id: Id) {
    e.Finish? && e.runId == id && id in s.runs && s.runs[id].fence == e.fence
  }

  /** A response stays on record until the run's next accepted finish: neither claims of its own request, nor whatever
      happens to the thread, remove it. */
  lemma StepKeepsResponse(s: State, e: Event, rk: RequestKey, id: Id, x: Id)
    requires WellFormed(s) && Legal(s, e) && Responded(s, rk, id, x) && !Finishes(s, e, id)
    ensures Responded(Step(s, e), rk, id, x)
  {
    if e.Claim? {
      var own := RequestOf(e.q.workspaceId, e.q.requestId);
      if own in s.requests {
        assert s.requests[own] in s.runs && s.runs[s.requests[own]].who.runId == s.requests[own];
      }
      if e.q.Key() in s.active {
        assert s.active[e.q.Key()] in s.runs && s.runs[s.active[e.q.Key()]].who.runId == s.active[e.q.Key()];
      }
    }
  }

  lemma RespondedIsReplayed(s: State, q: Request, now: Time, freshId: Id, id: Id, x: Id)
    requires Responded(s, RequestOf(q.workspaceId, q.requestId), id, x)
    ensures ClaimStep(s, q, now, freshId) == (s, Returned(s.runs[id]))
  {
  }

  lemma FinishLeavesResponse(s: State, e: Event, id: Id, x: Id)
    requires WellFormed(s) && Filed(s) && Finishes(s, e, id) && e.response == Some(x)
    ensures id in Step(s, e).runs && Responded(Step(s, e), Step(s, e).runs[id].RequestKey(), id, x)
  {
  }

  lemma {:induction false} ResponseStays(es: seq<Event>, i: nat, id: Id, x: Id)
    requires LegalRun(es) && i < |es| && Finishes(Exec(es[..i]), es[i], id) && es[i].response == Some(x)
    requires forall j :: i < j < |es| ==> !Finishes(Exec(es[..j]), es[j], id)
    ensures id in Exec(es).runs && Responded(Exec(es), Exec(es).runs[id].RequestKey(), id, x)
  {
    hide Step, WellFormed, Filed, Finishes, Legal, Responded;
    var n := |es| - 1;
    var front := es[..n];
    PrefixIsLegal(es, n);
    RunIsWellFormed(front);
    assert Legal(Exec(front), es[n]) && Exec(es) == Step(Exec(front), es[n]);
    hide Exec;
    StepKeepsWellFormed(Exec(front), es[n]);
    if i == n {
      RunIsFiled(front);
      FinishLeavesResponse(Exec(front), es[n], id, x);
    } else {
      assert front[..i] == es[..i] && front[i] == es[i];
      forall j | i < j < |front| ensures !Finishes(Exec(front[..j]), front[j], id) {
        assert front[..j] == es[..j];
      }
      ResponseStays(front, i, id, x);
      assert !Finishes(Exec(es[..n]), es[n], id);
      StepKeepsResponse(Exec(front), es[n], Exec(front).runs[id].RequestKey(), id, x);
    }
  }

  /** A request whose run was finished with a response is answered with that run and that response from then on, up to
      the run's next accepted finish, and claiming it changes nothing. */
  lemma FinishedRequestIsReplayed(es: seq<Event>, i: nat, id: Id, x: Id, q: Request, now: Time, freshId: Id)
    requires LegalRun(es) && i < |es| && Finishes(Exec(es[..i]), es[i], id) && es[i].response == Some(x)
    requires forall j :: i < j < |es| ==> !Finishes(Exec(es[..j]), es[j], id)
    requires id in Exec(es).runs && Exec(es).runs[id].RequestKey() == RequestOf(q.workspaceId, q.requestId)
    ensures var (s', r) := ClaimStep(Exec(es), q, now, freshId);
            s' == Exec(es) && r.Returned? && r.run == Exec(es).runs[id] && r.run.who.runId == id && r.run.response == Some(x)
  {
    ResponseStays(es, i, id, x);
    RespondedIsReplayed(Exec(es), q, now, freshId, id, x);
  }

  /** The thread is free: nobody holds an unexpired lease on it. */
  ghost predicate Free(s: State, k: Key, now: Time) {
    forall id <- s.runs :: s.runs[id].Key() == k ==> !s.runs[id].Holds(now)
  }

  /** Looking the request up finds exactly the run that was made for it. */
  lemma PriorIs(s: State, rk: RequestKey)
    requires WellFormed(s) && Filed(s)
    ensures forall id <- s.runs :: s.runs[id].RequestKey() == rk <==> s.Prior(rk) == Some(s.runs[id])
    ensures s.Prior(rk).Some? ==> s.Prior(rk).value.who.runId in s.runs
                                  && s.runs[s.Prior(rk).value.who.runId] == s.Prior(rk).value
  {
    if rk in s.requests {
      var own := s.requests[rk];
      assert own in s.runs && s.runs[own].RequestKey() == rk && s.runs[own].who.runId == own;
    }
  }

  /** The thread is free exactly when the run in charge of it holds no lease. */
  lemma FreeIff(s: State, k: Key, now: Time)
    requires WellFormed(s) && Exclusive(s)
    ensures Free(s, k, now) <==> !(s.Holder(k).Some? && s.Holder(k).value.Holds(now))
  {
    if k in s.active {
      var id := s.active[k];
      assert id in s.runs && s.runs[id].Key() == k && s.Holder(k) == Some(s.runs[id]);
      assert Free(s, k, now) ==> !s.runs[id].Holds(now);
    }
    forall id <- s.runs | s.runs[id].Key() == k && s.runs[id].Holds(now) ensures s.Holder(k) == Some(s.runs[id]) {
      assert Get(s.active, k) == Some(id);
    }
  }

  /** A request without a response on record is granted exactly when its thread is free and it is new, or its run is on
      this thread and may be taken up again; otherwise it is refused. */
  lemma GrantedIff(s: State, q: Request, now: Time, freshId: Id)
    requires WellFormed(s) && Exclusive(s) && Filed(s)
    requires var rk := RequestOf(q.workspaceId, q.requestId);
             forall id <- s.runs :: s.runs[id].RequestKey() == rk ==> s.runs[id].response.None?
    ensures var r, rk := ClaimStep(s, q, now, freshId).1, RequestOf(q.workspaceId, q.requestId);
            && (r.Granted() || r == AlreadyClaimed)
            && (r.Granted() <==>
                  Free(s, q.Key(), now)
                  && forall id <- s.runs :: s.runs[id].RequestKey() == rk ==>
                       s.runs[id].Key() == q.Key() && Reclaimable(s.runs[id].status))
  {
    PriorIs(s, RequestOf(q.workspaceId, q.requestId));
    FreeIff(s, q.Key(), now);
    hide WellFormed, Exclusive, Filed, Free, Expire, Grant, Reclaimable, Admitted, Reclaimed;
  }

  /** The lease granted is the requester's, on the request's own run, and ends after the seconds asked for. */
  lemma GrantedRun(s: State, q: Request, now: Time, freshId: Id)
    requires WellFormed(s) && Filed(s) && ClaimStep(s, q, now, freshId).1.Granted()
    ensures var run, rk := ClaimStep(s, q, now, freshId).1.run, RequestOf(q.workspaceId, q.requestId);
            && run.RequestKey() == rk && run.Key() == q.Key() && run.status == Running
            && run.leaseOwner == Some(q.owner) && (forall t :: run.Holds(t) <==> t < now + q.leaseSeconds)
            && run.heartbeatAt == Some(now) && run.startedAt == now && run.finishedAt.None?
            && run.traceId == q.traceId && run.response.None? && run.errorCode.None?
            && (forall id <- s.runs :: s.runs[id].RequestKey() == rk ==> run.who == s.runs[id].who)
            && ((forall id <- s.runs :: s.runs[id].RequestKey() != rk) ==> run.who.runId == freshId && run.who.userId == q.userId)
  {
    PriorIs(s, RequestOf(q.workspaceId, q.requestId));
    hide WellFormed, Filed, Expire, Grant, Reclaimable, Admitted, Reclaimed;
  }

  /** A claim leaves every other request's run alone, but for an active one of its thread whose lease ran out: that one
      is marked recoverable, and nothing else of it changes. */
  lemma ClaimTouches(s: State, q: Request, now: Time, freshId: Id, id: Id)
    requires WellFormed(s) && freshId !in s.runs && id in s.runs
    requires s.runs[id].RequestKey() != RequestOf(q.workspaceId, q.requestId)
    ensures var s', run := ClaimStep(s, q, now, freshId).0, s.runs[id];
            && id in s'.runs
            && (s'.runs[id] == run
                || (Active(run.status) && run.Key() == q.Key() && !run.Holds(now)
                    && s'.runs[id] == run.(status := Recoverable)))
  {
    var k, rk := q.Key(), RequestOf(q.workspaceId, q.requestId);
    if rk in s.requests {
      assert s.requests[rk] in s.runs && s.runs[s.requests[rk]].who.runId == s.requests[rk];
      assert s.runs[s.requests[rk]].RequestKey() == rk;
    }
    if k in s.active {
      assert s.active[k] in s.runs && s.runs[s.active[k]].who.runId == s.active[k] && s.runs[s.active[k]].Key() == k;
    }
    hide WellFormed;
  }

  /** A heartbeat is accepted exactly for an active run under its present token; it prolongs that lease to the seconds
      asked for and changes nothing else. */
  lemma HeartbeatProlongs(s: State, runId: Id, fence: nat, seconds: int, now: Time)
    ensures var (s', ok) := HeartbeatStep(s, runId, fence, seconds, now);
            && (ok <==> runId in s.runs && s.runs[runId].fence == fence && Active(s.runs[runId].status))
            && (!ok ==> s' == s)
            && (ok ==>
                  && s' == s.(runs := s'.runs) && s'.runs.Keys == s.runs.Keys
                  && (forall id <- s.runs :: id != runId ==> s'.runs[id] == s.runs[id])
                  && s'.runs[runId].(heartbeatAt := None, leaseExpires := None)
                     == s.runs[runId].(heartbeatAt := None, leaseExpires := None)
                  && s'.runs[runId].heartbeatAt == Some(now)
                  && (forall t :: s'.runs[runId].Holds(t) <==> t < now + seconds))
  {
  }

  /** A finish is accepted exactly under the run's present token. Then nobody holds a lease on the run or may promote
      under it, it shows what it was finished with, and all other runs are as before. */
  lemma FinishEnds(s: State, runId: Id, fence: nat, status: Status, response: Option<Id>, errorCode: Option<Id>, now: Time)
    ensures var (s', ok) := FinishStep(s, runId, fence, status, response, errorCode, now);
            && (ok <==> runId in s.runs && s.runs[runId].fence == fence)
            && (!ok ==> s' == s)
            && (ok ==>
                  && s'.runs.Keys == s.runs.Keys && s'.requests == s.requests && s'.fences == s.fences
                  && (forall id <- s.runs :: id != runId ==> s'.runs[id] == s.runs[id])
                  && (forall t :: !s'.runs[runId].Holds(t)) && s'.runs[runId].leaseOwner.None?
                  && (forall token :: !CanPromote(s', runId, token))
                  && s'.runs[runId].status == status && s'.runs[runId].response == response
                  && s'.runs[runId].errorCode == errorCode
                  && s'.runs[runId].finishedAt
                     == (if status.WaitingInterrupt? || status.Recoverable? then None else Some(now)))
  {
  }

  /** Promoting takes an active run: not even the thread's own entry suffices once its lease was released. */
  lemma ReleasedCannotPromote(s: State, runId: Id, fence: nat)
    requires runId in s.runs && !Active(s.runs[runId].status)
    ensures !CanPromote(s, runId, fence)
  {
  }
}
