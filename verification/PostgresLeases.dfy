/** The Postgres execution coordinator: one row per request, each transaction one atomic step. */
module PostgresLeases {
  import opened Basics
  import opened Leases

  /** The execution_runs table and the last value of the fence_token sequence. */
  datatype Table = Table(rows: map<Id, Run>, lastToken: nat)

  const NO_ROWS := Table(map[], 0)

  datatype TxResult = Row(run: Run) | Rejected | NullLease
  {
    predicate Issues() { Row? && run.response.None? }
  }

  ghost predicate IsPrior(t: Table, rk: RequestKey, id: Id) {
    id in t.rows && t.rows[id].RequestKey() == rk
  }

  /** The row ORDER BY fence_token DESC LIMIT 1 selects among the thread's active rows. */
  ghost predicate IsTopActive(t: Table, k: Key, id: Id) {
    id in t.rows && t.rows[id].Key() == k && Active(t.rows[id].status)
    && forall other <- t.rows :: t.rows[other].Key() == k && Active(t.rows[other].status) ==> t.rows[other].fence <= t.rows[id].fence
  }

  ghost function PriorRow(t: Table, rk: RequestKey): Option<Run> {
    if id :| IsPrior(t, rk, id) then Some(t.rows[id]) else None
  }

  ghost function ActiveRow(t: Table, k: Key): Option<Run> {
    if id :| IsTopActive(t, k, id) then Some(t.rows[id]) else None
  }

  function Put(t: Table, run: Run): Table {
    t.(rows := t.rows[run.who.runId := run])
  }

  function Release(run: Run): Run {
    run.(status := Recoverable, leaseOwner := None, leaseExpires := None)
  }

  ghost function Released(t: Table, k: Key): Table {
    var active := ActiveRow(t, k);
    if active.Some? then Put(t, Release(active.value)) else t
  }

  /** A raised error rolls the transaction back, the release of the expired row included. */
  ghost function ClaimTx(t: Table, q: Request, now: Time, freshId: Id): (Table, TxResult) {
    var prior := PriorRow(t, RequestOf(q.workspaceId, q.requestId));
    var active := ActiveRow(t, q.Key());
    if prior.Some? && prior.value.who.threadId != q.threadId then (t, Rejected)
    else if prior.Some? && prior.value.response.Some? then (t, Row(prior.value))
    else if active.Some? && active.value.leaseExpires.None? then (t, NullLease)
    else if active.Some? && active.value.leaseExpires.value > now then (t, Rejected)
    else if prior.Some? && !Reclaimable(prior.value.status) then (t, Rejected)
    else
      var token := t.lastToken + 1;
      var run := if prior.Some? then ReclaimedRun(prior.value, q, token, now) else NewRun(q, freshId, token, now);
      (Put(Released(t, q.Key()), run).(lastToken := token), Row(run))
  }

  ghost function HeartbeatTx(t: Table, runId: Id, fence: nat, leaseSeconds: int, now: Time): (Table, bool) {
    if runId in t.rows && t.rows[runId].fence == fence && Active(t.rows[runId].status) then
      (t.(rows := t.rows[runId := t.rows[runId].(heartbeatAt := Some(now), leaseExpires := Some(now + leaseSeconds))]), true)
    else (t, false)
  }

  /** Another row of the run's thread is CLAIMED or RUNNING. */
  ghost predicate OtherActive(t: Table, runId: Id)
    requires runId in t.rows
  {
    exists other <- t.rows ::
      other != runId && t.rows[other].Key() == t.rows[runId].Key() && Active(t.rows[other].status)
  }

  /** None where the partial unique index on active rows refuses the update and the transaction rolls back. */
  ghost function FinishTx(t: Table, runId: Id, fence: nat, status: Status, response: Option<Id>,
                          errorCode: Option<Id>, now: Time): (Table, Option<bool>)
  {
    if !(runId in t.rows && t.rows[runId].fence == fence) then (t, Some(false))
    else if Active(status) && OtherActive(t, runId) then (t, None)
    else
      (t.(rows := t.rows[runId := t.rows[runId].(
         status := status, leaseOwner := None, leaseExpires := None,
         finishedAt := if status.Completed? || status.Failed? || status.Superseded? then Some(now) else None,
         response := response, errorCode := errorCode)]), Some(true))
  }

  ghost predicate CanPromoteRow(t: Table, runId: Id, fence: nat, now: Time) {
    runId in t.rows && t.rows[runId].fence == fence && t.rows[runId].Holds(now)
  }

  ghost function Tx(t: Table, e: Event): Table {
    match e
    case Claim(q, now, freshId) => ClaimTx(t, q, now, freshId).0
    case Heartbeat(id, fence, seconds, now) => HeartbeatTx(t, id, fence, seconds, now).0
    case Finish(id, fence, status, response, error, now) => FinishTx(t, id, fence, status, response, error, now).0
  }

  /** Row ids of new runs (gen_random_uuid) are unused. */
  ghost predicate Fresh(t: Table, e: Event) {
    e.Claim? ==> e.freshId !in t.rows
  }

  /** A finish that the index does not refuse and that leaves its run CLAIMED or RUNNING. */
  ghost predicate Activates(t: Table, e: Event) {
    e.Finish? && Active(e.status) && e.runId in t.rows && t.rows[e.runId].fence == e.fence && !OtherActive(t, e.runId)
  }

  ghost predicate Admissible(t: Table, e: Event) {
    Fresh(t, e) && !Activates(t, e)
  }

  ghost predicate Keyed(t: Table) {
    && (forall id <- t.rows :: t.rows[id].who.runId == id && t.rows[id].fence <= t.lastToken)
    && (forall a <- t.rows, b <- t.rows :: t.rows[a].RequestKey() == t.rows[b].RequestKey() ==> a == b)
  }

  /** What the partial unique index on active rows demands. */
  ghost predicate OneActive(t: Table) {
    forall a <- t.rows, b <- t.rows ::
      t.rows[a].Key() == t.rows[b].Key() && Active(t.rows[a].status) && Active(t.rows[b].status) ==> a == b
  }

  /** The active row of a thread carries a lease and the thread's newest token. */
  ghost predicate LeasedAndNewest(t: Table) {
    forall a <- t.rows | Active(t.rows[a].status) ::
      t.rows[a].leaseExpires.Some? && forall b <- t.rows | t.rows[b].Key() == t.rows[a].Key() :: t.rows[b].fence <= t.rows[a].fence
  }

  ghost predicate TableInv(t: Table) {
    Keyed(t) && OneActive(t) && LeasedAndNewest(t)
  }

  lemma PriorRowFound(t: Table, rk: RequestKey)
    requires Keyed(t)
    ensures var prior := PriorRow(t, rk);
            (prior.Some? ==> prior.value.who.runId in t.rows && t.rows[prior.value.who.runId] == prior.value
                             && prior.value.RequestKey() == rk)
            && (prior.None? ==> forall id <- t.rows :: t.rows[id].RequestKey() != rk)
  {
    if id :| IsPrior(t, rk, id) {
      assert t.rows[id].who.runId == id;
    } else {
      forall id <- t.rows ensures t.rows[id].RequestKey() != rk {
        assert !IsPrior(t, rk, id);
      }
    }
  }

  lemma ActiveRowFound(t: Table, k: Key)
    requires Keyed(t) && OneActive(t)
    ensures var active := ActiveRow(t, k);
            (active.Some? ==> active.value.who.runId in t.rows && t.rows[active.value.who.runId] == active.value
                              && active.value.Key() == k && Active(active.value.status))
            && forall id <- t.rows :: t.rows[id].Key() == k && Active(t.rows[id].status) ==>
                 active.Some? && active.value.who.runId == id
  {
    forall id <- t.rows | t.rows[id].Key() == k && Active(t.rows[id].status)
      ensures ActiveRow(t, k).Some? && ActiveRow(t, k).value.who.runId == id
    {
      assert IsTopActive(t, k, id);
    }
  }

  /** Releasing the only active row of a thread leaves the thread idle. */
  lemma ReleaseIdlesThread(t: Table, k: Key)
    requires Keyed(t) && OneActive(t)
    ensures var t1 := Released(t, k);
            Keyed(t1) && OneActive(t1) && (LeasedAndNewest(t) ==> LeasedAndNewest(t1))
            && t1.rows.Keys == t.rows.Keys && t1.lastToken == t.lastToken
            && (forall id <- t.rows :: t1.rows[id].who == t.rows[id].who && t1.rows[id].fence == t.rows[id].fence)
            && forall id <- t1.rows :: t1.rows[id].Key() == k ==> !Active(t1.rows[id].status)
  {
    ActiveRowFound(t, k);
  }

  /** A row set RUNNING under a brand-new token on an idle thread keeps the invariant. */
  lemma PutKeepsInv(t: Table, run: Run)
    requires Keyed(t) && OneActive(t) && run.fence == t.lastToken + 1 && run.leaseExpires.Some?
    requires run.who.runId in t.rows ==> t.rows[run.who.runId].who == run.who
    requires run.who.runId !in t.rows ==> forall id <- t.rows :: t.rows[id].RequestKey() != run.RequestKey()
    requires forall id <- t.rows :: t.rows[id].Key() == run.Key() ==> !Active(t.rows[id].status)
    ensures var t' := Put(t, run).(lastToken := run.fence);
            Keyed(t') && OneActive(t') && (LeasedAndNewest(t) ==> LeasedAndNewest(t'))
  {
  }

  /** A claim either leaves the table alone or puts a run with the next token into its idle thread's row. */
  lemma ClaimWrites(t: Table, q: Request, now: Time, freshId: Id)
    requires Keyed(t) && OneActive(t) && freshId !in t.rows
    ensures var (t', r) := ClaimTx(t, q, now, freshId);
            if t' == t then !r.Issues()
            else
              && r.Issues() && r.run.fence == t.lastToken + 1 && r.run.leaseExpires.Some? && r.run.Key() == q.Key()
              && t' == Put(Released(t, q.Key()), r.run).(lastToken := r.run.fence)
              && (r.run.who.runId in t.rows ==> t.rows[r.run.who.runId].who == r.run.who)
              && (r.run.who.runId !in t.rows ==> forall id <- t.rows :: t.rows[id].RequestKey() != r.run.RequestKey())
  {
    PriorRowFound(t, RequestOf(q.workspaceId, q.requestId));
  }

  /** A granted claim found no live lease on its thread. */
  lemma IssueNeedsIdleThread(t: Table, q: Request, now: Time, freshId: Id)
    requires TableInv(t) && ClaimTx(t, q, now, freshId).1.Issues()
    ensures forall id <- t.rows :: t.rows[id].Key() == q.Key() ==> !t.rows[id].Holds(now)
  {
    ActiveRowFound(t, q.Key());
  }

  lemma ClaimKeepsInv(t: Table, q: Request, now: Time, freshId: Id)
    requires Keyed(t) && OneActive(t) && freshId !in t.rows
    ensures var t' := ClaimTx(t, q, now, freshId).0;
            Keyed(t') && OneActive(t') && (LeasedAndNewest(t) ==> LeasedAndNewest(t'))
  {
    ClaimWrites(t, q, now, freshId);
    ReleaseIdlesThread(t, q.Key());
    var (t', r) := ClaimTx(t, q, now, freshId);
    if t' != t {
      PutKeepsInv(Released(t, q.Key()), r.run);
    }
  }

  /** No transaction ever leaves a thread with two active rows. */
  lemma TxKeepsOneActive(t: Table, e: Event)
    requires Keyed(t) && OneActive(t) && Fresh(t, e)
    ensures Keyed(Tx(t, e)) && OneActive(Tx(t, e))
  {
    match e
    case Claim(q, now, freshId) => ClaimKeepsInv(t, q, now, freshId);
    case Heartbeat(_, _, _, _) =>
    case Finish(_, _, _, _, _, _) =>
  }

  /** A transaction keeps the active rows leased and newest exactly when it is no finish that leaves its run active; one
      that the index refuses changes nothing. */
  lemma TxKeepsInvIff(t: Table, e: Event)
    requires TableInv(t) && Fresh(t, e)
    ensures TableInv(Tx(t, e)) <==> !Activates(t, e)
  {
    TxKeepsOneActive(t, e);
    match e
    case Claim(q, now, freshId) => ClaimKeepsInv(t, q, now, freshId);
    case Heartbeat(_, _, _, _) =>
    case Finish(id, _, _, _, _, _) =>
      if Activates(t, e) {
        assert Active(Tx(t, e).rows[id].status) && Tx(t, e).rows[id].leaseExpires.None?;
      }
  }

  /** Rows are never deleted or moved, and a row's token never goes back. */
  lemma TxAdvancesRows(t: Table, e: Event, id: Id)
    requires TableInv(t) && Admissible(t, e) && id in t.rows
    ensures id in Tx(t, e).rows && Tx(t, e).rows[id].who == t.rows[id].who && t.rows[id].fence <= Tx(t, e).rows[id].fence
  {
    if e.Claim? {
      ClaimWrites(t, e.q, e.now, e.freshId);
      ReleaseIdlesThread(t, e.q.Key());
    }
  }

  // ---------------------------------------------------------------------------------------------
  // Histories of transactions

  ghost function History(es: seq<Event>): Table {
    if es == [] then NO_ROWS
    else
      var n := |es| - 1;
      Tx(History(es[..n]), es[n])
  }

  ghost predicate AdmissibleHistory(es: seq<Event>) {
    forall i :: 0 <= i < |es| ==> Admissible(History(es[..i]), es[i])
  }

  ghost function IssuedRow(es: seq<Event>, i: nat): Option<Run>
    requires i < |es|
  {
    if !es[i].Claim? then None
    else
      var r := ClaimTx(History(es[..i]), es[i].q, es[i].now, es[i].freshId).1;
      if r.Issues() then Some(r.run) else None
  }

  lemma PrefixIsAdmissible(es: seq<Event>, n: nat)
    requires AdmissibleHistory(es) && n <= |es|
    ensures AdmissibleHistory(es[..n])
  {
    forall i | 0 <= i < n
      ensures Admissible(History(es[..n][..i]), es[..n][i])
    {
      assert es[..n][..i] == es[..i];
    }
  }

  /** In a history without such finishes no thread ever has two CLAIMED or RUNNING rows. */
  lemma {:induction false} HistoryKeepsInv(es: seq<Event>)
    requires AdmissibleHistory(es)
    ensures TableInv(History(es))
  {
    if es != [] {
      var n := |es| - 1;
      PrefixIsAdmissible(es, n);
      HistoryKeepsInv(es[..n]);
      assert Admissible(History(es[..n]), es[n]);
      TxKeepsInvIff(History(es[..n]), es[n]);
    }
  }

  ghost predicate FreshHistory(es: seq<Event>) {
    forall i :: 0 <= i < |es| ==> Fresh(History(es[..i]), es[i])
  }

  /** Over every history, whatever finishes it holds, a thread has at most one CLAIMED or RUNNING row. */
  lemma {:induction false} HistoryKeepsOneActive(es: seq<Event>)
    requires FreshHistory(es)
    ensures Keyed(History(es)) && OneActive(History(es))
  {
    if es != [] {
      var n := |es| - 1;
      forall i | 0 <= i < n ensures Fresh(History(es[..n][..i]), es[..n][i]) {
        assert es[..n][..i] == es[..i];
      }
      HistoryKeepsOneActive(es[..n]);
      assert Fresh(History(es[..n]), es[n]);
      TxKeepsOneActive(History(es[..n]), es[n]);
    }
  }

  /** Active rows are leased and newest at every point of a history exactly when no finish that the index lets pass
      leaves its run active. */
  lemma HistoryKeepsInvIff(es: seq<Event>)
    requires FreshHistory(es)
    ensures (forall n :: 0 <= n <= |es| ==> TableInv(History(es[..n]))) <==> AdmissibleHistory(es)
  {
    if AdmissibleHistory(es) {
      forall n | 0 <= n <= |es| ensures TableInv(History(es[..n])) {
        PrefixIsAdmissible(es, n);
        HistoryKeepsInv(es[..n]);
      }
    } else {
      var i :| 0 <= i < |es| && !Admissible(History(es[..i]), es[i]);
      assert Fresh(History(es[..i]), es[i]);
      assert es[..i + 1][..i] == es[..i];
      if TableInv(History(es[..i])) {
        TxKeepsInvIff(History(es[..i]), es[i]);
      }
    }
  }

  /** A claim is granted only when no lease of the thread is unexpired. */
  lemma IssueMeansNoLiveRow(es: seq<Event>, i: nat)
    requires AdmissibleHistory(es) && i < |es| && IssuedRow(es, i).Some?
    ensures forall id <- History(es[..i]).rows ::
              History(es[..i]).rows[id].Key() == es[i].q.Key() ==> !History(es[..i]).rows[id].Holds(es[i].now)
  {
    PrefixIsAdmissible(es, i);
    HistoryKeepsInv(es[..i]);
    IssueNeedsIdleThread(History(es[..i]), es[i].q, es[i].now, es[i].freshId);
  }

  /** An issued token is stored in its row, and stays a lower bound of that row's token. */
  lemma {:induction false} IssuedRowAdvances(es: seq<Event>, i: nat, run: Run)
    requires AdmissibleHistory(es) && i < |es| && IssuedRow(es, i) == Some(run)
    ensures run.who.runId in History(es).rows && History(es).rows[run.who.runId].who == run.who
    ensures run.fence <= History(es).rows[run.who.runId].fence
  {
    var n := |es| - 1;
    var front := es[..n];
    PrefixIsAdmissible(es, n);
    HistoryKeepsInv(front);
    if i == n {
      ClaimWrites(History(front), es[n].q, es[n].now, es[n].freshId);
    } else {
      assert front[..i] == es[..i];
      IssuedRowAdvances(front, i, run);
      TxAdvancesRows(History(front), es[n], run.who.runId);
    }
  }

  /** Whoever may promote holds the largest token ever issued for the thread, at any time of asking. */
  lemma PromotableRowIsNewest(es: seq<Event>, runId: Id, fence: nat, now: Time, i: nat)
    requires AdmissibleHistory(es) && CanPromoteRow(History(es), runId, fence, now)
    requires i < |es| && IssuedRow(es, i).Some? && IssuedRow(es, i).value.Key() == History(es).rows[runId].Key()
    ensures IssuedRow(es, i).value.fence <= fence
  {
    HistoryKeepsInv(es);
    IssuedRowAdvances(es, i, IssuedRow(es, i).value);
  }

  /** A row set active again by `finish` under its old token, beside no active row, is promotable after a mere heartbeat,
      however many tokens the thread was issued since. */
  lemma ReactivatingFinishRevivesToken(t: Table, runId: Id, fence: nat, seconds: nat, now: Time)
    requires runId in t.rows && t.rows[runId].fence == fence && seconds > 0
    ensures var (t1, ok) := FinishTx(t, runId, fence, Running, None, None, now);
            if OtherActive(t, runId) then t1 == t && ok == None
            else ok == Some(true) && CanPromoteRow(HeartbeatTx(t1, runId, fence, seconds, now).0, runId, fence, now)
  {
  }

  // ---------------------------------------------------------------------------------------------
  // Overtaken tokens

  lemma TxKeepsToken(t: Table, e: Event)
    requires Keyed(t) && OneActive(t) && Fresh(t, e)
    ensures t.lastToken <= Tx(t, e).lastToken
  {
    if e.Claim? {
      ClaimWrites(t, e.q, e.now, e.freshId);
      ReleaseIdlesThread(t, e.q.Key());
    }
  }

  lemma {:induction false} IssuedBelowLast(es: seq<Event>, i: nat)
    requires AdmissibleHistory(es) && i < |es| && IssuedRow(es, i).Some?
    ensures IssuedRow(es, i).value.fence <= History(es).lastToken
    ensures IssuedRow(es, i).value.fence == History(es[..i]).lastToken + 1
  {
    var n := |es| - 1;
    var front := es[..n];
    PrefixIsAdmissible(es, n);
    HistoryKeepsInv(front);
    assert Fresh(History(front), es[n]);
    if i == n {
      ClaimWrites(History(front), es[n].q, es[n].now, es[n].freshId);
    } else {
      assert front[..i] == es[..i];
      IssuedBelowLast(front, i);
      TxKeepsToken(History(front), es[n]);
    }
  }

  /** Tokens grow strictly from claim to claim, over all threads. */
  lemma RowTokensIncrease(es: seq<Event>, i: nat, j: nat)
    requires AdmissibleHistory(es) && i < j < |es| && IssuedRow(es, i).Some? && IssuedRow(es, j).Some?
    ensures IssuedRow(es, i).value.fence < IssuedRow(es, j).value.fence
  {
    PrefixIsAdmissible(es, j);
    assert es[..j][..i] == es[..i];
    assert IssuedRow(es[..j], i) == IssuedRow(es, i);
    IssuedBelowLast(es[..j], i);
    IssuedBelowLast(es, j);
  }

  /** Once a later claim was granted on the thread, the fence check of the earlier token answers no for good. */
  lemma OvertakenRowNeverPromotes(es: seq<Event>, i: nat, j: nat, now: Time)
    requires AdmissibleHistory(es) && i < j < |es| && IssuedRow(es, i).Some? && IssuedRow(es, j).Some?
    requires IssuedRow(es, i).value.Key() == IssuedRow(es, j).value.Key()
    ensures !CanPromoteRow(History(es), IssuedRow(es, i).value.who.runId, IssuedRow(es, i).value.fence, now)
  {
    var stale := IssuedRow(es, i).value;
    RowTokensIncrease(es, i, j);
    IssuedRowAdvances(es, i, stale);
    if CanPromoteRow(History(es), stale.who.runId, stale.fence, now) {
      PromotableRowIsNewest(es, stale.who.runId, stale.fence, now, j);
    }
  }

  // ---------------------------------------------------------------------------------------------
  // What a claim answers

  /** The request's row has a response on record. */
  ghost predicate RespondedRow(t: Table, id: Id, x: Id) {
    id in t.rows && t.rows[id].response == Some(x)
  }

  /** An accepted finish of the row, the unique index permitting. */
  ghost predicate FinishesRow(t: Table, e: Event, id: Id) {
    e.Finish? && e.runId == id && FinishTx(t, id, e.fence, e.status, e.response, e.errorCode, e.now).1 == Some(true)
  }

  lemma TxKeepsResponse(t: Table, e: Event, id: Id, x: Id)
    requires Keyed(t) && OneActive(t) && Fresh(t, e) && RespondedRow(t, id, x) && !FinishesRow(t, e, id)
    ensures RespondedRow(Tx(t, e), id, x)
  {
    if e.Claim? {
      PriorRowFound(t, RequestOf(e.q.workspaceId, e.q.requestId));
      ActiveRowFound(t, e.q.Key());
    }
  }

  lemma FinishLeavesResponse(t: Table, e: Event, id: Id, x: Id)
    requires FinishesRow(t, e, id) && e.response == Some(x)
    ensures RespondedRow(Tx(t, e), id, x)
  {
  }

  lemma {:induction false} ResponseStaysInRow(es: seq<Event>, i: nat, id: Id, x: Id)
    requires FreshHistory(es) && i < |es| && FinishesRow(History(es[..i]), es[i], id) && es[i].response == Some(x)
    requires forall j :: i < j < |es| ==> !FinishesRow(History(es[..j]), es[j], id)
    ensures RespondedRow(History(es), id, x)
  {
    hide Tx, FinishesRow, RespondedRow, Fresh;
    var n := |es| - 1;
    var front := es[..n];
    forall j | 0 <= j < n ensures Fresh(History(front[..j]), front[j]) {
      assert front[..j] == es[..j];
    }
    assert History(es) == Tx(History(front), es[n]) && Fresh(History(front), es[n]);
    hide History;
    if i == n {
      FinishLeavesResponse(History(front), es[n], id, x);
    } else {
      assert front[..i] == es[..i] && front[i] == es[i];
      forall j | i < j < |front| ensures !FinishesRow(History(front[..j]), front[j], id) {
        assert front[..j] == es[..j];
      }
      assert !FinishesRow(History(es[..n]), es[n], id);
      ResponseStaysInRow(front, i, id, x);
      HistoryKeepsOneActive(front);
      TxKeepsResponse(History(front), es[n], id, x);
    }
  }

  /** A request whose run was finished with a response is answered with that row and that response from then on, up to
      the run's next accepted finish, and refused on any other thread; claiming it changes nothing. */
  lemma FinishedRequestIsReplayed(es: seq<Event>, i: nat, id: Id, x: Id, q: Request, now: Time, freshId: Id)
    requires FreshHistory(es) && i < |es| && FinishesRow(History(es[..i]), es[i], id) && es[i].response == Some(x)
    requires forall j :: i < j < |es| ==> !FinishesRow(History(es[..j]), es[j], id)
    requires id in History(es).rows && History(es).rows[id].RequestKey() == RequestOf(q.workspaceId, q.requestId)
    ensures var (t', r), row := ClaimTx(History(es), q, now, freshId), History(es).rows[id];
            t' == History(es) && row.response == Some(x) && r == if row.Key() == q.Key() then Row(row) else Rejected
  {
    hide History;
    ResponseStaysInRow(es, i, id, x);
    HistoryKeepsOneActive(es);
    PriorRowFound(History(es), RequestOf(q.workspaceId, q.requestId));
  }

  /** A request without a response on record is granted exactly when no row of its thread holds an unexpired lease and
      it is new, or its row is on this thread and may be taken up again; otherwise it is refused. */
  lemma IssuedIff(t: Table, q: Request, now: Time, freshId: Id)
    requires TableInv(t)
    requires var rk := RequestOf(q.workspaceId, q.requestId);
             forall id <- t.rows :: t.rows[id].RequestKey() == rk ==> t.rows[id].response.None?
    ensures var r, rk := ClaimTx(t, q, now, freshId).1, RequestOf(q.workspaceId, q.requestId);
            && (r.Issues() || r == Rejected)
            && (r.Issues() <==>
                  (forall id <- t.rows :: t.rows[id].Key() == q.Key() ==> !t.rows[id].Holds(now))
                  && forall id <- t.rows :: t.rows[id].RequestKey() == rk ==>
                       t.rows[id].Key() == q.Key() && Reclaimable(t.rows[id].status))
  {
    var rk := RequestOf(q.workspaceId, q.requestId);
    PriorRowFound(t, rk);
    ActiveRowFound(t, q.Key());
    assert PriorRow(t, rk).Some? ==> forall id <- t.rows :: t.rows[id].RequestKey() == rk ==> t.rows[id] == PriorRow(t, rk).value;
    hide PriorRow, ActiveRow, Released, OneActive, Reclaimable;
  }

  /** The lease granted is the requester's, on the request's own row, and ends after the seconds asked for. */
  lemma IssuedRun(t: Table, q: Request, now: Time, freshId: Id)
    requires Keyed(t) && ClaimTx(t, q, now, freshId).1.Issues()
    ensures var run, rk := ClaimTx(t, q, now, freshId).1.run, RequestOf(q.workspaceId, q.requestId);
            && run.RequestKey() == rk && run.Key() == q.Key() && run.status == Running
            && run.leaseOwner == Some(q.owner) && (forall at :: run.Holds(at) <==> at < now + q.leaseSeconds)
            && run.heartbeatAt == Some(now) && run.startedAt == now && run.finishedAt.None?
            && run.traceId == q.traceId && run.response.None? && run.errorCode.None?
            && (forall id <- t.rows :: t.rows[id].RequestKey() == rk ==> run.who == t.rows[id].who)
            && ((forall id <- t.rows :: t.rows[id].RequestKey() != rk) ==> run.who.runId == freshId && run.who.userId == q.userId)
  {
    var rk := RequestOf(q.workspaceId, q.requestId);
    PriorRowFound(t, rk);
    assert PriorRow(t, rk).Some? ==> forall id <- t.rows :: t.rows[id].RequestKey() == rk ==> t.rows[id] == PriorRow(t, rk).value;
    hide PriorRow, ActiveRow, Released, Reclaimable;
  }

  /** A granted claim releases the thread's active row, and leaves every other request's row alone. */
  lemma ClaimTouches(t: Table, q: Request, now: Time, freshId: Id, id: Id)
    requires Keyed(t) && OneActive(t) && freshId !in t.rows && id in t.rows
    requires t.rows[id].RequestKey() != RequestOf(q.workspaceId, q.requestId)
    ensures var (t', r), row := ClaimTx(t, q, now, freshId), t.rows[id];
            && id in t'.rows
            && t'.rows[id] == if r.Issues() && row.Key() == q.Key() && Active(row.status)
                              then row.(status := Recoverable, leaseOwner := None, leaseExpires := None) else row
  {
    PriorRowFound(t, RequestOf(q.workspaceId, q.requestId));
    ActiveRowFound(t, q.Key());
    hide PriorRow, ActiveRow, OneActive;
  }

  /** A heartbeat is accepted exactly for an active row under its present token, and prolongs its lease alone. */
  lemma HeartbeatProlongs(t: Table, runId: Id, fence: nat, seconds: int, now: Time)
    ensures var (t', ok) := HeartbeatTx(t, runId, fence, seconds, now);
            && (ok <==> runId in t.rows && t.rows[runId].fence == fence && Active(t.rows[runId].status))
            && (!ok ==> t' == t)
            && (ok ==>
                  && t'.lastToken == t.lastToken && t'.rows.Keys == t.rows.Keys
                  && (forall id <- t.rows :: id != runId ==> t'.rows[id] == t.rows[id])
                  && t'.rows[runId].(heartbeatAt := None, leaseExpires := None)
                     == t.rows[runId].(heartbeatAt := None, leaseExpires := None)
                  && t'.rows[runId].heartbeatAt == Some(now)
                  && (forall at :: t'.rows[runId].Holds(at) <==> at < now + seconds))
  {
  }

  /** A finish under the row's present token is refused exactly when it would leave two active rows on the thread. An
      accepted one ends the lease, records what it was given, and leaves all other rows as they were. */
  lemma FinishEnds(t: Table, runId: Id, fence: nat, status: Status, response: Option<Id>, errorCode: Option<Id>, now: Time)
    requires OneActive(t)
    ensures var (t', ok) := FinishTx(t, runId, fence, status, response, errorCode, now);
            && (ok == Some(false) <==> !(runId in t.rows && t.rows[runId].fence == fence))
            && (ok == None <==>
                  runId in t.rows && t.rows[runId].fence == fence
                  && !OneActive(t.(rows := t.rows[runId := t.rows[runId].(status := status)])))
            && (ok != Some(true) ==> t' == t)
            && (ok == Some(true) ==>
                  && t'.lastToken == t.lastToken && t'.rows.Keys == t.rows.Keys
                  && (forall id <- t.rows :: id != runId ==> t'.rows[id] == t.rows[id])
                  && (forall at :: !CanPromoteRow(t', runId, fence, at)) && t'.rows[runId].leaseOwner.None?
                  && t'.rows[runId].status == status && t'.rows[runId].response == response
                  && t'.rows[runId].errorCode == errorCode && t'.rows[runId].fence == fence
                  && t'.rows[runId].finishedAt
                     == (if status in {Completed, Failed, Superseded} then Some(now) else None))
  {
    if runId in t.rows && t.rows[runId].fence == fence {
      var updated := t.(rows := t.rows[runId := t.rows[runId].(status := status)]);
      if Active(status) && OtherActive(t, runId) {
        var other :| other in t.rows && other != runId && t.rows[other].Key() == t.rows[runId].Key()
                     && Active(t.rows[other].status);
        assert updated.rows[other] == t.rows[other] && Active(updated.rows[runId].status);
        assert !OneActive(updated);
      }
      if !OneActive(updated) {
        var a, b :| a in updated.rows && b in updated.rows && a != b && updated.rows[a].Key() == updated.rows[b].Key()
                    && Active(updated.rows[a].status) && Active(updated.rows[b].status);
        var other := if a == runId then b else a;
        assert OtherActive(t, runId);
      }
    }
  }
}
