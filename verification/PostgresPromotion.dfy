/** The promotion node over the Postgres coordinator: the fence check is one transaction and the promotion a later step,
    with anything in between. */
module PostgresPromotion {
  import opened Basics
  import Leases
  import opened PostgresLeases
  import Tasks
  import opened Snapshots
  import opened Promotion

  /** `answers` holds what each call of the node was told by its fence check. */
  datatype Shared = Shared(table: Table, store: Tasks.Store, snaps: Snaps, answers: map<Call, bool>)

  const BLANK := Shared(NO_ROWS, Tasks.EMPTY_STORE, NO_SNAPSHOTS, map[])

  datatype Move =
    | Run(lease: Leases.Event)
    | Work(task: Tasks.Event)
    | Check(asker: Call, now: Leases.Time)
    | Publish(call: Call)

  /** A call without a run context is allowed unasked. */
  ghost predicate Asked(t: Table, c: Call, now: Leases.Time) {
    c.context.Some? ==> CanPromoteRow(t, c.context.value.0, c.context.value.1, now)
  }

  ghost function Made(s: Shared, m: Move): Shared {
    match m
    case Run(l) => s.(table := Tx(s.table, l))
    case Work(t) => s.(store := Tasks.Step(s.store, t))
    case Check(c, now) => s.(answers := s.answers[c := Asked(s.table, c, now)])
    case Publish(c) => s.(snaps := Promoted(s.store, s.snaps, c, c in s.answers && s.answers[c]))
  }

  /** Ids are fresh, and each call checks once and then promotes. */
  ghost predicate Allowed(s: Shared, m: Move) {
    match m
    case Run(l) => Fresh(s.table, l)
    case Work(t) => Tasks.Legal(s.store, t)
    case Check(c, _) => c !in s.answers
    case Publish(c) => c in s.answers && c.freshId !in s.snaps.snapshots
  }

  ghost function Play(ms: seq<Move>): Shared {
    if ms == [] then BLANK
    else
      var n := |ms| - 1;
      Made(Play(ms[..n]), ms[n])
  }

  ghost predicate AllowedPlay(ms: seq<Move>) {
    forall i :: 0 <= i < |ms| ==> Allowed(Play(ms[..i]), ms[i])
  }

  ghost predicate SoundShared(s: Shared) {
    Keyed(s.table) && OneActive(s.table) && SoundStores(s.store, s.snaps)
  }

  lemma MadeKeepsSound(s: Shared, m: Move)
    requires SoundShared(s) && Allowed(s, m)
    ensures SoundShared(Made(s, m)) && NeverBack(s.snaps, Made(s, m).snaps)
  {
    hide SoundStores, Promoted, Keyed, OneActive, Tx, Tasks.Step, Asked;
    match m
    case Run(l) => TxKeepsOneActive(s.table, l);
    case Work(t) => TaskStepKeeps(s.store, s.snaps, t);
    case Check(_, _) =>
    case Publish(c) => PromotedKeeps(s.store, s.snaps, c, s.answers[c]);
  }

  lemma PrefixIsAllowed(ms: seq<Move>, n: nat)
    requires AllowedPlay(ms) && n <= |ms|
    ensures AllowedPlay(ms[..n])
  {
    forall i | 0 <= i < n ensures Allowed(Play(ms[..n][..i]), ms[..n][i]) {
      assert ms[..n][..i] == ms[..i];
    }
  }

  /** In every interleaving each task has at most one CURRENT snapshot, of a version the task has reached, and each
      thread at most one active row. */
  lemma {:induction false} PlayIsSound(ms: seq<Move>)
    requires AllowedPlay(ms)
    ensures SoundShared(Play(ms))
  {
    hide SoundShared, Made, Allowed;
    if ms != [] {
      var n := |ms| - 1;
      PrefixIsAllowed(ms, n);
      PlayIsSound(ms[..n]);
      assert Allowed(Play(ms[..n]), ms[n]);
      MadeKeepsSound(Play(ms[..n]), ms[n]);
    } else {
      BlankIsSound();
    }
  }

  lemma BlankIsSound()
    ensures SoundShared(BLANK)
  {
  }

  /** Even an overtaken worker never takes a task's current snapshot back to an older version. */
  lemma {:induction false} CheckedVersionNeverDecreases(ms: seq<Move>, n: nat)
    requires AllowedPlay(ms) && n <= |ms|
    ensures NeverBack(Play(ms[..n]).snaps, Play(ms).snaps)
  {
    hide SoundShared, Made, Allowed;
    if n == |ms| {
      assert ms[..n] == ms;
    } else {
      hide NeverBack;
      var last := |ms| - 1;
      var front := ms[..last];
      assert front[..n] == ms[..n];
      PrefixIsAllowed(ms, last);
      PlayIsSound(front);
      assert Allowed(Play(front), ms[last]);
      MadeKeepsSound(Play(front), ms[last]);
      CheckedVersionNeverDecreases(front, n);
      NeverBackTransitive(Play(ms[..n]).snaps, Play(front).snaps, Play(ms).snaps);
    }
  }

  /** The lease transactions of an interleaving, in order. */
  function Transactions(ms: seq<Move>): seq<Leases.Event> {
    if ms == [] then []
    else
      var n := |ms| - 1;
      Transactions(ms[..n]) + if ms[n].Run? then [ms[n].lease] else []
  }

  lemma {:induction false} TransactionsRunAlone(ms: seq<Move>)
    requires AllowedPlay(ms)
    ensures Play(ms).table == History(Transactions(ms)) && FreshHistory(Transactions(ms))
  {
    hide Fresh, Tx;
    if ms != [] {
      var n := |ms| - 1;
      var before, ls := Transactions(ms[..n]), Transactions(ms);
      PrefixIsAllowed(ms, n);
      TransactionsRunAlone(ms[..n]);
      assert Allowed(Play(ms[..n]), ms[n]);
      if ms[n].Run? {
        assert ls == before + [ms[n].lease] && ls[..|before|] == before;
        forall i | 0 <= i < |ls| ensures Fresh(History(ls[..i]), ls[i]) {
          if i < |before| {
            assert ls[..i] == before[..i];
          }
        }
      } else {
        assert ls == before;
      }
    }
  }

  lemma {:induction false} TransactionsPrefix(ms: seq<Move>, n: nat)
    requires n <= |ms|
    ensures var ls, part := Transactions(ms), Transactions(ms[..n]); |part| <= |ls| && ls[..|part|] == part
  {
    if n < |ms| {
      var front := ms[..|ms| - 1];
      assert front[..n] == ms[..n];
      TransactionsPrefix(front, n);
    } else {
      assert ms[..n] == ms;
    }
  }

  /** The answer a call got stays with it, whatever happens after. */
  lemma {:induction false} AnswerStays(ms: seq<Move>, q: nat)
    requires AllowedPlay(ms) && q < |ms| && ms[q].Check?
    ensures var c := ms[q].asker;
            c in Play(ms).answers && Play(ms).answers[c] == Asked(Play(ms[..q]).table, c, ms[q].now)
  {
    hide Tx, Asked, Promoted, Tasks.Step, Fresh;
    var last := |ms| - 1;
    var front := ms[..last];
    PrefixIsAllowed(ms, last);
    assert Allowed(Play(front), ms[last]);
    if q < last {
      assert front[..q] == ms[..q];
      AnswerStays(front, q);
    }
  }

  /** A promotion changes a current entry exactly when its check answered yes, its scope is not NONE, and the version it
      worked on is the head of a visible task at the promotion, which may be later than the check. */
  lemma PublishesIff(ms: seq<Move>, q: nat, p: nat)
    requires AllowedPlay(ms) && q < p < |ms| && ms[q].Check? && ms[p] == Publish(ms[q].asker)
    ensures var c, task := ms[q].asker, Tasks.Visible(Play(ms[..p]).store.repo, ms[q].asker.ws, ms[q].asker.taskId);
            (exists t: Id :: Play(ms[..p + 1]).snaps.Current(t) != Play(ms[..p]).snaps.Current(t))
            <==> Asked(Play(ms[..q]).table, c, ms[q].now) && !c.scopeNone
                 && task.Some? && c.version.GetOr(task.value.version) == task.value.version
  {
    hide Tx, Asked, Promoted, SoundStores, Keyed, OneActive;
    var s, c := Play(ms[..p]), ms[q].asker;
    PrefixIsAllowed(ms, p);
    PlayIsSound(ms[..p]);
    assert ms[..p][..q] == ms[..q] && ms[..p][q] == ms[q];
    AnswerStays(ms[..p], q);
    assert Allowed(s, ms[p]);
    assert ms[..p + 1][..p] == ms[..p];
    assert Play(ms[..p + 1]) == Made(s, ms[p]);
    ActivatedIff(s.store, s.snaps, c, s.answers[c]);
  }

  /** A worker whose lease was overtaken before it promotes still changes a current entry exactly when its check came
      before the overtaking claim and answered yes, its scope is not NONE, and it worked on the head version. */
  lemma OvertakenWorkerPublishesIff(ms: seq<Move>, q: nat, p: nat, a: nat, b: nat)
    requires AllowedPlay(ms) && q < p < |ms| && ms[q].Check? && ms[p] == Publish(ms[q].asker)
    requires var ls := Transactions(ms[..p]);
             && AdmissibleHistory(ls) && a < b < |ls| && IssuedRow(ls, a).Some? && IssuedRow(ls, b).Some?
             && IssuedRow(ls, a).value.Key() == IssuedRow(ls, b).value.Key()
             && ms[q].asker.context == Some((IssuedRow(ls, a).value.who.runId, IssuedRow(ls, a).value.fence))
    ensures var c, task := ms[q].asker, Tasks.Visible(Play(ms[..p]).store.repo, ms[q].asker.ws, ms[q].asker.taskId);
            (exists t: Id :: Play(ms[..p + 1]).snaps.Current(t) != Play(ms[..p]).snaps.Current(t))
            <==> |Transactions(ms[..q])| <= b && Asked(Play(ms[..q]).table, c, ms[q].now) && !c.scopeNone
                 && task.Some? && c.version.GetOr(task.value.version) == task.value.version
  {
    hide Play, AllowedPlay, Transactions, History, AdmissibleHistory, Tx, CanPromoteRow;
    PublishesIff(ms, q, p);
    if |Transactions(ms[..q])| > b {
      var ls, part := Transactions(ms[..p]), Transactions(ms[..q]);
      assert ms[..p][..q] == ms[..q];
      TransactionsPrefix(ms[..p], q);
      IssuedInPart(ls, part, a);
      IssuedInPart(ls, part, b);
      PrefixIsAdmissible(ls, |part|);
      PrefixIsAllowed(ms, q);
      TransactionsRunAlone(ms[..q]);
      OvertakenRowNeverPromotes(part, a, b, ms[q].now);
    }
  }

  lemma IssuedInPart(ls: seq<Leases.Event>, part: seq<Leases.Event>, i: nat)
    requires |part| <= |ls| && ls[..|part|] == part && i < |part|
    ensures IssuedRow(ls, i) == IssuedRow(part, i)
  {
    assert ls[..i] == part[..i] && ls[i] == part[i];
  }

  // ---------------------------------------------------------------------------------------------
  // An overtaken worker that publishes

  lemma FirstClaim(q: Leases.Request, now: Leases.Time, id: Id)
    ensures var run := Leases.NewRun(q, id, 1, now);
            ClaimTx(NO_ROWS, q, now, id) == (Table(map[id := run], 1), Row(run))
  {
    var rk := Leases.RequestOf(q.workspaceId, q.requestId);
    assert !exists x :: IsPrior(NO_ROWS, rk, x);
    assert !exists x :: IsTopActive(NO_ROWS, q.Key(), x);
  }

  /** A claim after the only other run of the thread let its lease expire. */
  lemma SecondClaim(r: Leases.Run, q: Leases.Request, now: Leases.Time, id: Id)
    requires r.Key() == q.Key() && r.RequestKey() != Leases.RequestOf(q.workspaceId, q.requestId) && id != r.who.runId
    requires Leases.Active(r.status) && r.leaseExpires.Some? && r.leaseExpires.value <= now && r.fence == 1
    ensures ClaimTx(Table(map[r.who.runId := r], 1), q, now, id).1 == Row(Leases.NewRun(q, id, 2, now))
  {
    var t := Table(map[r.who.runId := r], 1);
    PriorRowFound(t, Leases.RequestOf(q.workspaceId, q.requestId));
    ActiveRowFound(t, q.Key());
    assert r.who.runId in t.rows;
  }

  lemma OneMore(ms: seq<Move>, m: Move)
    requires AllowedPlay(ms) && Allowed(Play(ms), m)
    ensures AllowedPlay(ms + [m]) && Play(ms + [m]) == Made(Play(ms), m)
    ensures Transactions(ms + [m]) == Transactions(ms) + if m.Run? then [m.lease] else []
  {
    hide Made, Allowed;
    assert (ms + [m])[..|ms|] == ms;
    forall i | 0 <= i < |ms| + 1 ensures Allowed(Play((ms + [m])[..i]), (ms + [m])[i]) {
      assert i < |ms| ==> (ms + [m])[..i] == ms[..i];
    }
  }

  lemma CheckedFirst(q1: Leases.Request, call: Call)
    requires q1 == Leases.Request(1, 7, 9, 5, 0, 10, 0)
    requires call == Call(Some((101, 1)), 9, 3, Some(1), false, None, 50, 0)
    ensures var ms := [Run(Leases.Claim(q1, 0, 101)), Work(Tasks.Create(9, 7, None, 3)), Check(call, 5)];
            && AllowedPlay(ms) && Transactions(ms) == [ms[0].lease]
            && Play(ms) == Shared(Table(map[101 := Leases.NewRun(q1, 101, 1, 0)], 1),
                                  Tasks.Step(Tasks.EMPTY_STORE, ms[1].task), NO_SNAPSHOTS, map[call := true])
  {
    assert AllowedPlay([]) && Play([]) == BLANK && Transactions([]) == [];
    assert CanPromoteRow(Table(map[101 := Leases.NewRun(q1, 101, 1, 0)], 1), 101, 1, 5);
    hide Tasks.Step, ClaimTx, Play, AllowedPlay, Transactions, Promoted, CanPromoteRow;
    var a, w, c := Run(Leases.Claim(q1, 0, 101)), Work(Tasks.Create(9, 7, None, 3)), Check(call, 5);
    FirstClaim(q1, 0, 101);
    OneMore([], a);
    assert [] + [a] == [a];
    OneMore([a], w);
    assert [a] + [w] == [a, w];
    OneMore([a, w], c);
    assert [a, w] + [c] == [a, w, c];
  }

  /** The second worker's claim, and then the first worker's promotion. */
  lemma PublishedLate(ms: seq<Move>, q2: Leases.Request, call: Call, q1: Leases.Request)
    requires AllowedPlay(ms) && Transactions(ms) == [Leases.Claim(q1, 0, 101)]
    requires q1 == Leases.Request(1, 7, 9, 5, 0, 10, 0) && q2 == Leases.Request(2, 7, 9, 5, 0, 10, 0)
    requires Play(ms) == Shared(Table(map[101 := Leases.NewRun(q1, 101, 1, 0)], 1),
                                Tasks.Step(Tasks.EMPTY_STORE, Tasks.Create(9, 7, None, 3)),
                                NO_SNAPSHOTS, map[call := true])
    requires call == Call(Some((101, 1)), 9, 3, Some(1), false, None, 50, 0)
    ensures var claim := Leases.Claim(q2, 11, 102);
            var ms', end := ms + [Run(claim)], ms + [Run(claim)] + [Publish(call)];
            && AllowedPlay(end) && Transactions(end) == [Leases.Claim(q1, 0, 101), claim]
            && Play(ms').snaps == NO_SNAPSHOTS && Play(end).snaps == Promoted(Play(ms).store, NO_SNAPSHOTS, call, true)
  {
    var claim := Leases.Claim(q2, 11, 102);
    hide ClaimTx, AllowedPlay, Play, Transactions, Promoted, Tasks.Step;
    OneMore(ms, Run(claim));
    OneMore(ms + [Run(claim)], Publish(call));
  }

  lemma BothIssued(q1: Leases.Request, q2: Leases.Request)
    requires q1 == Leases.Request(1, 7, 9, 5, 0, 10, 0) && q2 == Leases.Request(2, 7, 9, 5, 0, 10, 0)
    ensures var ls := [Leases.Claim(q1, 0, 101), Leases.Claim(q2, 11, 102)];
            && IssuedRow(ls, 0) == Some(Leases.NewRun(q1, 101, 1, 0))
            && IssuedRow(ls, 1) == Some(Leases.NewRun(q2, 102, 2, 11))
  {
    var a, b := Leases.Claim(q1, 0, 101), Leases.Claim(q2, 11, 102);
    assert [a, b][..0] == [] && [a, b][..1] == [a] && [a][..0] == [];
    hide ClaimTx;
    FirstClaim(q1, 0, 101);
    SecondClaim(Leases.NewRun(q1, 101, 1, 0), q2, 11, 102);
  }

  lemma FirstSnapshot(call: Call)
    requires call == Call(Some((101, 1)), 9, 3, Some(1), false, None, 50, 0)
    ensures var store := Tasks.Step(Tasks.EMPTY_STORE, Tasks.Create(9, 7, None, 3));
            var now := Promoted(store, NO_SNAPSHOTS, call, true).Current(3);
            now.Some? && now.value.snapshotId == 50
  {
    Tasks.FirstTask(9, 7, 3);
    hide Tasks.CreateStep, Tasks.Consistent;
  }

  lemma ClaimsAreAdmissible(ls: seq<Leases.Event>)
    requires FreshHistory(ls) && forall e <- ls :: e.Claim?
    ensures AdmissibleHistory(ls)
  {
  }

  /** Claim, new task, check, a second claim after expiry, promotion: the first worker's snapshot becomes current. */
  lemma OvertakenWorkerPublishes()
    ensures var q1, q2 := Leases.Request(1, 7, 9, 5, 0, 10, 0), Leases.Request(2, 7, 9, 5, 0, 10, 0);
            var call := Call(Some((101, 1)), 9, 3, Some(1), false, None, 50, 0);
            var ms := [Run(Leases.Claim(q1, 0, 101)), Work(Tasks.Create(9, 7, None, 3)), Check(call, 5),
                       Run(Leases.Claim(q2, 11, 102)), Publish(call)];
            && AllowedPlay(ms)
            && Transactions(ms) == [ms[0].lease, ms[3].lease] && AdmissibleHistory(Transactions(ms))
            && IssuedRow(Transactions(ms), 0) == Some(Leases.NewRun(q1, 101, 1, 0))
            && IssuedRow(Transactions(ms), 1) == Some(Leases.NewRun(q2, 102, 2, 11))
            && Play(ms[..4]).snaps.Current(3).None?
            && Play(ms).snaps.Current(3).Some? && Play(ms).snaps.Current(3).value.snapshotId == 50
  {
    var q1, q2 := Leases.Request(1, 7, 9, 5, 0, 10, 0), Leases.Request(2, 7, 9, 5, 0, 10, 0);
    var call := Call(Some((101, 1)), 9, 3, Some(1), false, None, 50, 0);
    var ms := [Run(Leases.Claim(q1, 0, 101)), Work(Tasks.Create(9, 7, None, 3)), Check(call, 5),
               Run(Leases.Claim(q2, 11, 102)), Publish(call)];
    hide Promoted, AllowedPlay, Play, Transactions, Tasks.Step, IssuedRow, History, FreshHistory, AdmissibleHistory;
    CheckedFirst(q1, call);
    assert ms[..3] == [ms[0], ms[1], ms[2]] && ms[..3] + [ms[3]] == ms[..4] && ms[..4] + [ms[4]] == ms;
    PublishedLate(ms[..3], q2, call, q1);
    BothIssued(q1, q2);
    FirstSnapshot(call);
    TransactionsRunAlone(ms);
    ClaimsAreAdmissible(Transactions(ms));
  }
}
