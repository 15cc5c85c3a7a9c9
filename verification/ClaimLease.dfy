/** The homework handlers as they interleave: each reads the thread, decides, and later runs one
    transaction. A transaction sees the current row, but everything it was told to write was computed
    from the earlier read; only the claim WHERE clauses are rechecked. NOW() is the transaction's own
    start instant, so successive commits may carry any instants, in any order. */
module ClaimLease {
  import opened Prelude
  import opened HomeworkState
  import opened HomeworkRow
  import opened HomeworkLog

  datatype Thread = Thread(row: Row, log: seq<Event>)

  const FRESH_THREAD := Thread(FRESH_ROW, [])

  datatype Request =
    | Claim(grader: UserId)
    | Heartbeat(grader: UserId)
    | Release(grader: UserId)
    | Submit(student: UserId)
    | Appeal(student: UserId)
    | Grade(grader: UserId, admin: bool, verdict: Verdict)
    | Retract(caller: UserId, admin: bool)
    | OfflineAccept(teacher: UserId, credited: Option<UserId>, name: string)
    | OfflineUndo(teacher: UserId)

  /** What a handler carries from its read into its transaction. */
  datatype Plan =
    | ToClaim(grader: UserId)
    | ToHeartbeat(grader: UserId)
    | ToRelease(grader: UserId)
    | ToSubmit(student: UserId)
    | ToAppeal(student: UserId, disputed: Option<nat>)
    | ToGrade(grader: UserId, admin: bool, verdict: Verdict, attempt: Option<nat>)
    | ToRetract(caller: UserId, admin: bool, graded: nat, rollback: Status)
    | ToOfflineAccept(teacher: UserId, credited: Option<UserId>, name: string)
    | ToOfflineUndo(teacher: UserId, grade: nat, rollback: Status)

  predicate CurrentGradeIsOffline(t: Thread) {
    t.row.grade.Some? && t.row.grade.value < |t.log| && t.log[t.row.grade.value].offline
  }

  /** The read half of a handler: None when a guard answers 403 or 409. */
  function Read(t: Thread, r: Request): Option<Plan> {
    match r
    case Claim(g) => Some(ToClaim(g))
    case Heartbeat(g) => Some(ToHeartbeat(g))
    case Release(g) => Some(ToRelease(g))
    case Submit(s) =>
      if CanTransition(t.row.status, KindSubmitted) then Some(ToSubmit(s)) else None
    case Appeal(s) =>
      if t.row.status == Rejected then Some(ToAppeal(s, t.row.grade)) else None
    case Grade(g, admin, verdict) =>
      if CanTransition(t.row.status, KindGraded)
         && (t.row.status == Appealed ==> admin || t.row.lastGrader == Some(g))
      then Some(ToGrade(g, admin, verdict, t.row.attempt)) else None
    case Retract(c, admin) =>
      var graded := Latest(t.log, {KindGraded});
      if (admin || t.row.lastGrader == Some(c)) && t.row.status in {Accepted, Rejected} && graded.Some?
      then Some(ToRetract(c, admin, graded.value, Rollback(t.log, t.row.attempt, Submitted))) else None
    case OfflineAccept(who, credited, name) =>
      if t.row.status == Accepted ==> CurrentGradeIsOffline(t)
      then Some(ToOfflineAccept(who, credited, name)) else None
    case OfflineUndo(who) =>
      if CanTransition(t.row.status, KindOfflineRetracted) && CurrentGradeIsOffline(t)
      then Some(ToOfflineUndo(who, t.row.grade.value, Rollback(t.log, t.row.attempt, Ungraded))) else None
  }

  /** The event a plan appends, if it appends one. */
  function EventOf(p: Plan): Option<Event> {
    match p
    case ToSubmit(s) => Some(Event(KindSubmitted, s, false, None, None, false, None, ""))
    case ToAppeal(s, disputed) => Some(Event(KindAppealed, s, false, None, disputed, false, None, ""))
    case ToGrade(g, admin, verdict, attempt) =>
      Some(Event(KindGraded, g, admin, Some(verdict), attempt, false, None, ""))
    case ToRetract(c, admin, graded, _) =>
      Some(Event(KindRetracted, c, admin, None, Some(graded), false, None, ""))
    case ToOfflineAccept(who, credited, name) =>
      Some(Event(KindAcceptedOffline, who, false, Some(VerdictAccepted), None, true, credited, name))
    case ToOfflineUndo(who, grade, _) =>
      Some(Event(KindOfflineRetracted, who, false, None, Some(grade), true, None, ""))
    case _ => None
  }

  /** The UPDATE half of a plan's transaction; None when it affects no row. */
  function Update(row: Row, p: Plan, now: int, id: nat): Option<Row> {
    match p
    case ToClaim(g) => row.TryClaim(g, now)
    case ToHeartbeat(g) => row.HeartbeatClaim(g, now)
    case ToRelease(g) => row.ReleaseClaim(g)
    case ToSubmit(_) => Some(row.AfterSubmit(id))
    case ToAppeal(_, _) => Some(row.AfterAppeal(id))
    case ToGrade(g, _, verdict, _) => row.AfterGrade(verdict, id, g, now)
    case ToRetract(_, _, _, rollback) => Some(row.AfterRetract(rollback))
    case ToOfflineAccept(_, credited, name) => Some(row.AfterOfflineAccept(id, credited, name))
    case ToOfflineUndo(_, _, rollback) => Some(row.AfterOfflineUndo(rollback))
  }

  predicate Lands(t: Thread, p: Plan, now: int) {
    Update(t.row, p, now, |t.log|).Some?
  }

  /** The transaction half: append and update together, or nothing when the UPDATE missed. */
  function Commit(t: Thread, p: Plan, now: int): Thread {
    if !Lands(t, p, now) then t
    else
      Thread(Update(t.row, p, now, |t.log|).value,
             if EventOf(p).Some? then t.log + [EventOf(p).value] else t.log)
  }

  // ---- agreement of log and cache ----

  ghost predicate Agrees(t: Thread) {
    Legal(t.log) && Cached(t.row) == Replay(t.log)
  }

  ghost predicate Fresh(t: Thread, p: Plan) {
    exists r :: Read(t, r) == Some(p)
  }

  /** The request that would have produced a plan. */
  function RequestOf(p: Plan): Request {
    match p
    case ToClaim(g) => Claim(g)
    case ToHeartbeat(g) => Heartbeat(g)
    case ToRelease(g) => Release(g)
    case ToSubmit(s) => Submit(s)
    case ToAppeal(s, _) => Appeal(s)
    case ToGrade(g, admin, verdict, _) => Grade(g, admin, verdict)
    case ToRetract(c, admin, _, _) => Retract(c, admin)
    case ToOfflineAccept(who, credited, name) => OfflineAccept(who, credited, name)
    case ToOfflineUndo(who, _, _) => OfflineUndo(who)
  }

  /** On an agreeing thread, a plan is fresh exactly when its event is enabled and its rollback is right. */
  lemma FreshIsEnabled(t: Thread, p: Plan)
    requires Agrees(t) && EventOf(p).Some?
    ensures Fresh(t, p) <==>
      Enabled(t.log, EventOf(p).value) && RollsBackRight(t, p)
  {
    hide Latest, Legal, LastGraderName;
    if Fresh(t, p) {
      assert Read(t, RequestOf(p)) == Some(p);
    } else {
      assert Read(t, RequestOf(p)) != Some(p);
    }
  }

  predicate RollsBackRight(t: Thread, p: Plan) {
    (p.ToRetract? ==> p.rollback == PendingStatus(t.log, Submitted))
    && (p.ToOfflineUndo? ==> p.rollback == PendingStatus(t.log, Ungraded))
  }

  lemma CommitCaches(t: Thread, p: Plan, now: int)
    requires Cached(t.row) == Replay(t.log) && EventOf(p).Some? && Lands(t, p, now)
    ensures Cached(Commit(t, p, now).row) == Replay(t.log + [EventOf(p).value]) <==> RollsBackRight(t, p)
    ensures Commit(t, p, now).log == t.log + [EventOf(p).value]
  {
    var e := EventOf(p).value;
    PointersOfAppend(t.log, e);
    CreditOfAppend(t.log, e);
    if e.kind in UNDOS {
      StatusOfUndo(t.log, e);
    } else {
      StatusOfEvent(t.log, e);
    }
    hide StatusOf, Latest, Attempt, GradeInForce, LastGrader, LastGraderName, PendingStatus;
  }

  /** A landing transaction keeps log and cache in agreement exactly when its plan is not stale:
      when reading the thread again would produce the very same plan. */
  lemma CommitKeepsAgreement(t: Thread, p: Plan, now: int)
    requires Agrees(t) && EventOf(p).Some? && Lands(t, p, now)
    ensures Agrees(Commit(t, p, now)) <==> Fresh(t, p)
  {
    hide Commit, Lands, Legal, Enabled, Fresh, Replay, PendingStatus;
    FreshIsEnabled(t, p);
    CommitCaches(t, p, now);
    LegalAppend(t.log, EventOf(p).value);
  }

  // ---- runs ----

  /** The commits of a run, in commit order, with the thread between them. Handlers that never
      commit leave no trace; `readAt[i]` is the state commit i's handler had read. */
  datatype Run = Run(states: seq<Thread>, plans: seq<Plan>, nows: seq<int>, readAt: seq<nat>)
  {
    ghost predicate Valid() {
      |states| == |plans| + 1 && |nows| == |plans| && |readAt| == |plans|
      && states[0] == FRESH_THREAD
      && (forall i :: 0 <= i < |plans| ==> StepAt(i))
    }

    ghost predicate StepAt(i: nat)
      requires i < |plans| && |states| == |plans| + 1 && |nows| == |plans| && |readAt| == |plans|
    {
      states[i + 1] == Commit(states[i], plans[i], nows[i])
      && readAt[i] <= i && Fresh(states[readAt[i]], plans[i])
    }

    predicate Granted(i: nat, g: UserId)
      requires i < |plans| && i < |states| && i < |nows|
    {
      plans[i] == ToClaim(g) && Lands(states[i], plans[i], nows[i])
    }

    predicate Renewed(i: nat, g: UserId)
      requires i < |plans| && i < |states| && i < |nows|
    {
      plans[i] in {ToClaim(g), ToHeartbeat(g)} && Lands(states[i], plans[i], nows[i])
    }

    predicate Graded(i: nat, g: UserId)
      requires i < |plans| && i < |states| && i < |nows|
    {
      plans[i].ToGrade? && plans[i].grader == g && Lands(states[i], plans[i], nows[i])
    }

    /** g gives the claim up, or an offline accept clears it. */
    predicate Ended(i: nat, g: UserId)
      requires i < |plans| && i < |states| && i < |nows|
    {
      Graded(i, g) || plans[i] == ToRelease(g) || plans[i].ToOfflineAccept?
    }

    /** Someone else is granted the claim although g's lease is still on the row, because it ran out. */
    ghost predicate TakenOver(i: nat, g: UserId)
      requires i < |plans| && i < |states| && i < |nows|
    {
      states[i].row.expires.Some? && states[i].row.expires.value < nows[i]
      && exists h :: h != g && Granted(i, h)
    }

    /** Someone else is granted the claim, `CLAIM_TTL` after g's renewal r, the newest g had. */
    ghost predicate TakenAfterExpiry(i: nat, g: UserId, r: nat)
      requires r < i < |plans| && i < |states| && i < |nows|
    {
      (exists h :: h != g && Granted(i, h))
      && Renewed(r, g) && nows[r] + CLAIM_TTL < nows[i]
      && forall k :: r < k < i ==> !Renewed(k, g)
    }
  }

  /** Commit i changes the log from a plan read in the very state it commits to. */
  ghost predicate CommitsFresh(run: Run, i: nat)
    requires run.Valid() && i < |run.plans|
  {
    EventOf(run.plans[i]).Some? && Lands(run.states[i], run.plans[i], run.nows[i]) ==> Fresh(run.states[i], run.plans[i])
  }

  lemma SilentCommitAgrees(t: Thread, p: Plan, now: int)
    requires Agrees(t) && (EventOf(p).None? || !Lands(t, p, now))
    ensures Agrees(Commit(t, p, now))
  {
    hide Legal, Replay;
  }

  /** Over every interleaving, log and cache agree in all states up to n exactly when every landing commit before n
      that appends an event was planned from a reading that is still current. */
  lemma {:induction false} RunAgreesExactly(run: Run, n: nat)
    requires run.Valid() && n < |run.states|
    ensures (forall i :: 0 <= i <= n ==> Agrees(run.states[i])) <==> forall i :: 0 <= i < n ==> CommitsFresh(run, i)
  {
    hide Agrees, Fresh, Commit, Lands;
    if n == 0 {
      FreshThreadAgrees();
    } else {
      RunAgreesExactly(run, n - 1);
      assert run.StepAt(n - 1);
      var t, p, now := run.states[n - 1], run.plans[n - 1], run.nows[n - 1];
      if Agrees(t) {
        if EventOf(p).Some? && Lands(t, p, now) {
          CommitKeepsAgreement(t, p, now);
        } else {
          SilentCommitAgrees(t, p, now);
        }
        assert Agrees(run.states[n]) <==> CommitsFresh(run, n - 1);
      }
      assert (forall i :: 0 <= i <= n ==> Agrees(run.states[i])) ==> Agrees(t) && Agrees(run.states[n]);
    }
  }

  lemma FreshThreadAgrees()
    ensures Agrees(FRESH_THREAD)
  {
  }

  /** So handlers whose event is planned from the state it commits to keep log and cache in agreement for ever,
      however claims and heartbeats interleave with them. */
  lemma SerialRunsAgree(run: Run, n: nat)
    requires run.Valid() && n < |run.states|
    requires forall i :: 0 <= i < |run.plans| && EventOf(run.plans[i]).Some? ==> run.readAt[i] == i
    ensures Agrees(run.states[n])
  {
    hide Agrees, Fresh, Commit, Lands, EventOf;
    RunAgreesExactly(run, n);
    forall i | 0 <= i < n ensures CommitsFresh(run, i) {
      assert run.StepAt(i);
    }
  }

  /** One grader, two grade requests for the same attempt, both read before either commits, and a second
      claim in between. */
  function DoubleGrade(student: UserId, g: UserId): Run {
    var submitted := Event(KindSubmitted, student, false, None, None, false, None, "");
    var graded := Event(KindGraded, g, false, Some(VerdictAccepted), Some(0), false, None, "");
    var row := FRESH_ROW.AfterSubmit(0);
    var settled := row.(status := Accepted, grade := Some(1), lastGrader := Some(g));
    var grade := ToGrade(g, false, VerdictAccepted, Some(0));
    Run([FRESH_THREAD,
         Thread(row, [submitted]),
         Thread(row.(holder := Some(g), expires := Some(CLAIM_TTL)), [submitted]),
         Thread(settled, [submitted, graded]),
         Thread(settled.(holder := Some(g), expires := Some(CLAIM_TTL + 2)), [submitted, graded]),
         Thread(settled.(grade := Some(2)), [submitted, graded, graded])],
        [ToSubmit(student), ToClaim(g), grade, ToClaim(g), grade], [0, 0, 1, 2, 3], [0, 1, 2, 3, 2])
  }

  lemma DoubleGradeStep(student: UserId, g: UserId, i: nat)
    requires i < 5
    ensures DoubleGrade(student, g).StepAt(i)
  {
    var run := DoubleGrade(student, g);
    var read, request := run.states[run.readAt[i]], RequestOf(run.plans[i]);
    assert Read(read, request) == Some(run.plans[i]);
    hide Read, Fresh;
    assert Fresh(read, run.plans[i]) by { FreshRead(read, request); }
  }

  lemma FreshRead(t: Thread, r: Request)
    requires Read(t, r).Some?
    ensures Fresh(t, Read(t, r).value)
  {
  }

  /** Some interleaving breaks the agreement of log and cache. */
  lemma InterleavedGradesDisagree(student: UserId, g: UserId)
    ensures var run := DoubleGrade(student, g); run.Valid() && !Agrees(run.states[|run.plans|])
  {
    var run := DoubleGrade(student, g);
    forall i | 0 <= i < |run.plans| ensures run.StepAt(i) {
      DoubleGradeStep(student, g, i);
    }
    var log := run.states[5].log;
    assert log[..2][1] == log[1];
    assert !EnabledAt(log, 2);
  }

  // ---- the lease ----

  /** The only ways a holder loses the claim in one commit. */
  lemma HolderLost(run: Run, i: nat, g: UserId)
    requires run.Valid() && i < |run.plans|
    requires run.states[i].row.holder == Some(g) && run.states[i + 1].row.holder != Some(g)
    ensures run.Ended(i, g) || run.TakenOver(i, g)
  {
    assert run.StepAt(i);
    if run.plans[i].ToClaim? {
      assert run.Granted(i, run.plans[i].grader);
    }
  }

  /** While g keeps the claim, its expiry is the TTL counted from g's newest renewal. */
  lemma {:induction false} LeaseRunsFromNewestRenewal(run: Run, i: nat, k: nat, g: UserId) returns (r: nat)
    requires run.Valid() && i < k <= |run.plans| && run.Granted(i, g)
    requires forall j :: i < j <= k ==> run.states[j].row.holder == Some(g)
    ensures i <= r < k && run.Renewed(r, g)
    ensures run.states[k].row.expires == Some(run.nows[r] + CLAIM_TTL)
    ensures forall j :: r < j < k ==> !run.Renewed(j, g)
  {
    assert run.StepAt(k - 1);
    if k == i + 1 || run.Renewed(k - 1, g) {
      r := k - 1;
    } else {
      r := LeaseRunsFromNewestRenewal(run, i, k - 1, g);
    }
  }

  /** The first commit after which g no longer holds the claim. */
  lemma {:induction false} FirstLoss(run: Run, i: nat, j: nat, g: UserId) returns (k: nat)
    requires run.Valid() && i < j < |run.states|
    requires run.states[i].row.holder == Some(g) && run.states[j].row.holder != Some(g)
    ensures i <= k < j && run.states[k + 1].row.holder != Some(g)
    ensures forall m :: i <= m <= k ==> run.states[m].row.holder == Some(g)
    decreases j - i
  {
    if run.states[i + 1].row.holder != Some(g) {
      k := i;
    } else {
      k := FirstLoss(run, i + 1, j, g);
    }
  }

  /** Exclusivity over every interleaving: once g is granted the claim, another grader's grade
      commits only after g ended it, an offline accept cleared it, or someone else was granted it
      strictly more than the TTL after g's newest claim or heartbeat. */
  lemma LeaseIsExclusive(run: Run, i: nat, j: nat, g: UserId, h: UserId)
    requires run.Valid() && i < j < |run.plans| && g != h
    requires run.Granted(i, g) && run.Graded(j, h)
    ensures exists k :: i < k < j && (run.Ended(k, g) || exists r :: i <= r < k && run.TakenAfterExpiry(k, g, r))
  {
    assert run.StepAt(i) && run.StepAt(j);
    var k := FirstLoss(run, i + 1, j, g);
    HolderLost(run, k, g);
    if !run.Ended(k, g) {
      var r := LeaseRunsFromNewestRenewal(run, i, k, g);
      assert run.TakenAfterExpiry(k, g, r);
    }
  }

  /** Whoever holds the claim was granted it, and has held it ever since. */
  lemma {:induction false} HolderWasGranted(run: Run, k: nat, g: UserId) returns (i: nat)
    requires run.Valid() && k <= |run.plans| && run.states[k].row.holder == Some(g)
    ensures i < k && run.Granted(i, g)
    ensures forall j :: i < j <= k ==> run.states[j].row.holder == Some(g)
    decreases k
  {
    assert k > 0;
    assert run.StepAt(k - 1);
    if run.states[k - 1].row.holder == Some(g) {
      i := HolderWasGranted(run, k - 1, g);
    } else {
      i := k - 1;
    }
  }

  /** A grade or a heartbeat of g lands only within fifteen minutes of the newest claim or heartbeat of g, which has
      held the claim ever since. */
  lemma LandsWithinTheLease(run: Run, i: nat, g: UserId) returns (r: nat)
    requires run.Valid() && i < |run.plans| && Lands(run.states[i], run.plans[i], run.nows[i])
    requires run.plans[i] == ToHeartbeat(g) || (run.plans[i].ToGrade? && run.plans[i].grader == g)
    ensures r < i && run.Renewed(r, g) && run.nows[i] < run.nows[r] + 15 * 60
    ensures forall j :: r < j < i ==> !run.Renewed(j, g)
    ensures forall j :: r < j <= i ==> run.states[j].row.holder == Some(g)
  {
    var first := HolderWasGranted(run, i, g);
    r := LeaseRunsFromNewestRenewal(run, first, i, g);
  }

  function GradedEvents(log: seq<Event>): nat {
    if log == [] then 0
    else GradedEvents(log[..|log| - 1]) + if log[|log| - 1].kind == KindGraded then 1 else 0
  }

  function Grants(run: Run, n: nat): nat
    requires n <= |run.plans| && n <= |run.states| && n <= |run.nows|
  {
    if n == 0 then 0
    else Grants(run, n - 1)
         + if run.plans[n - 1].ToClaim? && Lands(run.states[n - 1], run.plans[n - 1], run.nows[n - 1]) then 1 else 0
  }

  /** A grade gives the claim up, a grant takes it, and nothing else creates either. */
  lemma CommitCounts(t: Thread, p: Plan, now: int)
    ensures var c := Commit(t, p, now);
            GradedEvents(c.log) + (if c.row.holder.Some? then 1 else 0)
            <= GradedEvents(t.log) + (if t.row.holder.Some? then 1 else 0)
               + (if p.ToClaim? && Lands(t, p, now) then 1 else 0)
  {
    if EventOf(p).Some? {
      assert (t.log + [EventOf(p).value])[..|t.log|] == t.log;
    }
  }

  /** Every graded event in the log used up a grant of its own, and the claim now held is one more. */
  lemma {:induction false} GradesNeverOutnumberGrants(run: Run, n: nat)
    requires run.Valid() && n < |run.states|
    ensures GradedEvents(run.states[n].log) + (if run.states[n].row.holder.Some? then 1 else 0) <= Grants(run, n)
  {
    hide GradedEvents, Commit, Lands, Fresh;
    if n == 0 {
      NoGrades();
    } else {
      GradesNeverOutnumberGrants(run, n - 1);
      assert run.StepAt(n - 1);
      CommitCounts(run.states[n - 1], run.plans[n - 1], run.nows[n - 1]);
    }
  }

  lemma NoGrades()
    ensures GradedEvents(FRESH_THREAD.log) == 0
  {
  }
}
