/** The append-only event log of one homework thread, read without the cache columns:
    what the log alone says the thread's state is, and which logs the handlers can write. */
module HomeworkLog {
  import opened Prelude
  import opened HomeworkState
  import opened HomeworkRow

  /** One homework_thread_event row; its id is its position in the log.
      `byAdmin` records the role the caller acted in, which the table itself does not store. */
  datatype Event = Event(
    kind: Kind,
    actor: UserId,
    byAdmin: bool,
    verdict: Option<Verdict>,
    refersTo: Option<nat>,
    offline: bool,
    creditedUser: Option<UserId>,
    creditedName: string)

  const ATTEMPTS := {KindSubmitted, KindAppealed}
  const VERDICTS := {KindGraded, KindAcceptedOffline}
  const UNDOS := {KindRetracted, KindOfflineRetracted}

  /** The newest event of one of the given kinds (ORDER BY id DESC LIMIT 1). */
  function Latest(log: seq<Event>, kinds: set<Kind>): (r: Option<nat>)
    ensures r.Some? ==> r.value < |log| && log[r.value].kind in kinds
    ensures r.Some? ==> forall k :: r.value < k < |log| ==> log[k].kind !in kinds
    ensures r.None? ==> forall k :: 0 <= k < |log| ==> log[k].kind !in kinds
  {
    if log == [] then None
    else if log[|log| - 1].kind in kinds then Some(|log| - 1)
    else Latest(log[..|log| - 1], kinds)
  }

  function Attempt(log: seq<Event>): Option<nat> {
    Latest(log, ATTEMPTS)
  }

  /** The verdict nobody has undone since: the newest verdict-or-undo event, if it is a verdict. */
  function GradeInForce(log: seq<Event>): (r: Option<nat>)
    ensures r.Some? ==> r.value < |log| && log[r.value].kind in VERDICTS
  {
    var last := Latest(log, VERDICTS + UNDOS);
    if last.Some? && log[last.value].kind in VERDICTS then last else None
  }

  /** rollbackStatus and offlineRollbackStatus: the status an attempt implies, `fallback` without one. */
  function Rollback(log: seq<Event>, attempt: Option<nat>, fallback: Status): Status {
    if attempt.None? then fallback
    else if attempt.value < |log| && log[attempt.value].kind == KindAppealed then Appealed
    else Submitted
  }

  /** Where undoing a verdict leaves the thread. */
  function PendingStatus(log: seq<Event>, fallback: Status): Status {
    Rollback(log, Attempt(log), fallback)
  }

  function StatusOf(log: seq<Event>): Status {
    if log == [] then Ungraded
    else
      var e := log[|log| - 1];
      match e.kind
      case KindSubmitted => Submitted
      case KindAppealed => Appealed
      case KindGraded => if e.verdict == Some(VerdictAccepted) then Accepted else Rejected
      case KindAcceptedOffline => Accepted
      case KindRetracted => PendingStatus(log, Submitted)
      case KindOfflineRetracted => PendingStatus(log, Ungraded)
      case KindClaimed => StatusOf(log[..|log| - 1])
      case KindReleased => StatusOf(log[..|log| - 1])
  }

  function LastGrader(log: seq<Event>): Option<UserId> {
    var v := Latest(log, VERDICTS);
    if v.None? then None
    else if log[v.value].kind == KindGraded then Some(log[v.value].actor)
    else log[v.value].creditedUser
  }

  function LastGraderName(log: seq<Event>): string {
    var v := Latest(log, {KindAcceptedOffline, KindOfflineRetracted});
    if v.Some? && log[v.value].kind == KindAcceptedOffline then log[v.value].creditedName else ""
  }

  /** Everything homework_thread caches about its log. */
  datatype Cache = Cache(status: Status, attempt: Option<nat>, grade: Option<nat>,
                         lastGrader: Option<UserId>, lastGraderName: string)

  /** The cache columns of a row. */
  function Cached(row: Row): Cache {
    Cache(row.status, row.attempt, row.grade, row.lastGrader, row.lastGraderName)
  }

  function Replay(log: seq<Event>): Cache {
    Cache(StatusOf(log), Attempt(log), GradeInForce(log), LastGrader(log), LastGraderName(log))
  }

  predicate GradeIsOffline(log: seq<Event>) {
    GradeInForce(log).Some? && log[GradeInForce(log).value].offline
  }

  predicate MayAct(log: seq<Event>, e: Event) {
    e.byAdmin || LastGrader(log) == Some(e.actor)
  }

  /** The event a handler may append to a log, guards and fields together. */
  predicate Enabled(log: seq<Event>, e: Event) {
    match e.kind
    case KindSubmitted =>
      CanTransition(StatusOf(log), KindSubmitted) && e.refersTo.None? && e.verdict.None? && !e.offline
    case KindAppealed =>
      StatusOf(log) == Rejected && e.refersTo == GradeInForce(log) && e.verdict.None? && !e.offline
    case KindGraded =>
      CanTransition(StatusOf(log), KindGraded) && e.refersTo == Attempt(log) && e.verdict.Some? && !e.offline
      && (StatusOf(log) == Appealed ==> MayAct(log, e))
    case KindRetracted =>
      StatusOf(log) in {Accepted, Rejected} && MayAct(log, e) && e.verdict.None? && !e.offline
      && e.refersTo.Some? && e.refersTo == Latest(log, {KindGraded})
    case KindAcceptedOffline =>
      (StatusOf(log) == Accepted ==> GradeIsOffline(log))
      && e.refersTo.None? && e.verdict == Some(VerdictAccepted) && e.offline
    case KindOfflineRetracted =>
      StatusOf(log) == Accepted && GradeIsOffline(log) && e.refersTo == GradeInForce(log)
      && e.verdict.None? && e.offline
    case KindClaimed => false
    case KindReleased => false
  }

  /** Logs the handlers can write: every event was enabled when it was appended. */
  predicate Legal(log: seq<Event>) {
    forall i :: 0 <= i < |log| ==> EnabledAt(log, i)
  }

  predicate EnabledAt(log: seq<Event>, i: nat)
    requires i < |log|
  {
    Enabled(log[..i], log[i])
  }

  /** A legal log stays legal under an append exactly when the event was enabled. */
  lemma LegalAppend(log: seq<Event>, e: Event)
    requires Legal(log)
    ensures Legal(log + [e]) <==> Enabled(log, e)
  {
    var longer := log + [e];
    assert longer[..|log|] == log;
    forall i | 0 <= i < |log| ensures EnabledAt(longer, i) {
      assert EnabledAt(log, i);
      assert longer[..i] == log[..i];
    }
    assert EnabledAt(longer, |log|) <==> Enabled(log, e);
  }

  lemma LegalPrefix(log: seq<Event>, n: nat)
    requires Legal(log) && n <= |log|
    ensures Legal(log[..n])
  {
    forall i | 0 <= i < n ensures EnabledAt(log[..n], i) {
      assert EnabledAt(log, i);
      assert log[..n][..i] == log[..i];
    }
  }

  /** An append moves the newest position of the event's own kinds and of no others. */
  lemma LatestOfAppend(log: seq<Event>, e: Event, kinds: set<Kind>)
    ensures Latest(log + [e], kinds) == if e.kind in kinds then Some(|log|) else Latest(log, kinds)
  {
    assert (log + [e])[..|log|] == log;
  }

  lemma PointersOfAppend(log: seq<Event>, e: Event)
    ensures Attempt(log + [e]) == if e.kind in ATTEMPTS then Some(|log|) else Attempt(log)
    ensures GradeInForce(log + [e]) ==
      if e.kind in VERDICTS then Some(|log|) else if e.kind in UNDOS then None else GradeInForce(log)
  {
    LatestOfAppend(log, e, ATTEMPTS);
    LatestOfAppend(log, e, VERDICTS + UNDOS);
  }

  lemma CreditOfAppend(log: seq<Event>, e: Event)
    ensures LastGrader(log + [e]) ==
      if e.kind == KindGraded then Some(e.actor)
      else if e.kind == KindAcceptedOffline then e.creditedUser else LastGrader(log)
    ensures LastGraderName(log + [e]) ==
      if e.kind == KindAcceptedOffline then e.creditedName
      else if e.kind == KindOfflineRetracted then "" else LastGraderName(log)
  {
    LatestOfAppend(log, e, VERDICTS);
    LatestOfAppend(log, e, {KindAcceptedOffline, KindOfflineRetracted});
  }

  /** Every other event sets the status by itself. */
  lemma StatusOfEvent(log: seq<Event>, e: Event)
    requires e.kind in ATTEMPTS + VERDICTS
    ensures StatusOf(log + [e]) ==
      if e.kind == KindSubmitted then Submitted else if e.kind == KindAppealed then Appealed
      else if e.kind == KindAcceptedOffline || e.verdict == Some(VerdictAccepted) then Accepted else Rejected
  {
  }

  /** An undo leaves the thread in the status its newest attempt implies. */
  lemma StatusOfUndo(log: seq<Event>, e: Event)
    requires e.kind in UNDOS
    ensures StatusOf(log + [e]) == PendingStatus(log, if e.kind == KindRetracted then Submitted else Ungraded)
  {
    LatestOfAppend(log, e, ATTEMPTS);
  }

  /** Invariant of every reachable log: a pending or graded thread has an attempt behind it, so the
      "no current attempt" fallback of a retraction is never taken. */
  lemma {:induction false} AttemptBehindGrade(log: seq<Event>)
    requires Legal(log)
    ensures StatusOf(log) in {Submitted, Appealed, Rejected} ==> Attempt(log).Some?
    ensures Latest(log, {KindGraded}).Some? ==> Attempt(log).Some?
  {
    if log != [] {
      var p, e := log[..|log| - 1], log[|log| - 1];
      LegalPrefix(log, |log| - 1);
      AttemptBehindGrade(p);
      assert EnabledAt(log, |log| - 1);
      assert log == p + [e];
      PointersOfAppend(p, e);
      LatestOfAppend(p, e, {KindGraded});
    }
  }

  /** A settled status is backed by a verdict in force that says so. */
  lemma StatusBackedByGrade(log: seq<Event>)
    requires Legal(log)
    ensures StatusOf(log) == Accepted ==>
      GradeInForce(log).Some? && log[GradeInForce(log).value].verdict == Some(VerdictAccepted)
    ensures StatusOf(log) == Rejected ==>
      GradeInForce(log).Some? && log[GradeInForce(log).value].kind == KindGraded
      && log[GradeInForce(log).value].verdict == Some(VerdictRejected)
    ensures GradeIsOffline(log) ==> log[GradeInForce(log).value].kind == KindAcceptedOffline
  {
    hide Latest, LastGrader, LastGraderName, Attempt, Legal;
    if log != [] {
      var p, e := log[..|log| - 1], log[|log| - 1];
      assert log == p + [e] && EnabledAt(log, |log| - 1) by { LegalAt(log, |log| - 1); }
      PointersOfAppend(p, e);
      if StatusOf(log) == Rejected {
        assert e.kind == KindGraded && e.verdict.Some?;
        match e.verdict.value { case VerdictAccepted => case VerdictRejected => }
      }
      if GradeInForce(log).Some? {
        LegalAt(log, GradeInForce(log).value);
      }
    }
  }

  lemma LegalAt(log: seq<Event>, i: nat)
    requires Legal(log) && i < |log|
    ensures EnabledAt(log, i)
  {
  }

  /** What every reference in a reachable log points at. */
  lemma ReferencesAreSound(log: seq<Event>, i: nat)
    requires Legal(log) && i < |log|
    ensures log[i].kind == KindGraded ==>
      exists a :: 0 <= a < i && log[i].refersTo == Some(a) && log[a].kind in ATTEMPTS
                  && forall k :: a < k < i ==> log[k].kind !in ATTEMPTS
    ensures log[i].kind == KindAppealed ==>
      exists g :: 0 <= g < i && log[i].refersTo == Some(g) && log[g].kind == KindGraded
                  && log[g].verdict == Some(VerdictRejected) && GradeInForce(log[..i]) == Some(g)
    ensures log[i].kind == KindOfflineRetracted ==>
      exists g :: 0 <= g < i && log[i].refersTo == Some(g) && log[g].kind == KindAcceptedOffline
                  && GradeInForce(log[..i]) == Some(g)
  {
    var p := log[..i];
    LegalPrefix(log, i);
    assert EnabledAt(log, i);
    AttemptBehindGrade(p);
    StatusBackedByGrade(p);
    if log[i].kind == KindGraded {
      var a := Attempt(p).value;
      assert log[a] == p[a];
      assert forall k :: a < k < i ==> log[k] == p[k];
    } else if log[i].kind in {KindAppealed, KindOfflineRetracted} {
      var g := GradeInForce(p).value;
      assert log[g] == p[g];
    }
  }

  /** A retraction refers to the verdict it actually takes back exactly when that verdict was not
      an offline accept: the handler looks up the newest graded event, not the grade in force. */
  lemma RetractionTarget(log: seq<Event>, i: nat)
    requires Legal(log) && i < |log| && log[i].kind == KindRetracted
    ensures GradeInForce(log[..i]).Some?
    ensures log[i].refersTo == GradeInForce(log[..i]) <==> !GradeIsOffline(log[..i])
  {
    var p := log[..i];
    LegalPrefix(log, i);
    assert EnabledAt(log, i);
    StatusBackedByGrade(p);
    var g := GradeInForce(p).value;
    assert EnabledAt(p, g);
    if !GradeIsOffline(p) {
      assert p[g].kind == KindGraded;
      assert forall k :: g < k < |p| ==> p[k].kind !in VERDICTS;
    }
  }

  /** A submission and its rejection. */
  lemma RejectedLog(student: UserId, grader: UserId) returns (log: seq<Event>)
    ensures Legal(log) && |log| == 2 && log[0].kind == KindSubmitted && Attempt(log) == Some(0)
    ensures StatusOf(log) == Rejected && Latest(log, {KindGraded}) == Some(1)
  {
    var e0 := Event(KindSubmitted, student, false, None, None, false, None, "");
    var e1 := Event(KindGraded, grader, false, Some(VerdictRejected), Some(0), false, None, "");
    LegalAppend([], e0);
    PointersOfAppend([], e0);
    LegalAppend([e0], e1);
    PointersOfAppend([e0], e1);
    log := [e0, e1];
    assert [] + [e0] == [e0] && [e0] + [e1] == log;
  }

  /** The failing side of RetractionTarget is reachable: a rejection, an offline accept over it,
      then a retraction, which names the rejection while the offline accept was in force. */
  lemma RetractionCanMissTheGradeInForce(student: UserId, grader: UserId) returns (log: seq<Event>)
    ensures Legal(log) && |log| == 4 && log[3].kind == KindRetracted
    ensures log[3].refersTo == Some(1) && GradeInForce(log[..3]) == Some(2)
  {
    var rejected := RejectedLog(student, grader);
    var accept := Event(KindAcceptedOffline, grader, false, Some(VerdictAccepted), None, true, Some(grader), "A B");
    var retract := Event(KindRetracted, grader, false, None, Some(1), false, None, "");
    var accepted := rejected + [accept];
    hide Latest, GradeInForce, LastGrader, LastGraderName;
    LegalAppend(rejected, accept);
    PointersOfAppend(rejected, accept);
    CreditOfAppend(rejected, accept);
    LatestOfAppend(rejected, accept, {KindGraded});
    LegalAppend(accepted, retract);
    log := accepted + [retract];
    assert log[..3] == accepted;
  }

  /** Undoing an offline accept restores the status it superseded exactly when that status was
      neither a rejection nor already accepted; the attempt is always the one from before. */
  lemma OfflineUndoRestores(log: seq<Event>, accept: Event, undo: Event)
    requires Legal(log) && accept.kind == KindAcceptedOffline && undo.kind == KindOfflineRetracted
    requires Enabled(log, accept) && Enabled(log + [accept], undo)
    ensures var after := log + [accept] + [undo];
            (StatusOf(after) == StatusOf(log) <==> StatusOf(log) !in {Rejected, Accepted})
            && Attempt(after) == Attempt(log) && GradeInForce(after).None?
  {
    var mid := log + [accept];
    LegalAppend(log, accept);
    PointersOfAppend(log, accept);
    PointersOfAppend(mid, undo);
    StatusOfUndo(mid, undo);
    AttemptBehindGrade(log);
    PendingMeansPending(log);
    if Attempt(log).Some? {
      assert mid[Attempt(log).value] == log[Attempt(log).value];
    }
  }

  /** The failing side of OfflineUndoRestores is reachable: a rejection, an offline accept over it and its undo
      leave the thread submitted although nothing new was handed in. */
  lemma OfflineUndoCanLoseARejection(student: UserId, grader: UserId) returns (log: seq<Event>, accept: Event, undo: Event)
    ensures Legal(log + [accept] + [undo])
    ensures accept.kind == KindAcceptedOffline && undo.kind == KindOfflineRetracted
    ensures StatusOf(log) == Rejected && StatusOf(log + [accept] + [undo]) == Submitted
  {
    log := RejectedLog(student, grader);
    accept := Event(KindAcceptedOffline, grader, false, Some(VerdictAccepted), None, true, Some(grader), "A B");
    undo := Event(KindOfflineRetracted, grader, false, None, Some(2), true, None, "");
    hide Latest, LastGrader, LastGraderName;
    LegalAppend(log, accept);
    PointersOfAppend(log, accept);
    LegalAppend(log + [accept], undo);
    StatusOfUndo(log + [accept], undo);
  }

  /** A thread waiting for a grader is in the status its newest attempt implies, and an
      ungraded one has no attempt. */
  lemma {:induction false} PendingMeansPending(log: seq<Event>)
    requires Legal(log)
    ensures StatusOf(log) in {Submitted, Appealed} ==> StatusOf(log) == PendingStatus(log, Ungraded)
    ensures StatusOf(log) == Ungraded ==> Attempt(log).None?
  {
    if log != [] {
      var p, e := log[..|log| - 1], log[|log| - 1];
      LegalPrefix(log, |log| - 1);
      assert EnabledAt(log, |log| - 1);
      assert log == p + [e];
      AttemptBehindGrade(p);
      AttemptBehindGrade(log);
      PointersOfAppend(p, e);
    }
  }

  /** A thread stays settled until a new attempt or an undo. */
  lemma SettledUntilUndone(log: seq<Event>, i: nat, j: nat)
    requires Legal(log) && i < j <= |log| && log[i].kind in VERDICTS
    requires forall k :: i < k < j ==> log[k].kind !in ATTEMPTS + UNDOS
    ensures StatusOf(log[..j]) in {Accepted, Rejected}
  {
    assert EnabledAt(log, j - 1);
    assert log[..j][j - 1] == log[j - 1];
  }

  /** No attempt is settled twice: between two verdicts lies a new attempt or an undo, unless the
      second merely re-credits an offline accept. */
  lemma VerdictsAreSeparated(log: seq<Event>, i: nat, j: nat)
    requires Legal(log) && i < j < |log|
    requires log[i].kind in VERDICTS && log[j].kind == KindGraded
    ensures exists k :: i < k < j && log[k].kind in ATTEMPTS + UNDOS
  {
    assert EnabledAt(log, j);
    if forall k :: i < k < j ==> log[k].kind !in ATTEMPTS + UNDOS {
      SettledUntilUndone(log, i, j);
    }
  }

  /** Who answers an appeal: an administrator, or whoever gave the newest verdict; and as long as
      no offline accept came after the disputed rejection, that is whoever issued it. */
  lemma AppealsGoBackToTheirGrader(log: seq<Event>, i: nat, a: nat, g: nat)
    requires Legal(log) && g < a < i < |log|
    requires log[i].kind == KindGraded && log[i].refersTo == Some(a) && !log[i].byAdmin
    requires log[a].kind == KindAppealed && log[a].refersTo == Some(g)
    requires forall k :: g < k < i ==> log[k].kind !in VERDICTS
    ensures log[i].actor == log[g].actor
  {
    var p := log[..i];
    LegalPrefix(log, i);
    assert EnabledAt(log, i);
    ReferencesAreSound(log, a);
    PendingMeansPending(p);
    assert p[a] == log[a] && Attempt(p) == Some(a);
    assert StatusOf(p) == Appealed;
    assert p[g] == log[g];
    assert forall k :: g < k < i ==> p[k] == log[k];
    assert Latest(p, VERDICTS) == Some(g);
  }
}
