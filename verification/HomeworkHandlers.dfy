/** The homework handlers as atomic steps on one thread: the row they update in place and the log
    they append to (internal/handlers/homework over internal/store/homework.sql.go). */
module HomeworkHandlers {
  import opened Prelude
  import opened HomeworkState
  import opened HomeworkRow
  import opened HomeworkLog

  /** 2xx, 409 and 403. */
  datatype Outcome = Done | Conflict | Forbidden

  class ThreadStore {
    var row: Row
    var log: seq<Event>

    /** The log is one the handlers could have written, and the cache columns are its replay. */
    ghost predicate Valid()
      reads this
    {
      Legal(log) && Cached(row) == Replay(log)
    }

    constructor ()
      ensures Valid() && row == FRESH_ROW && log == []
    {
      row, log := FRESH_ROW, [];
    }

    /** Submission is open from ungraded and rejected, while the series is. */
    method SubmitAttempt(student: UserId, closed: bool) returns (outcome: Outcome)
      requires Valid()
      modifies this
      ensures Valid() && row.holder == old(row.holder) && row.expires == old(row.expires)
      ensures outcome ==
        if !closed && old(StatusOf(log)) in {Ungraded, Rejected} then Done else Conflict
      ensures outcome != Done ==> row == old(row) && log == old(log)
      ensures outcome == Done ==>
        log == old(log) + [Event(KindSubmitted, student, false, None, None, false, None, "")]
        && row == old(row).(status := Submitted, attempt := Some(|old(log)|))
    {
      hide Latest, Attempt, GradeInForce, LastGrader, LastGraderName, PendingStatus;
      if closed || !CanTransition(row.status, KindSubmitted) {
        return Conflict;
      }
      var e := Event(KindSubmitted, student, false, None, None, false, None, "");
      LegalAppend(log, e);
      PointersOfAppend(log, e);
      CreditOfAppend(log, e);
      var id := |log|;
      log := log + [e];
      row := row.AfterSubmit(id);
      return Done;
    }

    /** An appeal disputes the rejection in force and leaves the teacher of record alone. */
    method AppealGrade(student: UserId) returns (outcome: Outcome)
      requires Valid()
      modifies this
      ensures Valid() && row.holder == old(row.holder) && row.expires == old(row.expires)
      ensures outcome == if old(StatusOf(log)) == Rejected then Done else Conflict
      ensures outcome != Done ==> row == old(row) && log == old(log)
      ensures outcome == Done ==>
        log == old(log) + [Event(KindAppealed, student, false, None, old(GradeInForce(log)), false, None, "")]
        && row == old(row).(status := Appealed, attempt := Some(|old(log)|))
    {
      hide Latest, Attempt, GradeInForce, LastGrader, LastGraderName, PendingStatus;
      if row.status != Rejected {
        return Conflict;
      }
      var e := Event(KindAppealed, student, false, None, row.grade, false, None, "");
      LegalAppend(log, e);
      PointersOfAppend(log, e);
      CreditOfAppend(log, e);
      var id := |log|;
      log := log + [e];
      row := row.AfterAppeal(id);
      return Done;
    }

    /** Guards on the thread, then the transaction: append, conditional UPDATE, roll back on zero rows. */
    method Grade(grader: UserId, admin: bool, verdict: Verdict, now: int) returns (outcome: Outcome)
      requires Valid()
      modifies this
      ensures Valid()
      ensures outcome ==
        if old(StatusOf(log)) !in {Submitted, Appealed} then Conflict
        else if old(StatusOf(log)) == Appealed && !admin && old(LastGrader(log)) != Some(grader) then Forbidden
        else if old(row.holder) == Some(grader) && old(row.expires).Some? && now < old(row.expires).value then Done
        else Conflict
      ensures outcome != Done ==> row == old(row) && log == old(log)
      ensures outcome == Done ==>
        log == old(log) + [Event(KindGraded, grader, admin, Some(verdict), old(Attempt(log)), false, None, "")]
        && row == old(row).(status := if verdict == VerdictAccepted then Accepted else Rejected,
                            grade := Some(|old(log)|), lastGrader := Some(grader), holder := None, expires := None)
    {
      hide Latest, Attempt, GradeInForce, LastGrader, LastGraderName, PendingStatus;
      if !CanTransition(row.status, KindGraded) {
        return Conflict;
      }
      if row.status == Appealed && !admin && (row.lastGrader.None? || row.lastGrader.value != grader) {
        return Forbidden;
      }
      var saved := log;
      var e := Event(KindGraded, grader, admin, Some(verdict), row.attempt, false, None, "");
      LegalAppend(log, e);
      PointersOfAppend(log, e);
      CreditOfAppend(log, e);
      var id := |log|;
      log := log + [e];
      var updated := row.AfterGrade(verdict, id, grader, now);
      if updated.None? {
        log := saved;
        return Conflict;
      }
      row := updated.value;
      return Done;
    }

    /** The cached attempt gives the status the log implies. */
    method RollbackStatus(fallback: Status) returns (status: Status)
      requires Valid()
      ensures status == PendingStatus(log, fallback)
    {
      if row.attempt.None? {
        return fallback;
      }
      return if log[row.attempt.value].kind == KindAppealed then Appealed else Submitted;
    }

    method Retract(caller: UserId, admin: bool) returns (outcome: Outcome)
      requires Valid()
      modifies this
      ensures Valid() && row.holder == old(row.holder) && row.expires == old(row.expires)
      ensures outcome ==
        if !admin && old(LastGrader(log)) != Some(caller) then Forbidden
        else if old(StatusOf(log)) in {Accepted, Rejected} && old(Latest(log, {KindGraded})).Some? then Done
        else Conflict
      ensures outcome != Done ==> row == old(row) && log == old(log)
      ensures outcome == Done ==> row.status in {Submitted, Appealed} && row.grade.None?
      ensures outcome == Done ==> row == old(row).(status := old(PendingStatus(log, Submitted)), grade := None)
      ensures outcome == Done ==>
        log == old(log) + [Event(KindRetracted, caller, admin, None, old(Latest(log, {KindGraded})), false, None, "")]
    {
      hide Latest, Attempt, GradeInForce, LastGrader, LastGraderName;
      if !admin && (row.lastGrader.None? || row.lastGrader.value != caller) {
        return Forbidden;
      }
      if row.status != Accepted && row.status != Rejected {
        return Conflict;
      }
      var graded := Latest(log, {KindGraded});
      if graded.None? {
        return Conflict;
      }
      var rollback := RollbackStatus(Submitted);
      var e := Event(KindRetracted, caller, admin, None, graded, false, None, "");
      LegalAppend(log, e);
      PointersOfAppend(log, e);
      CreditOfAppend(log, e);
      StatusOfUndo(log, e);
      log := log + [e];
      row := row.AfterRetract(rollback);
      return Done;
    }

    /** An offline accept supersedes any state but an online accept, and clears the claim. */
    method OfflineAccept(teacher: UserId, credited: Option<UserId>, name: string) returns (outcome: Outcome)
      requires Valid()
      modifies this
      ensures Valid()
      ensures outcome == if old(StatusOf(log)) == Accepted && !old(GradeIsOffline(log)) then Conflict else Done
      ensures outcome != Done ==> row == old(row) && log == old(log)
      ensures outcome == Done ==>
        log == old(log) + [Event(KindAcceptedOffline, teacher, false, Some(VerdictAccepted), None, true, credited, name)]
        && row == old(row).(status := Accepted, grade := Some(|old(log)|), lastGrader := credited, lastGraderName := name,
                            holder := None, expires := None)
    {
      hide Latest, Attempt, GradeInForce, LastGrader, LastGraderName, PendingStatus;
      if row.status == Accepted {
        if row.grade.None? || !log[row.grade.value].offline {
          return Conflict;
        }
      } else if !CanTransition(row.status, KindAcceptedOffline) {
        return Conflict;
      }
      var e := Event(KindAcceptedOffline, teacher, false, Some(VerdictAccepted), None, true, credited, name);
      LegalAppend(log, e);
      PointersOfAppend(log, e);
      CreditOfAppend(log, e);
      var id := |log|;
      log := log + [e];
      row := row.AfterOfflineAccept(id, credited, name);
      return Done;
    }

    method OfflineUndo(teacher: UserId) returns (outcome: Outcome)
      requires Valid()
      modifies this
      ensures Valid() && row.holder == old(row.holder) && row.expires == old(row.expires)
      ensures outcome == if old(StatusOf(log)) == Accepted && old(GradeIsOffline(log)) then Done else Conflict
      ensures outcome != Done ==> row == old(row) && log == old(log)
      ensures outcome == Done ==>
        log == old(log) + [Event(KindOfflineRetracted, teacher, false, None, old(GradeInForce(log)), true, None, "")]
        && row == old(row).(status := old(PendingStatus(log, Ungraded)), grade := None, lastGraderName := "")
    {
      hide Latest, Attempt, GradeInForce, LastGrader, LastGraderName, PendingStatus;
      if !CanTransition(row.status, KindOfflineRetracted) {
        return Conflict;
      }
      if row.grade.None? || !log[row.grade.value].offline {
        return Conflict;
      }
      var rollback := RollbackStatus(Ungraded);
      var e := Event(KindOfflineRetracted, teacher, false, None, row.grade, true, None, "");
      LegalAppend(log, e);
      PointersOfAppend(log, e);
      CreditOfAppend(log, e);
      StatusOfUndo(log, e);
      log := log + [e];
      row := row.AfterOfflineUndo(rollback);
      return Done;
    }

    /** Claiming looks at nothing but the lease, and touches nothing else. */
    method Claim(grader: UserId, now: int) returns (outcome: Outcome)
      requires Valid()
      modifies this`row
      ensures Valid()
      ensures outcome == Done <==>
        old(row.holder) in {None, Some(grader)} || (old(row.expires).Some? && old(row.expires).value < now)
      ensures outcome == Done ==> row == old(row).(holder := Some(grader), expires := Some(now + CLAIM_TTL))
      ensures outcome != Done ==> row == old(row)
    {
      var updated := row.TryClaim(grader, now);
      if updated.None? {
        return Conflict;
      }
      row := updated.value;
      return Done;
    }

    method Heartbeat(grader: UserId, now: int) returns (outcome: Outcome)
      requires Valid()
      modifies this`row
      ensures Valid()
      ensures outcome == Done <==>
        old(row.holder) == Some(grader) && old(row.expires).Some? && now < old(row.expires).value
      ensures outcome == Done ==> row == old(row).(expires := Some(now + CLAIM_TTL))
      ensures outcome != Done ==> row == old(row)
    {
      var updated := row.HeartbeatClaim(grader, now);
      if updated.None? {
        return Conflict;
      }
      row := updated.value;
      return Done;
    }

    /** Always answers 204; only the holder's own release changes the row. */
    method Release(grader: UserId)
      requires Valid()
      modifies this`row
      ensures Valid()
      ensures row == if old(row.holder) == Some(grader) then old(row).(holder := None, expires := None) else old(row)
    {
      var updated := row.ReleaseClaim(grader);
      if updated.Some? {
        row := updated.value;
      }
    }
  }
}
