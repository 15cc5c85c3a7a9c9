/** Thread statuses, event kinds and the transition table (internal/homework/state.go). */
module HomeworkState {
  datatype Status = Ungraded | Submitted | Accepted | Rejected | Appealed

  datatype Kind =
    | KindSubmitted | KindClaimed | KindReleased | KindGraded
    | KindRetracted | KindAppealed | KindAcceptedOffline | KindOfflineRetracted

  datatype Verdict = VerdictAccepted | VerdictRejected

  predicate CanTransition(current: Status, kind: Kind) {
    match current
    case Ungraded => kind in {KindSubmitted, KindAcceptedOffline}
    case Submitted => kind in {KindClaimed, KindReleased, KindGraded, KindAcceptedOffline}
    case Rejected => kind in {KindSubmitted, KindAppealed, KindAcceptedOffline, KindRetracted}
    case Appealed => kind in {KindClaimed, KindReleased, KindGraded, KindAcceptedOffline}
    case Accepted => kind in {KindRetracted, KindOfflineRetracted}
  }
}

/** The homework_thread row and the UPDATE statements that touch it (internal/store/homework.sql.go).
    An UPDATE whose WHERE clause can miss returns None when it affects no row. */
module HomeworkRow {
  import opened Prelude
  import opened HomeworkState

  /** Fifteen minutes, in seconds. */
  const CLAIM_TTL := 900

  datatype Row = Row(
    status: Status,
    attempt: Option<nat>,
    grade: Option<nat>,
    lastGrader: Option<UserId>,
    lastGraderName: string,
    holder: Option<UserId>,
    expires: Option<int>)
  {
    predicate HeldBy(grader: UserId, now: int) {
      holder == Some(grader) && expires.Some? && expires.value > now
    }

    function TryClaim(grader: UserId, now: int): Option<Row> {
      if holder.None? || (expires.Some? && expires.value < now) || holder == Some(grader)
      then Some(this.(holder := Some(grader), expires := Some(now + CLAIM_TTL)))
      else None
    }

    function HeartbeatClaim(grader: UserId, now: int): Option<Row> {
      if HeldBy(grader, now) then Some(this.(expires := Some(now + CLAIM_TTL))) else None
    }

    function ReleaseClaim(grader: UserId): Option<Row> {
      if holder == Some(grader) then Some(this.(holder := None, expires := None)) else None
    }

    function AfterSubmit(event: nat): Row {
      this.(status := Submitted, attempt := Some(event))
    }

    function AfterAppeal(event: nat): Row {
      this.(status := Appealed, attempt := Some(event))
    }

    function AfterGrade(verdict: Verdict, event: nat, grader: UserId, now: int): Option<Row> {
      if HeldBy(grader, now)
      then Some(this.(status := if verdict == VerdictAccepted then Accepted else Rejected,
                      grade := Some(event), lastGrader := Some(grader), holder := None, expires := None))
      else None
    }

    function AfterOfflineAccept(event: nat, credited: Option<UserId>, name: string): Row {
      this.(status := Accepted, grade := Some(event), lastGrader := credited, lastGraderName := name,
            holder := None, expires := None)
    }

    function AfterOfflineUndo(rollback: Status): Row {
      this.(status := rollback, grade := None, lastGraderName := "")
    }

    function AfterRetract(rollback: Status): Row {
      this.(status := rollback, grade := None)
    }
  }

  /** The column defaults of a freshly inserted thread. */
  const FRESH_ROW := Row(Ungraded, None, None, None, "", None, None)
}
