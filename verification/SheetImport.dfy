/** Importing the marks of a conduit tab into the homework threads: conduitTargets and importLink
    (internal/googlesheets/service.go). */
module SheetImport {
  import opened Prelude
  import opened HomeworkState
  import opened HomeworkLog
  import ClaimLease
  import opened SheetText
  import opened SheetHeaders
  import opened SheetAddress
  import opened SheetGrid
  import opened SeriesMerge
  import opened SheetMarkers

  type Thread = ClaimLease.Thread

  /** A thread is identified by its student and subproblem. */
  datatype ThreadId = ThreadId(student: UserId, subproblem: nat)

  type Threads = map<ThreadId, Thread>

  function ThreadAt(threads: Threads, id: ThreadId): Thread {
    if id in threads then threads[id] else ClaimLease.FRESH_THREAD
  }

  function StatusAt(threads: Threads, id: ThreadId): Status {
    ThreadAt(threads, id).row.status
  }

  // ---- targets ----

  /** A subproblem of the term for a student of the group, as the target query joins them. */
  datatype Candidate = Candidate(name: string, series: nat, problem: Problem, id: ThreadId)

  datatype Target = Target(id: ThreadId, status: Status)

  /** conduitTargetKey. */
  function TargetKey(name: string, series: nat, problem: Problem): string {
    NormalizeCell(name) + "|" + Itoa(series) + "|" + Itoa(problem.number) + "|" + NormalizeLabel(problem.tag)
  }

  function CandidateKey(c: Candidate): string {
    TargetKey(c.name, c.series, c.problem)
  }

  function MarkerKey(m: Marker): string {
    TargetKey(m.name, m.series, m.problem)
  }

  function KeyCount(candidates: seq<Candidate>, key: string): nat {
    if candidates == [] then 0
    else
      KeyCount(candidates[..|candidates| - 1], key)
      + if CandidateKey(candidates[|candidates| - 1]) == key then 1 else 0
  }

  /** Two names without a bar share a key only if they normalise alike and ask for the same subproblem. */
  lemma TargetKeySeparates(a: string, s: nat, p: Problem, b: string, t: nat, q: Problem)
    requires '|' !in NormalizeCell(a) && '|' !in NormalizeCell(b)
    ensures TargetKey(a, s, p) == TargetKey(b, t, q)
            <==> NormalizeCell(a) == NormalizeCell(b) && s == t && p.number == q.number
                 && NormalizeLabel(p.tag) == NormalizeLabel(q.tag)
  {
    hide NormalizeCell, NormalizeLabel, Itoa;
    if TargetKey(a, s, p) == TargetKey(b, t, q) {
      var rest := Itoa(s) + "|" + Itoa(p.number) + "|" + NormalizeLabel(p.tag);
      var rest' := Itoa(t) + "|" + Itoa(q.number) + "|" + NormalizeLabel(q.tag);
      assert TargetKey(a, s, p) == NormalizeCell(a) + ['|'] + rest;
      assert TargetKey(b, t, q) == NormalizeCell(b) + ['|'] + rest';
      SplitAt(NormalizeCell(a), '|', rest, NormalizeCell(b), rest');
      NoneInDigits('|', s);
      NoneInDigits('|', t);
      NoneInDigits('|', p.number);
      NoneInDigits('|', q.number);
      var last, last' := Itoa(p.number) + "|" + NormalizeLabel(p.tag), Itoa(q.number) + "|" + NormalizeLabel(q.tag);
      assert rest == Itoa(s) + ['|'] + last && rest' == Itoa(t) + ['|'] + last';
      SplitAt(Itoa(s), '|', last, Itoa(t), last');
      SplitAt(Itoa(p.number), '|', NormalizeLabel(p.tag), Itoa(q.number), NormalizeLabel(q.tag));
      NumberOfItoa(s);
      NumberOfItoa(t);
      NumberOfItoa(p.number);
      NumberOfItoa(q.number);
    }
  }

  ghost predicate TargetsOf(targets: map<string, Target>, candidates: seq<Candidate>, threads: Threads) {
    (forall key :: key in targets <==> KeyCount(candidates, key) == 1)
    && forall c :: c in candidates && KeyCount(candidates, CandidateKey(c)) == 1 ==>
         CandidateKey(c) in targets && targets[CandidateKey(c)] == Target(c.id, StatusAt(threads, c.id))
  }

  lemma {:induction false} NoCandidate(candidates: seq<Candidate>, key: string)
    ensures KeyCount(candidates, key) == 0 <==> forall c :: c in candidates ==> CandidateKey(c) != key
  {
    hide CandidateKey;
    if candidates != [] {
      NoCandidate(candidates[..|candidates| - 1], key);
      assert candidates == candidates[..|candidates| - 1] + [candidates[|candidates| - 1]];
    }
  }

  lemma CountAppend(candidates: seq<Candidate>, c: Candidate, key: string)
    ensures KeyCount(candidates + [c], key) == KeyCount(candidates, key) + if CandidateKey(c) == key then 1 else 0
  {
    assert (candidates + [c])[..|candidates|] == candidates;
  }

  ghost predicate TargetsSoFar(targets: map<string, Target>, ambiguous: set<string>, done: seq<Candidate>,
                               threads: Threads)
  {
    TargetsOf(targets, done, threads) && forall key :: key in ambiguous <==> KeyCount(done, key) >= 2
  }

  lemma NextCandidate(targets: map<string, Target>, ambiguous: set<string>, done: seq<Candidate>, threads: Threads,
                      c: Candidate)
    requires TargetsSoFar(targets, ambiguous, done, threads)
    ensures var key, target := CandidateKey(c), Target(c.id, StatusAt(threads, c.id));
            if key in targets then TargetsSoFar(targets - {key}, ambiguous + {key}, done + [c], threads)
            else if key !in ambiguous then TargetsSoFar(targets[key := target], ambiguous, done + [c], threads)
            else TargetsSoFar(targets, ambiguous, done + [c], threads)
  {
    hide CandidateKey, KeyCount, StatusAt;
    forall key ensures KeyCount(done + [c], key) == KeyCount(done, key) + if CandidateKey(c) == key then 1 else 0 {
      CountAppend(done, c, key);
    }
    NoCandidate(done, CandidateKey(c));
  }

  /** conduitTargets: a key survives exactly when one candidate has it, and then stands for that one. */
  method ConduitTargets(candidates: seq<Candidate>, threads: Threads) returns (targets: map<string, Target>)
    ensures TargetsOf(targets, candidates, threads)
  {
    targets := map[];
    var ambiguous: set<string> := {};
    NoTargets(threads);
    hide *;
    for i := 0 to |candidates|
      invariant TargetsSoFar(targets, ambiguous, candidates[..i], threads)
    {
      var c := candidates[i];
      var key := CandidateKey(c);
      NextCandidate(targets, ambiguous, candidates[..i], threads, c);
      assert candidates[..i + 1] == candidates[..i] + [c];
      if key in targets {
        targets := targets - {key};
        ambiguous := ambiguous + {key};
        continue;
      }
      if key !in ambiguous {
        targets := targets[key := Target(c.id, StatusAt(threads, c.id))];
      }
    }
    assert candidates[..|candidates|] == candidates;
    SoFarIsAll(targets, ambiguous, candidates, threads);
  }

  lemma NoTargets(threads: Threads)
    ensures TargetsSoFar(map[], {}, [], threads)
  {
  }

  lemma SoFarIsAll(targets: map<string, Target>, ambiguous: set<string>, candidates: seq<Candidate>, threads: Threads)
    requires TargetsSoFar(targets, ambiguous, candidates, threads)
    ensures TargetsOf(targets, candidates, threads)
  {
  }

  // ---- importing ----

  /** What an import does to one thread. */
  function Accept(t: Thread, actor: UserId, initials: string): Thread {
    ClaimLease.Commit(t, ClaimLease.ToOfflineAccept(actor, None, initials), 0)
  }

  /** The thread after an import of these initials: one more event, which credits nobody but the initials, a row
      that says the same, and no claim. */
  predicate AcceptedAs(t: Thread, after: Thread, actor: UserId, initials: string) {
    after.log == t.log + [Event(KindAcceptedOffline, actor, false, Some(VerdictAccepted), None, true, None, initials)]
    && after.row == t.row.(status := Accepted, grade := Some(|t.log|), lastGrader := None, lastGraderName := initials,
                           holder := None, expires := None)
  }

  lemma AcceptIsAccepted(t: Thread, actor: UserId, initials: string)
    ensures AcceptedAs(t, Accept(t, actor, initials), actor, initials)
  {
  }

  /** An imported mark accepts the thread and keeps log and cache in agreement. */
  lemma AcceptAgrees(t: Thread, actor: UserId, initials: string)
    requires t.row.status == Ungraded
    ensures Accept(t, actor, initials).row.status == Accepted
    ensures ClaimLease.Agrees(t) ==> ClaimLease.Agrees(Accept(t, actor, initials))
  {
    var p := ClaimLease.ToOfflineAccept(actor, None, initials);
    assert ClaimLease.Read(t, ClaimLease.OfflineAccept(actor, None, initials)) == Some(p);
    if ClaimLease.Agrees(t) {
      ClaimLease.CommitKeepsAgreement(t, p, 0);
    }
  }

  /** A mark that may flip this thread: its key stands for the thread, seen as ungraded. */
  predicate Asks(m: Marker, targets: map<string, Target>, id: ThreadId) {
    MarkerKey(m) in targets && targets[MarkerKey(m)] == Target(id, Ungraded)
  }

  /** The first mark that may flip a thread. */
  function FirstAsking(markers: seq<Marker>, targets: map<string, Target>, id: ThreadId): Option<Marker> {
    if markers == [] then None
    else
      var before := FirstAsking(markers[..|markers| - 1], targets, id);
      if before.Some? then before
      else if Asks(markers[|markers| - 1], targets, id) then Some(markers[|markers| - 1])
      else None
  }

  predicate Flips(threads: Threads, markers: seq<Marker>, targets: map<string, Target>, id: ThreadId) {
    StatusAt(threads, id) == Ungraded && FirstAsking(markers, targets, id).Some?
  }

  /** Exactly the threads of `flipped` have been accepted, each by its first mark; all others are as before. */
  ghost predicate Imported(threads: Threads, after: Threads, markers: seq<Marker>, targets: map<string, Target>,
                           actor: UserId, flipped: set<ThreadId>)
  {
    (forall id :: id in flipped <==> Flips(threads, markers, targets, id))
    && after.Keys == threads.Keys + flipped
    && (forall id :: id in flipped ==>
          after[id] == Accept(ThreadAt(threads, id), actor, FirstAsking(markers, targets, id).value.initials))
    && forall id :: id in threads && id !in flipped ==> after[id] == threads[id]
  }

  /** Mark i is the first that may flip the thread. */
  predicate FirstFor(markers: seq<Marker>, targets: map<string, Target>, id: ThreadId, i: nat) {
    i < |markers| && Asks(markers[i], targets, id) && forall j :: 0 <= j < i ==> !Asks(markers[j], targets, id)
  }

  lemma {:induction false} FirstAskingIs(markers: seq<Marker>, targets: map<string, Target>, id: ThreadId)
    ensures forall i: nat :: FirstFor(markers, targets, id, i) ==> FirstAsking(markers, targets, id) == Some(markers[i])
    ensures FirstAsking(markers, targets, id).Some? ==> exists i: nat :: FirstFor(markers, targets, id, i)
    ensures FirstAsking(markers, targets, id).None? ==> forall m :: m in markers ==> !Asks(m, targets, id)
  {
    hide Asks;
    if markers != [] {
      var n := |markers| - 1;
      FirstAskingIs(markers[..n], targets, id);
      assert forall i :: 0 <= i < n ==> markers[..n][i] == markers[i] && markers[i] in markers[..n];
      forall i: nat ensures FirstFor(markers, targets, id, i) <==>
        FirstFor(markers[..n], targets, id, i)
        || (i == n && Asks(markers[n], targets, id) && FirstAsking(markers[..n], targets, id).None?)
      {
      }
      if FirstAsking(markers[..n], targets, id).Some? {
        var i: nat :| FirstFor(markers[..n], targets, id, i);
        assert FirstFor(markers, targets, id, i);
      } else if Asks(markers[n], targets, id) {
        assert FirstFor(markers, targets, id, n);
      }
    }
  }

  function Unmatched(markers: seq<Marker>, targets: map<string, Target>): nat {
    if markers == [] then 0
    else
      Unmatched(markers[..|markers| - 1], targets)
      + if MarkerKey(markers[|markers| - 1]) in targets then 0 else 1
  }

  lemma FirstAskingAppend(markers: seq<Marker>, m: Marker, targets: map<string, Target>, id: ThreadId)
    ensures FirstAsking(markers + [m], targets, id) ==
      var before := FirstAsking(markers, targets, id);
      if before.Some? then before else if Asks(m, targets, id) then Some(m) else None
  {
    assert (markers + [m])[..|markers|] == markers;
  }

  lemma UnmatchedAppend(markers: seq<Marker>, m: Marker, targets: map<string, Target>)
    ensures Unmatched(markers + [m], targets) == Unmatched(markers, targets) + if MarkerKey(m) in targets then 0 else 1
  {
    assert (markers + [m])[..|markers|] == markers;
  }

  /** The positions of the marks that stand for no thread. */
  function UnmatchedAt(markers: seq<Marker>, targets: map<string, Target>): set<int> {
    set i | 0 <= i < |markers| && MarkerKey(markers[i]) !in targets
  }

  lemma UnmatchedNext(markers: seq<Marker>, m: Marker, targets: map<string, Target>)
    ensures |UnmatchedAt(markers + [m], targets)| == |UnmatchedAt(markers, targets)| + if MarkerKey(m) in targets then 0 else 1
  {
    hide MarkerKey;
    var n, longer := |markers|, markers + [m];
    assert forall i :: 0 <= i < n ==> longer[i] == markers[i];
    assert UnmatchedAt(longer, targets) == UnmatchedAt(markers, targets) + if MarkerKey(m) in targets then {} else {n};
  }

  lemma {:induction false} UnmatchedExactly(markers: seq<Marker>, targets: map<string, Target>)
    ensures Unmatched(markers, targets) == |UnmatchedAt(markers, targets)|
  {
    hide MarkerKey;
    if markers != [] {
      var n := |markers| - 1;
      UnmatchedExactly(markers[..n], targets);
      hide UnmatchedAt;
      UnmatchedNext(markers[..n], markers[n], targets);
      assert markers[..n] + [markers[n]] == markers;
    }
  }

  /** A mark without a thread to flip changes nothing. */
  lemma ImportSkip(threads: Threads, after: Threads, done: seq<Marker>, targets: map<string, Target>, actor: UserId,
                   flipped: set<ThreadId>, m: Marker)
    requires Imported(threads, after, done, targets, actor, flipped)
    requires forall id :: Asks(m, targets, id) ==> StatusAt(after, id) != Ungraded
    ensures Imported(threads, after, done + [m], targets, actor, flipped)
  {
    hide Asks, FirstAsking, Accept;
    forall id
      ensures Flips(threads, done + [m], targets, id) <==> id in flipped
      ensures id in flipped ==> FirstAsking(done + [m], targets, id) == FirstAsking(done, targets, id)
    {
      FirstAskingAppend(done, m, targets, id);
      if Asks(m, targets, id) && id !in flipped {
        assert StatusAt(after, id) == StatusAt(threads, id);
      }
    }
  }

  lemma ImportFlip(threads: Threads, after: Threads, done: seq<Marker>, targets: map<string, Target>, actor: UserId,
                   flipped: set<ThreadId>, m: Marker, id: ThreadId)
    requires Imported(threads, after, done, targets, actor, flipped)
    requires Asks(m, targets, id) && StatusAt(after, id) == Ungraded
    ensures id !in flipped && ThreadAt(after, id) == ThreadAt(threads, id)
    ensures Imported(threads, after[id := Accept(ThreadAt(after, id), actor, m.initials)], done + [m], targets, actor,
                     flipped + {id})
  {
    hide FirstAsking, Accept;
    if id in flipped {
      AcceptAgrees(ThreadAt(threads, id), actor, FirstAsking(done, targets, id).value.initials);
    }
    forall other
      ensures FirstAsking(done + [m], targets, other) ==
        if FirstAsking(done, targets, other).Some? then FirstAsking(done, targets, other)
        else if other == id then Some(m) else None
    {
      FirstAskingAppend(done, m, targets, other);
    }
  }

  /** One turn of the loop of importLink. */
  method ImportMarker(ghost threads: Threads, before: Threads, ghost done: seq<Marker>, targets: map<string, Target>,
                      actor: UserId, ghost flipped: set<ThreadId>, m: Marker)
    returns (after: Threads, imported: nat, skipped: nat, ghost next: set<ThreadId>)
    requires Imported(threads, before, done, targets, actor, flipped)
    ensures Imported(threads, after, done + [m], targets, actor, next)
    ensures |next| == |flipped| + imported && skipped == if MarkerKey(m) in targets then 0 else 1
  {
    hide *;
    after, imported, skipped, next := before, 0, 0, flipped;
    AsksOnly(m, targets);
    var key := MarkerKey(m);
    if key !in targets {
      ImportSkip(threads, before, done, targets, actor, flipped, m);
      skipped := 1;
      return;
    }
    var target := targets[key];
    if target.status != Ungraded {
      ImportSkip(threads, before, done, targets, actor, flipped, m);
      return;
    }
    var thread := ThreadAt(before, target.id);
    if StatusAt(before, target.id) != Ungraded {
      ImportSkip(threads, before, done, targets, actor, flipped, m);
      return;
    }
    ImportFlip(threads, before, done, targets, actor, flipped, m, target.id);
    after := before[target.id := Accept(thread, actor, m.initials)];
    imported, next := 1, flipped + {target.id};
  }

  /** The transaction of importLink. */
  method ImportMarkers(markers: seq<Marker>, targets: map<string, Target>, threads: Threads, actor: UserId)
    returns (after: Threads, imported: nat, skipped: nat, ghost flipped: set<ThreadId>)
    ensures Imported(threads, after, markers, targets, actor, flipped)
    ensures AcceptedByFirst(threads, after, markers, targets, actor, flipped)
    ensures imported == |flipped| && skipped == |UnmatchedAt(markers, targets)|
  {
    hide *;
    after, imported, skipped, flipped := threads, 0, 0, {};
    NothingImported(threads, targets, actor);
    for i := 0 to |markers|
      invariant Imported(threads, after, markers[..i], targets, actor, flipped)
      invariant imported == |flipped| && skipped == Unmatched(markers[..i], targets)
    {
      assert markers[..i + 1] == markers[..i] + [markers[i]];
      UnmatchedAppend(markers[..i], markers[i], targets);
      var next, one, none, now := ImportMarker(threads, after, markers[..i], targets, actor, flipped, markers[i]);
      after, imported, skipped, flipped := next, imported + one, skipped + none, now;
    }
    assert markers[..|markers|] == markers;
    FlippedAreAccepted(threads, after, markers, targets, actor, flipped);
    UnmatchedExactly(markers, targets);
  }

  lemma AsksOnly(m: Marker, targets: map<string, Target>)
    ensures forall id :: Asks(m, targets, id) <==> MarkerKey(m) in targets && targets[MarkerKey(m)] == Target(id, Ungraded)
  {
  }

  lemma NothingImported(threads: Threads, targets: map<string, Target>, actor: UserId)
    ensures Imported(threads, threads, [], targets, actor, {}) && Unmatched([], targets) == 0
  {
  }

  // ---- what a mark stands for ----

  /** The mark is about this candidate: same student, series and problem, up to spelling. */
  predicate Means(m: Marker, c: Candidate) {
    NormalizeCell(m.name) == NormalizeCell(c.name) && m.series == c.series && m.problem.number == c.problem.number
    && NormalizeLabel(m.problem.tag) == NormalizeLabel(c.problem.tag)
  }

  /** It is about candidate i and no other. */
  predicate MeansOnly(m: Marker, candidates: seq<Candidate>, i: nat) {
    i < |candidates| && Means(m, candidates[i])
    && forall j :: 0 <= j < |candidates| && j != i ==> !Means(m, candidates[j])
  }

  /** The mark is about the candidate of this thread, and about no other. */
  ghost predicate MeansThread(m: Marker, candidates: seq<Candidate>, id: ThreadId) {
    exists i: nat :: MeansOnly(m, candidates, i) && candidates[i].id == id
  }

  predicate KeyedAt(candidates: seq<Candidate>, key: string, i: nat) {
    i < |candidates| && CandidateKey(candidates[i]) == key
    && forall j :: 0 <= j < |candidates| && j != i ==> CandidateKey(candidates[j]) != key
  }

  lemma KeyedInFront(candidates: seq<Candidate>, c: Candidate, key: string, i: nat)
    ensures KeyedAt(candidates + [c], key, i) <==>
      if CandidateKey(c) == key then i == |candidates| && KeyCount(candidates, key) == 0 else KeyedAt(candidates, key, i)
  {
    NoCandidate(candidates, key);
    hide CandidateKey, KeyCount;
    var longer := candidates + [c];
    assert forall j :: 0 <= j < |candidates| ==> longer[j] == candidates[j] && candidates[j] in candidates;
    assert longer[|candidates|] == c;
  }

  lemma {:induction false} OneKeyed(candidates: seq<Candidate>, key: string)
    ensures KeyCount(candidates, key) == 1 <==> exists i: nat :: KeyedAt(candidates, key, i)
  {
    if candidates != [] {
      var n := |candidates| - 1;
      var front, last := candidates[..n], candidates[n];
      assert candidates == front + [last];
      OneKeyed(front, key);
      CountAppend(front, last, key);
      hide CandidateKey, KeyCount, KeyedAt;
      forall i: nat ensures KeyedAt(candidates, key, i) <==>
        if CandidateKey(last) == key then i == n && KeyCount(front, key) == 0 else KeyedAt(front, key, i)
      {
        KeyedInFront(front, last, key, i);
      }
      if CandidateKey(last) == key {
        assert KeyCount(front, key) == 0 ==> KeyedAt(candidates, key, n);
      } else if KeyCount(front, key) == 1 {
        var i: nat :| KeyedAt(front, key, i);
        assert KeyedAt(candidates, key, i);
      }
    }
  }

  predicate NoBars(markers: seq<Marker>, candidates: seq<Candidate>) {
    (forall m :: m in markers ==> '|' !in NormalizeCell(m.name))
    && forall c :: c in candidates ==> '|' !in NormalizeCell(c.name)
  }

  /** A mark may flip a thread seen as ungraded exactly when it is about the thread's candidate and no other. */
  lemma AsksExactly(m: Marker, candidates: seq<Candidate>, targets: map<string, Target>, threads: Threads, id: ThreadId)
    requires TargetsOf(targets, candidates, threads) && NoBars([m], candidates)
    ensures Asks(m, targets, id) <==> StatusAt(threads, id) == Ungraded && MeansThread(m, candidates, id)
  {
    hide NormalizeCell, NormalizeLabel, KeyCount;
    assert m in [m];
    forall i | 0 <= i < |candidates| ensures CandidateKey(candidates[i]) == MarkerKey(m) <==> Means(m, candidates[i]) {
      var c := candidates[i];
      assert c in candidates;
      TargetKeySeparates(c.name, c.series, c.problem, m.name, m.series, m.problem);
    }
    hide TargetKey, CandidateKey, MarkerKey, Means, StatusAt;
    OneKeyed(candidates, MarkerKey(m));
    forall i: nat ensures KeyedAt(candidates, MarkerKey(m), i) <==> MeansOnly(m, candidates, i) {}
    if i: nat :| MeansOnly(m, candidates, i) {
      assert candidates[i] in candidates && KeyedAt(candidates, MarkerKey(m), i);
      assert targets[MarkerKey(m)] == Target(candidates[i].id, StatusAt(threads, candidates[i].id));
      forall k: nat | MeansOnly(m, candidates, k) ensures k == i {}
    } else {
      assert MarkerKey(m) !in targets;
    }
  }

  /** Names without a bar: an import flips exactly the ungraded threads whose candidate some mark is about, and
      about no other. */
  lemma FlipsExactly(markers: seq<Marker>, candidates: seq<Candidate>, targets: map<string, Target>, threads: Threads,
                     id: ThreadId)
    requires TargetsOf(targets, candidates, threads) && NoBars(markers, candidates)
    ensures Flips(threads, markers, targets, id) <==>
      StatusAt(threads, id) == Ungraded && exists m :: m in markers && MeansThread(m, candidates, id)
  {
    hide TargetsOf, Asks, MeansThread, StatusAt, FirstAsking;
    SomeAsking(markers, targets, id);
    forall m | m in markers
      ensures Asks(m, targets, id) <==> StatusAt(threads, id) == Ungraded && MeansThread(m, candidates, id)
    {
      AsksExactly(m, candidates, targets, threads, id);
    }
  }

  // ---- the whole import ----

  /** Every mark of the tab that stands for a thread stands for one that is no longer ungraded. */
  ghost predicate AllImported(v: Sheet, candidates: seq<Candidate>, threads: Threads) {
    forall row: nat, nameColumn: nat, at: Position, c :: MarkStandsFor(v, row, nameColumn, at, candidates, c) ==>
      StatusAt(threads, c.id) != Ungraded
  }

  /** A marked cell whose key belongs to this candidate and no other. */
  ghost predicate MarkStandsFor(v: Sheet, row: nat, nameColumn: nat, at: Position, candidates: seq<Candidate>,
                                c: Candidate)
  {
    row >= 1 && IsConduitHeader(v, row, nameColumn) && IsMarked(v, row, nameColumn, at) && c in candidates
    && CandidateKey(c) == MarkerKey(MarkerAt(v, row, nameColumn, at)) && KeyCount(candidates, CandidateKey(c)) == 1
  }

  lemma {:induction false} SomeAsking(markers: seq<Marker>, targets: map<string, Target>, id: ThreadId)
    ensures FirstAsking(markers, targets, id).Some? <==> exists i :: 0 <= i < |markers| && Asks(markers[i], targets, id)
  {
    hide Asks;
    if markers != [] {
      var front := markers[..|markers| - 1];
      SomeAsking(front, targets, id);
      assert forall i :: 0 <= i < |front| ==> front[i] == markers[i];
    }
  }

  lemma {:induction false} KeyOwner(candidates: seq<Candidate>, key: string) returns (c: Candidate)
    requires KeyCount(candidates, key) == 1
    ensures c in candidates && CandidateKey(c) == key
  {
    hide CandidateKey;
    NoCandidate(candidates, key);
    c :| c in candidates && CandidateKey(c) == key;
  }

  /** After an import no mark is left to act on. */
  lemma ImportSettles(v: Sheet, row: nat, nameColumn: nat, markers: seq<Marker>, at: seq<Position>,
                      candidates: seq<Candidate>, targets: map<string, Target>, threads: Threads, after: Threads,
                      actor: UserId, flipped: set<ThreadId>)
    requires MarkersOf(v, row, nameColumn, markers, at) && TargetsOf(targets, candidates, threads)
    requires Imported(threads, after, markers, targets, actor, flipped)
    ensures AllImported(v, candidates, after)
  {
    hide IsMarked, MarkerAt, IsConduitHeader, CandidateKey, MarkerKey, KeyCount, Accept, FirstAsking;
    forall r: nat, n: nat, p: Position, c | MarkStandsFor(v, r, n, p, candidates, c)
      ensures StatusAt(after, c.id) != Ungraded
    {
      SameHeader(v, r, n, row, nameColumn);
      var i :| 0 <= i < |at| && at[i] == p;
      assert targets[MarkerKey(markers[i])] == Target(c.id, StatusAt(threads, c.id));
      if StatusAt(threads, c.id) == Ungraded {
        assert Asks(markers[i], targets, c.id);
        SomeAsking(markers, targets, c.id);
        AcceptAgrees(ThreadAt(threads, c.id), actor, FirstAsking(markers, targets, c.id).value.initials);
      }
    }
  }

  lemma SameHeader(v: Sheet, r: nat, c: nat, r': nat, c': nat)
    requires IsConduitHeader(v, r, c) && IsConduitHeader(v, r', c')
    ensures r == r' && c == c'
  {
    HeaderIsUnique(v, r, c, r', c');
  }

  /** A mark that may flip a thread stands for it. */
  lemma AskingStandsFor(v: Sheet, row: nat, nameColumn: nat, markers: seq<Marker>, at: seq<Position>,
                        candidates: seq<Candidate>, targets: map<string, Target>, threads: Threads, id: ThreadId, i: nat)
    returns (c: Candidate)
    requires MarkersOf(v, row, nameColumn, markers, at) && TargetsOf(targets, candidates, threads)
    requires i < |markers| && Asks(markers[i], targets, id)
    ensures c.id == id && MarkStandsFor(v, row, nameColumn, at[i], candidates, c)
  {
    hide IsMarked, MarkerAt, IsConduitHeader, CandidateKey, MarkerKey, KeyCount;
    c := KeyOwner(candidates, MarkerKey(markers[i]));
    assert at[i] in at;
  }

  /** When all marks have been imported, importing again flips nothing. */
  lemma NothingLeft(v: Sheet, row: nat, nameColumn: nat, markers: seq<Marker>, at: seq<Position>,
                    candidates: seq<Candidate>, targets: map<string, Target>, threads: Threads, id: ThreadId)
    requires MarkersOf(v, row, nameColumn, markers, at) && TargetsOf(targets, candidates, threads)
    requires AllImported(v, candidates, threads)
    ensures !Flips(threads, markers, targets, id)
  {
    hide IsMarked, MarkerAt, IsConduitHeader, CandidateKey, MarkerKey, KeyCount;
    SomeAsking(markers, targets, id);
    if Flips(threads, markers, targets, id) {
      var i :| 0 <= i < |markers| && Asks(markers[i], targets, id);
      var c := AskingStandsFor(v, row, nameColumn, markers, at, candidates, targets, threads, id, i);
    }
  }

  /** Re-reading the same cells finds the same marks. */
  lemma AllImportedSurvivesRereading(v: Sheet, w: Sheet, candidates: seq<Candidate>, threads: Threads)
    requires AllImported(v, candidates, threads) && SameCells(v, w)
    ensures AllImported(w, candidates, threads)
  {
    hide IsMarked, MarkerAt, CandidateKey, MarkerKey, KeyCount, IsHeaderCell;
    forall row: nat, nameColumn: nat, at: Position, c | MarkStandsFor(w, row, nameColumn, at, candidates, c)
      ensures StatusAt(threads, c.id) != Ungraded
    {
      SameMarks(w, v, row, nameColumn, at);
      assert MarkStandsFor(v, row, nameColumn, at, candidates, c);
    }
  }

  lemma ImportKeepsAgreement(threads: Threads, after: Threads, markers: seq<Marker>, targets: map<string, Target>,
                             actor: UserId, flipped: set<ThreadId>)
    requires Imported(threads, after, markers, targets, actor, flipped)
    requires forall id :: id in threads ==> ClaimLease.Agrees(threads[id])
    ensures forall id :: id in after ==> ClaimLease.Agrees(after[id])
  {
    hide FirstAsking, Accept;
    forall id | id in after ensures ClaimLease.Agrees(after[id]) {
      if id in flipped {
        ClaimLease.FreshThreadAgrees();
        AcceptAgrees(ThreadAt(threads, id), actor, FirstAsking(markers, targets, id).value.initials);
      }
    }
  }

  /** Each flipped thread was accepted as its first mark says. */
  ghost predicate AcceptedByFirst(threads: Threads, after: Threads, markers: seq<Marker>, targets: map<string, Target>,
                                  actor: UserId, flipped: set<ThreadId>)
  {
    forall id :: id in flipped ==> id in after && FirstAccepts(threads, after[id], markers, targets, actor, id)
  }

  ghost predicate FirstAccepts(threads: Threads, after: Thread, markers: seq<Marker>, targets: map<string, Target>,
                               actor: UserId, id: ThreadId)
  {
    exists i: nat :: FirstFor(markers, targets, id, i)
                     && AcceptedAs(ThreadAt(threads, id), after, actor, markers[i].initials)
  }

  lemma FlippedAreAccepted(threads: Threads, after: Threads, markers: seq<Marker>, targets: map<string, Target>,
                           actor: UserId, flipped: set<ThreadId>)
    requires Imported(threads, after, markers, targets, actor, flipped)
    ensures AcceptedByFirst(threads, after, markers, targets, actor, flipped)
  {
    hide Asks, FirstAsking, Accept, AcceptedAs;
    forall id | id in flipped ensures id in after && FirstAccepts(threads, after[id], markers, targets, actor, id) {
      FirstAskingIs(markers, targets, id);
      var m := FirstAsking(markers, targets, id).value;
      AcceptIsAccepted(ThreadAt(threads, id), actor, m.initials);
      var i: nat :| FirstFor(markers, targets, id, i);
      assert markers[i] == m;
    }
  }

  /** A linked group: its subproblems and students, and their threads. */
  class Conduit {
    const candidates: seq<Candidate>
    var threads: Threads

    constructor (candidates: seq<Candidate>, threads: Threads)
      ensures this.candidates == candidates && this.threads == threads
    {
      this.candidates, this.threads := candidates, threads;
    }

    /** importLink. An import only moves threads from ungraded to accepted, each once and by its first mark;
        it counts them; and when it is over, or if it was over before, there is nothing left to import. */
    method ImportLink(v: Sheet, actor: UserId)
      returns (ok: bool, imported: nat, skipped: nat, ghost markers: seq<Marker>, ghost targets: map<string, Target>,
               ghost flipped: set<ThreadId>)
      requires forall id :: id in threads ==> ClaimLease.Agrees(threads[id])
      modifies this
      ensures forall id :: id in threads ==> ClaimLease.Agrees(threads[id])
      ensures ok <==> exists row: nat, column: nat :: row >= 1 && IsConduitHeader(v, row, column)
      ensures !ok ==> threads == old(threads)
      ensures ok ==> exists row: nat, column: nat, at :: MarkersOf(v, row, column, markers, at)
      ensures ok ==> TargetsOf(targets, candidates, old(threads))
      ensures ok ==> Imported(old(threads), threads, markers, targets, actor, flipped)
      ensures ok ==> AcceptedByFirst(old(threads), threads, markers, targets, actor, flipped)
      ensures ok ==> imported == |flipped| && skipped == |UnmatchedAt(markers, targets)|
      ensures ok ==> AllImported(v, candidates, threads)
      ensures ok && old(AllImported(v, candidates, threads)) ==> imported == 0 && threads == old(threads)
    {
      hide *;
      imported, skipped, targets, flipped := 0, 0, map[], {};
      ghost var row, nameColumn, at;
      var marks;
      ok, marks, row, nameColumn, at := ParseConduitMarkers(v);
      markers := marks;
      if !ok {
        return;
      }
      var found := ConduitTargets(candidates, threads);
      targets := found;
      var after;
      after, imported, skipped, flipped := ImportMarkers(marks, found, threads, actor);
      ImportSettles(v, row, nameColumn, markers, at, candidates, targets, threads, after, actor, flipped);
      ImportKeepsAgreement(threads, after, markers, targets, actor, flipped);
      MarkersHaveHeader(v, row, nameColumn, markers, at);
      if AllImported(v, candidates, threads) {
        forall id ensures !Flips(threads, markers, targets, id) {
          NothingLeft(v, row, nameColumn, markers, at, candidates, targets, threads, id);
        }
        NoFlipsNoChange(threads, after, markers, targets, actor, flipped);
      }
      threads := after;
    }
  }

  lemma MarkersHaveHeader(v: Sheet, row: nat, nameColumn: nat, markers: seq<Marker>, at: seq<Position>)
    requires MarkersOf(v, row, nameColumn, markers, at)
    ensures row >= 1 && IsConduitHeader(v, row, nameColumn)
  {
    hide IsConduitHeader, IsMarked, MarkerAt;
  }

  lemma NoFlipsNoChange(threads: Threads, after: Threads, markers: seq<Marker>, targets: map<string, Target>, actor: UserId,
                        flipped: set<ThreadId>)
    requires Imported(threads, after, markers, targets, actor, flipped)
    requires forall id :: !Flips(threads, markers, targets, id)
    ensures flipped == {} && after == threads
  {
    hide Flips, Accept, FirstAsking;
  }
}
