/** Registration transactions under the row lock of their invitation token
    (internal/handlers/auth/register.go), as they interleave. Statements read what is committed, as
    PostgreSQL's READ COMMITTED level has it; row locks are held to the end of the transaction. */
module Registration {
  import opened Prelude

  type TokenId = nat
  type TxId = nat

  /** How far a registration has come. */
  datatype Tx =
    | Waiting(token: TokenId)
    | Locked(token: TokenId)
    | Counted(token: TokenId)
    | Creating(token: TokenId, id: UserId)
    | Claiming(token: TokenId, id: UserId)

  /** The committed users with their invitation lineage, and the open transactions. */
  datatype State = State(users: map<UserId, Option<TokenId>>, txs: map<TxId, Tx>)

  datatype Step =
    | Begin(tx: TxId, token: TokenId)
    | Lock(tx: TxId)
    | Count(tx: TxId)
    | Create(tx: TxId, id: UserId)
    | Claim(tx: TxId, id: UserId)
    | Commit(tx: TxId)
    | Abort(tx: TxId)
    | AddPlaceholder(id: UserId)
    | DeleteUser(id: UserId)

  function UsersOf(users: map<UserId, Option<TokenId>>, token: TokenId): set<UserId> {
    set id | id in users && users[id] == Some(token)
  }

  /** CountUsesOfInvitationToken. */
  function Uses(users: map<UserId, Option<TokenId>>, token: TokenId): nat {
    |UsersOf(users, token)|
  }

  predicate Holds(t: Tx, token: TokenId) {
    !t.Waiting? && t.token == token
  }

  predicate IsHeld(s: State, token: TokenId) {
    exists tx :: tx in s.txs && Holds(s.txs[tx], token)
  }

  /** Some open transaction has written this user row. */
  predicate IsWritten(s: State, id: UserId) {
    exists tx :: tx in s.txs && Writes(s.txs[tx], id)
  }

  predicate Writes(t: Tx, id: UserId) {
    (t.Creating? || t.Claiming?) && t.id == id
  }

  /** When a step can happen. `locking` is the FOR UPDATE of the token query. */
  predicate Enabled(s: State, step: Step, maxUses: map<TokenId, nat>, locking: bool) {
    match step
    case Begin(tx, token) => tx !in s.txs && token in maxUses
    case Lock(tx) => tx in s.txs && s.txs[tx].Waiting? && (locking ==> !IsHeld(s, s.txs[tx].token))
    case Count(tx) =>
      tx in s.txs && s.txs[tx].Locked? && s.txs[tx].token in maxUses
      && Uses(s.users, s.txs[tx].token) < maxUses[s.txs[tx].token]
    case Create(tx, id) => tx in s.txs && s.txs[tx].Counted? && id !in s.users && !IsWritten(s, id)
    case Claim(tx, id) => tx in s.txs && s.txs[tx].Counted? && id in s.users && s.users[id].None? && !IsWritten(s, id)
    case Commit(tx) => tx in s.txs && (s.txs[tx].Creating? || s.txs[tx].Claiming?)
    case Abort(tx) => tx in s.txs
    case AddPlaceholder(id) => id !in s.users && !IsWritten(s, id)
    case DeleteUser(id) => id in s.users && !IsWritten(s, id)
  }

  function Next(s: State, step: Step): State {
    match step
    case Begin(tx, token) => s.(txs := s.txs[tx := Waiting(token)])
    case Lock(tx) => if tx in s.txs then s.(txs := s.txs[tx := Locked(s.txs[tx].token)]) else s
    case Count(tx) => if tx in s.txs then s.(txs := s.txs[tx := Counted(s.txs[tx].token)]) else s
    case Create(tx, id) => if tx in s.txs then s.(txs := s.txs[tx := Creating(s.txs[tx].token, id)]) else s
    case Claim(tx, id) => if tx in s.txs then s.(txs := s.txs[tx := Claiming(s.txs[tx].token, id)]) else s
    case Commit(tx) =>
      if tx in s.txs && (s.txs[tx].Creating? || s.txs[tx].Claiming?)
      then State(s.users[s.txs[tx].id := Some(s.txs[tx].token)], s.txs - {tx}) else s
    case Abort(tx) => s.(txs := s.txs - {tx})
    case AddPlaceholder(id) => s.(users := s.users[id := None])
    case DeleteUser(id) => s.(users := s.users - {id})
  }

  /** Past its count, a transaction still has room for one use; it is alone with its token and its user row. */
  ghost predicate Invariant(s: State, maxUses: map<TokenId, nat>) {
    && (forall a, b, token :: a in s.txs && b in s.txs && Holds(s.txs[a], token) && Holds(s.txs[b], token) ==> a == b)
    && (forall a, b, id :: a in s.txs && b in s.txs && Writes(s.txs[a], id) && Writes(s.txs[b], id) ==> a == b)
    && (forall a :: a in s.txs ==> TxFits(s, s.txs[a], maxUses))
    && forall token :: token in maxUses ==> Uses(s.users, token) <= maxUses[token]
  }

  predicate TxFits(s: State, t: Tx, maxUses: map<TokenId, nat>) {
    t.token in maxUses
    && (t.Counted? || t.Creating? || t.Claiming? ==> Uses(s.users, t.token) < maxUses[t.token])
    && (t.Creating? ==> t.id !in s.users)
    && (t.Claiming? ==> t.id in s.users && s.users[t.id].None?)
  }

  lemma CommitUses(s: State, step: Step, maxUses: map<TokenId, nat>, token: TokenId)
    requires step.Commit? && Enabled(s, step, maxUses, true) && TxFits(s, s.txs[step.tx], maxUses)
    ensures Uses(Next(s, step).users, token) == Uses(s.users, token) + if s.txs[step.tx].token == token then 1 else 0
  {
    var t := s.txs[step.tx];
    var before, after := UsersOf(s.users, token), UsersOf(Next(s, step).users, token);
    assert t.id !in before;
    assert after == if t.token == token then before + {t.id} else before;
  }

  lemma DeletionUses(s: State, id: UserId, token: TokenId)
    requires id in s.users
    ensures Uses(s.users - {id}, token) == Uses(s.users, token) - if s.users[id] == Some(token) then 1 else 0
  {
    assert UsersOf(s.users - {id}, token) == UsersOf(s.users, token) - {id};
  }

  lemma PlaceholderUses(s: State, id: UserId, token: TokenId)
    requires id !in s.users
    ensures Uses(s.users[id := None], token) == Uses(s.users, token)
  {
    assert UsersOf(s.users[id := None], token) == UsersOf(s.users, token);
  }

  /** What each step does to the uses of a token: a commit adds its own one, a deletion takes that of the
      deleted user away, and nothing else changes any. */
  lemma StepUses(s: State, step: Step, maxUses: map<TokenId, nat>, token: TokenId)
    requires Enabled(s, step, maxUses, true) && Invariant(s, maxUses)
    ensures var before, after := Uses(s.users, token), Uses(Next(s, step).users, token);
            if step.Commit? then after == before + if s.txs[step.tx].token == token then 1 else 0
            else if step.DeleteUser? then after == before - if s.users[step.id] == Some(token) then 1 else 0
            else after == before
  {
    hide Uses, TxFits, IsHeld, IsWritten;
    if step.Commit? {
      CommitUses(s, step, maxUses, token);
    } else if step.DeleteUser? {
      DeletionUses(s, step.id, token);
    } else if step.AddPlaceholder? {
      PlaceholderUses(s, step.id, token);
    }
  }

  lemma StepKeepsExclusion(s: State, step: Step, maxUses: map<TokenId, nat>, a: TxId, b: TxId, token: TokenId)
    requires Invariant(s, maxUses) && Enabled(s, step, maxUses, true)
    ensures var n := Next(s, step);
            a in n.txs && b in n.txs && Holds(n.txs[a], token) && Holds(n.txs[b], token) ==> a == b
  {
    hide Uses;
  }

  lemma StepKeepsRows(s: State, step: Step, maxUses: map<TokenId, nat>, a: TxId, b: TxId, id: UserId)
    requires Invariant(s, maxUses) && Enabled(s, step, maxUses, true)
    ensures var n := Next(s, step);
            a in n.txs && b in n.txs && Writes(n.txs[a], id) && Writes(n.txs[b], id) ==> a == b
  {
    hide Uses;
  }

  /** A commit finds every other transaction with another token and another user row. */
  lemma CommitAlone(s: State, maxUses: map<TokenId, nat>, tx: TxId, a: TxId)
    requires Invariant(s, maxUses) && tx in s.txs && a in s.txs && a != tx
    requires s.txs[tx].Creating? || s.txs[tx].Claiming?
    ensures s.txs[a].Waiting? || s.txs[a].token != s.txs[tx].token
    ensures s.txs[a].Creating? || s.txs[a].Claiming? ==> s.txs[a].id != s.txs[tx].id
  {
    hide Uses, TxFits;
    assert Holds(s.txs[tx], s.txs[tx].token) && Writes(s.txs[tx], s.txs[tx].id);
    assert Holds(s.txs[a], s.txs[tx].token) <==> !s.txs[a].Waiting? && s.txs[a].token == s.txs[tx].token;
    assert Writes(s.txs[a], s.txs[tx].id) <==> (s.txs[a].Creating? || s.txs[a].Claiming?) && s.txs[a].id == s.txs[tx].id;
  }

  lemma NotWritten(s: State, id: UserId, a: TxId)
    requires !IsWritten(s, id) && a in s.txs
    ensures !Writes(s.txs[a], id)
  {
  }

  lemma StepKeepsFits(s: State, step: Step, maxUses: map<TokenId, nat>, a: TxId)
    requires Invariant(s, maxUses) && Enabled(s, step, maxUses, true) && a in Next(s, step).txs
    ensures TxFits(Next(s, step), Next(s, step).txs[a], maxUses)
  {
    var n := Next(s, step);
    StepUses(s, step, maxUses, n.txs[a].token);
    if a in s.txs {
      assert TxFits(s, s.txs[a], maxUses);
    }
    if step.Commit? {
      CommitAlone(s, maxUses, step.tx, a);
    } else if step.AddPlaceholder? || step.DeleteUser? {
      NotWritten(s, step.id, a);
    }
    hide Uses, Invariant;
  }

  lemma StepKeepsInvariant(s: State, step: Step, maxUses: map<TokenId, nat>)
    requires Invariant(s, maxUses) && Enabled(s, step, maxUses, true)
    ensures Invariant(Next(s, step), maxUses)
  {
    var n := Next(s, step);
    forall a, b, token | a in n.txs && b in n.txs && Holds(n.txs[a], token) && Holds(n.txs[b], token) ensures a == b {
      StepKeepsExclusion(s, step, maxUses, a, b, token);
    }
    forall a, b, id | a in n.txs && b in n.txs && Writes(n.txs[a], id) && Writes(n.txs[b], id) ensures a == b {
      StepKeepsRows(s, step, maxUses, a, b, id);
    }
    forall a | a in n.txs ensures TxFits(n, n.txs[a], maxUses) {
      StepKeepsFits(s, step, maxUses, a);
    }
    forall token | token in maxUses ensures Uses(n.users, token) <= maxUses[token] {
      StepUses(s, step, maxUses, token);
      if step.Commit? {
        assert TxFits(s, s.txs[step.tx], maxUses);
      }
    }
  }

  // ---- runs ----

  datatype Run = Run(states: seq<State>, steps: seq<Step>)
  {
    /** Any interleaving, from a state without open transactions in which no token is overdrawn. */
    ghost predicate Valid(maxUses: map<TokenId, nat>, locking: bool) {
      |states| == |steps| + 1
      && states[0].txs == map[]
      && (forall token :: token in maxUses ==> Uses(states[0].users, token) <= maxUses[token])
      && forall i :: 0 <= i < |steps| ==> StepAt(i, maxUses, locking)
    }

    predicate StepAt(i: nat, maxUses: map<TokenId, nat>, locking: bool)
      requires i < |steps| && |states| == |steps| + 1
    {
      Enabled(states[i], steps[i], maxUses, locking) && states[i + 1] == Next(states[i], steps[i])
    }
  }

  /** Token uses are bounded in every state of every interleaving. */
  lemma {:induction false} UsesAreBounded(run: Run, maxUses: map<TokenId, nat>, n: nat)
    requires run.Valid(maxUses, true) && n < |run.states|
    ensures Invariant(run.states[n], maxUses)
    ensures forall token :: token in maxUses ==> Uses(run.states[n].users, token) <= maxUses[token]
  {
    hide Uses, Enabled, Next, TxFits;
    if n > 0 {
      UsesAreBounded(run, maxUses, n - 1);
      assert run.StepAt(n - 1, maxUses, true);
      StepKeepsInvariant(run.states[n - 1], run.steps[n - 1], maxUses);
    }
  }

  /** How many transactions of a token have committed in the first n steps. */
  function Commits(run: Run, token: TokenId, n: nat): nat
    requires n <= |run.steps| && n <= |run.states|
  {
    if n == 0 then 0
    else
      var s, step := run.states[n - 1], run.steps[n - 1];
      Commits(run, token, n - 1) + if step.Commit? && step.tx in s.txs && s.txs[step.tx].token == token then 1 else 0
  }

  /** How many users of a token have been deleted in the first n steps. */
  function Deletions(run: Run, token: TokenId, n: nat): nat
    requires n <= |run.steps| && n <= |run.states|
  {
    if n == 0 then 0
    else
      var s, step := run.states[n - 1], run.steps[n - 1];
      Deletions(run, token, n - 1)
      + if step.DeleteUser? && step.id in s.users && s.users[step.id] == Some(token) then 1 else 0
  }

  predicate Deletes(run: Run, n: nat)
    requires n <= |run.steps|
  {
    exists i :: 0 <= i < n && run.steps[i].DeleteUser?
  }

  /** Every registration that committed is a use of its token until its user is deleted, and there are no others. */
  lemma {:induction false} CommitsAreUses(run: Run, maxUses: map<TokenId, nat>, token: TokenId, n: nat)
    requires run.Valid(maxUses, true) && n < |run.states|
    ensures Uses(run.states[n].users, token) + Deletions(run, token, n)
            == Uses(run.states[0].users, token) + Commits(run, token, n)
    ensures !Deletes(run, n) ==>
      Uses(run.states[n].users, token) == Uses(run.states[0].users, token) + Commits(run, token, n)
  {
    hide Uses, Enabled, Next, TxFits;
    if n > 0 {
      CommitsAreUses(run, maxUses, token, n - 1);
      UsesAreBounded(run, maxUses, n - 1);
      assert run.StepAt(n - 1, maxUses, true);
      StepUses(run.states[n - 1], run.steps[n - 1], maxUses, token);
      CommitHasTx(run.states[n - 1], run.steps[n - 1], maxUses);
      if !Deletes(run, n) {
        assert !run.steps[n - 1].DeleteUser?;
      }
    }
  }

  lemma CommitHasTx(s: State, step: Step, maxUses: map<TokenId, nat>)
    requires Enabled(s, step, maxUses, true)
    ensures step.Commit? ==> step.tx in s.txs
    ensures step.DeleteUser? ==> step.id in s.users
  {
  }

  // ---- and every use is available ----

  /** A registration that holds the lock can count exactly when its token has a use left. */
  lemma CountsExactly(s: State, maxUses: map<TokenId, nat>, tx: TxId)
    requires tx in s.txs && s.txs[tx].Locked? && s.txs[tx].token in maxUses
    ensures Enabled(s, Count(tx), maxUses, true) <==> Uses(s.users, s.txs[tx].token) < maxUses[s.txs[tx].token]
  {
    hide Uses;
  }

  /** The steps of one registration that nothing interrupts: a new user, or a placeholder that is taken over. */
  function Registering(s: State, tx: TxId, token: TokenId, id: UserId): seq<Step> {
    [Begin(tx, token), Lock(tx), Count(tx), if id in s.users then Claim(tx, id) else Create(tx, id), Commit(tx)]
  }

  function Registered(s: State, token: TokenId, id: UserId): State {
    s.(users := s.users[id := Some(token)])
  }

  /** The states after each of these steps. */
  function RegisteringStates(s: State, tx: TxId, token: TokenId, id: UserId): seq<State> {
    [s.(txs := s.txs[tx := Waiting(token)]),
     s.(txs := s.txs[tx := Locked(token)]),
     s.(txs := s.txs[tx := Counted(token)]),
     s.(txs := s.txs[tx := if id in s.users then Claiming(token, id) else Creating(token, id)]),
     Registered(s, token, id)]
  }

  /** Nothing and nobody keeps this registration from its use. */
  predicate CanRegister(s: State, maxUses: map<TokenId, nat>, tx: TxId, token: TokenId, id: UserId) {
    tx !in s.txs && token in maxUses && !IsHeld(s, token) && Uses(s.users, token) < maxUses[token]
    && !IsWritten(s, id) && (id in s.users ==> s.users[id].None?)
  }

  lemma RegisteringStep(s: State, maxUses: map<TokenId, nat>, tx: TxId, token: TokenId, id: UserId, i: nat)
    requires CanRegister(s, maxUses, tx, token, id) && i < 5
    ensures var before := ([s] + RegisteringStates(s, tx, token, id))[i];
            Enabled(before, Registering(s, tx, token, id)[i], maxUses, true)
            && RegisteringStates(s, tx, token, id)[i] == Next(before, Registering(s, tx, token, id)[i])
  {
    hide Uses;
    var before := ([s] + RegisteringStates(s, tx, token, id))[i];
    assert s.txs[tx := Waiting(token)] - {tx} == s.txs;
    assert before.users == s.users;
    assert forall other :: other in before.txs ==> other == tx || (other in s.txs && before.txs[other] == s.txs[other]);
    if i == 1 {
      assert !IsHeld(before, token);
    } else if i == 3 {
      assert !IsWritten(before, id);
    } else if i == 4 {
      assert before.txs - {tx} == s.txs;
    }
  }

  /** A run with one more registration at its end. */
  function Extended(run: Run, tx: TxId, token: TokenId, id: UserId): Run
    requires |run.states| == |run.steps| + 1
  {
    var s := run.states[|run.steps|];
    Run(run.states + RegisteringStates(s, tx, token, id), run.steps + Registering(s, tx, token, id))
  }

  /** Wherever a run has come to: a token with a use left that no open transaction holds lets a registration
      through, and counts it. */
  lemma RegistrationSucceeds(run: Run, maxUses: map<TokenId, nat>, tx: TxId, token: TokenId, id: UserId)
    requires run.Valid(maxUses, true) && CanRegister(run.states[|run.steps|], maxUses, tx, token, id)
    ensures var s, longer := run.states[|run.steps|], Extended(run, tx, token, id);
            longer.Valid(maxUses, true) && longer.states[|longer.steps|] == Registered(s, token, id)
            && Uses(Registered(s, token, id).users, token) == Uses(s.users, token) + 1
  {
    var n, s, longer := |run.steps|, run.states[|run.steps|], Extended(run, tx, token, id);
    assert UsersOf(s.users[id := Some(token)], token) == UsersOf(s.users, token) + {id};
    forall i | 0 <= i < n + 5 ensures longer.StepAt(i, maxUses, true) {
      if i < n {
        assert run.StepAt(i, maxUses, true);
      } else {
        RegisteringStep(s, maxUses, tx, token, id, i - n);
        StatesAt(run, tx, token, id, i - n);
      }
      hide Enabled, Next, Uses, CanRegister;
    }
    hide Enabled, Next, Uses, CanRegister;
  }

  lemma StatesAt(run: Run, tx: TxId, token: TokenId, id: UserId, i: nat)
    requires |run.states| == |run.steps| + 1 && i < 5
    ensures var n, s, longer := |run.steps|, run.states[|run.steps|], Extended(run, tx, token, id);
            longer.states[n + i] == ([s] + RegisteringStates(s, tx, token, id))[i]
            && longer.states[n + i + 1] == RegisteringStates(s, tx, token, id)[i]
            && longer.steps[n + i] == Registering(s, tx, token, id)[i]
  {
    hide RegisteringStates, Registering;
    var n, s := |run.steps|, run.states[|run.steps|];
    assert |RegisteringStates(s, tx, token, id)| == 5 && |Registering(s, tx, token, id)| == 5 by {
      FiveSteps(s, tx, token, id);
    }
  }

  lemma FiveSteps(s: State, tx: TxId, token: TokenId, id: UserId)
    ensures |RegisteringStates(s, tx, token, id)| == 5 && |Registering(s, tx, token, id)| == 5
  {
  }

  /** The bound is met: a token can be used as often as it allows. */
  lemma {:induction false} EveryUseIsAvailable(maxUses: map<TokenId, nat>, token: TokenId, n: nat) returns (run: Run)
    requires token in maxUses && n <= maxUses[token]
    ensures run.Valid(maxUses, true) && run.states[|run.steps|].txs == map[]
    ensures Uses(run.states[|run.steps|].users, token) == n
    ensures forall id :: id in run.states[|run.steps|].users ==> id < n
  {
    if n == 0 {
      run := Run([State(map[], map[])], []);
      assert forall t :: UsersOf(map[], t) == {};
    } else {
      var front := EveryUseIsAvailable(maxUses, token, n - 1);
      var s := front.states[|front.steps|];
      assert CanRegister(s, maxUses, 0, token, n - 1);
      RegistrationSucceeds(front, maxUses, 0, token, n - 1);
      run := Extended(front, 0, token, n - 1);
      hide Extended, Run.Valid, Uses;
    }
  }

  /** Two registrations that both count before either commits. */
  const RACE := [
    Begin(1, 7), Begin(2, 7), Lock(1), Lock(2), Count(1), Count(2), Create(1, 11), Create(2, 12), Commit(1), Commit(2)]

  const RACE_STATES := [
    State(map[], map[]),
    State(map[], map[1 := Waiting(7)]),
    State(map[], map[1 := Waiting(7), 2 := Waiting(7)]),
    State(map[], map[1 := Locked(7), 2 := Waiting(7)]),
    State(map[], map[1 := Locked(7), 2 := Locked(7)]),
    State(map[], map[1 := Counted(7), 2 := Locked(7)]),
    State(map[], map[1 := Counted(7), 2 := Counted(7)]),
    State(map[], map[1 := Creating(7, 11), 2 := Counted(7)]),
    State(map[], map[1 := Creating(7, 11), 2 := Creating(7, 12)]),
    State(map[11 := Some(7)], map[2 := Creating(7, 12)]),
    State(map[11 := Some(7), 12 := Some(7)], map[])]

  lemma RaceUses()
    ensures Uses(map[], 7) == 0 && Uses(map[11 := Some(7), 12 := Some(7)], 7) == 2
  {
    assert UsersOf(map[], 7) == {} && UsersOf(map[11 := Some(7), 12 := Some(7)], 7) == {11, 12};
  }

  lemma RaceStep(i: nat)
    requires i < |RACE|
    ensures Enabled(RACE_STATES[i], RACE[i], map[7 := 1], false) && RACE_STATES[i + 1] == Next(RACE_STATES[i], RACE[i])
  {
    RaceUses();
    hide Uses;
  }

  /** The row lock is what does it: without it a token can be used more often than it allows. */
  lemma WithoutTheLock() returns (run: Run)
    ensures run.Valid(map[7 := 1], false)
    ensures Uses(run.states[|run.steps|].users, 7) == 2
  {
    RaceUses();
    hide Uses, Enabled, Next;
    run := Run(RACE_STATES, RACE);
    forall i | 0 <= i < |RACE| ensures run.StepAt(i, map[7 := 1], false) {
      RaceStep(i);
    }
  }
}
