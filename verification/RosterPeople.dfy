/** Deciding what to do with each name of the rosters (the transaction of SyncStudents in
    internal/googlesheets/structure_sync.go). */
module RosterPeople {
  import opened Prelude
  import opened SheetText
  import opened SheetNames

  /** The accounts, the group of every student of the term, and the next account id. */
  datatype People = People(users: seq<User>, groups: map<UserId, nat>, next: UserId)

  ghost predicate Valid(p: People) {
    && (forall i, j :: 0 <= i < j < |p.users| ==> p.users[i].id != p.users[j].id)
    && (forall u :: u in p.users ==> u.id < p.next)
    && (forall id :: id in p.groups ==> exists u :: u in p.users && u.id == id)
  }

  /** The accounts a name finds, in row order. */
  function Candidates(users: seq<User>, key: string): seq<User> {
    if users == [] then []
    else
      var last := users[|users| - 1];
      Candidates(users[..|users| - 1], key) + if KeyOf(last) == key then [last] else []
  }

  function Enrolled(users: seq<User>, groups: map<UserId, nat>): seq<User> {
    if users == [] then []
    else
      var last := users[|users| - 1];
      Enrolled(users[..|users| - 1], groups) + if last.id in groups then [last] else []
  }

  /** The only candidate, or else the only enrolled one. */
  function Choice(candidates: seq<User>, groups: map<UserId, nat>): Option<User> {
    if |candidates| == 1 then Some(candidates[0])
    else
      var enrolled := Enrolled(candidates, groups);
      if |enrolled| == 1 then Some(enrolled[0]) else None
  }

  datatype Decision =
    | Enroll(id: UserId, group: nat)
    | Move(id: UserId, group: nat)
    | Match(id: UserId)
    | Ambiguous
    | Create(last: string, first: string, middle: Option<string>, group: nat)

  /** What a name of the rosters asks for, given the linked groups that list it. */
  function Decide(p: People, key: string, groups: seq<nat>): Decision
    requires groups != []
  {
    var candidates := Candidates(p.users, key);
    var user := Choice(candidates, p.groups);
    if user.None? then
      var parts := SplitSheetName(key);
      if candidates != [] || parts.None? then Ambiguous
      else Create(parts.value.0, parts.value.1, parts.value.2, groups[0])
    else
      var id := user.value.id;
      if id !in p.groups then Enroll(id, groups[0])
      else if |groups| > 1 || p.groups[id] == groups[0] then Match(id)
      else Move(id, groups[0])
  }

  function Apply(p: People, d: Decision): People {
    match d
    case Enroll(id, group) => p.(groups := p.groups[id := group])
    case Move(id, group) => p.(groups := p.groups[id := group])
    case Create(last, first, middle, group) =>
      People(p.users + [User(p.next, first, middle, last)], p.groups[p.next := group], p.next + 1)
    case _ => p
  }

  predicate Idle(d: Decision) {
    d.Match? || d.Ambiguous?
  }

  // ---- one name does not interfere with another ----

  lemma {:induction false} CandidatesAre(users: seq<User>, key: string, u: User)
    ensures u in Candidates(users, key) <==> u in users && KeyOf(u) == key
  {
    hide KeyOf;
    if users != [] {
      CandidatesAre(users[..|users| - 1], key, u);
      assert users == users[..|users| - 1] + [users[|users| - 1]];
    }
  }

  lemma {:induction false} EnrolledAre(users: seq<User>, groups: map<UserId, nat>, u: User)
    ensures u in Enrolled(users, groups) <==> u in users && u.id in groups
  {
    if users != [] {
      EnrolledAre(users[..|users| - 1], groups, u);
      assert users == users[..|users| - 1] + [users[|users| - 1]];
    }
  }

  lemma CandidatesAppend(users: seq<User>, u: User, key: string)
    ensures Candidates(users + [u], key) == Candidates(users, key) + if KeyOf(u) == key then [u] else []
  {
    assert (users + [u])[..|users|] == users;
  }

  /** The chosen account bears the name, and no other account of that name is enrolled. */
  lemma ChoiceIs(p: People, key: string, u: User, v: User)
    requires Choice(Candidates(p.users, key), p.groups) == Some(u)
    ensures u in p.users && KeyOf(u) == key
    ensures v in p.users && KeyOf(v) == key && v.id in p.groups ==> v == u
    ensures v in p.users && KeyOf(v) == key && v.id in p.groups ==> u.id in p.groups
  {
    hide KeyOf;
    var candidates := Candidates(p.users, key);
    CandidatesAre(p.users, key, u);
    CandidatesAre(p.users, key, v);
    if |candidates| != 1 {
      EnrolledAre(candidates, p.groups, u);
      EnrolledAre(candidates, p.groups, v);
    }
  }

  /** For this name the two states look alike. */
  ghost predicate SameFor(p: People, q: People, key: string) {
    Candidates(p.users, key) == Candidates(q.users, key)
    && forall u :: u in Candidates(p.users, key) ==> SameGroup(p.groups, q.groups, u.id)
  }

  predicate SameGroup(a: map<UserId, nat>, b: map<UserId, nat>, id: UserId) {
    if id in a then id in b && a[id] == b[id] else id !in b
  }

  lemma {:induction false} SameEnrolled(users: seq<User>, a: map<UserId, nat>, b: map<UserId, nat>)
    requires forall u :: u in users ==> SameGroup(a, b, u.id)
    ensures Enrolled(users, a) == Enrolled(users, b)
  {
    if users != [] {
      assert users == users[..|users| - 1] + [users[|users| - 1]];
      SameEnrolled(users[..|users| - 1], a, b);
    }
  }

  lemma SameChoice(p: People, q: People, key: string)
    requires SameFor(p, q, key)
    ensures Choice(Candidates(p.users, key), p.groups) == Choice(Candidates(q.users, key), q.groups)
    ensures var u := Choice(Candidates(p.users, key), p.groups); u.Some? ==> SameGroup(p.groups, q.groups, u.value.id)
  {
    hide Candidates, Enrolled;
    var c := Candidates(p.users, key);
    SameEnrolled(c, p.groups, q.groups);
    var u := Choice(c, p.groups);
    if u.Some? && |c| != 1 {
      EnrolledAre(c, p.groups, u.value);
    }
  }

  lemma SameDecision(p: People, q: People, key: string, groups: seq<nat>)
    requires SameFor(p, q, key) && groups != []
    ensures Decide(p, key, groups) == Decide(q, key, groups)
  {
    hide Candidates, Choice, SplitSheetName;
    SameChoice(p, q, key);
  }

  lemma SameForTransitive(p: People, q: People, r: People, key: string)
    requires SameFor(p, q, key) && SameFor(q, r, key)
    ensures SameFor(p, r, key)
  {
    hide Candidates;
  }

  /** The account a decision is about bears the decided name. */
  lemma DecisionBearer(p: People, key: string, groups: seq<nat>)
    requires Valid(p) && groups != [] && Squeeze(key) == key
    ensures var d := Decide(p, key, groups);
            (d.Enroll? || d.Move? || d.Match? ==> exists u :: u in p.users && u.id == d.id && KeyOf(u) == key)
            && (d.Create? ==> KeyOf(User(p.next, d.first, d.middle, d.last)) == key)
  {
    hide KeyOf, Candidates, Choice, SplitSheetName, Squeeze;
    var d := Decide(p, key, groups);
    if d.Create? {
      SplitThenJoin(key, User(p.next, d.first, d.middle, d.last));
    } else if !d.Ambiguous? {
      var u := Choice(Candidates(p.users, key), p.groups).value;
      ChoiceIs(p, key, u, u);
    }
  }

  lemma SameId(p: People, u: User, v: User)
    requires Valid(p) && u in p.users && v in p.users && u.id == v.id
    ensures u == v
  {
  }

  /** Carrying out a decision changes nothing for any other name. */
  lemma ApplyElsewhere(p: People, key: string, groups: seq<nat>, other: string)
    requires Valid(p) && groups != [] && Squeeze(key) == key && key != other
    ensures SameFor(p, Apply(p, Decide(p, key, groups)), other)
  {
    hide KeyOf, Candidates, Squeeze, Decide;
    var d := Decide(p, key, groups);
    DecisionBearer(p, key, groups);
    if d.Create? {
      CandidatesAppend(p.users, User(p.next, d.first, d.middle, d.last), other);
    }
    forall v | v in Candidates(p.users, other)
      ensures SameGroup(p.groups, Apply(p, d).groups, v.id)
    {
      CandidatesAre(p.users, other, v);
      if d.Enroll? || d.Move? {
        var u :| u in p.users && u.id == d.id && KeyOf(u) == key;
        if v.id == u.id {
          SameId(p, u, v);
        }
      }
    }
  }

  lemma ApplyKeepsValid(p: People, key: string, groups: seq<nat>)
    requires Valid(p) && groups != [] && Squeeze(key) == key
    ensures Valid(Apply(p, Decide(p, key, groups)))
  {
    hide KeyOf, Candidates, Squeeze, Decide;
    var d := Decide(p, key, groups);
    DecisionBearer(p, key, groups);
    var q := Apply(p, d);
    if d.Create? {
      assert q.users[|p.users|] in q.users;
      forall id | id in q.groups ensures exists u :: u in q.users && u.id == id {
        if id != p.next {
          var u :| u in p.users && u.id == id;
          assert u in q.users;
        }
      }
    }
  }

  /** The name is where its rosters say: an enrolled student, in the group if only one group lists it,
      or a name nobody can act on. */
  predicate Placed(p: People, key: string, groups: seq<nat>) {
    var candidates := Candidates(p.users, key);
    var user := Choice(candidates, p.groups);
    if user.None? then candidates != [] || SplitSheetName(key).None?
    else user.value.id in p.groups && (|groups| == 1 ==> p.groups[user.value.id] == groups[0])
  }

  lemma PlacedIsIdle(p: People, key: string, groups: seq<nat>)
    requires groups != []
    ensures Placed(p, key, groups) <==> Idle(Decide(p, key, groups))
  {
    hide Candidates, Choice, SplitSheetName;
  }

  lemma PlacedForSame(p: People, q: People, key: string, groups: seq<nat>)
    requires SameFor(p, q, key) && Placed(p, key, groups)
    ensures Placed(q, key, groups)
  {
    hide Candidates, Choice, SplitSheetName;
    SameChoice(p, q, key);
  }

  /** Carrying out the decision of a name places it. */
  lemma ApplyPlaces(p: People, key: string, groups: seq<nat>)
    requires Valid(p) && groups != [] && Squeeze(key) == key
    ensures Placed(Apply(p, Decide(p, key, groups)), key, groups)
  {
    hide KeyOf, Candidates, Enrolled, Squeeze, SplitSheetName;
    var d := Decide(p, key, groups);
    var q := Apply(p, d);
    DecisionBearer(p, key, groups);
    if d.Create? {
      CandidatesAppend(p.users, User(p.next, d.first, d.middle, d.last), key);
    } else if d.Enroll? {
      EnrollsOnlyCandidate(p, key, groups);
    } else if d.Move? {
      var c := Candidates(p.users, key);
      SameEnrollment(c, p.groups, d.id, d.group);
    }
  }

  lemma EnrollsOnlyCandidate(p: People, key: string, groups: seq<nat>)
    requires groups != [] && Decide(p, key, groups).Enroll?
    ensures |Candidates(p.users, key)| == 1
  {
    hide Candidates, SplitSheetName;
    var c := Candidates(p.users, key);
    if |c| != 1 {
      EnrolledAre(c, p.groups, Choice(c, p.groups).value);
    }
  }

  lemma {:induction false} SameEnrollment(users: seq<User>, groups: map<UserId, nat>, id: UserId, group: nat)
    requires id in groups
    ensures Enrolled(users, groups[id := group]) == Enrolled(users, groups)
  {
    if users != [] {
      SameEnrollment(users[..|users| - 1], groups, id, group);
    }
  }

  // ---- who is chosen, and what becomes of a name ----

  predicate Bears(p: People, key: string, u: User) {
    u in p.users && KeyOf(u) == key
  }

  ghost predicate OnlyBearer(p: People, key: string, u: User) {
    Bears(p, key, u) && forall v :: Bears(p, key, v) ==> v == u
  }

  ghost predicate OnlyEnrolledBearer(p: People, key: string, u: User) {
    Bears(p, key, u) && u.id in p.groups && forall v :: Bears(p, key, v) && v.id in p.groups ==> v == u
  }

  /** The account a name stands for: its only bearer, or the only enrolled one of several. */
  ghost predicate StandsFor(p: People, key: string, u: User) {
    OnlyBearer(p, key, u) || OnlyEnrolledBearer(p, key, u)
  }

  predicate NoneEnrolled(users: seq<User>, groups: map<UserId, nat>) {
    forall j :: 0 <= j < |users| ==> users[j].id !in groups
  }

  predicate OnlyEnrolledAt(users: seq<User>, groups: map<UserId, nat>, i: nat) {
    i < |users| && users[i].id in groups && forall j :: 0 <= j < |users| && j != i ==> users[j].id !in groups
  }

  /** Position i is the only one, or the only one of an enrolled account. */
  predicate PickedAt(candidates: seq<User>, groups: map<UserId, nat>, i: nat) {
    i < |candidates| && (|candidates| == 1 || OnlyEnrolledAt(candidates, groups, i))
  }

  lemma {:induction false} NobodyEnrolled(users: seq<User>, groups: map<UserId, nat>)
    ensures Enrolled(users, groups) == [] <==> NoneEnrolled(users, groups)
  {
    if users != [] {
      var n := |users| - 1;
      NobodyEnrolled(users[..n], groups);
      assert forall i :: 0 <= i < n ==> users[..n][i] == users[i];
    }
  }

  lemma {:induction false} OnePosition(users: seq<User>, groups: map<UserId, nat>, i: nat)
    requires OnlyEnrolledAt(users, groups, i)
    ensures Enrolled(users, groups) == [users[i]]
  {
    var n := |users| - 1;
    if i == n {
      NobodyEnrolled(users[..n], groups);
    } else {
      OnePosition(users[..n], groups, i);
    }
  }

  lemma {:induction false} PositionOfOne(users: seq<User>, groups: map<UserId, nat>) returns (i: nat)
    requires |Enrolled(users, groups)| == 1
    ensures OnlyEnrolledAt(users, groups, i)
  {
    var n := |users| - 1;
    if users[n].id in groups {
      NobodyEnrolled(users[..n], groups);
      i := n;
      assert forall j :: 0 <= j < n ==> users[j] == users[..n][j];
    } else {
      i := PositionOfOne(users[..n], groups);
      assert forall j :: 0 <= j < n ==> users[j] == users[..n][j];
    }
  }

  lemma ChoiceAt(candidates: seq<User>, groups: map<UserId, nat>)
    ensures forall i: nat :: PickedAt(candidates, groups, i) ==> Choice(candidates, groups) == Some(candidates[i])
    ensures Choice(candidates, groups).Some? ==> exists i: nat :: PickedAt(candidates, groups, i)
  {
    hide Enrolled;
    forall i: nat | PickedAt(candidates, groups, i) ensures Choice(candidates, groups) == Some(candidates[i]) {
      if |candidates| != 1 {
        OnePosition(candidates, groups, i);
      }
    }
    if |candidates| == 1 {
      assert PickedAt(candidates, groups, 0);
    } else if Choice(candidates, groups).Some? {
      var i := PositionOfOne(candidates, groups);
      assert PickedAt(candidates, groups, i);
    }
  }

  lemma {:induction false} CandidatesDiffer(users: seq<User>, key: string)
    requires Distinct(users)
    ensures Distinct(Candidates(users, key))
  {
    hide KeyOf;
    if users != [] {
      var front, last := users[..|users| - 1], users[|users| - 1];
      CandidatesDiffer(front, key);
      CandidatesAre(front, key, last);
    }
  }

  /** A name is given an account exactly when one account bears it, or one of its several bearers is enrolled. */
  lemma ChosenExactly(p: People, key: string, u: User)
    requires Valid(p)
    ensures Choice(Candidates(p.users, key), p.groups) == Some(u) <==> StandsFor(p, key, u)
  {
    var c := Candidates(p.users, key);
    assert Distinct(c) by {
      assert Distinct(p.users);
      CandidatesDiffer(p.users, key);
    }
    hide Candidates, Choice, KeyOf, Valid, Distinct;
    ChoiceAt(c, p.groups);
    forall v ensures v in c <==> Bears(p, key, v) {
      CandidatesAre(p.users, key, v);
    }
    hide PickedAt, StandsFor;
    if StandsFor(p, key, u) {
      var i := StandsAt(p, key, u, c);
    }
    if Choice(c, p.groups) == Some(u) {
      var i: nat :| PickedAt(c, p.groups, i);
      PickedStands(p, key, c, i);
    }
  }

  lemma StandsAt(p: People, key: string, u: User, c: seq<User>) returns (i: nat)
    requires Distinct(c) && (forall v :: v in c <==> Bears(p, key, v)) && StandsFor(p, key, u)
    ensures PickedAt(c, p.groups, i) && c[i] == u
  {
    hide Bears;
    i :| 0 <= i < |c| && c[i] == u;
    forall j | 0 <= j < |c| && j != i ensures Bears(p, key, c[j]) && c[j] != u {
      assert c[j] in c && c[j] != c[i];
    }
    if |c| > 1 {
      var j := if i == 0 then 1 else 0;
      assert Bears(p, key, c[j]) && c[j] != u;
    }
  }

  lemma PickedStands(p: People, key: string, c: seq<User>, i: nat)
    requires (forall v :: v in c <==> Bears(p, key, v)) && PickedAt(c, p.groups, i)
    ensures StandsFor(p, key, c[i])
  {
    hide Bears;
    assert c[i] in c;
  }

  function GroupOf(p: People, u: User): Option<nat> {
    if u.id in p.groups then Some(p.groups[u.id]) else None
  }

  ghost predicate SomebodyBears(p: People, key: string) {
    exists u :: Bears(p, key, u)
  }

  /** The new account of a name: surname, first name, and the rest as the middle name. */
  ghost predicate CreatedFor(p: People, key: string, u: User) {
    var words := Fields(key);
    |words| >= 2 && u.id >= p.next && u.last == words[0] && u.first == words[1]
    && u.middle == if |words| == 2 then None else Some(Join(words[2..]))
  }

  /** A name nobody bears is given a new student of the group if it has two words. */
  ghost predicate NewlyBorne(p: People, q: People, key: string, first: nat) {
    if |Fields(key)| < 2 then !SomebodyBears(q, key)
    else exists u :: OnlyBearer(q, key, u) && CreatedFor(p, key, u) && GroupOf(q, u) == Some(first)
  }

  /** Where a bearer of a name ends up: the account it stands for is enrolled in the group if it was not enrolled,
      and moved there if no other group lists the name. All other bearers stay where they were. */
  ghost predicate PutInto(p: People, q: People, key: string, u: User, first: nat, single: bool) {
    GroupOf(q, u) == if StandsFor(p, key, u) && (single || GroupOf(p, u).None?) then Some(first) else GroupOf(p, u)
  }

  /** What becomes of a name listed first under the group `first`, and under no other if `single`. */
  ghost predicate SettledAs(p: People, q: People, key: string, first: nat, single: bool) {
    if !SomebodyBears(p, key) then NewlyBorne(p, q, key, first)
    else forall u ::
      (Bears(q, key, u) <==> Bears(p, key, u)) && (Bears(p, key, u) ==> PutInto(p, q, key, u, first, single))
  }

  /** The counter of the result a name goes to. */
  ghost predicate AddsStudent(p: People, key: string) {
    if !SomebodyBears(p, key) then |Fields(key)| >= 2
    else exists u :: StandsFor(p, key, u) && GroupOf(p, u).None?
  }

  ghost predicate MovesStudent(p: People, key: string, first: nat, single: bool) {
    single && exists u :: StandsFor(p, key, u) && GroupOf(p, u).Some? && GroupOf(p, u) != Some(first)
  }

  ghost predicate MatchesStudent(p: People, key: string, first: nat, single: bool) {
    exists u :: StandsFor(p, key, u) && StaysMatched(p, u, first, single)
  }

  ghost predicate IsAmbiguous(p: People, key: string) {
    if !SomebodyBears(p, key) then |Fields(key)| < 2 else forall u :: !StandsFor(p, key, u)
  }

  /** The account of this id is the one the name stands for, and may be given a group. */
  ghost predicate StandsForAt(p: People, key: string, id: UserId, single: bool) {
    exists u :: StandsFor(p, key, u) && u.id == id && (single || GroupOf(p, u).None?)
  }

  ghost predicate StaysMatched(p: People, u: User, first: nat, single: bool) {
    GroupOf(p, u).Some? && (single ==> GroupOf(p, u) == Some(first))
  }

  lemma SplitsExactly(name: string)
    ensures SplitSheetName(name).None? <==> |Fields(name)| < 2
    ensures var words, parts := Fields(name), SplitSheetName(name);
            parts.Some? ==> parts.value == (words[0], words[1], if |words| == 2 then None else Some(Join(words[2..])))
  {
  }

  lemma NoCandidates(p: People, key: string)
    ensures Candidates(p.users, key) == [] <==> !SomebodyBears(p, key)
  {
    hide Candidates, KeyOf;
    var c := Candidates(p.users, key);
    if c != [] {
      CandidatesAre(p.users, key, c[0]);
      assert Bears(p, key, c[0]);
    }
    if SomebodyBears(p, key) {
      var u :| Bears(p, key, u);
      CandidatesAre(p.users, key, u);
    }
  }

  lemma StandsForOne(p: People, key: string, u: User, v: User)
    requires StandsFor(p, key, u) && StandsFor(p, key, v)
    ensures u == v
  {
    hide KeyOf;
  }

  /** The decision on a name, and the counter it goes to, in terms of the accounts that bear it. */
  lemma DecidesExactly(p: People, key: string, groups: seq<nat>)
    requires Valid(p) && groups != []
    ensures var d, first, single := Decide(p, key, groups), groups[0], |groups| == 1;
            (d.Enroll? || d.Create? <==> AddsStudent(p, key)) && (d.Move? <==> MovesStudent(p, key, first, single))
            && (d.Match? <==> MatchesStudent(p, key, first, single)) && (d.Ambiguous? <==> IsAmbiguous(p, key))
            && (d.Create? <==> !SomebodyBears(p, key) && |Fields(key)| >= 2)
            && (d.Enroll? || d.Move? ==> d.group == first && StandsForAt(p, key, d.id, single))
            && (d.Match? ==> exists u :: StandsFor(p, key, u) && u.id == d.id && StaysMatched(p, u, first, single))
            && (d.Create? ==> d.group == first && CreatedFor(p, key, User(p.next, d.first, d.middle, d.last)))
  {
    NoCandidates(p, key);
    SplitsExactly(key);
    var choice := Choice(Candidates(p.users, key), p.groups);
    forall u ensures choice == Some(u) <==> StandsFor(p, key, u) {
      ChosenExactly(p, key, u);
    }
    hide Candidates, Choice, SplitSheetName, StandsFor, Valid, Join, Fields, KeyOf;
    if choice.Some? {
      assert StandsFor(p, key, choice.value);
      StandsForBears(p, key, choice.value);
    }
  }

  lemma StandsForBears(p: People, key: string, u: User)
    requires StandsFor(p, key, u)
    ensures Bears(p, key, u) && SomebodyBears(p, key)
  {
    hide KeyOf;
  }

  lemma ApplySettles(p: People, key: string, groups: seq<nat>)
    requires Valid(p) && groups != [] && Squeeze(key) == key
    ensures SettledAs(p, Apply(p, Decide(p, key, groups)), key, groups[0], |groups| == 1)
  {
    var d := Decide(p, key, groups);
    var q := Apply(p, d);
    DecidesExactly(p, key, groups);
    DecisionBearer(p, key, groups);
    hide KeyOf, Squeeze, Decide, Fields, Join;
    if d.Create? {
      var created := User(p.next, d.first, d.middle, d.last);
      forall u ensures Bears(q, key, u) <==> u == created {
        assert !Bears(p, key, u);
      }
      assert OnlyBearer(q, key, created);
    } else {
      assert q.users == p.users;
      if SomebodyBears(p, key) {
        forall u | Bears(p, key, u) ensures PutInto(p, q, key, u, groups[0], |groups| == 1) {
          OthersStay(p, key, groups, u);
        }
      }
    }
  }

  lemma OthersStay(p: People, key: string, groups: seq<nat>, u: User)
    requires Valid(p) && groups != [] && Bears(p, key, u)
    ensures PutInto(p, Apply(p, Decide(p, key, groups)), key, u, groups[0], |groups| == 1)
  {
    var d := Decide(p, key, groups);
    DecidesExactly(p, key, groups);
    hide KeyOf, Decide, Fields;
    if d.Enroll? || d.Move? || d.Match? {
      var chosen :| StandsFor(p, key, chosen) && chosen.id == d.id;
      StandsForBears(p, key, chosen);
      if u.id == d.id {
        SameId(p, u, chosen);
      }
      if StandsFor(p, key, u) {
        StandsForOne(p, key, u, chosen);
      }
    }
  }

  /** States that look alike to a name agree on who bears it, where they are, and whom it stands for. */
  lemma SameForBears(p: People, q: People, key: string)
    requires SameFor(p, q, key)
    ensures forall u :: Bears(p, key, u) <==> Bears(q, key, u)
    ensures forall u :: Bears(p, key, u) ==> GroupOf(p, u) == GroupOf(q, u)
    ensures forall u :: StandsFor(p, key, u) <==> StandsFor(q, key, u)
  {
    hide Candidates, KeyOf;
    forall u
      ensures Bears(p, key, u) <==> Bears(q, key, u)
      ensures Bears(p, key, u) ==> GroupOf(p, u) == GroupOf(q, u) && (u.id in p.groups <==> u.id in q.groups)
    {
      CandidatesAre(p.users, key, u);
      CandidatesAre(q.users, key, u);
      if Bears(p, key, u) {
        assert SameGroup(p.groups, q.groups, u.id);
      }
    }
  }

  lemma SettledBetween(p: People, before: People, after: People, q: People, key: string, first: nat, single: bool)
    requires SameFor(p, before, key) && p.next <= before.next
    requires SettledAs(before, after, key, first, single) && SameFor(after, q, key)
    ensures SettledAs(p, q, key, first, single)
  {
    hide SameFor, Bears, StandsFor, NewlyBorne, PutInto, GroupOf;
    SameForBears(p, before, key);
    SameForBears(after, q, key);
    if SomebodyBears(p, key) {
      var u :| Bears(p, key, u);
      assert SomebodyBears(before, key);
      forall u | Bears(p, key, u) ensures PutInto(p, q, key, u, first, single) {
        PutBetween(p, before, after, q, key, u, first, single);
      }
    } else {
      assert !SomebodyBears(before, key);
      NewlyBorneBetween(p, before, after, q, key, first);
    }
  }

  lemma PutBetween(p: People, before: People, after: People, q: People, key: string, u: User, first: nat, single: bool)
    requires GroupOf(p, u) == GroupOf(before, u) && GroupOf(after, u) == GroupOf(q, u)
    requires StandsFor(p, key, u) <==> StandsFor(before, key, u)
    requires PutInto(before, after, key, u, first, single)
    ensures PutInto(p, q, key, u, first, single)
  {
    hide StandsFor, GroupOf;
  }

  lemma NewlyBorneBetween(p: People, before: People, after: People, q: People, key: string, first: nat)
    requires p.next <= before.next && NewlyBorne(before, after, key, first)
    requires forall u :: Bears(after, key, u) <==> Bears(q, key, u)
    requires forall u :: Bears(after, key, u) ==> GroupOf(after, u) == GroupOf(q, u)
    ensures NewlyBorne(p, q, key, first)
  {
    hide Bears, Fields, Join, GroupOf;
    if |Fields(key)| >= 2 {
      var u :| OnlyBearer(after, key, u) && CreatedFor(before, key, u) && GroupOf(after, u) == Some(first);
      assert OnlyBearer(q, key, u) && CreatedFor(p, key, u) && GroupOf(q, u) == Some(first);
    }
  }
}
