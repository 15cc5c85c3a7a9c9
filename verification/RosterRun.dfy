/** The transaction of SyncStudents over all sheet names: every name is decided as if it were alone. */
module RosterRun {
  import opened Prelude
  import opened SheetText
  import opened SheetNames
  import opened RosterPeople

  /** nameGroups: for each sheet name, the linked groups that list it. */
  type NameGroups = map<string, seq<nat>>

  ghost predicate Listing(keys: seq<string>, groups: NameGroups) {
    (forall i, j :: 0 <= i < j < |keys| ==> keys[i] != keys[j])
    && forall k :: k in keys ==> k in groups && groups[k] != [] && Squeeze(k) == k
  }

  /** One name after the other, each decided in the state the earlier ones left. */
  function Run(p: People, keys: seq<string>, groups: NameGroups): People
    requires forall k :: k in keys ==> k in groups && groups[k] != []
  {
    if keys == [] then p
    else
      var before, key := Run(p, keys[..|keys| - 1], groups), keys[|keys| - 1];
      Apply(before, Decide(before, key, groups[key]))
  }

  lemma ListingFront(keys: seq<string>, groups: NameGroups)
    requires Listing(keys, groups) && keys != []
    ensures Listing(keys[..|keys| - 1], groups) && keys[|keys| - 1] !in keys[..|keys| - 1]
  {
    hide Squeeze;
  }

  lemma {:induction false} RunKeepsValid(p: People, keys: seq<string>, groups: NameGroups)
    requires Valid(p) && Listing(keys, groups)
    ensures Valid(Run(p, keys, groups))
    decreases |keys|
  {
    hide Valid, Apply, Decide, Squeeze;
    if keys != [] {
      ListingFront(keys, groups);
      var front, key := keys[..|keys| - 1], keys[|keys| - 1];
      RunKeepsValid(p, front, groups);
      ApplyKeepsValid(Run(p, front, groups), key, groups[key]);
    }
  }

  /** The run looks the same to every name it does not contain. */
  lemma {:induction false} RunElsewhere(p: People, keys: seq<string>, groups: NameGroups, other: string)
    requires Valid(p) && Listing(keys, groups) && other !in keys
    ensures SameFor(p, Run(p, keys, groups), other)
    decreases |keys|
  {
    hide Valid, Apply, Decide, Squeeze, SameFor;
    if keys == [] {
      SameForItself(p, other);
    } else {
      ListingFront(keys, groups);
      var front, key := keys[..|keys| - 1], keys[|keys| - 1];
      RunElsewhere(p, front, groups, other);
      RunKeepsValid(p, front, groups);
      ApplyElsewhere(Run(p, front, groups), key, groups[key], other);
      SameForTransitive(p, Run(p, front, groups), Run(p, keys, groups), other);
    }
  }

  lemma SameForItself(p: People, key: string)
    ensures SameFor(p, p, key)
  {
  }

  /** Each name is decided as in the initial state, whatever its place in the run ... */
  lemma {:induction false} DecidedAlone(p: People, keys: seq<string>, groups: NameGroups, i: nat)
    requires Valid(p) && Listing(keys, groups) && i < |keys|
    ensures Listing(keys[..i], groups)
    ensures Decide(Run(p, keys[..i], groups), keys[i], groups[keys[i]]) == Decide(p, keys[i], groups[keys[i]])
  {
    hide Valid, Decide, Squeeze, SameFor, Run;
    assert Listing(keys[..i], groups) && keys[i] !in keys[..i];
    RunElsewhere(p, keys[..i], groups, keys[i]);
    SameDecision(p, Run(p, keys[..i], groups), keys[i], groups[keys[i]]);
  }

  /** ... and afterwards every name of the run is placed. */
  lemma {:induction false} RunPlaces(p: People, keys: seq<string>, groups: NameGroups, key: string)
    requires Valid(p) && Listing(keys, groups) && key in keys
    ensures Placed(Run(p, keys, groups), key, groups[key])
    decreases |keys|
  {
    hide Valid, Apply, Decide, Squeeze, SameFor, Placed;
    ListingFront(keys, groups);
    var front, last := keys[..|keys| - 1], keys[|keys| - 1];
    var before := Run(p, front, groups);
    RunKeepsValid(p, front, groups);
    if key == last {
      ApplyPlaces(before, last, groups[last]);
    } else {
      assert keys == front + [last];
      RunPlaces(p, front, groups, key);
      ApplyElsewhere(before, last, groups[last], key);
      PlacedForSame(before, Run(p, keys, groups), key, groups[key]);
    }
  }

  /** What a run makes of a name, told by the accounts that bear it and where they were before. */
  lemma {:induction false} RunSettles(p: People, keys: seq<string>, groups: NameGroups, key: string)
    requires Valid(p) && Listing(keys, groups) && key in keys
    ensures SettledAs(p, Run(p, keys, groups), key, groups[key][0], |groups[key]| == 1)
    decreases |keys|
  {
    hide Valid, Apply, Decide, Squeeze, SameFor, SettledAs;
    ListingFront(keys, groups);
    var front, last := keys[..|keys| - 1], keys[|keys| - 1];
    var before, after := Run(p, front, groups), Run(p, keys, groups);
    var first, single := groups[key][0], |groups[key]| == 1;
    RunKeepsValid(p, front, groups);
    if key == last {
      RunElsewhere(p, front, groups, key);
      RunAccounts(p, front, groups);
      ApplySettles(before, key, groups[key]);
      SameForItself(after, key);
      SettledBetween(p, before, after, after, key, first, single);
    } else {
      assert keys == front + [last];
      RunSettles(p, front, groups, key);
      ApplyElsewhere(before, last, groups[last], key);
      SameForItself(p, key);
      SettledBetween(p, p, before, after, key, first, single);
    }
  }

  /** A run over placed names does nothing. */
  lemma {:induction false} RunOfPlaced(p: People, keys: seq<string>, groups: NameGroups)
    requires Listing(keys, groups) && forall k :: k in keys ==> Placed(p, k, groups[k])
    ensures Run(p, keys, groups) == p
    decreases |keys|
  {
    hide Decide, Squeeze, Placed;
    if keys != [] {
      ListingFront(keys, groups);
      var front, last := keys[..|keys| - 1], keys[|keys| - 1];
      assert keys == front + [last];
      RunOfPlaced(p, front, groups);
      PlacedIsIdle(p, last, groups[last]);
    }
  }

  // ---- what became of every student ----

  /** A change of membership some name of the run asked for in the initial state. */
  ghost predicate Asked(p: People, keys: seq<string>, groups: NameGroups, id: UserId, group: nat)
    requires Listing(keys, groups)
  {
    exists k :: k in keys && Asks(Decide(p, k, groups[k]), p, id, group)
  }

  predicate Asks(d: Decision, p: People, id: UserId, group: nat) {
    match d
    case Enroll(i, g) => i == id && g == group && id !in p.groups
    case Move(i, g) => i == id && g == group && id in p.groups
    case Create(_, _, _, g) => id >= p.next && g == group
    case _ => false
  }

  ghost predicate Accounted(p: People, q: People, keys: seq<string>, groups: NameGroups)
    requires Listing(keys, groups)
  {
    && p.users <= q.users && p.next <= q.next
    && (forall id :: id in p.groups ==> id in q.groups)
    && forall id :: id in q.groups && !SameGroup(p.groups, q.groups, id) ==> Asked(p, keys, groups, id, q.groups[id])
  }

  /** No account and no enrollment is ever dropped, and every new or changed membership is one that a
      listed name asked for. */
  lemma {:induction false} RunAccounts(p: People, keys: seq<string>, groups: NameGroups)
    requires Valid(p) && Listing(keys, groups)
    ensures Accounted(p, Run(p, keys, groups), keys, groups)
    decreases |keys|
  {
    hide Valid, Decide, Squeeze;
    if keys != [] {
      ListingFront(keys, groups);
      var front, last := keys[..|keys| - 1], keys[|keys| - 1];
      var before, after := Run(p, front, groups), Run(p, keys, groups);
      assert keys == front + [last];
      RunAccounts(p, front, groups);
      var d := Decide(p, last, groups[last]);
      DecidedAlone(p, keys, groups, |keys| - 1);
      assert after == Apply(before, d);
      forall id | id in after.groups && !SameGroup(p.groups, after.groups, id)
        ensures Asked(p, keys, groups, id, after.groups[id])
      {
        if id in before.groups && after.groups[id] == before.groups[id] {
          assert Asked(p, front, groups, id, after.groups[id]);
          var k :| k in front && Asks(Decide(p, k, groups[k]), p, id, after.groups[id]);
          assert k in keys;
        } else {
          DecisionConcerns(p, last, groups[last]);
          assert Asks(d, p, id, after.groups[id]);
          assert last in keys;
        }
      }
    }
  }

  lemma DecisionConcerns(p: People, key: string, groups: seq<nat>)
    requires groups != []
    ensures var d := Decide(p, key, groups); (d.Enroll? ==> d.id !in p.groups) && (d.Move? ==> d.id in p.groups)
  {
    hide Candidates, Choice, SplitSheetName;
  }

  /** No account is the subject of two names, so each is processed at most once. */
  lemma OneNamePerAccount(p: People, key: string, groups: seq<nat>, other: string, others: seq<nat>)
    requires Valid(p) && groups != [] && others != [] && Squeeze(key) == key && Squeeze(other) == other
    requires var d, e := Decide(p, key, groups), Decide(p, other, others);
             (d.Enroll? || d.Move? || d.Match?) && (e.Enroll? || e.Move? || e.Match?) && d.id == e.id
    ensures key == other
  {
    hide Valid, KeyOf, Decide, Squeeze;
    DecisionBearer(p, key, groups);
    DecisionBearer(p, other, others);
    var u :| u in p.users && u.id == Decide(p, key, groups).id && KeyOf(u) == key;
    var v :| v in p.users && v.id == Decide(p, other, others).id && KeyOf(v) == other;
    SameId(p, u, v);
  }

  // ---- counting ----

  datatype Tally = Tally(added: nat, moved: nat, matched: nat, ambiguous: nat)

  function Count(t: Tally, d: Decision): Tally {
    match d
    case Enroll(_, _) => t.(added := t.added + 1)
    case Create(_, _, _, _) => t.(added := t.added + 1)
    case Move(_, _) => t.(moved := t.moved + 1)
    case Match(_) => t.(matched := t.matched + 1)
    case Ambiguous => t.(ambiguous := t.ambiguous + 1)
  }

  /** How many names ask for what, in the initial state. */
  function Tallied(p: People, keys: seq<string>, groups: NameGroups): (t: Tally)
    requires forall k :: k in keys ==> k in groups && groups[k] != []
    ensures t.added + t.moved + t.matched + t.ambiguous == |keys|
  {
    if keys == [] then Tally(0, 0, 0, 0)
    else
      var key := keys[|keys| - 1];
      Count(Tallied(p, keys[..|keys| - 1], groups), Decide(p, key, groups[key]))
  }

  /** The names of each kind, in terms of the accounts that bear them. */
  ghost function Added(p: People, keys: seq<string>): set<string> {
    set k | k in keys && AddsStudent(p, k)
  }

  ghost function Moved(p: People, keys: seq<string>, groups: NameGroups): set<string>
    requires forall k :: k in keys ==> k in groups && groups[k] != []
  {
    set k | k in keys && MovesStudent(p, k, groups[k][0], |groups[k]| == 1)
  }

  ghost function Matched(p: People, keys: seq<string>, groups: NameGroups): set<string>
    requires forall k :: k in keys ==> k in groups && groups[k] != []
  {
    set k | k in keys && MatchesStudent(p, k, groups[k][0], |groups[k]| == 1)
  }

  ghost function Ambiguities(p: People, keys: seq<string>): set<string> {
    set k | k in keys && IsAmbiguous(p, k)
  }

  lemma AddedNext(p: People, keys: seq<string>, key: string)
    requires key !in keys
    ensures |Added(p, keys + [key])| == |Added(p, keys)| + if AddsStudent(p, key) then 1 else 0
  {
    hide AddsStudent;
    assert Added(p, keys + [key]) == Added(p, keys) + if AddsStudent(p, key) then {key} else {};
  }

  lemma AmbiguousNext(p: People, keys: seq<string>, key: string)
    requires key !in keys
    ensures |Ambiguities(p, keys + [key])| == |Ambiguities(p, keys)| + if IsAmbiguous(p, key) then 1 else 0
  {
    hide IsAmbiguous;
    assert Ambiguities(p, keys + [key]) == Ambiguities(p, keys) + if IsAmbiguous(p, key) then {key} else {};
  }

  lemma MovedNext(p: People, keys: seq<string>, groups: NameGroups, key: string)
    requires key !in keys && forall k :: k in keys + [key] ==> k in groups && groups[k] != []
    ensures |Moved(p, keys + [key], groups)|
            == |Moved(p, keys, groups)| + if MovesStudent(p, key, groups[key][0], |groups[key]| == 1) then 1 else 0
  {
    hide MovesStudent;
    assert Moved(p, keys + [key], groups)
        == Moved(p, keys, groups) + if MovesStudent(p, key, groups[key][0], |groups[key]| == 1) then {key} else {};
  }

  lemma MatchedNext(p: People, keys: seq<string>, groups: NameGroups, key: string)
    requires key !in keys && forall k :: k in keys + [key] ==> k in groups && groups[k] != []
    ensures |Matched(p, keys + [key], groups)|
            == |Matched(p, keys, groups)| + if MatchesStudent(p, key, groups[key][0], |groups[key]| == 1) then 1 else 0
  {
    hide MatchesStudent;
    assert Matched(p, keys + [key], groups)
        == Matched(p, keys, groups) + if MatchesStudent(p, key, groups[key][0], |groups[key]| == 1) then {key} else {};
  }

  /** The counters are how many names there are of each kind. */
  lemma {:induction false} TalliedExactly(p: People, keys: seq<string>, groups: NameGroups)
    requires Valid(p) && Listing(keys, groups)
    ensures var t := Tallied(p, keys, groups);
            t.added == |Added(p, keys)| && t.moved == |Moved(p, keys, groups)|
            && t.matched == |Matched(p, keys, groups)| && t.ambiguous == |Ambiguities(p, keys)|
    decreases |keys|
  {
    hide Valid, Decide, Squeeze, AddsStudent, MovesStudent, MatchesStudent, IsAmbiguous;
    if keys != [] {
      ListingFront(keys, groups);
      var front, last := keys[..|keys| - 1], keys[|keys| - 1];
      assert keys == front + [last];
      TalliedExactly(p, front, groups);
      DecidesExactly(p, last, groups[last]);
      hide Added, Moved, Matched, Ambiguities;
      AddedNext(p, front, last);
      AmbiguousNext(p, front, last);
      MovedNext(p, front, groups, last);
      MatchedNext(p, front, groups, last);
    }
  }

  lemma {:induction false} TalliedPlaced(p: People, keys: seq<string>, groups: NameGroups)
    requires Listing(keys, groups) && forall k :: k in keys ==> Placed(p, k, groups[k])
    ensures Tallied(p, keys, groups).added == 0 && Tallied(p, keys, groups).moved == 0
    decreases |keys|
  {
    hide Decide, Squeeze, Placed;
    if keys != [] {
      ListingFront(keys, groups);
      var front, last := keys[..|keys| - 1], keys[|keys| - 1];
      assert keys == front + [last];
      TalliedPlaced(p, front, groups);
      PlacedIsIdle(p, last, groups[last]);
    }
  }

  // ---- the loop ----

  /** VARCHAR(255) columns. */
  predicate NamesFit(d: Decision) {
    d.Create? ==> |d.first| <= 255 && |d.last| <= 255 && (d.middle.Some? ==> |d.middle.value| <= 255)
  }

  /** The database refuses a name exactly when nobody bears it and a part of its account would be too long. */
  lemma FitsExactly(p: People, key: string, groups: seq<nat>)
    requires Valid(p) && groups != []
    ensures NamesFit(Decide(p, key, groups)) <==>
      SomebodyBears(p, key) || |Fields(key)| < 2
      || (|Fields(key)[0]| <= 255 && |Fields(key)[1]| <= 255 && |Join(Fields(key)[2..])| <= 255)
  {
    DecidesExactly(p, key, groups);
    hide Decide, SomebodyBears, Fields;
    if |Fields(key)| == 2 {
      assert Fields(key)[2..] == [];
    }
  }

  ghost predicate AllNamesFit(p: People, keys: seq<string>, groups: NameGroups)
    requires Listing(keys, groups)
  {
    forall k :: k in keys ==> NamesFit(Decide(p, k, groups[k]))
  }

  function Found(byName: map<string, seq<User>>, key: string): seq<User> {
    if key in byName then byName[key] else []
  }

  ghost predicate Indexes(byName: map<string, seq<User>>, users: seq<User>) {
    forall key :: Found(byName, key) == Candidates(users, key)
  }

  /** loadUsersByName. */
  method LoadUsersByName(users: seq<User>) returns (byName: map<string, seq<User>>)
    ensures Indexes(byName, users)
  {
    hide KeyOf;
    byName := map[];
    for i := 0 to |users|
      invariant Indexes(byName, users[..i])
    {
      var user := users[i];
      assert users[..i + 1] == users[..i] + [user];
      var next := byName[KeyOf(user) := Found(byName, KeyOf(user)) + [user]];
      forall key ensures Found(next, key) == Candidates(users[..i + 1], key) {
        CandidatesAppend(users[..i], user, key);
        assert Found(byName, key) == Candidates(users[..i], key);
      }
      byName := next;
    }
    assert users[..|users|] == users;
  }

  /** chooseUser: the only candidate, or the only enrolled one of several. */
  method ChooseUser(candidates: seq<User>, groups: map<UserId, nat>) returns (user: Option<User>)
    ensures forall i: nat :: PickedAt(candidates, groups, i) ==> user == Some(candidates[i])
    ensures user.Some? ==> exists i: nat :: PickedAt(candidates, groups, i)
    ensures user == Choice(candidates, groups)
  {
    ChoiceAt(candidates, groups);
    hide PickedAt;
    if |candidates| == 1 {
      return Some(candidates[0]);
    }
    var enrolled: seq<User> := [];
    for i := 0 to |candidates|
      invariant enrolled == Enrolled(candidates[..i], groups)
    {
      assert candidates[..i + 1][..i] == candidates[..i];
      if candidates[i].id in groups {
        enrolled := enrolled + [candidates[i]];
      }
    }
    assert candidates[..|candidates|] == candidates;
    if |enrolled| == 1 {
      return Some(enrolled[0]);
    }
    return None;
  }

  lemma IndexesCreated(byName: map<string, seq<User>>, users: seq<User>, key: string, u: User)
    requires Indexes(byName, users) && Found(byName, key) == [] && KeyOf(u) == key
    ensures Indexes(byName[key := [u]], users + [u])
  {
    hide KeyOf, Candidates;
    forall k ensures Found(byName[key := [u]], k) == Candidates(users + [u], k) {
      CandidatesAppend(users, u, k);
      assert Found(byName, k) == Candidates(users, k);
    }
  }

  /** One turn of the loop: look the name up, create an account if there is none, then enroll, move or match. */
  method PlaceName(p: People, byName: map<string, seq<User>>, key: string, groups: seq<nat>, tally: Tally)
    returns (ok: bool, after: People, index: map<string, seq<User>>, counted: Tally)
    requires Valid(p) && Indexes(byName, p.users) && groups != [] && Squeeze(key) == key
    ensures ok <==> NamesFit(Decide(p, key, groups))
    ensures ok ==> after == Apply(p, Decide(p, key, groups)) && Indexes(index, after.users)
    ensures ok ==> counted == Count(tally, Decide(p, key, groups))
  {
    hide Candidates, Enrolled, Choice, KeyOf, SplitSheetName, Squeeze;
    after, index, counted := p, byName, tally;
    var candidates := Found(byName, key);
    assert candidates == Candidates(p.users, key);
    var user := ChooseUser(candidates, p.groups);
    DecisionBearer(p, key, groups);
    if user.None? && candidates != [] {
      return true, after, index, tally.(ambiguous := tally.ambiguous + 1);
    }
    if user.None? {
      var parts := SplitSheetName(key);
      if parts.None? {
        return true, after, index, tally.(ambiguous := tally.ambiguous + 1);
      }
      var (last, first, middle) := parts.value;
      if |last| > 255 || |first| > 255 || (middle.Some? && |middle.value| > 255) {
        return false, after, index, tally;
      }
      var created := User(p.next, first, middle, last);
      IndexesCreated(byName, p.users, key, created);
      after := after.(users := after.users + [created], next := after.next + 1);
      index := byName[key := [created]];
      user := Some(created);
    }
    var id := user.value.id;
    var targetGroup := groups[0];
    if id in after.groups && |groups| > 1 {
      targetGroup := after.groups[id];
    }
    if id !in after.groups {
      after := after.(groups := after.groups[id := targetGroup]);
      counted := tally.(added := tally.added + 1);
    } else if after.groups[id] != targetGroup {
      after := after.(groups := after.groups[id := targetGroup]);
      counted := tally.(moved := tally.moved + 1);
    } else {
      counted := tally.(matched := tally.matched + 1);
    }
    ok := true;
  }

  /** The transaction: all names in turn, or a database error and nothing. */
  method PlaceNames(p: People, keys: seq<string>, groups: NameGroups) returns (ok: bool, after: People, tally: Tally)
    requires Valid(p) && Listing(keys, groups)
    ensures ok <==> AllNamesFit(p, keys, groups)
    ensures ok ==> after == Run(p, keys, groups) && tally == Tallied(p, keys, groups)
  {
    hide Valid, Squeeze, Decide, NamesFit, Indexes, Apply, Count;
    after, tally := p, Tally(0, 0, 0, 0);
    var byName := LoadUsersByName(p.users);
    for i := 0 to |keys|
      invariant Valid(after) && Listing(keys[..i], groups) && Indexes(byName, after.users)
      invariant after == Run(p, keys[..i], groups) && tally == Tallied(p, keys[..i], groups)
      invariant forall k :: k in keys[..i] ==> NamesFit(Decide(p, k, groups[k]))
    {
      var key := keys[i];
      assert key in keys;
      DecidedAlone(p, keys, groups, i);
      var fits, next, index, counted := PlaceName(after, byName, key, groups[key], tally);
      if !fits {
        return false, p, tally;
      }
      ApplyKeepsValid(after, key, groups[key]);
      assert keys[..i + 1] == keys[..i] + [key] && keys[..i + 1][..i] == keys[..i];
      after, byName, tally := next, index, counted;
    }
    assert keys[..|keys|] == keys;
    ok := true;
  }
}
