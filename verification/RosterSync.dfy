/** SyncStudents (internal/googlesheets/structure_sync.go): the union of the students of a term and of
    every linked conduit tab, and why a second run has nothing left to do. */
module RosterSync {
  import opened Prelude
  import opened SheetText
  import opened SheetAddress
  import opened SheetGrid
  import opened SheetNames
  import opened RosterSheet
  import opened RosterPeople
  import opened RosterRun

  /** A conduit tab and the group it is linked to. */
  datatype Tab = Tab(sheet: Sheet, group: nat, writable: bool)

  ghost predicate Rosters(tabs: seq<Tab>, rosters: seq<Roster>) {
    |rosters| == |tabs| && forall i :: 0 <= i < |tabs| ==> RosterOf(tabs[i].sheet, rosters[i])
  }

  ghost predicate Readable(tab: Tab) {
    exists r :: RosterOf(tab.sheet, r)
  }

  // ---- which groups list a name ----

  function WithGroup(groups: seq<nat>, group: nat): seq<nat> {
    if groups == [] || groups[|groups| - 1] != group then groups + [group] else groups
  }

  /** The groups of the tabs listing a name, in link order, repeats of the previous one left out. */
  function ListingGroups(tabs: seq<Tab>, rosters: seq<Roster>, key: string): seq<nat>
    requires |tabs| == |rosters|
  {
    if tabs == [] then []
    else
      var n := |tabs| - 1;
      var before := ListingGroups(tabs[..n], rosters[..n], key);
      if key in rosters[n].names then WithGroup(before, tabs[n].group) else before
  }

  ghost predicate Listed(rosters: seq<Roster>, key: string) {
    exists i :: 0 <= i < |rosters| && key in rosters[i].names
  }

  lemma {:induction false} ListedHasGroups(tabs: seq<Tab>, rosters: seq<Roster>, key: string)
    requires |tabs| == |rosters|
    ensures ListingGroups(tabs, rosters, key) != [] <==> Listed(rosters, key)
  {
    if tabs != [] {
      var n := |tabs| - 1;
      ListedHasGroups(tabs[..n], rosters[..n], key);
    }
  }

  /** Every tab listing the name is linked to this group. */
  ghost predicate OnlyIn(tabs: seq<Tab>, rosters: seq<Roster>, key: string, group: nat)
    requires |tabs| == |rosters|
  {
    forall i :: 0 <= i < |tabs| && key in rosters[i].names ==> tabs[i].group == group
  }

  /** A name has a single listing group exactly when all tabs listing it share that group. */
  lemma {:induction false} SingleGroup(tabs: seq<Tab>, rosters: seq<Roster>, key: string, group: nat)
    requires |tabs| == |rosters|
    ensures ListingGroups(tabs, rosters, key) == [group] <==> Listed(rosters, key) && OnlyIn(tabs, rosters, key, group)
    decreases |tabs|
  {
    if tabs != [] {
      hide Listed, OnlyIn, WithGroup;
      var n := |tabs| - 1;
      SingleGroup(tabs[..n], rosters[..n], key, group);
      ListedHasGroups(tabs[..n], rosters[..n], key);
      UnlistedOnlyIn(tabs[..n], rosters[..n], key, group);
      ListedFront(rosters, key);
      OnlyInFront(tabs, rosters, key, group);
      WithGroupSingle(ListingGroups(tabs[..n], rosters[..n], key), tabs[n].group, group);
    }
  }

  /** The first tab that lists the name. */
  ghost predicate FirstListing(rosters: seq<Roster>, key: string, i: nat) {
    i < |rosters| && key in rosters[i].names && forall j :: 0 <= j < i ==> key !in rosters[j].names
  }

  /** The listing groups start with that of the first tab listing the name. */
  lemma {:induction false} FirstGroup(tabs: seq<Tab>, rosters: seq<Roster>, key: string) returns (i: nat)
    requires |tabs| == |rosters| && Listed(rosters, key)
    ensures FirstListing(rosters, key, i) && ListingGroups(tabs, rosters, key) != []
    ensures ListingGroups(tabs, rosters, key)[0] == tabs[i].group
    decreases |tabs|
  {
    var n := |tabs| - 1;
    ListedFront(rosters, key);
    ListedHasGroups(tabs[..n], rosters[..n], key);
    if Listed(rosters[..n], key) {
      i := FirstGroup(tabs[..n], rosters[..n], key);
      assert forall j :: 0 <= j < n ==> rosters[..n][j] == rosters[j];
    } else {
      i := n;
      assert forall j :: 0 <= j < n ==> rosters[..n][j] == rosters[j];
    }
  }

  /** What a run made of a listed name, told by its tabs and by the accounts that bore it before. */
  ghost predicate NameSettled(p: People, q: People, tabs: seq<Tab>, rosters: seq<Roster>, key: string)
    requires |tabs| == |rosters|
  {
    exists i: nat :: FirstListing(rosters, key, i)
                     && SettledAs(p, q, key, tabs[i].group, OnlyIn(tabs, rosters, key, tabs[i].group))
  }

  lemma RunSettlesNames(p: People, q: People, tabs: seq<Tab>, rosters: seq<Roster>, keys: seq<string>,
                        groups: NameGroups)
    requires Valid(p) && |tabs| == |rosters| && Gathered(tabs, rosters, keys, groups) && q == Run(p, keys, groups)
    ensures forall k :: Listed(rosters, k) ==> NameSettled(p, q, tabs, rosters, k)
  {
    hide Valid, ListingGroups, Listed, FirstListing, OnlyIn, SettledAs, Run, Squeeze;
    forall k | Listed(rosters, k) ensures NameSettled(p, q, tabs, rosters, k) {
      RunSettles(p, keys, groups, k);
      var i := FirstGroup(tabs, rosters, k);
      SingleGroup(tabs, rosters, k, tabs[i].group);
      OneElement(ListingGroups(tabs, rosters, k));
    }
  }

  /** So the account a name stands for ends up in the one group whose tabs list the name. */
  lemma ListedIsPlaced(p: People, q: People, tabs: seq<Tab>, rosters: seq<Roster>, key: string, u: User, group: nat)
    requires |tabs| == |rosters| && NameSettled(p, q, tabs, rosters, key)
    requires OnlyIn(tabs, rosters, key, group) && (OnlyBearer(p, key, u) || OnlyEnrolledBearer(p, key, u))
    ensures InGroup(q, u, group)
  {
    hide KeyOf;
    var i: nat :| FirstListing(rosters, key, i)
                  && SettledAs(p, q, key, tabs[i].group, OnlyIn(tabs, rosters, key, tabs[i].group));
    assert tabs[i].group == group;
    StandsForBears(p, key, u);
    assert PutInto(p, q, key, u, group, true);
  }

  lemma OneElement(s: seq<nat>)
    requires s != []
    ensures |s| == 1 <==> s == [s[0]]
  {
  }

  lemma WithGroupSingle(before: seq<nat>, group: nat, single: nat)
    ensures WithGroup(before, group) == [single] <==> group == single && (before == [] || before == [single])
  {
    if before == [] {
      assert WithGroup(before, group) == [group];
      assert [group][0] == group && [single][0] == single;
    } else if before[|before| - 1] != group {
      assert |WithGroup(before, group)| > 1;
    } else if |before| == 1 {
      assert before == [group];
    }
  }

  lemma UnlistedOnlyIn(tabs: seq<Tab>, rosters: seq<Roster>, key: string, group: nat)
    requires |tabs| == |rosters|
    ensures !Listed(rosters, key) ==> OnlyIn(tabs, rosters, key, group)
  {
  }

  lemma ListedFront(rosters: seq<Roster>, key: string)
    requires rosters != []
    ensures var n := |rosters| - 1; Listed(rosters, key) <==> Listed(rosters[..n], key) || key in rosters[n].names
  {
    var n := |rosters| - 1;
    if Listed(rosters[..n], key) {
      var i :| 0 <= i < n && key in rosters[..n][i].names;
      assert key in rosters[i].names;
    }
    if Listed(rosters, key) && key !in rosters[n].names {
      var i :| 0 <= i < |rosters| && key in rosters[i].names;
      assert key in rosters[..n][i].names;
    }
  }

  lemma OnlyInFront(tabs: seq<Tab>, rosters: seq<Roster>, key: string, group: nat)
    requires |tabs| == |rosters| && tabs != []
    ensures var n := |tabs| - 1;
            OnlyIn(tabs, rosters, key, group)
            <==> OnlyIn(tabs[..n], rosters[..n], key, group) && (key in rosters[n].names ==> tabs[n].group == group)
  {
    var n := |tabs| - 1;
    assert forall i :: 0 <= i < n ==> tabs[..n][i] == tabs[i] && rosters[..n][i] == rosters[i];
    if OnlyIn(tabs[..n], rosters[..n], key, group) && (key in rosters[n].names ==> tabs[n].group == group) {
      forall i | 0 <= i < |tabs| && key in rosters[i].names ensures tabs[i].group == group {
        if i < n {
          assert key in rosters[..n][i].names;
        }
      }
    }
  }

  // ---- reading the tabs ----

  function GroupsFound(groups: NameGroups, key: string): seq<nat> {
    if key in groups then groups[key] else []
  }

  /** ListingGroups once the names `done` of one more tab have been seen. */
  function Seen(tabs: seq<Tab>, rosters: seq<Roster>, group: nat, done: seq<string>, key: string): seq<nat>
    requires |tabs| == |rosters|
  {
    var before := ListingGroups(tabs, rosters, key);
    if key in done then WithGroup(before, group) else before
  }

  /** studentKeys and nameGroups at that point. */
  ghost predicate Collected(tabs: seq<Tab>, rosters: seq<Roster>, group: nat, done: seq<string>, keys: seq<string>,
                            groups: NameGroups)
    requires |tabs| == |rosters|
  {
    && Listing(keys, groups)
    && (forall k :: k in groups ==> k in keys)
    && forall k :: GroupsFound(groups, k) == Seen(tabs, rosters, group, done, k)
  }

  lemma CollectNext(tabs: seq<Tab>, rosters: seq<Roster>, group: nat, done: seq<string>, keys: seq<string>,
                    groups: NameGroups, name: string)
    requires |tabs| == |rosters| && Collected(tabs, rosters, group, done, keys, groups)
    requires name !in done && Squeeze(name) == name
    ensures Collected(tabs, rosters, group, done + [name], if name in groups then keys else keys + [name],
                      groups[name := WithGroup(GroupsFound(groups, name), group)])
  {
    hide Squeeze, ListingGroups;
    var next := groups[name := WithGroup(GroupsFound(groups, name), group)];
    forall k ensures GroupsFound(next, k) == Seen(tabs, rosters, group, done + [name], k) {
      assert GroupsFound(groups, k) == Seen(tabs, rosters, group, done, k);
    }
  }

  lemma CollectTab(tabs: seq<Tab>, rosters: seq<Roster>, tab: Tab, roster: Roster, keys: seq<string>, groups: NameGroups,
                   next: nat)
    requires |tabs| == |rosters| && Collected(tabs, rosters, tab.group, roster.names, keys, groups)
    ensures Collected(tabs + [tab], rosters + [roster], next, [], keys, groups)
  {
    hide Squeeze, WithGroup;
    forall k ensures GroupsFound(groups, k) == Seen(tabs + [tab], rosters + [roster], next, [], k) {
      assert (tabs + [tab])[..|tabs|] == tabs && (rosters + [roster])[..|tabs|] == rosters;
      assert GroupsFound(groups, k) == Seen(tabs, rosters, tab.group, roster.names, k);
    }
  }

  lemma CollectedFor(tabs: seq<Tab>, rosters: seq<Roster>, group: nat, keys: seq<string>, groups: NameGroups, next: nat)
    requires |tabs| == |rosters| && Collected(tabs, rosters, group, [], keys, groups)
    ensures Collected(tabs, rosters, next, [], keys, groups)
  {
    hide Squeeze, ListingGroups;
    forall k ensures GroupsFound(groups, k) == Seen(tabs, rosters, next, [], k) {
      assert GroupsFound(groups, k) == Seen(tabs, rosters, group, [], k);
    }
  }

  /** What the reading phase hands to the transaction. */
  ghost predicate Gathered(tabs: seq<Tab>, rosters: seq<Roster>, keys: seq<string>, groups: NameGroups)
    requires |tabs| == |rosters|
  {
    && Listing(keys, groups)
    && (forall k :: k in keys <==> Listed(rosters, k))
    && forall k :: k in keys ==> groups[k] == ListingGroups(tabs, rosters, k)
  }

  lemma CollectedIsGathered(tabs: seq<Tab>, rosters: seq<Roster>, keys: seq<string>, groups: NameGroups)
    requires |tabs| == |rosters| && Collected(tabs, rosters, 0, [], keys, groups)
    ensures Gathered(tabs, rosters, keys, groups)
  {
    hide Squeeze, ListingGroups, Listed;
    forall k
      ensures k in keys <==> Listed(rosters, k)
      ensures k in keys ==> groups[k] == ListingGroups(tabs, rosters, k)
    {
      assert GroupsFound(groups, k) == Seen(tabs, rosters, 0, [], k);
      ListedHasGroups(tabs, rosters, k);
    }
  }

  method CollectNames(ghost tabs: seq<Tab>, ghost rosters: seq<Roster>, tab: Tab, roster: Roster,
                      before: seq<string>, beforeGroups: NameGroups)
    returns (keys: seq<string>, groups: NameGroups)
    requires |tabs| == |rosters| && Collected(tabs, rosters, tab.group, [], before, beforeGroups)
    requires RosterOf(tab.sheet, roster)
    ensures Collected(tabs, rosters, tab.group, roster.names, keys, groups)
  {
    hide *;
    RosterNames(tab.sheet, roster);
    keys, groups := before, beforeGroups;
    for i := 0 to |roster.names|
      invariant Collected(tabs, rosters, tab.group, roster.names[..i], keys, groups)
    {
      var name := roster.names[i];
      NextName(roster.names, i);
      CollectNext(tabs, rosters, tab.group, roster.names[..i], keys, groups, name);
      assert roster.names[..i + 1] == roster.names[..i] + [name];
      if name !in groups {
        keys := keys + [name];
      }
      groups := groups[name := WithGroup(GroupsFound(groups, name), tab.group)];
    }
    assert roster.names[..|roster.names|] == roster.names;
  }

  lemma RosterNames(v: Sheet, r: Roster)
    requires RosterOf(v, r)
    ensures Keyed(r.names)
  {
    hide Keyed, NamesBelow, IsConduitHeader, BlankBelow;
    NamesAreKeys(v, r.headerRow, r.nameColumn, r.lastRow + 1);
  }

  lemma NextName(names: seq<string>, i: nat)
    requires Keyed(names) && i < |names|
    ensures names[i] !in names[..i] && Squeeze(names[i]) == names[i]
  {
    hide Squeeze, Listable;
  }

  method ReadRosters(tabs: seq<Tab>)
    returns (ok: bool, rosters: seq<Roster>, keys: seq<string>, groups: NameGroups, readOnly: bool)
    ensures ok <==> forall i :: 0 <= i < |tabs| ==> Readable(tabs[i])
    ensures ok ==> Rosters(tabs, rosters) && Gathered(tabs, rosters, keys, groups)
    ensures ok ==> |rosters| == |tabs| && Listing(keys, groups)
    ensures ok ==> (readOnly <==> exists t :: t in tabs && !t.writable)
  {
    hide RosterOf, Collected;
    rosters, keys, groups, readOnly := [], [], map[], false;
    NothingCollected();
    for i := 0 to |tabs|
      invariant |rosters| == i && forall k :: 0 <= k < i ==> RosterOf(tabs[k].sheet, rosters[k])
      invariant forall k :: 0 <= k < i ==> Readable(tabs[k])
      invariant Collected(tabs[..i], rosters, 0, [], keys, groups)
      invariant readOnly <==> exists t :: t in tabs[..i] && !t.writable
    {
      var tab := tabs[i];
      var roster := ParseConduitRoster(tab.sheet);
      if roster.None? {
        assert !Readable(tabs[i]);
        return false, [], [], map[], false;
      }
      assert tabs[..i + 1] == tabs[..i] + [tab];
      if !tab.writable {
        readOnly := true;
      }
      CollectedFor(tabs[..i], rosters, 0, keys, groups, tab.group);
      keys, groups := CollectNames(tabs[..i], rosters, tab, roster.value, keys, groups);
      CollectTab(tabs[..i], rosters, tab, roster.value, keys, groups, 0);
      rosters := rosters + [roster.value];
    }
    assert tabs[..|tabs|] == tabs;
    CollectedIsGathered(tabs, rosters, keys, groups);
    ok := true;
  }

  lemma NothingCollected()
    ensures Collected([], [], 0, [], [], map[])
  {
  }

  // ---- writing the missing names ----

  predicate InGroup(p: People, u: User, group: nat) {
    u in p.users && u.id in p.groups && p.groups[u.id] == group
  }

  /** The students of a group, each once, in whatever order the database collates them. */
  method GroupStudents(p: People, group: nat) returns (students: seq<User>)
    ensures forall i, j :: 0 <= i < j < |students| ==> students[i] != students[j]
    ensures forall u :: u in students <==> InGroup(p, u, group)
  {
    var rest := set u | u in p.users && InGroup(p, u, group);
    students := [];
    while rest != {}
      invariant forall u :: u in rest ==> InGroup(p, u, group)
      invariant forall i, j :: 0 <= i < j < |students| ==> students[i] != students[j]
      invariant forall u :: u in students ==> InGroup(p, u, group) && u !in rest
      invariant forall u :: InGroup(p, u, group) ==> u in rest || u in students
      decreases |rest|
    {
      var u :| u in rest;
      students := students + [u];
      rest := rest - {u};
    }
  }

  /** The students of a group whose name a roster does not list. */
  ghost predicate IsMissing(missing: seq<User>, p: People, group: nat, names: seq<string>) {
    (forall i, j :: 0 <= i < j < |missing| ==> missing[i] != missing[j])
    && forall u :: u in missing <==> InGroup(p, u, group) && KeyOf(u) !in names
  }

  function NamesOf(users: seq<User>): (cells: seq<string>)
    ensures |cells| == |users| && forall i :: 0 <= i < |cells| ==> cells[i] == SheetPersonName(users[i])
  {
    seq(|users|, i requires 0 <= i < |users| => SheetPersonName(users[i]))
  }

  function RosterAfter(r: Roster, missing: seq<User>): Roster {
    if missing == [] then r
    else r.(lastRow := r.lastRow + |missing|, names := WithNames(r.names, NamesOf(missing)))
  }

  /** A tab after its export: the missing names in the rows right below everything used, and every
      other cell as before; read-only tabs untouched. */
  ghost predicate Exported(before: Tab, after: Tab, roster: Roster, p: People, missing: seq<User>) {
    after.group == before.group && after.writable == before.writable
    && if !before.writable then after.sheet == before.sheet && missing == []
       else
         IsMissing(missing, p, before.group, roster.names)
         && if missing == [] then after.sheet == before.sheet
            else Wrote(before.sheet, after.sheet, RowsBelow(roster, |missing|), OneColumn(NamesOf(missing)))
  }

  lemma ExportedRoster(before: Tab, after: Tab, roster: Roster, p: People, missing: seq<User>)
    requires Exported(before, after, roster, p, missing) && RosterOf(before.sheet, roster)
    ensures RosterOf(after.sheet, RosterAfter(roster, missing))
  {
    hide RosterOf, Wrote, IsMissing, Fits, WithNames, NamesOf, RowsBelow, OneColumn;
    if missing != [] {
      AppendThenRoster(before.sheet, after.sheet, roster, NamesOf(missing));
    }
  }

  lemma {:induction false} RosterAfterLists(r: Roster, missing: seq<User>, key: string)
    ensures key in RosterAfter(r, missing).names
            <==> key in r.names || (Listable(key) && exists u :: u in missing && KeyOf(u) == key)
  {
    hide Listable, WithNames, SheetPersonName, Squeeze;
    var cells := NamesOf(missing);
    WithNamesMembers(r.names, cells, key);
    if exists i :: 0 <= i < |cells| && Squeeze(cells[i]) == key {
      var i :| 0 <= i < |cells| && Squeeze(cells[i]) == key;
      assert missing[i] in missing && KeyOf(missing[i]) == key;
    }
    if exists u :: u in missing && KeyOf(u) == key {
      var u :| u in missing && KeyOf(u) == key;
      var i :| 0 <= i < |missing| && missing[i] == u;
      assert Squeeze(cells[i]) == key;
    }
  }

  lemma ExportLands(sheet: Sheet, r: Roster, cells: seq<string>)
    requires cells != []
    ensures var rect := Rect(r.lastRow + 1, r.nameColumn, r.lastRow + |cells|, r.nameColumn);
            var updated := UpdateValues(sheet, RangeName(rect), OneColumn(cells));
            RowsBelow(r, |cells|) == rect && Fits(rect, OneColumn(cells))
            && updated.Some? && Wrote(sheet, updated.value, rect, OneColumn(cells))
  {
    hide RangeName, DecodeRange, Overwrite, Wrote;
    var rect := RowsBelow(r, |cells|);
    DecodeRangeName(rect);
    OverwriteWrites(sheet, rect, OneColumn(cells));
  }

  method ExportTab(before: Tab, roster: Roster, p: People) returns (after: Tab, ghost missing: seq<User>, added: nat)
    ensures Exported(before, after, roster, p, missing) && added == |missing|
  {
    hide SheetPersonName, Squeeze, UpdateValues, RangeName, Wrote, Fits;
    var students := GroupStudents(p, before.group);
    var absent: seq<User> := [];
    for i := 0 to |students|
      invariant forall a, b :: 0 <= a < b < |absent| ==> absent[a] != absent[b]
      invariant forall u :: u in absent <==> u in students[..i] && KeyOf(u) !in roster.names
    {
      assert students[..i + 1] == students[..i] + [students[i]];
      assert students[i] !in students[..i];
      if Squeeze(SheetPersonName(students[i])) !in roster.names {
        absent := absent + [students[i]];
      }
    }
    assert students[..|students|] == students;
    assert IsMissing(absent, p, before.group, roster.names);
    hide IsMissing;
    if absent == [] {
      return before, [], 0;
    }
    if !before.writable {
      return before, [], 0;
    }
    var range := PrintRange(roster.lastRow + 1, roster.nameColumn, roster.lastRow + |absent|, roster.nameColumn);
    ExportLands(before.sheet, roster, NamesOf(absent));
    after := before.(sheet := UpdateValues(before.sheet, range, OneColumn(NamesOf(absent))).value);
    return after, absent, |absent|;
  }

  // ---- the fixed point ----

  function RostersAfter(rosters: seq<Roster>, missing: seq<seq<User>>): (r: seq<Roster>)
    requires |rosters| == |missing|
    ensures |r| == |rosters| && forall i :: 0 <= i < |r| ==> r[i] == RosterAfter(rosters[i], missing[i])
  {
    seq(|rosters|, i requires 0 <= i < |rosters| => RosterAfter(rosters[i], missing[i]))
  }

  ghost predicate AllExported(before: seq<Tab>, after: seq<Tab>, rosters: seq<Roster>, p: People, missing: seq<seq<User>>) {
    |before| == |after| == |rosters| == |missing|
    && forall i :: 0 <= i < |before| ==> Exported(before[i], after[i], rosters[i], p, missing[i])
  }

  /** Every listed name is placed, and every writable tab lists the listable students of its group. */
  ghost predicate Union(p: People, tabs: seq<Tab>, rosters: seq<Roster>)
    requires |tabs| == |rosters|
  {
    && (forall k :: Listed(rosters, k) ==> Placed(p, k, ListingGroups(tabs, rosters, k)))
    && forall i, u :: 0 <= i < |tabs| && tabs[i].writable && InGroup(p, u, tabs[i].group) && Listable(KeyOf(u)) ==>
         KeyOf(u) in rosters[i].names
  }

  ghost predicate Joined(p: People, tabs: seq<Tab>) {
    exists rosters :: Rosters(tabs, rosters) && Union(p, tabs, rosters)
  }

  /** No writable tab belongs to a group with a student whose name no roster would list. */
  ghost predicate AllListable(p: People, tabs: seq<Tab>) {
    forall i, u :: 0 <= i < |tabs| && tabs[i].writable && InGroup(p, u, tabs[i].group) ==> Listable(KeyOf(u))
  }

  lemma IdealName()
    ensures KeyOf(User(1, "Ученик", None, "Идеальный")) == "Идеальный Ученик"
  {
    var words := ["Идеальный", "Ученик"];
    assert forall w :: w in words ==> IsWord(w);
    hide IsSpace, Fields, Join;
    FieldsOfJoin(words);
    JoinStep(words);
    JoinOne(words[1]);
    assert words[1..] == [words[1]] && words + [] == words;
    assert Join(words) == "Идеальный Ученик";
  }

  lemma BlankName()
    ensures KeyOf(User(1, "", None, "")) == ""
  {
    var parts := ["", ""];
    JoinStep(parts);
    JoinOne("");
    assert parts[1..] == [""] && parts + [] == parts;
    assert Join(parts) == " ";
    assert Fields(" ") == Fields(" "[1..]);
  }

  /** A name listed after an export was listed before, or is borne by a student of the tab's group. */
  lemma ListedAfter(p: People, before: Tab, after: Tab, roster: Roster, missing: seq<User>, key: string)
    requires Exported(before, after, roster, p, missing) && key in RosterAfter(roster, missing).names
    ensures key in roster.names || exists u :: InGroup(p, u, before.group) && KeyOf(u) == key
  {
    hide Wrote, Fits, RosterAfter, KeyOf, Listable;
    RosterAfterLists(roster, missing, key);
  }

  lemma OldNamesStay(r: Roster, missing: seq<User>, key: string)
    requires key in r.names
    ensures key in RosterAfter(r, missing).names
  {
    RosterAfterLists(r, missing, key);
  }

  /** A name of the run stays placed when the tabs have been exported to. */
  lemma OldNamePlaced(p: People, tabs: seq<Tab>, after: seq<Tab>, rosters: seq<Roster>, missing: seq<seq<User>>, key: string)
    requires AllExported(tabs, after, rosters, p, missing) && Listed(rosters, key)
    requires Placed(p, key, ListingGroups(tabs, rosters, key))
    ensures Placed(p, key, ListingGroups(after, RostersAfter(rosters, missing), key))
  {
    hide Exported, ListingGroups, RosterAfter, Candidates, Choice, SplitSheetName;
    var next := ListingGroups(after, RostersAfter(rosters, missing), key);
    if |next| == 1 {
      SingleGroup(after, RostersAfter(rosters, missing), key, next[0]);
      assert next == [next[0]];
      forall i | 0 <= i < |tabs| && key in rosters[i].names ensures tabs[i].group == next[0] {
        OldNamesStay(rosters[i], missing[i], key);
        SameTab(p, tabs[i], after[i], rosters[i], missing[i]);
      }
      SingleGroup(tabs, rosters, key, next[0]);
    }
  }

  lemma SameTab(p: People, before: Tab, after: Tab, roster: Roster, missing: seq<User>)
    requires Exported(before, after, roster, p, missing)
    ensures after.group == before.group && after.writable == before.writable
  {
    hide Wrote, Fits, IsMissing;
  }

  /** A name an export put on a tab is placed: its bearer is in the group of every tab listing it. */
  lemma NewNamePlaced(p: People, tabs: seq<Tab>, after: seq<Tab>, rosters: seq<Roster>, missing: seq<seq<User>>, key: string)
    requires AllExported(tabs, after, rosters, p, missing) && !Listed(rosters, key)
    requires Listed(RostersAfter(rosters, missing), key)
    ensures Placed(p, key, ListingGroups(after, RostersAfter(rosters, missing), key))
  {
    hide Exported, ListingGroups, RosterAfter, Candidates, Choice, SplitSheetName, KeyOf;
    var next := ListingGroups(after, RostersAfter(rosters, missing), key);
    var i :| 0 <= i < |rosters| && key in RostersAfter(rosters, missing)[i].names;
    ListedAfter(p, tabs[i], after[i], rosters[i], missing[i], key);
    SameTab(p, tabs[i], after[i], rosters[i], missing[i]);
    var u :| InGroup(p, u, tabs[i].group) && KeyOf(u) == key;
    CandidatesAre(p.users, key, u);
    var choice := Choice(Candidates(p.users, key), p.groups);
    if choice.Some? {
      ChoiceIs(p, key, choice.value, u);
      if |next| == 1 {
        SingleGroup(after, RostersAfter(rosters, missing), key, next[0]);
        assert next == [next[0]];
      }
    }
  }

  /** After a run and its export, the term and its tabs are joined. */
  lemma ExportJoins(p: People, tabs: seq<Tab>, after: seq<Tab>, rosters: seq<Roster>, missing: seq<seq<User>>)
    requires Rosters(tabs, rosters) && AllExported(tabs, after, rosters, p, missing)
    requires forall k :: Listed(rosters, k) ==> Placed(p, k, ListingGroups(tabs, rosters, k))
    ensures Rosters(after, RostersAfter(rosters, missing)) && Union(p, after, RostersAfter(rosters, missing))
  {
    hide Exported, RosterOf, ListingGroups, RosterAfter, Placed, KeyOf, Listable, Listed;
    forall i | 0 <= i < |tabs| ensures RosterOf(after[i].sheet, RosterAfter(rosters[i], missing[i])) {
      ExportedRoster(tabs[i], after[i], rosters[i], p, missing[i]);
    }
    forall k | Listed(RostersAfter(rosters, missing), k)
      ensures Placed(p, k, ListingGroups(after, RostersAfter(rosters, missing), k))
    {
      if Listed(rosters, k) {
        OldNamePlaced(p, tabs, after, rosters, missing, k);
      } else {
        NewNamePlaced(p, tabs, after, rosters, missing, k);
      }
    }
    forall i, u | 0 <= i < |tabs| && after[i].writable && InGroup(p, u, after[i].group) && Listable(KeyOf(u))
      ensures KeyOf(u) in RosterAfter(rosters[i], missing[i]).names
    {
      SameTab(p, tabs[i], after[i], rosters[i], missing[i]);
      ExportListsGroup(p, tabs[i], after[i], rosters[i], missing[i], u);
    }
  }

  lemma ExportListsGroup(p: People, before: Tab, after: Tab, roster: Roster, missing: seq<User>, u: User)
    requires Exported(before, after, roster, p, missing) && before.writable
    requires InGroup(p, u, before.group) && Listable(KeyOf(u))
    ensures KeyOf(u) in RosterAfter(roster, missing).names
  {
    hide Wrote, Fits, RosterAfter, KeyOf, Listable;
    RosterAfterLists(roster, missing, KeyOf(u));
  }

  /** Re-reading the same cells finds the same names. */
  lemma SameRosters(tabs: seq<Tab>, again: seq<Tab>, rosters: seq<Roster>, others: seq<Roster>, key: string)
    requires Rosters(tabs, rosters) && Rosters(again, others) && |tabs| == |again|
    requires forall i :: 0 <= i < |tabs| ==> SameTabCells(tabs[i], again[i])
    ensures forall i :: 0 <= i < |tabs| ==> rosters[i].names == others[i].names
    ensures ListingGroups(tabs, rosters, key) == ListingGroups(again, others, key)
    decreases |tabs|
  {
    hide RosterOf, SameCells, WithGroup;
    if tabs != [] {
      var n := |tabs| - 1;
      RosterIsUnique(tabs[n].sheet, again[n].sheet, rosters[n], others[n]);
      SameRosters(tabs[..n], again[..n], rosters[..n], others[..n], key);
      assert forall i :: 0 <= i < n ==> rosters[..n][i] == rosters[i] && others[..n][i] == others[i];
    }
  }

  ghost predicate SameTabCells(a: Tab, b: Tab) {
    a.group == b.group && a.writable == b.writable && SameCells(a.sheet, b.sheet)
  }

  /** What the reading phase finds in joined tabs. */
  lemma JoinedReads(p: People, tabs: seq<Tab>, rosters: seq<Roster>)
    requires Joined(p, tabs) && Rosters(tabs, rosters)
    ensures Union(p, tabs, rosters)
  {
    hide RosterOf, ListingGroups, Placed, KeyOf, Listable, SameTabCells;
    var others :| Rosters(tabs, others) && Union(p, tabs, others);
    forall i | 0 <= i < |tabs| ensures SameTabCells(tabs[i], tabs[i]) {
      SameAsItself(tabs[i]);
    }
    forall k
      ensures ListingGroups(tabs, rosters, k) == ListingGroups(tabs, others, k)
      ensures Listed(rosters, k) ==> Listed(others, k)
    {
      SameRosters(tabs, tabs, rosters, others, k);
    }
    SameRosters(tabs, tabs, rosters, others, "");
  }

  lemma SameAsItself(tab: Tab)
    ensures SameTabCells(tab, tab)
  {
  }

  /** Joined terms stay joined however many trailing blanks the next reading returns. */
  lemma JoinedSurvivesRereading(p: People, tabs: seq<Tab>, again: seq<Tab>)
    requires Joined(p, tabs) && |tabs| == |again|
    requires forall i :: 0 <= i < |tabs| ==> SameTabCells(tabs[i], again[i])
    ensures Joined(p, again)
  {
    hide RosterOf, SameCells, ListingGroups, Placed, KeyOf, Listable;
    var rosters: seq<Roster> :| Rosters(tabs, rosters) && Union(p, tabs, rosters);
    forall i | 0 <= i < |tabs| ensures RosterOf(again[i].sheet, rosters[i]) {
      RosterOfSameCells(tabs[i].sheet, again[i].sheet, rosters[i]);
    }
    forall k ensures ListingGroups(tabs, rosters, k) == ListingGroups(again, rosters, k) {
      SameRosters(tabs, again, rosters, rosters, k);
    }
    forall k | Listed(rosters, k) ensures Placed(p, k, ListingGroups(again, rosters, k)) {
      assert Placed(p, k, ListingGroups(tabs, rosters, k));
    }
    forall i, u | 0 <= i < |tabs| && again[i].writable && InGroup(p, u, again[i].group) && Listable(KeyOf(u))
      ensures KeyOf(u) in rosters[i].names
    {
      assert SameTabCells(tabs[i], again[i]);
    }
    assert Union(p, again, rosters);
  }

  /** In a joined term an export writes exactly the students no roster would list. */
  lemma JoinedExports(p: People, tabs: seq<Tab>, after: seq<Tab>, rosters: seq<Roster>, missing: seq<seq<User>>, i: nat)
    requires Rosters(tabs, rosters) && Union(p, tabs, rosters) && AllExported(tabs, after, rosters, p, missing)
    requires i < |tabs|
    ensures forall u :: u in missing[i] <==>
      tabs[i].writable && InGroup(p, u, tabs[i].group) && !Listable(KeyOf(u))
    ensures missing[i] == [] ==> after[i] == tabs[i]
  {
    RosterNames(tabs[i].sheet, rosters[i]) by {
      hide Exported, Union, RosterOf;
    }
    hide Wrote, Fits, RosterOf, Placed, ListingGroups, KeyOf, Listable;
    assert Exported(tabs[i], after[i], rosters[i], p, missing[i]);
  }

  method ExportAll(tabs: seq<Tab>, rosters: seq<Roster>, p: People)
    returns (after: seq<Tab>, ghost missing: seq<seq<User>>, added: nat)
    requires |rosters| == |tabs|
    ensures AllExported(tabs, after, rosters, p, missing) && added == TotalLength(missing)
  {
    hide Exported;
    after, missing, added := [], [], 0;
    for i := 0 to |tabs|
      invariant |after| == |missing| == i && added == TotalLength(missing)
      invariant forall k :: 0 <= k < i ==> Exported(tabs[k], after[k], rosters[k], p, missing[k])
    {
      var tab, absent, count := ExportTab(tabs[i], rosters[i], p);
      AppendLength(missing, absent);
      after, missing, added := after + [tab], missing + [absent], added + count;
    }
  }

  // ---- the whole run ----

  datatype Result = Result(addedToMy239: nat, addedToSheets: nat, matched: nat, moved: nat, ambiguous: nat, readOnly: bool)

  datatype Outcome = Synced(result: Result) | Failed

  /** What a successful run read and wrote. */
  datatype Trace = Trace(rosters: seq<Roster>, keys: seq<string>, groups: NameGroups, missing: seq<seq<User>>)

  /** A run succeeds when every tab has the header and every account it would create fits the database. */
  ghost predicate CanSync(p: People, tabs: seq<Tab>, t: Trace) {
    Rosters(tabs, t.rosters) && Gathered(tabs, t.rosters, t.keys, t.groups) && AllNamesFit(p, t.keys, t.groups)
  }

  ghost predicate Ran(p: People, tabs: seq<Tab>, q: People, after: seq<Tab>, t: Trace) {
    Rosters(tabs, t.rosters) && Gathered(tabs, t.rosters, t.keys, t.groups)
    && q == Run(p, t.keys, t.groups) && AllExported(tabs, after, t.rosters, q, t.missing)
  }

  lemma RunJoins(p: People, tabs: seq<Tab>, q: People, after: seq<Tab>, t: Trace)
    requires Valid(p) && Ran(p, tabs, q, after, t)
    ensures Valid(q) && Joined(q, after) && Accounted(p, q, t.keys, t.groups)
  {
    hide Valid, RosterOf, Run, ListingGroups, Exported, Placed, Squeeze, Accounted;
    RunKeepsValid(p, t.keys, t.groups);
    RunAccounts(p, t.keys, t.groups);
    forall k | Listed(t.rosters, k) ensures Placed(q, k, ListingGroups(tabs, t.rosters, k)) {
      RunPlaces(p, t.keys, t.groups, k);
    }
    ExportJoins(q, tabs, after, t.rosters, t.missing);
  }

  /** A run over a joined term changes no account and no enrollment, and writes nothing exactly when all
      students of the writable groups are listable. */
  lemma RunOfJoined(p: People, tabs: seq<Tab>, q: People, after: seq<Tab>, t: Trace)
    requires Valid(p) && Joined(p, tabs) && Ran(p, tabs, q, after, t)
    ensures q == p && Tallied(p, t.keys, t.groups).added == 0 && Tallied(p, t.keys, t.groups).moved == 0
    ensures TotalLength(t.missing) == 0 <==> AllListable(p, tabs)
    ensures TotalLength(t.missing) == 0 ==> after == tabs
  {
    hide Valid, RosterOf, Run, ListingGroups, Exported, Placed, Squeeze, Tallied, KeyOf, Listable, InGroup;
    JoinedReads(p, tabs, t.rosters);
    RunOfPlaced(p, t.keys, t.groups);
    TalliedPlaced(p, t.keys, t.groups);
    TotalIsZero(t.missing);
    forall i | 0 <= i < |tabs|
      ensures t.missing[i] == [] ==> after[i] == tabs[i]
      ensures t.missing[i] == [] <==> forall u :: tabs[i].writable && InGroup(p, u, tabs[i].group) ==> Listable(KeyOf(u))
    {
      JoinedExports(p, tabs, after, t.rosters, t.missing, i);
      if t.missing[i] != [] {
        assert t.missing[i][0] in t.missing[i];
      }
    }
  }

  /** The rosters of a joined term ask for no account, so the database cannot refuse one. */
  lemma JoinedFits(p: People, tabs: seq<Tab>, rosters: seq<Roster>, keys: seq<string>, groups: NameGroups)
    requires Joined(p, tabs)
    ensures forall i :: 0 <= i < |tabs| ==> Readable(tabs[i])
    ensures Rosters(tabs, rosters) && Gathered(tabs, rosters, keys, groups) ==> AllNamesFit(p, keys, groups)
  {
    hide RosterOf, ListingGroups, Placed, Squeeze, KeyOf, Listable, Decide;
    var others :| Rosters(tabs, others) && Union(p, tabs, others);
    if Rosters(tabs, rosters) && Gathered(tabs, rosters, keys, groups) {
      JoinedReads(p, tabs, rosters);
      forall k | k in keys ensures NamesFit(Decide(p, k, groups[k])) {
        PlacedIsIdle(p, k, groups[k]);
      }
    }
  }

  /** Whatever order the names were gathered in, the same accounts are asked for. */
  lemma SameRequests(p: People, tabs: seq<Tab>, a: Trace, b: Trace)
    requires Rosters(tabs, a.rosters) && Gathered(tabs, a.rosters, a.keys, a.groups) && CanSync(p, tabs, b)
    ensures CanSync(p, tabs, a)
  {
    hide RosterOf, ListingGroups, Decide, NamesFit, Squeeze, SameTabCells;
    forall i | 0 <= i < |tabs| ensures SameTabCells(tabs[i], tabs[i]) {
      SameAsItself(tabs[i]);
    }
    forall k | k in a.keys ensures NamesFit(Decide(p, k, a.groups[k])) {
      SameRosters(tabs, tabs, a.rosters, b.rosters, k);
      assert Listed(b.rosters, k) by {
        assert Listed(a.rosters, k);
      }
      assert k in b.keys && a.groups[k] == b.groups[k];
    }
  }

  lemma Refusals(p: People, tabs: seq<Tab>, t: Trace)
    ensures (exists possible :: CanSync(p, tabs, possible)) ==> forall i :: 0 <= i < |tabs| ==> Readable(tabs[i])
    ensures Rosters(tabs, t.rosters) && Gathered(tabs, t.rosters, t.keys, t.groups) ==>
      ((exists possible :: CanSync(p, tabs, possible)) <==> AllNamesFit(p, t.keys, t.groups))
    ensures Joined(p, tabs) ==> forall i :: 0 <= i < |tabs| ==> Readable(tabs[i])
    ensures Joined(p, tabs) && Rosters(tabs, t.rosters) && Gathered(tabs, t.rosters, t.keys, t.groups) ==>
      AllNamesFit(p, t.keys, t.groups)
  {
    hide RosterOf, ListingGroups, Listed, Squeeze, AllNamesFit, Joined;
    if Rosters(tabs, t.rosters) && Gathered(tabs, t.rosters, t.keys, t.groups) {
      if AllNamesFit(p, t.keys, t.groups) {
        assert CanSync(p, tabs, t);
      }
      if exists possible :: CanSync(p, tabs, possible) {
        var possible :| CanSync(p, tabs, possible);
        SameRequests(p, tabs, t, possible);
      }
    }
    if Joined(p, tabs) {
      JoinedFits(p, tabs, t.rosters, t.keys, t.groups);
    }
  }

  lemma Results(p: People, tabs: seq<Tab>, q: People, after: seq<Tab>, t: Trace)
    requires Valid(p) && Rosters(tabs, t.rosters) && Gathered(tabs, t.rosters, t.keys, t.groups)
    requires q == Run(p, t.keys, t.groups) && AllExported(tabs, after, t.rosters, q, t.missing)
    ensures Ran(p, tabs, q, after, t)
    ensures Valid(q) && Joined(q, after) && Accounted(p, q, t.keys, t.groups)
    ensures forall k :: Listed(t.rosters, k) ==> NameSettled(p, q, tabs, t.rosters, k)
    ensures Joined(p, tabs) ==>
      q == p && Tallied(p, t.keys, t.groups).added == 0 && Tallied(p, t.keys, t.groups).moved == 0
      && (TotalLength(t.missing) == 0 <==> AllListable(p, tabs))
      && (TotalLength(t.missing) == 0 ==> after == tabs)
  {
    assert |tabs| == |t.rosters|;
    hide Valid, Rosters, Gathered, Run, AllExported, Joined, Accounted, Tallied, TotalLength, AllListable, Listed;
    hide NameSettled;
    RunJoins(p, tabs, q, after, t);
    RunSettlesNames(p, q, tabs, t.rosters, t.keys, t.groups);
    if Joined(p, tabs) {
      RunOfJoined(p, tabs, q, after, t);
    }
  }

  /** People and tabs at each of the given runs, one after another. */
  ghost predicate Reruns(people: seq<People>, tabs: seq<seq<Tab>>, traces: seq<Trace>) {
    |people| == |tabs| == |traces| + 1
    && forall i :: 0 <= i < |traces| ==> Ran(people[i], tabs[i], people[i + 1], tabs[i + 1], traces[i])
  }

  /** However often a joined term is synchronised, no account and no enrollment changes; either no run writes a
      cell, or every run writes names again, and which of the two is known in advance. */
  lemma {:induction false} RunsOfJoined(people: seq<People>, tabs: seq<seq<Tab>>, traces: seq<Trace>, n: nat)
    requires Reruns(people, tabs, traces) && n <= |traces|
    requires Valid(people[0]) && Joined(people[0], tabs[0])
    ensures people[n] == people[0] && Joined(people[n], tabs[n])
    ensures n < |traces| ==> (TotalLength(traces[n].missing) == 0 <==> AllListable(people[0], tabs[0]))
    ensures AllListable(people[0], tabs[0]) ==> tabs[n] == tabs[0]
    ensures AllListable(people[n], tabs[n]) <==> AllListable(people[0], tabs[0])
  {
    hide Ran, Valid, Joined, AllListable, TotalLength;
    if n > 0 {
      RunsOfJoined(people, tabs, traces, n - 1);
      RunJoins(people[n - 1], tabs[n - 1], people[n], tabs[n], traces[n - 1]);
      RunOfJoined(people[n - 1], tabs[n - 1], people[n], tabs[n], traces[n - 1]);
      RunsKeepListability(people[n - 1], tabs[n - 1], people[n], tabs[n], traces[n - 1]);
    }
    if n < |traces| {
      RunOfJoined(people[n], tabs[n], people[n + 1], tabs[n + 1], traces[n]);
    }
  }

  /** An export changes neither the group nor the access of a tab. */
  lemma RunsKeepListability(p: People, tabs: seq<Tab>, q: People, after: seq<Tab>, t: Trace)
    requires Ran(p, tabs, q, after, t)
    ensures AllListable(q, after) <==> AllListable(q, tabs)
  {
    hide Exported, Run, Listable, KeyOf, InGroup;
    forall i | 0 <= i < |tabs| ensures after[i].group == tabs[i].group && after[i].writable == tabs[i].writable {
      SameTab(q, tabs[i], after[i], t.rosters[i], t.missing[i]);
    }
  }

  /** Every student whose name no roster lists makes such a term: its writable tab has the header only. */
  lemma UnlistableTerm(u: User, group: nat) returns (p: People, tabs: seq<Tab>)
    requires !Listable(KeyOf(u))
    ensures Valid(p) && InGroup(p, u, group)
    ensures tabs == [Tab([[], [HEADER]], group, true)]
    ensures Joined(p, tabs) && !AllListable(p, tabs)
  {
    hide KeyOf, Listable, IsHeaderCell;
    p, tabs := People([u], map[u.id := group], u.id + 1), [Tab([[], [HEADER]], group, true)];
    var rosters := [Roster(1, 0, 1, [])];
    HeaderIsHeader();
    BlankIsNoHeader();
    assert IsConduitHeader(tabs[0].sheet, 1, 0);
    assert Rosters(tabs, rosters) && Union(p, tabs, rosters);
    assert InGroup(p, u, tabs[0].group);
  }

  lemma HeaderIsHeader()
    ensures IsHeaderCell(HEADER)
  {
    hide Squeeze, Fields, Join, IsSpace;
    HeaderIsSqueezed();
    assert forall i :: 0 <= i < |HEADER| ==> YoToYe(Lower(HEADER[i])) == HEADER[i];
  }

  lemma HeaderIsSqueezed()
    ensures Squeeze(HEADER) == HEADER
  {
    var words := ["фамилия", "имя"];
    assert forall w :: w in words ==> IsWord(w);
    hide IsSpace, Fields, Join;
    FieldsOfJoin(words);
    JoinStep(words);
    JoinOne(words[1]);
    assert words[1..] == [words[1]];
    assert Join(words) == HEADER;
  }

  /** Two students of that kind: one named like the column of the ideal student, and one without a name. */
  lemma UnlistableStudents()
    ensures !Listable(KeyOf(User(1, "Ученик", None, "Идеальный")))
    ensures !Listable(KeyOf(User(1, "", None, "")))
  {
    IdealName();
    BlankName();
    hide KeyOf, NormalizeCell;
  }

  /** A joined term on which every run, however often repeated, writes a name again. */
  lemma NamesAreWrittenAgain() returns (p: People, tabs: seq<Tab>)
    ensures Valid(p) && Joined(p, tabs) && forall tab :: tab in tabs ==> Readable(tab)
    ensures forall people, states, traces: seq<Trace>, n: nat ::
      Reruns(people, states, traces) && people[0] == p && states[0] == tabs && n < |traces| ==>
        TotalLength(traces[n].missing) > 0
  {
    UnlistableStudents();
    p, tabs := UnlistableTerm(User(1, "Ученик", None, "Идеальный"), 7);
    JoinedFits(p, tabs, [], [], map[]);
    hide *;
    forall people, states, traces: seq<Trace>, n: nat
      | Reruns(people, states, traces) && people[0] == p && states[0] == tabs && n < |traces|
      ensures TotalLength(traces[n].missing) > 0
    {
      RunsOfJoined(people, states, traces, n);
    }
  }

  /** The term of a center: its people and the conduit tabs linked to their groups. */
  class Term {
    var people: People
    var tabs: seq<Tab>

    constructor (people: People, tabs: seq<Tab>)
      ensures this.people == people && this.tabs == tabs
    {
      this.people, this.tabs := people, tabs;
    }

    /** SyncStudents. It fails exactly when a tab has no header or a new name does not fit the database, and
        then changes nothing. Otherwise every listed name is settled by who bore it before and which tabs list
        it, nobody is dropped, every name is counted once, and the term is joined; a run over a joined term adds and moves
        nobody, and writes nothing exactly when all students concerned are listable. */
    method SyncStudents() returns (outcome: Outcome, ghost t: Trace)
      requires Valid(people)
      modifies this
      ensures Valid(people)
      ensures outcome.Synced? <==>
        exists possible :: CanSync(old(people), old(tabs), possible)
      ensures outcome.Failed? ==> people == old(people) && tabs == old(tabs)
      ensures outcome.Synced? ==> Ran(old(people), old(tabs), people, tabs, t)
      ensures outcome.Synced? ==> Accounted(old(people), people, t.keys, t.groups)
      ensures outcome.Synced? ==> forall k :: Listed(t.rosters, k) ==>
        NameSettled(old(people), people, old(tabs), t.rosters, k)
      ensures outcome.Synced? ==> Joined(people, tabs)
      ensures outcome.Synced? ==>
        var r := outcome.result;
        Tally(r.addedToMy239, r.moved, r.matched, r.ambiguous) == Tallied(old(people), t.keys, t.groups)
        && r.addedToMy239 + r.moved + r.matched + r.ambiguous == |t.keys|
        && r.addedToMy239 == |Added(old(people), t.keys)| && r.moved == |Moved(old(people), t.keys, t.groups)|
        && r.matched == |Matched(old(people), t.keys, t.groups)| && r.ambiguous == |Ambiguities(old(people), t.keys)|
        && r.addedToSheets == TotalLength(t.missing)
        && (r.readOnly <==> exists tab :: tab in old(tabs) && !tab.writable)
      ensures Joined(old(people), old(tabs)) ==>
        outcome.Synced? && people == old(people)
        && outcome.result.addedToMy239 == 0 && outcome.result.moved == 0
        && (outcome.result.addedToSheets == 0 <==> AllListable(old(people), old(tabs)))
        && (outcome.result.addedToSheets == 0 ==> tabs == old(tabs))
    {
      hide *;
      var ok, rosters, keys, groups, readOnly := ReadRosters(tabs);
      t := Trace(rosters, keys, groups, []);
      Refusals(people, tabs, t);
      if !ok {
        return Failed, t;
      }
      var placed, after, tally := PlaceNames(people, keys, groups);
      if !placed {
        return Failed, t;
      }
      var exported, missing, count := ExportAll(tabs, rosters, after);
      t := t.(missing := missing);
      Results(people, tabs, after, exported, t);
      TalliedExactly(people, keys, groups);
      people, tabs := after, exported;
      outcome := Synced(Result(tally.added, count, tally.matched, tally.moved, tally.ambiguous, readOnly));
    }
  }
}
