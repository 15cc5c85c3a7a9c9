/** Student names as worksheets and accounts spell them (internal/googlesheets/structure_sync.go). */
module SheetNames {
  import opened Prelude
  import opened SheetText

  datatype User = User(id: UserId, first: string, middle: Option<string>, last: string)

  /** splitSheetName: surname, first name, and the rest as the middle name; None for fewer than two words. */
  function SplitSheetName(name: string): Option<(string, string, Option<string>)> {
    var words := Fields(name);
    if |words| < 2 then None
    else Some((words[0], words[1], if |words| == 2 then None else Some(Join(words[2..]))))
  }

  /** sheetPersonName. */
  function SheetPersonName(u: User): string {
    Join([u.last, u.first] + if u.middle.Some? && Trim(u.middle.value) != "" then [Trim(u.middle.value)] else [])
  }

  /** The key a user is found under: normalizePersonName of the name a sheet would show. */
  function KeyOf(u: User): string {
    Squeeze(SheetPersonName(u))
  }

  lemma {:induction false} FieldsOfParts(parts: seq<string>)
    ensures Fields(Join(parts)) == FieldsOfAll(parts)
  {
    hide Fields;
    if |parts| == 0 {
      NoFields();
    } else if |parts| == 1 {
      assert Join(parts) == parts[0];
      assert FieldsOfAll(parts[1..]) == [];
      assert Fields(parts[0]) + [] == Fields(parts[0]);
    } else {
      FieldsAcross(parts[0], ' ', Join(parts[1..]));
      FieldsOfParts(parts[1..]);
      assert Join(parts) == parts[0] + [' '] + Join(parts[1..]);
    }
  }

  lemma NoFields()
    ensures Fields("") == []
  {
  }

  function FieldsOfAll(parts: seq<string>): seq<string> {
    if parts == [] then [] else Fields(parts[0]) + FieldsOfAll(parts[1..])
  }

  lemma {:induction false} FieldsOfSpace(s: string)
    requires forall i :: 0 <= i < |s| ==> IsSpace(s[i])
    ensures Fields(s) == []
  {
    if s != [] {
      FieldsOfSpace(s[1..]);
    }
  }

  lemma {:induction false} FieldsBetween(a: string, m: string, b: string)
    requires (forall i :: 0 <= i < |a| ==> IsSpace(a[i])) && forall i :: 0 <= i < |b| ==> IsSpace(b[i])
    ensures Fields(a + m + b) == Fields(m)
  {
    hide IsSpace;
    var front := a + m;
    if b != [] {
      FieldsAcross(front, b[0], b[1..]);
      assert front + b == front + [b[0]] + b[1..];
      FieldsOfSpace(b[1..]);
    } else {
      assert front + b == front;
    }
    if a != [] {
      var n := |a| - 1;
      FieldsAcross(a[..n], a[n], m);
      assert front == a[..n] + [a[n]] + m;
      FieldsOfSpace(a[..n]);
    } else {
      assert front == m;
    }
  }

  /** A user is found under the words of the surname, of the first name and of the middle name, in this order and
      with single blanks between them. */
  lemma KeyExactly(u: User)
    ensures KeyOf(u) == Join(Fields(u.last) + Fields(u.first) + if u.middle.Some? then Fields(u.middle.value) else [])
  {
    hide Fields, Trim;
    var parts := [u.last, u.first] + if u.middle.Some? && Trim(u.middle.value) != "" then [Trim(u.middle.value)] else [];
    FieldsOfParts(parts);
    if u.middle.Some? {
      var a, b := TrimExactly(u.middle.value);
      FieldsBetween(a, Trim(u.middle.value), b);
      NoFields();
    }
    FieldsOfThree(u.last, u.first, parts[2..]);
    assert parts == [u.last, u.first] + parts[2..];
  }

  lemma FieldsOfThree(a: string, b: string, rest: seq<string>)
    requires |rest| <= 1
    ensures FieldsOfAll([a, b] + rest) == Fields(a) + Fields(b) + if rest == [] then [] else Fields(rest[0])
  {
    hide *;
    FirstFields(a, [b] + rest);
    FirstFields(b, rest);
    assert [a, b] + rest == [a] + ([b] + rest);
    if rest != [] {
      FirstFields(rest[0], []);
      assert rest == [rest[0]] + [];
      assert FieldsOfAll(rest) == Fields(rest[0]);
    }
    assert Fields(a) + (Fields(b) + FieldsOfAll(rest)) == Fields(a) + Fields(b) + FieldsOfAll(rest);
  }

  lemma FirstFields(a: string, rest: seq<string>)
    ensures FieldsOfAll([a] + rest) == Fields(a) + FieldsOfAll(rest)
    ensures FieldsOfAll([]) == []
  {
    hide Fields;
    assert ([a] + rest)[1..] == rest;
  }

  lemma {:induction false} JoinEnds(words: seq<string>)
    requires words != [] && forall w :: w in words ==> IsWord(w)
    ensures var s := Join(words); s != [] && !IsSpace(s[0]) && !IsSpace(s[|s| - 1])
    decreases |words|
  {
    assert IsWord(words[0]);
    if |words| > 1 {
      JoinEnds(words[1..]);
    }
  }

  lemma TrimOfTrimmed(s: string)
    requires s != [] && !IsSpace(s[0]) && !IsSpace(s[|s| - 1])
    ensures Trim(s) == s
  {
  }

  lemma SqueezeTwice(s: string)
    ensures Squeeze(Squeeze(s)) == Squeeze(s)
  {
    FieldsOfJoin(Fields(s));
  }

  lemma JoinStep(words: seq<string>)
    requires |words| > 1
    ensures Join(words) == words[0] + " " + Join(words[1..])
  {
  }

  lemma JoinThree(a: string, b: string, c: string)
    ensures Join([a, b, c]) == a + " " + (b + " " + c)
  {
    hide Join;
    JoinStep([a, b, c]);
    JoinStep([b, c]);
    JoinOne(c);
    assert [a, b, c][1..] == [b, c] && [b, c][1..] == [c];
  }

  lemma JoinOne(a: string)
    ensures Join([a]) == a
  {
  }

  lemma JoinRest(words: seq<string>)
    requires |words| > 2
    ensures Join(words) == Join([words[0], words[1], Join(words[2..])])
  {
    hide Join;
    JoinStep(words);
    JoinStep(words[1..]);
    assert words[1..][1..] == words[2..];
    JoinThree(words[0], words[1], Join(words[2..]));
  }

  /** An account created from a sheet name is found under that name again. */
  lemma {:induction false} SplitThenJoin(name: string, u: User)
    requires SplitSheetName(name) == Some((u.last, u.first, u.middle))
    ensures KeyOf(u) == Squeeze(name)
  {
    hide Fields, Join, Trim, IsSpace;
    var words := Fields(name);
    FieldsOfJoin(words);
    if |words| == 2 {
      assert words == [u.last, u.first];
      assert [u.last, u.first] + [] == words;
    } else {
      JoinEnds(words[2..]);
      TrimOfTrimmed(Join(words[2..]));
      JoinRest(words);
      assert [u.last, u.first] + [Join(words[2..])] == [u.last, u.first, Join(words[2..])];
    }
  }
}

/** The roster a conduit tab lists: parseConduitRoster, and what appending names below it does. */
module RosterSheet {
  import opened Prelude
  import opened SheetText
  import opened SheetAddress
  import opened SheetGrid
  import opened SheetNames

  datatype Roster = Roster(headerRow: nat, nameColumn: nat, lastRow: nat, names: seq<string>)

  /** Names a roster lists: not blank and not the column of the ideal student. */
  predicate Listable(name: string) {
    name != "" && NormalizeCell(name) != NormalizeCell("Идеальный Ученик")
  }

  /** Only blank cells and the column of the ideal student, in whatever letter case and with «ё» or «е», are left out. */
  lemma ListableExactly(name: string)
    ensures Listable(name) <==> name != "" && NormalizeCell(name) != "идеальный ученик"
  {
    IdealIsSqueezed();
    hide Squeeze;
    var words := "Идеальный Ученик";
    assert NormalizeCell(words) == "идеальный ученик";
  }

  lemma IdealIsSqueezed()
    ensures Squeeze("Идеальный Ученик") == "Идеальный Ученик"
  {
    var words := ["Идеальный", "Ученик"];
    assert forall w :: w in words ==> IsWord(w);
    hide IsSpace, Fields, Join;
    FieldsOfJoin(words);
    JoinStep(words);
    JoinOne(words[1]);
    assert words[1..] == [words[1]];
    assert Join(words) == "Идеальный Ученик";
  }

  function WithName(names: seq<string>, name: string): (r: seq<string>)
    ensures forall n :: n in r <==> n in names || (n == name && Listable(name))
  {
    if Listable(name) && name !in names then names + [name] else names
  }

  /** The distinct listable names of one column in the rows after the header and before `hi`. */
  function NamesBelow(v: Sheet, header: nat, column: nat, hi: nat): seq<string>
    decreases hi
  {
    if hi <= header + 1 then []
    else WithName(NamesBelow(v, header, column, hi - 1), Squeeze(Cell(v, hi - 1, column)))
  }

  /** A tab reads as a roster whose last row is at or below everything used. */
  ghost predicate RosterOf(v: Sheet, r: Roster) {
    IsConduitHeader(v, r.headerRow, r.nameColumn) && r.headerRow >= 1 && r.lastRow >= r.headerRow
    && BlankBelow(v, r.lastRow)
    && r.names == NamesBelow(v, r.headerRow, r.nameColumn, r.lastRow + 1)
  }

  ghost predicate BlankBelow(v: Sheet, last: nat) {
    forall row: nat, column: nat :: row > last ==> Cell(v, row, column) == ""
  }

  lemma BlankIsNotListed(names: seq<string>)
    ensures WithName(names, Squeeze("")) == names
  {
  }

  lemma {:induction false} NamesStop(v: Sheet, header: nat, column: nat, last: nat, hi: nat)
    requires BlankBelow(v, last) && hi >= last + 1 && last >= header
    ensures NamesBelow(v, header, column, hi) == NamesBelow(v, header, column, last + 1)
    decreases hi
  {
    hide WithName, Squeeze;
    if hi > last + 1 {
      assert Cell(v, hi - 1, column) == "";
      BlankIsNotListed(NamesBelow(v, header, column, hi - 1));
      NamesStop(v, header, column, last, hi - 1);
    }
  }

  lemma {:induction false} SameNames(v: Sheet, w: Sheet, header: nat, column: nat, hi: nat)
    requires forall row: nat :: row < hi ==> Cell(v, row, column) == Cell(w, row, column)
    ensures NamesBelow(v, header, column, hi) == NamesBelow(w, header, column, hi)
    decreases hi
  {
    hide WithName, Squeeze;
    if hi > header + 1 {
      SameNames(v, w, header, column, hi - 1);
    }
  }

  lemma {:induction false} NamesStart(v: Sheet, header: nat, column: nat)
    ensures NamesBelow(v, header, column, header + 1) == []
  {
  }

  /** What a roster lists, in its cells: a listable name in some row below the header. */
  lemma {:induction false} NamesAreCells(v: Sheet, header: nat, column: nat, hi: nat, name: string)
    ensures name in NamesBelow(v, header, column, hi)
            <==> Listable(name) && exists row: nat :: header < row < hi && Squeeze(Cell(v, row, column)) == name
    decreases hi
  {
    hide Squeeze, Listable, NormalizeCell;
    if hi > header + 1 {
      NamesAreCells(v, header, column, hi - 1, name);
    }
  }

  ghost predicate Keyed(names: seq<string>) {
    (forall i, j :: 0 <= i < j < |names| ==> names[i] != names[j])
    && forall n :: n in names ==> Squeeze(n) == n && Listable(n)
  }

  /** Every listed name is its own key and listed once. */
  lemma {:induction false} NamesAreKeys(v: Sheet, header: nat, column: nat, hi: nat)
    ensures Keyed(NamesBelow(v, header, column, hi))
    decreases hi
  {
    hide Squeeze, Listable, NormalizeCell;
    if hi > header + 1 {
      NamesAreKeys(v, header, column, hi - 1);
      SqueezeTwice(Cell(v, hi - 1, column));
    }
  }

  /** A tab reads as one roster, up to how many blank rows the API returned. */
  lemma {:induction false} RosterIsUnique(v: Sheet, w: Sheet, a: Roster, b: Roster)
    requires SameCells(v, w) && RosterOf(v, a) && RosterOf(w, b)
    ensures a.names == b.names && a.headerRow == b.headerRow && a.nameColumn == b.nameColumn
  {
    hide NamesBelow, IsHeaderCell;
    HeaderIsUnique(v, a.headerRow, a.nameColumn, b.headerRow, b.nameColumn) by {
      assert IsConduitHeader(v, b.headerRow, b.nameColumn);
    }
    var hi := if a.lastRow < b.lastRow then b.lastRow + 1 else a.lastRow + 1;
    NamesStop(v, a.headerRow, a.nameColumn, a.lastRow, hi);
    NamesStop(w, a.headerRow, a.nameColumn, b.lastRow, hi);
    SameNames(v, w, a.headerRow, a.nameColumn, hi);
  }

  lemma {:induction false} RosterOfSameCells(v: Sheet, w: Sheet, r: Roster)
    requires SameCells(v, w) && RosterOf(v, r)
    ensures RosterOf(w, r)
  {
    hide NamesBelow, IsHeaderCell;
    SameNames(v, w, r.headerRow, r.nameColumn, r.lastRow + 1);
  }

  /** parseConduitRoster: None is the missing-header error. */
  method ParseConduitRoster(v: Sheet) returns (roster: Option<Roster>)
    ensures roster.Some? ==> RosterOf(v, roster.value)
    ensures roster.None? ==> forall r :: !RosterOf(v, r)
  {
    hide WithName, Squeeze, IsHeaderCell;
    var header := FindConduitHeader(v);
    if header.None? || header.value.0 < 1 {
      forall r | RosterOf(v, r) ensures false {
        if header.Some? {
          HeaderIsUnique(v, r.headerRow, r.nameColumn, header.value.0, header.value.1);
        }
      }
      return None;
    }
    var (headerRow, nameColumn) := header.value;
    var names := ReadNames(v, headerRow, nameColumn);
    roster := Some(Roster(headerRow, nameColumn, |v| - 1, names));
  }

  method ReadNames(v: Sheet, headerRow: nat, nameColumn: nat) returns (names: seq<string>)
    requires headerRow < |v|
    ensures names == NamesBelow(v, headerRow, nameColumn, |v|)
  {
    hide Squeeze, NormalizeCell;
    names := [];
    NamesStart(v, headerRow, nameColumn);
    for row := headerRow + 1 to |v|
      invariant names == NamesBelow(v, headerRow, nameColumn, row)
    {
      if nameColumn >= |v[row]| {
        BlankIsNotListed(names);
        continue;
      }
      var name := Squeeze(v[row][nameColumn]);
      if name == "" {
        continue;
      }
      if NormalizeCell(name) == NormalizeCell("Идеальный Ученик") {
        continue;
      }
      if name in names {
        continue;
      }
      names := names + [name];
    }
  }

  // ---- appending names ----

  function WithNames(names: seq<string>, cells: seq<string>): seq<string> {
    if cells == [] then names else WithName(WithNames(names, cells[..|cells| - 1]), Squeeze(cells[|cells| - 1]))
  }

  lemma {:induction false} WithNamesMembers(names: seq<string>, cells: seq<string>, name: string)
    ensures name in WithNames(names, cells)
            <==> name in names || (Listable(name) && exists i :: 0 <= i < |cells| && Squeeze(cells[i]) == name)
    decreases |cells|
  {
    hide Squeeze, Listable;
    if cells != [] {
      WithNamesMembers(names, cells[..|cells| - 1], name);
    }
  }

  /** One column of cells, as the values of an update request. */
  function OneColumn(cells: seq<string>): (values: seq<seq<string>>)
    ensures |values| == |cells| && forall i :: 0 <= i < |values| ==> values[i] == [cells[i]]
  {
    seq(|cells|, i requires 0 <= i < |cells| => [cells[i]])
  }

  /** The rows right below a roster. */
  function RowsBelow(r: Roster, count: nat): Rect
    requires count > 0
  {
    Rect(r.lastRow + 1, r.nameColumn, r.lastRow + count, r.nameColumn)
  }

  lemma {:induction false} AppendedNames(v: Sheet, w: Sheet, r: Roster, cells: seq<string>, k: nat)
    requires RosterOf(v, r) && cells != [] && Wrote(v, w, RowsBelow(r, |cells|), OneColumn(cells)) && k <= |cells|
    ensures NamesBelow(w, r.headerRow, r.nameColumn, r.lastRow + 1 + k) == WithNames(r.names, cells[..k])
    decreases k
  {
    hide WithName, Squeeze, IsHeaderCell;
    if k == 0 {
      SameNames(v, w, r.headerRow, r.nameColumn, r.lastRow + 1);
    } else {
      AppendedNames(v, w, r, cells, k - 1);
      assert Within(RowsBelow(r, |cells|), r.lastRow + k, r.nameColumn);
      assert Cell(w, r.lastRow + k, r.nameColumn) == cells[k - 1];
      assert cells[..k][..k - 1] == cells[..k - 1];
    }
  }

  /** Names written right below everything used join the roster, and disturb nothing else. */
  lemma {:induction false} AppendThenRoster(v: Sheet, w: Sheet, r: Roster, cells: seq<string>)
    requires RosterOf(v, r) && cells != [] && Wrote(v, w, RowsBelow(r, |cells|), OneColumn(cells))
    ensures RosterOf(w, r.(lastRow := r.lastRow + |cells|, names := WithNames(r.names, cells)))
  {
    hide WithName, WithNames, Squeeze, IsHeaderCell, NamesBelow;
    AppendedNames(v, w, r, cells, |cells|);
    assert cells[..|cells|] == cells;
    var rect := RowsBelow(r, |cells|);
    forall row: nat, column: nat | row <= r.headerRow ensures Cell(w, row, column) == Cell(v, row, column) {
      assert !Within(rect, row, column);
    }
    forall row: nat, column: nat | row > r.lastRow + |cells| ensures Cell(w, row, column) == "" {
      assert !Within(rect, row, column);
    }
  }
}
