/** The marks of a conduit tab: parseConduitMarkers (internal/googlesheets/service.go), against the
    other reader of the same tab, parseSheetSeries. */
module SheetMarkers {
  import opened Prelude
  import opened SheetText
  import opened SheetHeaders
  import opened SheetAddress
  import opened SheetGrid
  import opened SeriesScan
  import opened SeriesLayout

  /** conduitMarker. */
  datatype Marker = Marker(name: string, series: nat, problem: Problem, initials: string, cell: string)

  /** A zero-based cell. */
  type Position = (nat, nat)

  /** The series the columns belong to after a scan; 0 for none. */
  function CurrentSeries(s: Scan): nat {
    if s.open && s.series != [] then s.series[|s.series| - 1].number else 0
  }

  /** The series column c belongs to under the header at (row, nameColumn). */
  function SeriesAt(v: Sheet, row: nat, nameColumn: nat, c: nat): nat
    requires row >= 1 && nameColumn < c
  {
    CurrentSeries(SeriesIn(v, row, nameColumn + 1, c + 1))
  }

  /** A column whose marks count: a problem column inside a series other than series 0. */
  predicate ColumnCounts(v: Sheet, row: nat, nameColumn: nat, c: nat)
    requires row >= 1
  {
    nameColumn < c && SeriesAt(v, row, nameColumn, c) != 0 && ParseProblem(Cell(v, row, c)).Some?
  }

  /** A non-blank cell of a named row. */
  predicate CellCounts(v: Sheet, row: nat, nameColumn: nat, r: nat, c: nat) {
    row < r && NormalizeCell(Cell(v, r, nameColumn)) != "" && Trim(Cell(v, r, c)) != ""
  }

  predicate IsMarked(v: Sheet, row: nat, nameColumn: nat, at: Position)
    requires row >= 1
  {
    ColumnCounts(v, row, nameColumn, at.1) && CellCounts(v, row, nameColumn, at.0, at.1)
  }

  /** The marker of a marked cell. */
  function MarkerAt(v: Sheet, row: nat, nameColumn: nat, at: Position): Marker
    requires row >= 1 && IsMarked(v, row, nameColumn, at)
  {
    Marker(NormalizeCell(Cell(v, at.0, nameColumn)), SeriesAt(v, row, nameColumn, at.1),
           ParseProblem(Cell(v, row, at.1)).value, Trim(Cell(v, at.0, at.1)), CellName(at.0, at.1))
  }

  /** Column by column, top to bottom. */
  predicate Before(a: Position, b: Position) {
    a.1 < b.1 || (a.1 == b.1 && a.0 < b.0)
  }

  /** The markers of a tab: one for each marked cell, in reading order. `at` are the cells. */
  ghost predicate MarkersOf(v: Sheet, row: nat, nameColumn: nat, markers: seq<Marker>, at: seq<Position>) {
    row >= 1 && IsConduitHeader(v, row, nameColumn) && |at| == |markers|
    && (forall i, j :: 0 <= i < j < |at| ==> Before(at[i], at[j]))
    && (forall p :: p in at <==> IsMarked(v, row, nameColumn, p))
    && forall i :: 0 <= i < |at| ==> markers[i] == MarkerAt(v, row, nameColumn, at[i])
  }

  // ---- the two readers agree ----

  /** Reading on never takes a series or a problem back. */
  lemma {:induction false} FoldKeeps(s: Scan, columns: seq<Column>, k: nat)
    requires k < |s.series|
    ensures var t := Fold(s, columns).series;
            k < |t| && t[k].number == s.series[k].number && s.series[k].problems <= t[k].problems
    decreases |columns|
  {
    if columns != [] {
      FoldKeeps(Step(s, columns[0]), columns[1..], k);
    }
  }

  /** In a column that counts, the header's problem goes to the current series. */
  lemma StepCounts(s: Scan, c: Column)
    requires CurrentSeries(Step(s, c)) != 0 && c.problem.Some?
    ensures var t := Step(s, c).series;
            t != [] && t[|t| - 1].number == CurrentSeries(Step(s, c)) && c.problem.value in t[|t| - 1].problems
  {
    var p := c.problem.value;
    var t := Step(s, c).series;
    var last := t[|t| - 1].problems;
    assert last[|last| - 1] == p;
  }

  ghost predicate Listed(series: seq<Series>, number: nat, p: Problem) {
    exists s :: s in series && s.number == number && p in s.problems
  }

  lemma {:induction false} ListedFrom(v: Sheet, row: nat, nameColumn: nat, c: nat, hi: nat)
    requires row >= 1 && ColumnCounts(v, row, nameColumn, c) && c < hi
    ensures Listed(SeriesIn(v, row, nameColumn + 1, hi).series, SeriesAt(v, row, nameColumn, c),
                   ParseProblem(Cell(v, row, c)).value)
  {
    hide TitleOf, ParseProblem, SeriesIn, Step, Fold;
    var lo := nameColumn + 1;
    NextColumn(v, row, lo, c);
    StepCounts(SeriesIn(v, row, lo, c), ColumnOf(Cell(v, row - 1, c), Cell(v, row, c)));
    SeriesExtend(v, row, lo, c + 1, hi);
    var s := SeriesIn(v, row, lo, c + 1);
    FoldKeeps(s, ColumnsOf(v, row, c + 1, hi), |s.series| - 1);
    var t := SeriesIn(v, row, lo, hi).series;
    assert t[|s.series| - 1] in t;
  }

  lemma ProblemBeforeEnd(v: Sheet, row: nat, hi: nat, c: nat)
    requires row >= 1 && EndsBefore(v, row, hi) && ParseProblem(Cell(v, row, c)).Some?
    ensures c < hi
  {
    BlankCells();
    hide ParseProblem;
  }

  /** Every mark names a problem of a series that parseSheetSeries lists for the same tab. */
  lemma {:induction false} ReadersAgree(v: Sheet, l: Layout, at: Position)
    requires ParsesTo(v, l) && IsMarked(v, l.headerRow, l.nameColumn, at)
    ensures Listed(l.series, SeriesAt(v, l.headerRow, l.nameColumn, at.1),
                   ParseProblem(Cell(v, l.headerRow, at.1)).value)
  {
    hide ParseProblem, SeriesIn, SeriesAt, IsConduitHeader, CellCounts, Listed, EndsBefore;
    var row, lo, c := l.headerRow, l.nameColumn + 1, at.1;
    var hi: nat :| EndsBefore(v, row, hi) && lo <= hi && l.series == SeriesIn(v, row, lo, hi).series;
    ProblemBeforeEnd(v, row, hi, c);
    ListedFrom(v, row, l.nameColumn, c, hi);
  }

  // ---- reading ----

  /** Markers of one counting column in the rows before `hi`. */
  ghost predicate ColumnMarkers(v: Sheet, row: nat, nameColumn: nat, c: nat, hi: nat, markers: seq<Marker>, at: seq<Position>)
  {
    row >= 1 && ColumnCounts(v, row, nameColumn, c) && |at| == |markers|
    && (forall i, j :: 0 <= i < j < |at| ==> at[i].0 < at[j].0)
    && (forall p :: p in at <==> p.1 == c && p.0 < hi && CellCounts(v, row, nameColumn, p.0, c))
    && forall i :: 0 <= i < |at| ==> markers[i] == MarkerAt(v, row, nameColumn, at[i])
  }

  lemma SkipRow(v: Sheet, row: nat, nameColumn: nat, c: nat, r: nat, markers: seq<Marker>, at: seq<Position>)
    requires ColumnMarkers(v, row, nameColumn, c, r, markers, at) && !CellCounts(v, row, nameColumn, r, c)
    ensures ColumnMarkers(v, row, nameColumn, c, r + 1, markers, at)
  {
    hide ColumnCounts, CellCounts, MarkerAt;
  }

  lemma AddRow(v: Sheet, row: nat, nameColumn: nat, c: nat, r: nat, markers: seq<Marker>, at: seq<Position>)
    requires ColumnMarkers(v, row, nameColumn, c, r, markers, at) && CellCounts(v, row, nameColumn, r, c)
    ensures ColumnMarkers(v, row, nameColumn, c, r + 1, markers + [MarkerAt(v, row, nameColumn, (r, c))], at + [(r, c)])
  {
    hide ColumnCounts, CellCounts, MarkerAt;
    assert forall i :: 0 <= i < |at| ==> at[i] in at;
  }

  lemma NoRows(v: Sheet, row: nat, nameColumn: nat, c: nat)
    requires row >= 1 && ColumnCounts(v, row, nameColumn, c)
    ensures ColumnMarkers(v, row, nameColumn, c, row + 1, [], [])
  {
    hide ColumnCounts;
  }

  /** The rows of one counting column. */
  method ReadColumn(v: Sheet, row: nat, nameColumn: nat, c: nat, series: nat, problem: Problem)
    returns (markers: seq<Marker>, ghost at: seq<Position>)
    requires 1 <= row < |v| && ColumnCounts(v, row, nameColumn, c)
    requires series == SeriesAt(v, row, nameColumn, c) && Some(problem) == ParseProblem(Cell(v, row, c))
    ensures ColumnMarkers(v, row, nameColumn, c, |v|, markers, at)
  {
    BlankCells();
    NoRows(v, row, nameColumn, c);
    hide ParseProblem, NormalizeCell, Trim, SeriesAt, Itoa, ColumnNameSpec, ColumnMarkers;
    markers, at := [], [];
    for r := row + 1 to |v|
      invariant ColumnMarkers(v, row, nameColumn, c, r, markers, at)
    {
      if nameColumn >= |v[r]| || c >= |v[r]| {
        SkipRow(v, row, nameColumn, c, r, markers, at);
        continue;
      }
      var name, initials := NormalizeCell(v[r][nameColumn]), Trim(v[r][c]);
      if name == "" || initials == "" {
        SkipRow(v, row, nameColumn, c, r, markers, at);
        continue;
      }
      AddRow(v, row, nameColumn, c, r, markers, at);
      var column := ColumnName(c);
      markers := markers + [Marker(name, series, problem, initials, column + Itoa(r + 1))];
      at := at + [(r, c)];
    }
  }

  lemma BlankCells()
    ensures NormalizeCell("") == "" && Trim("") == "" && ParseProblem("") == None
  {
  }

  /** Markers of the columns before `hi`. */
  ghost predicate MarkersUpTo(v: Sheet, row: nat, nameColumn: nat, hi: nat, markers: seq<Marker>, at: seq<Position>) {
    row >= 1 && |at| == |markers|
    && (forall i, j :: 0 <= i < j < |at| ==> Before(at[i], at[j]))
    && (forall p :: p in at <==> p.1 < hi && IsMarked(v, row, nameColumn, p))
    && forall i :: 0 <= i < |at| ==> markers[i] == MarkerAt(v, row, nameColumn, at[i])
  }

  lemma SkipColumn(v: Sheet, row: nat, nameColumn: nat, c: nat, markers: seq<Marker>, at: seq<Position>)
    requires MarkersUpTo(v, row, nameColumn, c, markers, at) && !ColumnCounts(v, row, nameColumn, c)
    ensures MarkersUpTo(v, row, nameColumn, c + 1, markers, at)
  {
    hide ColumnCounts, CellCounts, MarkerAt;
  }

  lemma AddColumn(v: Sheet, row: nat, nameColumn: nat, c: nat, markers: seq<Marker>, at: seq<Position>,
                  more: seq<Marker>, cells: seq<Position>)
    requires MarkersUpTo(v, row, nameColumn, c, markers, at) && ColumnCounts(v, row, nameColumn, c)
    requires ColumnMarkers(v, row, nameColumn, c, |v|, more, cells)
    ensures MarkersUpTo(v, row, nameColumn, c + 1, markers + more, at + cells)
  {
    RowsEnd(v, row, nameColumn, c);
    hide ColumnCounts, CellCounts, MarkerAt;
    assert forall i :: 0 <= i < |at| ==> at[i] in at;
    assert forall i :: 0 <= i < |cells| ==> cells[i] in cells;
  }

  lemma RowsEnd(v: Sheet, row: nat, nameColumn: nat, c: nat)
    ensures forall r: nat :: CellCounts(v, row, nameColumn, r, c) ==> r < |v|
  {
    BlankCells();
    hide NormalizeCell, Trim;
  }

  /** parseConduitMarkers: false is the missing-header error. */
  method ParseConduitMarkers(v: Sheet)
    returns (ok: bool, markers: seq<Marker>, ghost row: nat, ghost nameColumn: nat, ghost at: seq<Position>)
    ensures ok ==> MarkersOf(v, row, nameColumn, markers, at)
    ensures !ok ==> forall r: nat, c: nat :: r >= 1 ==> !IsConduitHeader(v, r, c)
  {
    hide *;
    markers, at, row, nameColumn := [], [], 0, 0;
    var header := FindConduitHeader(v);
    if header.None? || header.value.0 < 1 {
      NoHeaderBelow(v, header);
      return false, markers, row, nameColumn, at;
    }
    ok, row, nameColumn := true, header.value.0, header.value.1;
    markers, at := ReadMarkers(v, header.value.0, header.value.1);
    AllMarkers(v, row, nameColumn, markers, at);
  }

  lemma NoHeaderBelow(v: Sheet, header: Option<Position>)
    requires header.Some? ==> IsConduitHeader(v, header.value.0, header.value.1) && header.value.0 < 1
    requires header.None? ==> forall r: nat, c: nat :: !IsHeaderCell(Cell(v, r, c))
    ensures forall r: nat, c: nat :: r >= 1 ==> !IsConduitHeader(v, r, c)
  {
    forall r: nat, c: nat | r >= 1 && IsConduitHeader(v, r, c) ensures false {
      if header.Some? {
        HeaderIsUnique(v, r, c, header.value.0, header.value.1);
      }
    }
  }

  lemma AllMarkers(v: Sheet, row: nat, nameColumn: nat, markers: seq<Marker>, at: seq<Position>)
    requires row < |v| && IsConduitHeader(v, row, nameColumn)
    requires MarkersUpTo(v, row, nameColumn, |v[row]|, markers, at)
    ensures MarkersOf(v, row, nameColumn, markers, at)
  {
    BlankCells();
    hide ParseProblem, SeriesAt, CellCounts, MarkerAt, IsConduitHeader;
  }

  method ReadMarkers(v: Sheet, row: nat, nameColumn: nat) returns (markers: seq<Marker>, ghost at: seq<Position>)
    requires 1 <= row < |v| && nameColumn < |v[row]|
    ensures MarkersUpTo(v, row, nameColumn, |v[row]|, markers, at)
  {
    hide TitleOf, ParseProblem, SeriesIn, MarkersUpTo, ColumnMarkers, Step;
    markers, at := [], [];
    var currentSeries := 0;
    NoMarkers(v, row, nameColumn);
    SeriesStart(v, row, nameColumn + 1);
    BlankColumn();
    ghost var lo := nameColumn + 1;
    for c := nameColumn + 1 to |v[row]|
      invariant MarkersUpTo(v, row, nameColumn, c, markers, at)
      invariant currentSeries == CurrentSeries(SeriesIn(v, row, lo, c))
    {
      NextColumn(v, row, lo, c);
      CurrentAfter(SeriesIn(v, row, lo, c), ColumnOf(Cell(v, row - 1, c), Cell(v, row, c)));
      if c < |v[row - 1]| {
        var title := TitleOf(v[row - 1][c]);
        if title != Untitled {
          currentSeries := 0;
          if title.SeriesTitle? {
            currentSeries := title.number;
          }
        }
      }
      assert currentSeries == SeriesAt(v, row, nameColumn, c);
      var problem := ParseProblem(v[row][c]);
      if currentSeries == 0 || problem.None? {
        SkipColumn(v, row, nameColumn, c, markers, at);
      } else {
        var more, cells := ReadColumn(v, row, nameColumn, c, currentSeries, problem.value);
        AddColumn(v, row, nameColumn, c, markers, at, more, cells);
        markers, at := markers + more, at + cells;
      }
    }
  }

  lemma NoMarkers(v: Sheet, row: nat, nameColumn: nat)
    requires row >= 1
    ensures MarkersUpTo(v, row, nameColumn, nameColumn + 1, [], [])
  {
  }

  /** A title changes the current series; nothing else does. */
  lemma CurrentAfter(s: Scan, c: Column)
    ensures CurrentSeries(Step(s, c)) == match c.title
                                         case Untitled => CurrentSeries(s)
                                         case OtherBlock => 0
                                         case SeriesTitle(n) => n
  {
  }

  // ---- consequences ----

  /** Each marked cell has exactly one marker, and the markers' cells are all different. */
  lemma OneMarkerPerCell(v: Sheet, row: nat, nameColumn: nat, markers: seq<Marker>, at: seq<Position>, p: Position)
    requires MarkersOf(v, row, nameColumn, markers, at) && IsMarked(v, row, nameColumn, p)
    ensures exists i :: 0 <= i < |markers| && markers[i] == MarkerAt(v, row, nameColumn, p)
                        && forall j :: 0 <= j < |markers| && j != i ==> markers[j].cell != markers[i].cell
  {
    var i :| 0 <= i < |at| && at[i] == p;
    forall j | 0 <= j < |markers| && j != i ensures markers[j].cell != markers[i].cell {
      DistinctCells(at[i], at[j]) by {
        assert Before(at[i], at[j]) || Before(at[j], at[i]);
      }
      assert markers[j].cell == CellName(at[j].0, at[j].1);
    }
  }

  lemma DistinctCells(a: Position, b: Position)
    requires a != b
    ensures CellName(a.0, a.1) != CellName(b.0, b.1)
  {
    DecodeCellName(a.0, a.1);
    DecodeCellName(b.0, b.1);
  }

  /** The markers do not depend on trailing blanks. */
  lemma SameMarks(v: Sheet, w: Sheet, row: nat, nameColumn: nat, p: Position)
    requires SameCells(v, w) && row >= 1
    ensures IsMarked(v, row, nameColumn, p) == IsMarked(w, row, nameColumn, p)
    ensures IsMarked(v, row, nameColumn, p) ==> MarkerAt(v, row, nameColumn, p) == MarkerAt(w, row, nameColumn, p)
  {
    hide ParseProblem, NormalizeCell, Trim, SeriesIn, CellName;
    if nameColumn < p.1 {
      SameColumns(v, w, row, nameColumn + 1, p.1 + 1);
    }
  }
}
