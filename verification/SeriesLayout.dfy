/** Reading a row of already decoded columns into series, as parseSheetSeries does from left to right
    (internal/googlesheets/structure_sync.go). */
module SeriesScan {
  import opened Prelude
  import opened SheetHeaders

  datatype Series = Series(number: nat, problems: seq<Problem>)

  /** What a section cell means: nothing, a block such as «КР» or «Олимпиада», or a series. */
  datatype Title = Untitled | OtherBlock | SeriesTitle(number: nat)

  datatype Column = Column(title: Title, problem: Option<Problem>)

  const BLANK := Column(Untitled, None)

  /** The series met so far; `open` while columns belong to the last of them. */
  datatype Scan = Scan(series: seq<Series>, open: bool)

  const START := Scan([], false)

  function WithProblem(s: Series, p: Option<Problem>): Series {
    if p.Some? then s.(problems := s.problems + [p.value]) else s
  }

  /** A titled column closes the current series and may open another; then its header may add a problem. */
  function Step(s: Scan, c: Column): Scan {
    var next := match c.title
      case Untitled => s
      case OtherBlock => Scan(s.series, false)
      case SeriesTitle(n) => Scan(s.series + [Series(n, [])], true);
    if next.open && next.series != []
    then next.(series := next.series[|next.series| - 1 := WithProblem(next.series[|next.series| - 1], c.problem)])
    else next
  }

  function Fold(s: Scan, columns: seq<Column>): Scan
    decreases |columns|
  {
    if columns == [] then s else Fold(Step(s, columns[0]), columns[1..])
  }

  lemma {:induction false} FoldAppend(s: Scan, a: seq<Column>, b: seq<Column>)
    ensures Fold(s, a + b) == Fold(Fold(s, a), b)
    decreases |a|
  {
    if a == [] {
      assert a + b == b;
    } else {
      assert (a + b)[1..] == a[1..] + b;
      FoldAppend(Step(s, a[0]), a[1..], b);
    }
  }

  lemma FoldOne(s: Scan, c: Column)
    ensures Fold(s, [c]) == Step(s, c)
  {
    assert Fold(s, [c]) == Fold(Step(s, c), []);
  }

  predicate AllBlank(columns: seq<Column>) {
    forall i :: 0 <= i < |columns| ==> columns[i] == BLANK
  }

  lemma {:induction false} FoldBlanks(s: Scan, columns: seq<Column>)
    requires AllBlank(columns)
    ensures Fold(s, columns) == s
    decreases |columns|
  {
    if columns != [] {
      if s.series != [] {
        assert s.series[|s.series| - 1 := s.series[|s.series| - 1]] == s.series;
      }
      FoldBlanks(s, columns[1..]);
    }
  }

  /** The problems a run of columns lists. */
  function Found(columns: seq<Column>): seq<Problem> {
    if columns == [] then []
    else (if columns[0].problem.Some? then [columns[0].problem.value] else []) + Found(columns[1..])
  }

  lemma StepInside(done: seq<Series>, current: Series, c: Column)
    requires c.title == Untitled
    ensures Step(Scan(done + [current], true), c) == Scan(done + [WithProblem(current, c.problem)], true)
  {
    var all, next := done + [current], WithProblem(current, c.problem);
    assert all[|all| - 1 := next] == done + [next];
  }

  lemma StepTitled(s: Scan, number: nat, c: Column)
    requires c.title == SeriesTitle(number)
    ensures Step(s, c) == Scan(s.series + [WithProblem(Series(number, []), c.problem)], true)
  {
    var all, first := s.series + [Series(number, [])], WithProblem(Series(number, []), c.problem);
    assert all[|all| - 1 := first] == s.series + [first];
  }

  lemma FoldStep(s: Scan, columns: seq<Column>)
    requires columns != []
    ensures Fold(s, columns) == Fold(Step(s, columns[0]), columns[1..])
    ensures Found(columns) == (if columns[0].problem.Some? then [columns[0].problem.value] else []) + Found(columns[1..])
  {
  }

  lemma FoldNothing(s: Scan)
    ensures Fold(s, []) == s && Found([]) == []
  {
  }

  lemma {:induction false} FoldUntitled(done: seq<Series>, current: Series, columns: seq<Column>)
    requires forall i :: 0 <= i < |columns| ==> columns[i].title == Untitled
    ensures Fold(Scan(done + [current], true), columns)
            == Scan(done + [Series(current.number, current.problems + Found(columns))], true)
    decreases |columns|
  {
    hide Fold, Found, Step;
    if columns == [] {
      FoldNothing(Scan(done + [current], true));
      assert current.problems + [] == current.problems;
    } else {
      var next := WithProblem(current, columns[0].problem);
      FoldStep(Scan(done + [current], true), columns);
      StepInside(done, current, columns[0]);
      FoldUntitled(done, next, columns[1..]);
      assert next.problems + Found(columns[1..]) == current.problems + Found(columns);
    }
  }

  /** A titled run of columns adds one series with the problems it lists, whatever came before. */
  lemma {:induction false} FoldTitled(s: Scan, number: nat, columns: seq<Column>)
    requires columns != [] && columns[0].title == SeriesTitle(number)
    requires forall i :: 1 <= i < |columns| ==> columns[i].title == Untitled
    ensures Fold(s, columns) == Scan(s.series + [Series(number, Found(columns))], true)
  {
    var first := WithProblem(Series(number, []), columns[0].problem);
    StepTitled(s, number, columns[0]);
    FoldUntitled(s.series, first, columns[1..]);
    assert first.problems + Found(columns[1..]) == Found(columns);
  }
}

/** The series columns of a conduit tab: parseSheetSeries against seriesExportRows
    (internal/googlesheets/structure_sync.go). */
module SeriesLayout {
  import opened Prelude
  import opened SheetText
  import opened SheetHeaders
  import opened SeriesScan
  import opened SheetAddress
  import opened SheetGrid

  /** sheetLayout, with the name column parseSheetSeries found on the way. */
  datatype Layout = Layout(headerRow: nat, nameColumn: nat, series: seq<Series>)

  // ---- reading columns from left to right ----

  function TitleOf(cell: string): Title {
    var section := Trim(cell);
    if section == "" then Untitled
    else
      var number := SeriesNumber(section);
      if number.Some? then SeriesTitle(number.value) else OtherBlock
  }

  function ColumnOf(section: string, header: string): Column {
    Column(TitleOf(section), ParseProblem(header))
  }

  /** The columns from `lo` up to but not including `hi`, under the header in `row`. */
  function ColumnsOf(v: Sheet, row: nat, lo: nat, hi: nat): (s: seq<Column>)
    requires row >= 1 && lo <= hi
    ensures |s| == hi - lo
    ensures forall i :: 0 <= i < |s| ==> s[i] == ColumnOf(Cell(v, row - 1, lo + i), Cell(v, row, lo + i))
  {
    seq(hi - lo, i requires 0 <= i < hi - lo => ColumnOf(Cell(v, row - 1, lo + i), Cell(v, row, lo + i)))
  }

  lemma {:induction false} BlankColumn()
    ensures ColumnOf("", "") == BLANK
  {
  }

  function SeriesIn(v: Sheet, row: nat, lo: nat, hi: nat): Scan
    requires row >= 1 && lo <= hi
  {
    Fold(START, ColumnsOf(v, row, lo, hi))
  }

  function Width(v: Sheet, row: nat): nat
    requires 1 <= row < |v|
  {
    if |v[row - 1]| > |v[row]| then |v[row - 1]| else |v[row]|
  }

  /** A tab reads as a layout: the first header cell, not in the top row, and its columns. */
  ghost predicate ParsesTo(v: Sheet, l: Layout) {
    IsConduitHeader(v, l.headerRow, l.nameColumn) && l.headerRow >= 1
    && exists hi: nat :: EndsBefore(v, l.headerRow, hi) && l.nameColumn < hi
                         && l.series == SeriesIn(v, l.headerRow, l.nameColumn + 1, hi).series
  }

  /** Both header rows are blank from this column on. */
  ghost predicate EndsBefore(v: Sheet, row: nat, hi: nat)
    requires row >= 1
  {
    RowEnds(v, row - 1, hi) && RowEnds(v, row, hi)
  }

  ghost predicate RowEnds(v: Sheet, row: nat, hi: nat) {
    forall c: nat :: hi <= c ==> Cell(v, row, c) == ""
  }

  lemma {:induction false} ColumnsSplit(v: Sheet, row: nat, lo: nat, mid: nat, hi: nat)
    requires row >= 1 && lo <= mid <= hi
    ensures ColumnsOf(v, row, lo, hi) == ColumnsOf(v, row, lo, mid) + ColumnsOf(v, row, mid, hi)
  {
  }

  lemma {:induction false} SeriesExtend(v: Sheet, row: nat, lo: nat, mid: nat, hi: nat)
    requires row >= 1 && lo <= mid <= hi
    ensures SeriesIn(v, row, lo, hi) == Fold(SeriesIn(v, row, lo, mid), ColumnsOf(v, row, mid, hi))
  {
    ColumnsSplit(v, row, lo, mid, hi);
    FoldAppend(START, ColumnsOf(v, row, lo, mid), ColumnsOf(v, row, mid, hi));
  }

  /** Reading on into blank columns changes nothing. */
  lemma {:induction false} SeriesStop(v: Sheet, row: nat, lo: nat, hi: nat, hi': nat)
    requires row >= 1 && lo <= hi <= hi' && EndsBefore(v, row, hi)
    ensures SeriesIn(v, row, lo, hi') == SeriesIn(v, row, lo, hi)
  {
    SeriesExtend(v, row, lo, hi, hi');
    BlankColumn();
    FoldBlanks(SeriesIn(v, row, lo, hi), ColumnsOf(v, row, hi, hi'));
  }

  ghost predicate SameRow(v: Sheet, w: Sheet, row: nat, lo: nat, hi: nat) {
    forall c: nat :: lo <= c < hi ==> Cell(v, row, c) == Cell(w, row, c)
  }

  lemma {:induction false} SameColumns(v: Sheet, w: Sheet, row: nat, lo: nat, hi: nat)
    requires row >= 1 && lo <= hi
    requires SameRow(v, w, row, lo, hi) && SameRow(v, w, row - 1, lo, hi)
    ensures SeriesIn(v, row, lo, hi) == SeriesIn(w, row, lo, hi)
  {
    assert ColumnsOf(v, row, lo, hi) == ColumnsOf(w, row, lo, hi);
  }

  lemma {:induction false} SameCellsParse(v: Sheet, w: Sheet, l: Layout)
    requires SameCells(v, w) && ParsesTo(v, l)
    ensures ParsesTo(w, l)
  {
    var row, lo := l.headerRow, l.nameColumn + 1;
    var a: nat :| EndsBefore(v, row, a) && lo <= a && l.series == SeriesIn(v, row, lo, a).series;
    SameColumns(v, w, row, lo, a);
    assert EndsBefore(w, row, a);
  }

  /** A tab reads as at most one layout, whatever trailing blanks the API returned. */
  lemma {:induction false} LayoutIsUnique(v: Sheet, w: Sheet, l: Layout, m: Layout)
    requires SameCells(v, w) && ParsesTo(v, l) && ParsesTo(w, m)
    ensures l == m
  {
    hide ColumnsOf, Fold, IsHeaderCell, Cell;
    SameCellsParse(v, w, l);
    HeaderIsUnique(w, l.headerRow, l.nameColumn, m.headerRow, m.nameColumn);
    var row, lo := l.headerRow, l.nameColumn + 1;
    var a: nat :| EndsBefore(w, row, a) && lo <= a && l.series == SeriesIn(w, row, lo, a).series;
    var b: nat :| EndsBefore(w, row, b) && lo <= b && m.series == SeriesIn(w, row, lo, b).series;
    var hi := if a < b then b else a;
    SeriesStop(w, row, lo, a, hi);
    SeriesStop(w, row, lo, b, hi);
  }

  lemma {:induction false} NextColumn(v: Sheet, row: nat, lo: nat, column: nat)
    requires row >= 1 && lo <= column
    ensures SeriesIn(v, row, lo, column + 1)
            == Step(SeriesIn(v, row, lo, column), ColumnOf(Cell(v, row - 1, column), Cell(v, row, column)))
  {
    SeriesExtend(v, row, lo, column, column + 1);
    var before, c := SeriesIn(v, row, lo, column), ColumnOf(Cell(v, row - 1, column), Cell(v, row, column));
    assert ColumnsOf(v, row, column, column + 1) == [c];
    FoldOne(before, c);
  }

  lemma {:induction false} SeriesStart(v: Sheet, row: nat, lo: nat)
    requires row >= 1
    ensures SeriesIn(v, row, lo, lo) == START
  {
  }

  /** The column loop of parseSheetSeries. */
  method ReadColumns(v: Sheet, row: nat, nameColumn: nat) returns (series: seq<Series>)
    requires 1 <= row < |v| && nameColumn < |v[row]|
    ensures series == SeriesIn(v, row, nameColumn + 1, Width(v, row)).series
  {
    hide TitleOf, ParseProblem, SeriesIn, ColumnsOf;
    var maxColumn := |v[row]|;
    if |v[row - 1]| > maxColumn {
      maxColumn := |v[row - 1]|;
    }
    series := [];
    var current := -1;
    var column := nameColumn + 1;
    SeriesStart(v, row, nameColumn + 1);
    BlankColumn();
    while column < maxColumn
      invariant nameColumn + 1 <= column <= maxColumn
      invariant current == -1 || current == |series| - 1
      invariant SeriesIn(v, row, nameColumn + 1, column) == Scan(series, current >= 0)
    {
      NextColumn(v, row, nameColumn + 1, column);
      if column < |v[row - 1]| {
        var title := TitleOf(v[row - 1][column]);
        if title != Untitled {
          current := -1;
          if title.SeriesTitle? {
            series := series + [Series(title.number, [])];
            current := |series| - 1;
          }
        }
      }
      if current >= 0 {
        assert series[current := series[current]] == series;
        if column < |v[row]| {
          var p := ParseProblem(v[row][column]);
          if p.Some? {
            series := series[current := series[current].(problems := series[current].problems + [p.value])];
          }
        }
      }
      column := column + 1;
    }
  }

  /** parseSheetSeries: None is the missing-header error. */
  method ParseSheetSeries(v: Sheet) returns (layout: Option<Layout>)
    ensures layout.Some? ==> ParsesTo(v, layout.value)
    ensures layout.None? ==> forall l :: !ParsesTo(v, l)
  {
    var header := FindConduitHeader(v);
    if header.None? || header.value.0 < 1 {
      forall l | ParsesTo(v, l) ensures false {
        if header.Some? {
          HeaderIsUnique(v, l.headerRow, l.nameColumn, header.value.0, header.value.1);
        }
      }
      return None;
    }
    var (row, nameColumn) := header.value;
    var series := ReadColumns(v, row, nameColumn);
    assert EndsBefore(v, row, Width(v, row));
    return Some(Layout(row, nameColumn, series));
  }

  // ---- writing columns ----

  function Blanks(n: nat): (s: seq<string>)
    ensures |s| == n && forall i :: 0 <= i < n ==> s[i] == ""
  {
    seq(n, _ => "")
  }

  function ProblemHeaders(problems: seq<Problem>): (s: seq<string>)
    ensures |s| == |problems| && forall i :: 0 <= i < |s| ==> s[i] == PrintProblem(problems[i])
  {
    seq(|problems|, i requires 0 <= i < |problems| => PrintProblem(problems[i]))
  }

  /** The two header rows of one exported series: a series without problems still takes a column. */
  function TitleRow(s: Series): seq<string> {
    [PrintSeries(s.number)] + Blanks(if s.problems == [] then 0 else |s.problems| - 1)
  }

  function HeaderRow(s: Series): seq<string> {
    if s.problems == [] then [""] else ProblemHeaders(s.problems)
  }

  function TitleRows(series: seq<Series>): seq<string> {
    if series == [] then [] else TitleRow(series[0]) + TitleRows(series[1..])
  }

  function HeaderRows(series: seq<Series>): (h: seq<string>)
    ensures |h| == |TitleRows(series)|
  {
    if series == [] then [] else HeaderRow(series[0]) + HeaderRows(series[1..])
  }

  lemma {:induction false} RowsAppend(a: seq<Series>, s: Series)
    ensures TitleRows(a + [s]) == TitleRows(a) + TitleRow(s)
    ensures HeaderRows(a + [s]) == HeaderRows(a) + HeaderRow(s)
  {
    hide TitleRow, HeaderRow;
    if a == [] {
      assert a + [s] == [s];
      assert [s][1..] == [] && TitleRow(s) + [] == TitleRow(s) && HeaderRow(s) + [] == HeaderRow(s);
    } else {
      assert (a + [s])[1..] == a[1..] + [s];
      RowsAppend(a[1..], s);
    }
  }

  /** The columns of one series. */
  method ExportSeries(item: Series) returns (titles: seq<string>, headers: seq<string>)
    ensures titles == TitleRow(item) && headers == HeaderRow(item)
  {
    var hasProblems := |item.problems| > 0;
    var columns := if hasProblems then item.problems else [Problem(0, "")];
    titles, headers := [], [];
    for index := 0 to |columns|
      invariant titles == TitleRow(item)[..index]
      invariant headers == HeaderRow(item)[..index]
    {
      titles := titles + [if index == 0 then PrintSeries(item.number) else ""];
      headers := headers + [if !hasProblems then ""
                            else if columns[index].number == 0 then "У" + columns[index].tag
                            else Itoa(columns[index].number) + columns[index].tag];
    }
  }

  /** seriesExportRows. */
  method SeriesExportRows(series: seq<Series>) returns (titles: seq<string>, headers: seq<string>)
    ensures titles == TitleRows(series) && headers == HeaderRows(series)
  {
    hide TitleRow, HeaderRow;
    titles, headers := [], [];
    for n := 0 to |series|
      invariant titles == TitleRows(series[..n]) && headers == HeaderRows(series[..n])
    {
      var t, h := ExportSeries(series[n]);
      RowsAppend(series[..n], series[n]);
      assert series[..n + 1] == series[..n] + [series[n]];
      titles, headers := titles + t, headers + h;
    }
    assert series[..|series|] == series;
  }

  // ---- writing, then reading ----

  function HeaderMeaning(p: Problem): Option<Problem> {
    ParseProblem(PrintProblem(p))
  }

  /** The problems whose printed headers read as problems again, as they read. */
  function ReadBackProblems(problems: seq<Problem>): (r: seq<Problem>)
    ensures |r| <= |problems|
  {
    if problems == [] then []
    else
      var q := HeaderMeaning(problems[0]);
      (if q.Some? then [q.value] else []) + ReadBackProblems(problems[1..])
  }

  function ReadBack(s: Series): Series {
    Series(s.number, ReadBackProblems(s.problems))
  }

  function ReadBackAll(series: seq<Series>): (r: seq<Series>)
    ensures |r| == |series| && forall i :: 0 <= i < |r| ==> r[i] == ReadBack(series[i])
  {
    seq(|series|, i requires 0 <= i < |series| => ReadBack(series[i]))
  }

  /** What the exported columns of a series mean when read. */
  function ExportedColumns(s: Series): (c: seq<Column>) {
    if s.problems == [] then [Column(SeriesTitle(s.number), None)]
    else seq(|s.problems|, i requires 0 <= i < |s.problems| =>
           Column(if i == 0 then SeriesTitle(s.number) else Untitled, HeaderMeaning(s.problems[i])))
  }

  lemma {:induction false} ExportedMeaning(s: Series, i: nat)
    requires s.number <= MAX_INT64 && i < |TitleRow(s)|
    ensures |TitleRow(s)| == |HeaderRow(s)| == |ExportedColumns(s)|
    ensures ColumnOf(TitleRow(s)[i], HeaderRow(s)[i]) == ExportedColumns(s)[i]
  {
    BlankColumn();
    SeriesTitleRoundTrip(s.number);
    assert TitleOf(PrintSeries(s.number)) == SeriesTitle(s.number);
    assert i == 0 ==> TitleRow(s)[i] == PrintSeries(s.number);
  }

  lemma {:induction false} FoundExported(s: Series)
    ensures Found(ExportedColumns(s)) == ReadBackProblems(s.problems)
  {
    if s.problems != [] {
      FoundProblems(ExportedColumns(s), s.problems);
    }
  }

  lemma {:induction false} FoundProblems(columns: seq<Column>, problems: seq<Problem>)
    requires |columns| == |problems|
    requires forall i :: 0 <= i < |columns| ==> columns[i].problem == HeaderMeaning(problems[i])
    ensures Found(columns) == ReadBackProblems(problems)
  {
    if problems != [] {
      FoundProblems(columns[1..], problems[1..]);
    }
  }

  lemma {:induction false} FoldSeries(s: Scan, item: Series)
    ensures Fold(s, ExportedColumns(item)) == Scan(s.series + [ReadBack(item)], true)
  {
    FoldTitled(s, item.number, ExportedColumns(item));
    FoundExported(item);
  }

  function AllExportedColumns(series: seq<Series>): seq<Column> {
    if series == [] then [] else ExportedColumns(series[0]) + AllExportedColumns(series[1..])
  }

  lemma {:induction false} AllExportedMeaning(series: seq<Series>, i: nat)
    requires forall k :: 0 <= k < |series| ==> series[k].number <= MAX_INT64
    requires i < |TitleRows(series)|
    ensures |AllExportedColumns(series)| == |TitleRows(series)|
    ensures ColumnOf(TitleRows(series)[i], HeaderRows(series)[i]) == AllExportedColumns(series)[i]
    decreases |series|
  {
    AllExportedLength(series);
    var n := |TitleRow(series[0])|;
    ExportedMeaning(series[0], if i < n then i else 0);
    if i >= n {
      AllExportedMeaning(series[1..], i - n);
    }
  }

  lemma AllExportedLength(series: seq<Series>)
    ensures |AllExportedColumns(series)| == |TitleRows(series)|
  {
  }

  /** Reading exported columns after anything adds exactly the exported series, each read back. */
  lemma {:induction false} FoldExported(s: Scan, series: seq<Series>)
    ensures Fold(s, AllExportedColumns(series)).series == s.series + ReadBackAll(series)
    decreases |series|
  {
    hide ReadBack, ExportedColumns, Step;
    if series == [] {
      assert s.series + ReadBackAll(series) == s.series;
    } else {
      FoldAppend(s, ExportedColumns(series[0]), AllExportedColumns(series[1..]));
      FoldSeries(s, series[0]);
      FoldExported(Scan(s.series + [ReadBack(series[0])], true), series[1..]);
      assert ReadBackAll(series) == [ReadBack(series[0])] + ReadBackAll(series[1..]);
      assert s.series + [ReadBack(series[0])] + ReadBackAll(series[1..]) == s.series + ReadBackAll(series);
    }
  }

  /** The two header rows, from column `start`, exactly as wide as the exported columns. */
  function ExportRect(row: nat, start: nat, series: seq<Series>): Rect
    requires row >= 1 && |TitleRows(series)| > 0
  {
    Rect(row - 1, start, row, start + |TitleRows(series)| - 1)
  }

  ghost predicate ExportedAt(v: Sheet, w: Sheet, row: nat, start: nat, series: seq<Series>)
    requires row >= 1
  {
    |TitleRows(series)| > 0 && Wrote(v, w, ExportRect(row, start, series), [TitleRows(series), HeaderRows(series)])
  }

  lemma {:induction false} ExportedCellsAreNoHeader(series: seq<Series>, i: nat)
    requires i < |TitleRows(series)|
    requires forall k :: 0 <= k < |series| ==> series[k].number <= MAX_INT64
    ensures !IsHeaderCell(TitleRows(series)[i]) && !IsHeaderCell(HeaderRows(series)[i])
  {
    BlankIsNoHeader();
    var item := series[0];
    if i < |TitleRow(item)| {
      TitleIsNoHeader(item.number);
      if item.problems != [] {
        ProblemIsNoHeader(item.problems[i]);
      }
    } else {
      ExportedCellsAreNoHeader(series[1..], i - |TitleRow(item)|);
    }
  }

  lemma {:induction false} FirstWordStarts(a: string, b: string)
    requires a != [] && !IsSpace(a[0])
    ensures NormalizeCell(a + b) != [] && NormalizeCell(a + b)[0] == YoToYe(Lower(a[0]))
  {
    var s := a + b;
    assert s[0] == a[0];
    var words := Fields(s);
    assert words[0] == s[..WordLength(s)];
  }

  lemma {:induction false} TitleIsNoHeader(number: nat)
    ensures !IsHeaderCell(PrintSeries(number))
  {
    FirstWordStarts("Серия ", Itoa(number));
  }

  lemma {:induction false} ProblemIsNoHeader(p: Problem)
    ensures !IsHeaderCell(PrintProblem(p))
  {
    if p.number == 0 {
      FirstWordStarts("У", p.tag);
    } else {
      DigitsAreWords(Itoa(p.number));
      FirstWordStarts(Itoa(p.number), p.tag);
    }
  }

  lemma {:induction false} ExportKeepsHeader(v: Sheet, w: Sheet, row: nat, column: nat, start: nat, missing: seq<Series>)
    requires IsConduitHeader(v, row, column) && row >= 1 && column < start
    requires forall i :: 0 <= i < |missing| ==> missing[i].number <= MAX_INT64
    requires ExportedAt(v, w, row, start, missing)
    ensures IsConduitHeader(w, row, column)
  {
    forall r: nat, c: nat | r < row || (r == row && c < column) ensures !IsHeaderCell(Cell(w, r, c)) {
      if Within(ExportRect(row, start, missing), r, c) {
        ExportedCellsAreNoHeader(missing, c - start);
      } else {
        assert Cell(w, r, c) == Cell(v, r, c);
      }
    }
    assert Cell(w, row, column) == Cell(v, row, column);
  }

  lemma {:induction false} ExportedPrefix(v: Sheet, w: Sheet, row: nat, lo: nat, start: nat, missing: seq<Series>)
    requires row >= 1 && lo <= start && ExportedAt(v, w, row, start, missing)
    ensures SeriesIn(w, row, lo, start) == SeriesIn(v, row, lo, start)
  {
    assert SameRow(v, w, row, lo, start) && SameRow(v, w, row - 1, lo, start);
    SameColumns(v, w, row, lo, start);
  }

  lemma {:induction false} ExportedEnd(v: Sheet, w: Sheet, row: nat, start: nat, missing: seq<Series>)
    requires row >= 1 && EndsBefore(v, row, start) && ExportedAt(v, w, row, start, missing)
    ensures EndsBefore(w, row, start + |TitleRows(missing)|)
  {
    var hi := start + |TitleRows(missing)|;
    forall r: nat, c: nat | r in {row - 1, row} && hi <= c ensures Cell(w, r, c) == "" {
      assert !Within(ExportRect(row, start, missing), r, c);
      assert Cell(v, r, c) == "";
    }
  }

  lemma {:induction false} ExportedColumn(v: Sheet, w: Sheet, row: nat, start: nat, missing: seq<Series>, i: nat)
    requires row >= 1 && ExportedAt(v, w, row, start, missing) && i < |TitleRows(missing)|
    ensures Cell(w, row - 1, start + i) == TitleRows(missing)[i]
    ensures Cell(w, row, start + i) == HeaderRows(missing)[i]
  {
    hide TitleRows, HeaderRows;
    var rect := ExportRect(row, start, missing);
    assert Within(rect, row - 1, start + i) && Within(rect, row, start + i);
  }

  lemma {:induction false} ExportedCells(v: Sheet, w: Sheet, row: nat, start: nat, missing: seq<Series>)
    requires row >= 1 && ExportedAt(v, w, row, start, missing)
    requires forall i :: 0 <= i < |missing| ==> missing[i].number <= MAX_INT64
    ensures ColumnsOf(w, row, start, start + |TitleRows(missing)|) == AllExportedColumns(missing)
  {
    hide ColumnOf, ExportedColumns, TitleRows, HeaderRows, AllExportedColumns;
    var columns := ColumnsOf(w, row, start, start + |TitleRows(missing)|);
    AllExportedLength(missing);
    forall i | 0 <= i < |columns| ensures columns[i] == AllExportedColumns(missing)[i] {
      AllExportedMeaning(missing, i);
      ExportedColumn(v, w, row, start, missing, i);
    }
  }

  /** Append, then parse: exporting `missing` to the right of everything used, and reading the tab
      again with any trailing blanks, yields the old series followed by the exported ones. */
  lemma {:induction false} AppendThenParse(v: Sheet, w: Sheet, l: Layout, start: nat, missing: seq<Series>)
    requires ParsesTo(v, l) && EndsBefore(v, l.headerRow, start)
    requires forall i :: 0 <= i < |missing| ==> missing[i].number <= MAX_INT64
    requires ExportedAt(v, w, l.headerRow, start, missing)
    ensures ParsesTo(w, l.(series := l.series + ReadBackAll(missing)))
  {
    hide SeriesIn, ColumnOf, TitleRows, HeaderRows, AllExportedColumns, Fold, IsHeaderCell;
    var row, lo := l.headerRow, l.nameColumn + 1;
    assert start >= lo by {
      BlankIsNoHeader();
      assert Cell(v, row, l.nameColumn) != "";
    }
    var a: nat :| EndsBefore(v, row, a) && lo <= a && l.series == SeriesIn(v, row, lo, a).series;
    var far, hi := if a < start then start else a, start + |TitleRows(missing)|;
    SeriesStop(v, row, lo, a, far);
    SeriesStop(v, row, lo, start, far);
    ExportKeepsHeader(v, w, row, l.nameColumn, start, missing);
    ExportedPrefix(v, w, row, lo, start, missing);
    ExportedCells(v, w, row, start, missing);
    ExportedEnd(v, w, row, start, missing);
    SeriesExtend(w, row, lo, start, hi);
    FoldExported(SeriesIn(v, row, lo, start), missing);
  }

  /** The exported columns read back unchanged exactly when every problem is exportable. */
  lemma {:induction false} ReadBackProblemsIsIdentity(problems: seq<Problem>)
    requires forall p :: p in problems ==> p.number <= MAX_INT64
    ensures ReadBackProblems(problems) == problems <==> forall p :: p in problems ==> Exportable(p)
  {
    hide ParseProblem, PrintProblem, Exportable;
    if problems != [] {
      var first, rest := problems[0], problems[1..];
      ReadBackProblemsIsIdentity(rest);
      PrintThenParse(first);
      assert problems == [first] + rest;
      if ReadBackProblems(problems) == problems {
        assert HeaderMeaning(first).Some?;
        assert ReadBackProblems(problems)[1..] == ReadBackProblems(rest);
      }
    }
  }

  /** For the whole export: what comes back is what was written exactly when all of it is exportable. */
  lemma {:induction false} ReadBackIsIdentity(missing: seq<Series>)
    requires forall s, p :: s in missing && p in s.problems ==> p.number <= MAX_INT64
    ensures ReadBackAll(missing) == missing <==> forall s, p :: s in missing && p in s.problems ==> Exportable(p)
  {
    hide Exportable, ReadBackProblems;
    forall s | s in missing
      ensures ReadBack(s) == s <==> forall p :: p in s.problems ==> Exportable(p)
    {
      ReadBackProblemsIsIdentity(s.problems);
    }
    if ReadBackAll(missing) == missing {
      forall s | s in missing ensures ReadBack(s) == s {
        var i :| 0 <= i < |missing| && missing[i] == s;
        assert ReadBackAll(missing)[i] == missing[i];
      }
    }
  }
}
