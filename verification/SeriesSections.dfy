/** What a conduit tab says, told by its cells alone: the section cells above the header row and the headers
    below them. Both readers of a tab (parseSheetSeries in internal/googlesheets/structure_sync.go and
    parseConduitMarkers in internal/googlesheets/service.go) read exactly that. */
module SeriesSections {
  import opened Prelude
  import opened SheetText
  import opened SheetHeaders
  import opened SheetAddress
  import opened SheetGrid
  import opened SeriesScan
  import opened SeriesLayout
  import opened SheetMarkers

  /** The cell above the header row starts a section. */
  predicate IsSection(v: Sheet, row: nat, c: nat)
    requires row >= 1
  {
    Trim(Cell(v, row - 1, c)) != ""
  }

  predicate NoSection(v: Sheet, row: nat, lo: nat, hi: nat)
    requires row >= 1
  {
    forall k: nat :: lo <= k < hi ==> !IsSection(v, row, k)
  }

  /** The section a column belongs to: the nearest one at or left of it. */
  predicate Nearest(v: Sheet, row: nat, nameColumn: nat, c: nat, s: nat)
    requires row >= 1
  {
    nameColumn < s <= c && IsSection(v, row, s) && NoSection(v, row, s + 1, c + 1)
  }

  /** The number of a section that is a series header. */
  function NumberAt(v: Sheet, row: nat, s: nat): Option<nat>
    requires row >= 1
  {
    SeriesNumber(Trim(Cell(v, row - 1, s)))
  }

  /** The problems in the columns before `hi` that belong to the section in column s. */
  function ProblemsUnder(v: Sheet, row: nat, s: nat, hi: nat): seq<Problem>
    requires row >= 1
    decreases hi
  {
    if hi <= s then []
    else
      var p := ParseProblem(Cell(v, row, hi - 1));
      ProblemsUnder(v, row, s, hi - 1) + if NoSection(v, row, s + 1, hi) && p.Some? then [p.value] else []
  }

  /** One series for each series header, in order, with the problems of its section. */
  ghost predicate Describes(v: Sheet, row: nat, nameColumn: nat, hi: nat, starts: seq<nat>, series: seq<Series>)
    requires row >= 1
  {
    |starts| == |series| && SeriesStarts(v, row, nameColumn, hi, starts)
    && forall i :: 0 <= i < |starts| ==> IsSeriesFrom(v, row, starts[i], hi, series[i])
  }

  predicate StartsSeries(v: Sheet, row: nat, c: nat)
    requires row >= 1
  {
    IsSection(v, row, c) && NumberAt(v, row, c).Some?
  }

  /** The columns of the series headers, from left to right. */
  ghost predicate SeriesStarts(v: Sheet, row: nat, nameColumn: nat, hi: nat, starts: seq<nat>)
    requires row >= 1
  {
    (forall i, j :: 0 <= i < j < |starts| ==> starts[i] < starts[j])
    && forall c: nat :: c in starts <==> nameColumn < c < hi && StartsSeries(v, row, c)
  }

  predicate IsSeriesFrom(v: Sheet, row: nat, s: nat, hi: nat, series: Series)
    requires row >= 1
  {
    Some(series.number) == NumberAt(v, row, s) && series.problems == ProblemsUnder(v, row, s, hi)
  }

  /** The last series is still open before column `hi`. */
  ghost predicate OpenFrom(v: Sheet, row: nat, hi: nat, starts: seq<nat>)
    requires row >= 1
  {
    starts != [] && NoSection(v, row, starts[|starts| - 1] + 1, hi)
  }

  lemma SectionEnds(v: Sheet, row: nat, s: nat, t: nat, c: nat)
    requires row >= 1 && s < t <= c && IsSection(v, row, t)
    ensures ProblemsUnder(v, row, s, c + 1) == ProblemsUnder(v, row, s, c)
  {
    hide IsSection, ParseProblem;
  }

  lemma SectionGoesOn(v: Sheet, row: nat, s: nat, c: nat)
    requires row >= 1 && s < c && !IsSection(v, row, c)
    ensures NoSection(v, row, s + 1, c + 1) <==> NoSection(v, row, s + 1, c)
    ensures ProblemsUnder(v, row, s, c + 1) ==
      ProblemsUnder(v, row, s, c)
      + if NoSection(v, row, s + 1, c) && ParseProblem(Cell(v, row, c)).Some? then [ParseProblem(Cell(v, row, c)).value] else []
  {
    hide IsSection, ParseProblem;
  }

  lemma StartAt(v: Sheet, row: nat, nameColumn: nat, hi: nat, starts: seq<nat>, i: nat)
    requires row >= 1 && SeriesStarts(v, row, nameColumn, hi, starts) && i < |starts|
    ensures nameColumn < starts[i] < hi && IsSection(v, row, starts[i])
    ensures i < |starts| - 1 ==> starts[i] < starts[i + 1]
  {
    hide IsSection, NumberAt;
    assert starts[i] in starts;
  }

  /** A column leaves a series alone that another section has ended ... */
  lemma EarlierStays(v: Sheet, row: nat, nameColumn: nat, c: nat, starts: seq<nat>, series: seq<Series>, i: nat)
    requires row >= 1 && Describes(v, row, nameColumn, c, starts, series) && i < |starts|
    requires IsSection(v, row, c) || i < |starts| - 1
    ensures IsSeriesFrom(v, row, starts[i], c + 1, series[i])
  {
    hide IsSection, NumberAt, ProblemsUnder, SeriesStarts;
    assert IsSeriesFrom(v, row, starts[i], c, series[i]);
    StartAt(v, row, nameColumn, c, starts, i);
    if i < |starts| - 1 {
      StartAt(v, row, nameColumn, c, starts, i + 1);
      SectionEnds(v, row, starts[i], starts[i + 1], c);
    } else {
      SectionEnds(v, row, starts[i], c, c);
    }
  }

  /** ... and adds its problem to the last one while it is open. */
  lemma LastGrows(v: Sheet, row: nat, nameColumn: nat, c: nat, starts: seq<nat>, series: seq<Series>)
    requires row >= 1 && Describes(v, row, nameColumn, c, starts, series) && starts != [] && !IsSection(v, row, c)
    ensures var n, p := |starts| - 1, ParseProblem(Cell(v, row, c));
            IsSeriesFrom(v, row, starts[n], c + 1,
                         if OpenFrom(v, row, c, starts) then WithProblem(series[n], p) else series[n])
    ensures OpenFrom(v, row, c + 1, starts) <==> OpenFrom(v, row, c, starts)
  {
    hide IsSection, NumberAt, ProblemsUnder, ParseProblem, SeriesStarts;
    var n := |starts| - 1;
    assert IsSeriesFrom(v, row, starts[n], c, series[n]);
    StartAt(v, row, nameColumn, c, starts, n);
    SectionGoesOn(v, row, starts[n], c);
  }

  lemma UntitledStep(before: Scan, c: Column)
    requires c.title == Untitled
    ensures Step(before, c).open == before.open
    ensures Step(before, c).series ==
      if before.open && before.series != []
      then before.series[|before.series| - 1 := WithProblem(before.series[|before.series| - 1], c.problem)]
      else before.series
  {
  }

  lemma StartsStay(v: Sheet, row: nat, nameColumn: nat, c: nat, starts: seq<nat>)
    requires row >= 1 && SeriesStarts(v, row, nameColumn, c, starts) && !StartsSeries(v, row, c)
    ensures SeriesStarts(v, row, nameColumn, c + 1, starts)
  {
    hide StartsSeries;
  }

  lemma StartsGrow(v: Sheet, row: nat, nameColumn: nat, c: nat, starts: seq<nat>)
    requires row >= 1 && SeriesStarts(v, row, nameColumn, c, starts) && nameColumn < c && StartsSeries(v, row, c)
    ensures SeriesStarts(v, row, nameColumn, c + 1, starts + [c])
  {
    hide StartsSeries;
    forall i | 0 <= i < |starts| ensures starts[i] < c {
      assert starts[i] in starts;
    }
  }

  lemma InsideSection(v: Sheet, row: nat, nameColumn: nat, c: nat, starts: seq<nat>, before: Scan, column: Column)
    requires row >= 1 && column.title == Untitled && column.problem == ParseProblem(Cell(v, row, c))
    requires !IsSection(v, row, c)
    requires Describes(v, row, nameColumn, c, starts, before.series) && (before.open <==> OpenFrom(v, row, c, starts))
    ensures Describes(v, row, nameColumn, c + 1, starts, Step(before, column).series)
    ensures Step(before, column).open <==> OpenFrom(v, row, c + 1, starts)
  {
    hide Trim, SeriesNumber, ParseProblem, Cell, Step, IsSeriesFrom, OpenFrom, SeriesStarts, WithProblem;
    UntitledStep(before, column);
    assert !StartsSeries(v, row, c);
    StartsStay(v, row, nameColumn, c, starts);
    hide IsSection, StartsSeries;
    if starts != [] {
      LastGrows(v, row, nameColumn, c, starts, before.series);
    } else {
      NeverOpen(v, row, c);
    }
    forall i: nat | i < |starts| - 1 ensures IsSeriesFrom(v, row, starts[i], c + 1, before.series[i]) {
      EarlierStays(v, row, nameColumn, c, starts, before.series, i);
    }
  }

  lemma NeverOpen(v: Sheet, row: nat, c: nat)
    requires row >= 1
    ensures !OpenFrom(v, row, c, []) && !OpenFrom(v, row, c + 1, [])
  {
  }

  /** A section that is no series header closes the open series. */
  lemma AtOtherBlock(v: Sheet, row: nat, nameColumn: nat, c: nat, starts: seq<nat>, before: Scan, column: Column)
    requires row >= 1 && column.title == OtherBlock && IsSection(v, row, c) && NumberAt(v, row, c).None?
    requires Describes(v, row, nameColumn, c, starts, before.series)
    ensures Describes(v, row, nameColumn, c + 1, starts, Step(before, column).series)
    ensures !Step(before, column).open && !OpenFrom(v, row, c + 1, starts)
  {
    hide Trim, SeriesNumber, ParseProblem, Cell, IsSeriesFrom, OpenFrom, SeriesStarts;
    assert !StartsSeries(v, row, c);
    hide IsSection, StartsSeries;
    StartsStay(v, row, nameColumn, c, starts);
    ClosedHere(v, row, nameColumn, c, starts);
    forall i: nat | i < |starts| ensures IsSeriesFrom(v, row, starts[i], c + 1, before.series[i]) {
      EarlierStays(v, row, nameColumn, c, starts, before.series, i);
    }
  }

  lemma ClosedHere(v: Sheet, row: nat, nameColumn: nat, c: nat, starts: seq<nat>)
    requires row >= 1 && SeriesStarts(v, row, nameColumn, c, starts) && IsSection(v, row, c)
    ensures !OpenFrom(v, row, c + 1, starts)
  {
    hide IsSection, SeriesStarts;
    if starts != [] {
      StartAt(v, row, nameColumn, c, starts, |starts| - 1);
    }
  }

  /** A series header opens a series. */
  lemma AtSeriesHeader(v: Sheet, row: nat, nameColumn: nat, c: nat, starts: seq<nat>, before: Scan, column: Column)
    requires row >= 1 && nameColumn < c && column.problem == ParseProblem(Cell(v, row, c))
    requires IsSection(v, row, c) && column.title.SeriesTitle? && NumberAt(v, row, c) == Some(column.title.number)
    requires Describes(v, row, nameColumn, c, starts, before.series)
    ensures Describes(v, row, nameColumn, c + 1, starts + [c], Step(before, column).series)
    ensures Step(before, column).open && OpenFrom(v, row, c + 1, starts + [c])
  {
    hide Trim, SeriesNumber, ParseProblem, Cell, Step, IsSeriesFrom, SeriesStarts, WithProblem;
    assert StartsSeries(v, row, c);
    hide IsSection, StartsSeries, NumberAt;
    StepTitled(before, column.title.number, column);
    FirstSeries(v, row, c);
    StartsGrow(v, row, nameColumn, c, starts);
    forall i: nat | i < |starts| ensures IsSeriesFrom(v, row, starts[i], c + 1, before.series[i]) {
      EarlierStays(v, row, nameColumn, c, starts, before.series, i);
    }
  }

  lemma FirstSeries(v: Sheet, row: nat, c: nat)
    requires row >= 1 && NumberAt(v, row, c).Some?
    ensures IsSeriesFrom(v, row, c, c + 1, WithProblem(Series(NumberAt(v, row, c).value, []), ParseProblem(Cell(v, row, c))))
  {
    hide ParseProblem, NumberAt;
    FirstProblem(v, row, c);
  }

  lemma FirstProblem(v: Sheet, row: nat, c: nat)
    requires row >= 1
    ensures var p := ParseProblem(Cell(v, row, c)); ProblemsUnder(v, row, c, c + 1) == if p.Some? then [p.value] else []
  {
    hide ParseProblem, IsSection;
    assert ProblemsUnder(v, row, c, c) == [];
  }

  lemma {:induction false} ScanDescribes(v: Sheet, row: nat, nameColumn: nat, hi: nat) returns (starts: seq<nat>)
    requires row >= 1 && nameColumn < hi
    ensures Describes(v, row, nameColumn, hi, starts, SeriesIn(v, row, nameColumn + 1, hi).series)
    ensures SeriesIn(v, row, nameColumn + 1, hi).open <==> OpenFrom(v, row, hi, starts)
    decreases hi
  {
    hide *;
    if hi == nameColumn + 1 {
      NothingDescribed(v, row, nameColumn);
      return [];
    }
    var c := hi - 1;
    starts := ScanDescribes(v, row, nameColumn, c);
    NextColumn(v, row, nameColumn + 1, c);
    var before := SeriesIn(v, row, nameColumn + 1, c);
    var column := ColumnOf(Cell(v, row - 1, c), Cell(v, row, c));
    ColumnIs(v, row, c);
    if !IsSection(v, row, c) {
      InsideSection(v, row, nameColumn, c, starts, before, column);
    } else if NumberAt(v, row, c).None? {
      AtOtherBlock(v, row, nameColumn, c, starts, before, column);
    } else {
      AtSeriesHeader(v, row, nameColumn, c, starts, before, column);
      starts := starts + [c];
    }
  }

  lemma NothingDescribed(v: Sheet, row: nat, nameColumn: nat)
    requires row >= 1
    ensures Describes(v, row, nameColumn, nameColumn + 1, [], SeriesIn(v, row, nameColumn + 1, nameColumn + 1).series)
    ensures !SeriesIn(v, row, nameColumn + 1, nameColumn + 1).open && !OpenFrom(v, row, nameColumn + 1, [])
  {
    hide IsSection, NumberAt, SeriesIn, ParseProblem, Cell, StartsSeries;
    SeriesStart(v, row, nameColumn + 1);
  }

  lemma NoSeriesYet(v: Sheet, row: nat, nameColumn: nat, n: nat)
    requires row >= 1 && n > 0
    ensures CurrentSeries(SeriesIn(v, row, nameColumn + 1, nameColumn + 1)) == 0
    ensures !InSeries(v, row, nameColumn, nameColumn, n)
  {
    hide IsSection, NumberAt, SeriesIn, ParseProblem, Cell;
    SeriesStart(v, row, nameColumn + 1);
  }

  lemma ColumnIs(v: Sheet, row: nat, c: nat)
    requires row >= 1
    ensures var column := ColumnOf(Cell(v, row - 1, c), Cell(v, row, c));
            column.problem == ParseProblem(Cell(v, row, c))
            && column.title == if !IsSection(v, row, c) then Untitled
                               else if NumberAt(v, row, c).None? then OtherBlock
                               else SeriesTitle(NumberAt(v, row, c).value)
  {
    hide Trim, SeriesNumber, ParseProblem;
  }

  /** The layout of a tab is one series for each series header right of the name column, from left to right,
      with the problems in the columns whose nearest section it is. */
  lemma LayoutIsDescribed(v: Sheet, l: Layout) returns (hi: nat, starts: seq<nat>)
    requires ParsesTo(v, l)
    ensures EndsBefore(v, l.headerRow, hi) && l.nameColumn < hi
    ensures Describes(v, l.headerRow, l.nameColumn, hi, starts, l.series)
  {
    hide IsConduitHeader, EndsBefore, SeriesIn, Describes;
    hi :| EndsBefore(v, l.headerRow, hi) && l.nameColumn < hi
          && l.series == SeriesIn(v, l.headerRow, l.nameColumn + 1, hi).series;
    starts := ScanDescribes(v, l.headerRow, l.nameColumn, hi);
  }

  lemma SectionBeforeEnd(v: Sheet, row: nat, hi: nat, c: nat)
    requires row >= 1 && EndsBefore(v, row, hi) && IsSection(v, row, c)
    ensures c < hi
  {
    BlankCells();
    hide Trim;
  }

  /** Some series header of the tab has this number. */
  ghost predicate Heads(v: Sheet, row: nat, nameColumn: nat, n: nat)
    requires row >= 1
  {
    exists s: nat :: nameColumn < s && IsSection(v, row, s) && NumberAt(v, row, s) == Some(n)
  }

  /** A tab lists a series exactly when one of its series headers has that number. */
  lemma HeadedExactly(v: Sheet, l: Layout, n: nat)
    requires ParsesTo(v, l)
    ensures (exists s :: s in l.series && s.number == n) <==> Heads(v, l.headerRow, l.nameColumn, n)
  {
    var row, name := l.headerRow, l.nameColumn;
    var hi, starts := LayoutIsDescribed(v, l);
    hide IsSection, NumberAt, ParsesTo, ProblemsUnder, EndsBefore;
    if exists s :: s in l.series && s.number == n {
      var series :| series in l.series && series.number == n;
      var i :| 0 <= i < |l.series| && l.series[i] == series;
      assert IsSeriesFrom(v, row, starts[i], hi, series) && starts[i] in starts;
    }
    if Heads(v, row, name, n) {
      var s: nat :| name < s && IsSection(v, row, s) && NumberAt(v, row, s) == Some(n);
      SectionBeforeEnd(v, row, hi, s);
      assert StartsSeries(v, row, s) && s in starts;
      var i :| 0 <= i < |starts| && starts[i] == s;
      assert IsSeriesFrom(v, row, s, hi, l.series[i]) && l.series[i] in l.series;
    }
  }

  lemma {:induction false} UnderExactly(v: Sheet, row: nat, s: nat, hi: nat, p: Problem)
    requires row >= 1
    ensures p in ProblemsUnder(v, row, s, hi) <==> exists c: nat :: UnderAt(v, row, s, hi, p, c)
    decreases hi
  {
    hide ParseProblem, IsSection;
    if hi > s {
      UnderExactly(v, row, s, hi - 1, p);
      if p in ProblemsUnder(v, row, s, hi - 1) {
        var c: nat :| UnderAt(v, row, s, hi - 1, p, c);
        assert UnderAt(v, row, s, hi, p, c);
      } else if p in ProblemsUnder(v, row, s, hi) {
        assert UnderAt(v, row, s, hi, p, hi - 1);
      } else {
        forall c: nat ensures !UnderAt(v, row, s, hi, p, c) {
          assert c < hi - 1 ==> !UnderAt(v, row, s, hi - 1, p, c);
        }
      }
    }
  }

  predicate UnderAt(v: Sheet, row: nat, s: nat, hi: nat, p: Problem, c: nat)
    requires row >= 1
  {
    s <= c < hi && NoSection(v, row, s + 1, c + 1) && ParseProblem(Cell(v, row, c)) == Some(p)
  }

  /** The nearest section of column c is the header of series n. */
  ghost predicate InSeries(v: Sheet, row: nat, nameColumn: nat, c: nat, n: nat)
    requires row >= 1
  {
    exists s: nat :: Nearest(v, row, nameColumn, c, s) && NumberAt(v, row, s) == Some(n)
  }

  /** Column c says that problem p is one of series n. */
  ghost predicate Says(v: Sheet, row: nat, nameColumn: nat, c: nat, n: nat, p: Problem)
    requires row >= 1
  {
    ParseProblem(Cell(v, row, c)) == Some(p) && InSeries(v, row, nameColumn, c, n)
  }

  /** A tab lists a problem under a series exactly when some column says so: its header is that problem, and the
      nearest section at or left of it is the header of that series. */
  lemma ListedExactly(v: Sheet, l: Layout, n: nat, p: Problem)
    requires ParsesTo(v, l)
    ensures Listed(l.series, n, p) <==> exists c: nat :: Says(v, l.headerRow, l.nameColumn, c, n, p)
  {
    var row, name := l.headerRow, l.nameColumn;
    var hi, starts := LayoutIsDescribed(v, l);
    hide IsSection, NumberAt, ParsesTo, ProblemsUnder, EndsBefore, NoSection, ParseProblem;
    if Listed(l.series, n, p) {
      var series :| series in l.series && series.number == n && p in series.problems;
      var i :| 0 <= i < |l.series| && l.series[i] == series;
      assert IsSeriesFrom(v, row, starts[i], hi, series) && starts[i] in starts;
      UnderExactly(v, row, starts[i], hi, p);
      var c: nat :| UnderAt(v, row, starts[i], hi, p, c);
      assert Nearest(v, row, name, c, starts[i]);
      assert Says(v, row, name, c, n, p);
    }
    if c: nat :| Says(v, row, name, c, n, p) {
      var s: nat :| Nearest(v, row, name, c, s) && NumberAt(v, row, s) == Some(n);
      ProblemBeforeEnd(v, row, hi, c);
      assert s in starts;
      var i :| 0 <= i < |starts| && starts[i] == s;
      assert IsSeriesFrom(v, row, s, hi, l.series[i]);
      assert UnderAt(v, row, s, hi, p, c);
      UnderExactly(v, row, s, hi, p);
      assert l.series[i] in l.series;
    }
  }

  lemma InSeriesHere(v: Sheet, row: nat, nameColumn: nat, c: nat, n: nat)
    requires row >= 1 && nameColumn < c && IsSection(v, row, c)
    ensures InSeries(v, row, nameColumn, c, n) <==> NumberAt(v, row, c) == Some(n)
  {
    hide IsSection, NumberAt;
    assert Nearest(v, row, nameColumn, c, c);
    forall s: nat | Nearest(v, row, nameColumn, c, s) ensures s == c {}
  }

  lemma InSeriesAsBefore(v: Sheet, row: nat, nameColumn: nat, c: nat, n: nat)
    requires row >= 1 && nameColumn < c && !IsSection(v, row, c)
    ensures InSeries(v, row, nameColumn, c, n) <==> InSeries(v, row, nameColumn, c - 1, n)
  {
    hide IsSection, NumberAt;
    forall s: nat ensures Nearest(v, row, nameColumn, c, s) <==> Nearest(v, row, nameColumn, c - 1, s) {}
  }

  /** The series a column belongs to, for either reader, is the one its nearest section names; 0 stands for none. */
  lemma {:induction false} CurrentExactly(v: Sheet, row: nat, nameColumn: nat, c: nat, n: nat)
    requires row >= 1 && nameColumn < c && n > 0
    ensures SeriesAt(v, row, nameColumn, c) == n <==> InSeries(v, row, nameColumn, c, n)
    decreases c
  {
    hide IsSection, NumberAt, SeriesIn, ColumnOf, ParseProblem, CurrentSeries, Step, InSeries, Cell;
    NoSeriesYet(v, row, nameColumn, n);
    NextColumn(v, row, nameColumn + 1, c);
    ColumnIs(v, row, c);
    CurrentAfter(SeriesIn(v, row, nameColumn + 1, c), ColumnOf(Cell(v, row - 1, c), Cell(v, row, c)));
    if c > nameColumn + 1 {
      CurrentExactly(v, row, nameColumn, c - 1, n);
    }
    if IsSection(v, row, c) {
      InSeriesHere(v, row, nameColumn, c, n);
    } else {
      InSeriesAsBefore(v, row, nameColumn, c, n);
    }
  }

  /** The mark in cell `at`, by its student, its column and its text. */
  ghost predicate SaysMark(v: Sheet, row: nat, nameColumn: nat, at: Position, m: Marker)
    requires row >= 1
  {
    at.0 > row && m.series > 0 && Says(v, row, nameColumn, at.1, m.series, m.problem)
    && m.name == NormalizeCell(Cell(v, at.0, nameColumn)) && m.name != ""
    && m.initials == Trim(Cell(v, at.0, at.1)) && m.initials != "" && m.cell == CellName(at.0, at.1)
  }

  /** The markers of a tab are exactly the non-blank cells of named rows below the header whose column says which
      problem of which series they are about. */
  lemma MarkedExactly(v: Sheet, row: nat, nameColumn: nat, markers: seq<Marker>, at: seq<Position>, m: Marker)
    requires MarkersOf(v, row, nameColumn, markers, at)
    ensures m in markers <==> exists p :: SaysMark(v, row, nameColumn, p, m)
  {
    hide SaysMark, IsMarked, MarkerAt, IsConduitHeader;
    forall p: Position ensures SaysMark(v, row, nameColumn, p, m) <==>
      IsMarked(v, row, nameColumn, p) && m == MarkerAt(v, row, nameColumn, p)
    {
      MarkExactly(v, row, nameColumn, p, m);
    }
    if m in markers {
      var i :| 0 <= i < |markers| && markers[i] == m;
      assert at[i] in at;
      assert SaysMark(v, row, nameColumn, at[i], m);
    }
    if p :| SaysMark(v, row, nameColumn, p, m) {
      var i :| 0 <= i < |at| && at[i] == p;
      assert markers[i] in markers;
    }
  }

  // ---- whole tabs ----

  /** The tab has a series header of this number. */
  ghost predicate TabHeads(v: Sheet, n: nat) {
    exists row: nat, name: nat :: row >= 1 && IsConduitHeader(v, row, name) && Heads(v, row, name, n)
  }

  /** Some column of the tab says that the problem is one of the series. */
  ghost predicate TabSays(v: Sheet, n: nat, p: Problem) {
    exists row: nat, name: nat, c: nat :: row >= 1 && IsConduitHeader(v, row, name) && Says(v, row, name, c, n, p)
  }

  lemma TabExactly(v: Sheet, l: Layout, n: nat, p: Problem)
    requires ParsesTo(v, l)
    ensures (exists s :: s in l.series && s.number == n) <==> TabHeads(v, n)
    ensures Listed(l.series, n, p) <==> TabSays(v, n, p)
  {
    HeadedExactly(v, l, n);
    ListedExactly(v, l, n, p);
    assert l.headerRow >= 1 && IsConduitHeader(v, l.headerRow, l.nameColumn);
    hide ParsesTo, IsConduitHeader, Heads, Says, Listed;
    forall row: nat, name: nat | row >= 1 && IsConduitHeader(v, row, name)
      ensures row == l.headerRow && name == l.nameColumn
    {
      HeaderIsUnique(v, row, name, l.headerRow, l.nameColumn);
    }
  }

  lemma MarkExactly(v: Sheet, row: nat, nameColumn: nat, p: Position, m: Marker)
    requires row >= 1
    ensures SaysMark(v, row, nameColumn, p, m) <==>
      IsMarked(v, row, nameColumn, p) && m == MarkerAt(v, row, nameColumn, p)
  {
    hide InSeries, ParseProblem, Trim, NormalizeCell, SeriesAt, CellName;
    if nameColumn < p.1 {
      if m.series > 0 {
        CurrentExactly(v, row, nameColumn, p.1, m.series);
      }
    } else {
      NoSectionHere(v, row, nameColumn, p.1);
    }
  }

  lemma NoSectionHere(v: Sheet, row: nat, nameColumn: nat, c: nat)
    requires row >= 1 && c <= nameColumn
    ensures forall n: nat :: !InSeries(v, row, nameColumn, c, n)
  {
  }
}
