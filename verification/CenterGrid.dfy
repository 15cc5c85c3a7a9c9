/** The tables behind the teacher grids and the rows their queries return
    (internal/store/conduit_grid.go, internal/store/homework.sql.go). */
module GridTables {
  import opened Prelude
  import opened HomeworkState
  import opened HomeworkRow

  datatype Series = Series(center: nat, term: nat)

  /** A student of a term, in one of its groups. */
  datatype Enrollment = Enrollment(student: nat, group: nat, term: nat)

  datatype Thread = Thread(student: nat, subproblem: nat, series: nat, center: nat, row: Row, noted: bool)

  datatype Db = Db(
    groups: map<nat, Group>,
    series: map<nat, Series>,
    problems: map<nat, nat>,
    subproblems: map<nat, nat>,
    enrollments: set<Enrollment>,
    threads: map<nat, Thread>)
  {
    /** The series a subproblem hangs off, through its problem. */
    function SeriesOf(sp: nat): Option<nat> {
      if sp in subproblems && subproblems[sp] in problems then Some(problems[subproblems[sp]]) else None
    }

    /** Unique constraints and foreign keys, and that a thread carries the series and center of its
        subproblem, as every handler inserts it. */
    ghost predicate Valid() {
      && (forall e :: e in enrollments ==> e.group in groups && groups[e.group].term == e.term)
      && (forall e, f :: e in enrollments && f in enrollments && e.student == f.student && e.term == f.term ==> e == f)
      && (forall g, s :: g in groups && s in series && groups[g].term == series[s].term ==>
            groups[g].center == series[s].center)
      && (forall t, u :: t in threads && u in threads && SameCell(threads[t], threads[u]) ==> t == u)
      && forall t :: t in threads ==> ThreadFits(threads[t])
    }

    predicate ThreadFits(t: Thread) {
      SeriesOf(t.subproblem) == Some(t.series) && t.series in series && series[t.series].center == t.center
    }
  }

  predicate SameCell(t: Thread, u: Thread) {
    t.student == u.student && t.subproblem == u.subproblem
  }

  /** A cell of a grid; thread 0 when there is none. */
  datatype Cell = Cell(thread: nat, status: Status, lastGrader: Option<UserId>, lastGraderName: string,
                       holder: Option<UserId>, expires: Option<int>, noted: bool)

  const EMPTY := Cell(0, Ungraded, None, "", None, None, false)

  function CellOf(id: nat, t: Thread): Cell {
    Cell(id, t.row.status, t.row.lastGrader, t.row.lastGraderName, t.row.holder, t.row.expires, t.noted)
  }

  predicate IsThreadAt(db: Db, id: nat, student: nat, sp: nat) {
    id in db.threads && db.threads[id].student == student && db.threads[id].subproblem == sp
  }

  /** The cell both LEFT JOIN queries compute: the thread's, or the ungraded default. */
  ghost predicate IsCellAt(db: Db, student: nat, sp: nat, cell: Cell) {
    if exists id :: IsThreadAt(db, id, student, sp)
    then exists id :: IsThreadAt(db, id, student, sp) && cell == CellOf(id, db.threads[id])
    else cell == EMPTY
  }

  // ---- the axes ----

  predicate InRoster(db: Db, center: nat, term: nat, group: nat, student: nat) {
    group in db.groups && db.groups[group] == Group(center, term) && Enrollment(student, group, term) in db.enrollments
  }

  predicate InColumns(db: Db, center: nat, term: nat, series: nat, sp: nat) {
    series in db.series && db.series[series] == Series(center, term) && db.SeriesOf(sp) == Some(series)
  }

  // ---- rows ----

  /** A row of the two sparse cell queries. */
  datatype CellRow = CellRow(student: nat, subproblem: nat, cell: Cell)

  function RowOf(id: nat, t: Thread): CellRow {
    CellRow(t.student, t.subproblem, CellOf(id, t))
  }

  /** The student of a thread is enrolled in some group of the center in this term. */
  ghost predicate Rostered(db: Db, center: nat, term: nat, student: nat) {
    exists g :: g in db.groups && db.groups[g].center == center && Enrollment(student, g, term) in db.enrollments
  }

  ghost predicate JoinsSeries(db: Db, center: nat, series: nat, t: Thread) {
    t.center == center && t.series == series && series in db.series && db.series[series].center == center
    && db.SeriesOf(t.subproblem) == Some(series) && Rostered(db, center, db.series[series].term, t.student)
  }

  /** The join conditions of the term query. */
  ghost predicate JoinsTerm(db: Db, center: nat, term: nat, t: Thread) {
    JoinsSeries(db, center, t.series, t) && db.series[t.series].term == term
  }

  /** The rows of the term's cells, in whatever order they come. */
  ghost predicate TermRows(db: Db, center: nat, term: nat, rows: seq<CellRow>) {
    Distinct(rows)
    && forall r :: r in rows <==>
         exists id :: id in db.threads && r == RowOf(id, db.threads[id]) && JoinsTerm(db, center, term, db.threads[id])
  }

  /** The rows of one series' cells. */
  ghost predicate SeriesRows(db: Db, center: nat, series: nat, rows: seq<CellRow>) {
    Distinct(rows)
    && forall r :: r in rows <==>
         exists id :: id in db.threads && r == RowOf(id, db.threads[id]) && JoinsSeries(db, center, series, db.threads[id])
  }

  /** A row of the cross-product query of a term. */
  datatype CrossRow = CrossRow(group: nat, student: nat, series: nat, subproblem: nat, cell: Cell)

  ghost predicate InCross(db: Db, center: nat, term: nat, r: CrossRow) {
    r.group in db.groups && db.groups[r.group] == Group(center, term)
    && (exists e :: e in db.enrollments && e.student == r.student && e.group == r.group)
    && r.series in db.series && db.series[r.series].term == db.groups[r.group].term
    && db.SeriesOf(r.subproblem) == Some(r.series)
    && IsCellAt(db, r.student, r.subproblem, r.cell)
  }

  /** A row of the dense query of one series. */
  datatype DenseRow = DenseRow(student: nat, subproblem: nat, cell: Cell)

  ghost predicate InDense(db: Db, series: nat, r: DenseRow) {
    series in db.series
    && (exists e :: e in db.enrollments && e.student == r.student && e.group in db.groups
                    && db.groups[e.group].term == db.series[series].term)
    && db.SeriesOf(r.subproblem) == Some(series)
    && IsCellAt(db, r.student, r.subproblem, r.cell)
  }

  ghost predicate DenseRows(db: Db, series: nat, rows: seq<DenseRow>) {
    Distinct(rows) && forall r :: r in rows <==> InDense(db, series, r)
  }

  lemma CellAtIsUnique(db: Db, student: nat, sp: nat, a: Cell, b: Cell)
    requires db.Valid() && IsCellAt(db, student, sp, a) && IsCellAt(db, student, sp, b)
    ensures a == b
  {
    if exists id :: IsThreadAt(db, id, student, sp) {
      var i :| IsThreadAt(db, i, student, sp) && a == CellOf(i, db.threads[i]);
      var j :| IsThreadAt(db, j, student, sp) && b == CellOf(j, db.threads[j]);
      assert SameCell(db.threads[i], db.threads[j]);
    }
  }

  /** The cross product is the product of the two axes. */
  lemma CrossIsProduct(db: Db, center: nat, term: nat, r: CrossRow)
    requires db.Valid()
    ensures InCross(db, center, term, r) <==>
      InRoster(db, center, term, r.group, r.student) && InColumns(db, center, term, r.series, r.subproblem)
      && IsCellAt(db, r.student, r.subproblem, r.cell)
  {
    hide IsCellAt;
    if InCross(db, center, term, r) {
      var e :| e in db.enrollments && e.student == r.student && e.group == r.group;
      assert e == Enrollment(r.student, r.group, term);
    }
    if InRoster(db, center, term, r.group, r.student) {
      assert Enrollment(r.student, r.group, term) in db.enrollments;
    }
  }

  /** Every thread of a rostered student in a column of the term is a row of the term's cells. */
  lemma RosteredThreadJoins(db: Db, center: nat, term: nat, group: nat, student: nat, series: nat, sp: nat, id: nat)
    requires db.Valid() && InRoster(db, center, term, group, student) && InColumns(db, center, term, series, sp)
    requires IsThreadAt(db, id, student, sp)
    ensures JoinsTerm(db, center, term, db.threads[id])
  {
    assert db.ThreadFits(db.threads[id]);
    assert db.groups[group].center == center;
  }
}

/** The sparse center grid (internal/handlers/homework/teacher_center_grid.go) denotes the same matrix as
    the cross-product query and the dense pivot (teacher_grid.go). */
module CenterGrid {
  import opened Prelude
  import opened HomeworkState
  import opened SheetText
  import opened SheetAddress
  import opened GridTables

  // ---- cells ----

  function CellKey(student: nat, sp: nat): string {
    Itoa(student) + ":" + Itoa(sp)
  }

  lemma CellKeyIsInjective(a: nat, p: nat, b: nat, q: nat)
    ensures CellKey(a, p) == CellKey(b, q) <==> a == b && p == q
  {
    if CellKey(a, p) == CellKey(b, q) {
      NoneInDigits(':', a);
      NoneInDigits(':', b);
      SplitAt(Itoa(a), ':', Itoa(p), Itoa(b), Itoa(q));
      NumberOfItoa(a);
      NumberOfItoa(b);
      NumberOfItoa(p);
      NumberOfItoa(q);
    }
  }

  function RowKey(r: CellRow): string {
    CellKey(r.student, r.subproblem)
  }

  /** No two rows for one cell. */
  predicate DistinctKeys(rows: seq<CellRow>) {
    forall i, j :: 0 <= i < j < |rows| ==> RowKey(rows[i]) != RowKey(rows[j])
  }

  /** The cell map of distinct rows: one entry per row. */
  ghost predicate Maps(cells: map<string, Cell>, rows: seq<CellRow>) {
    (forall key :: key in cells <==> exists r :: r in rows && RowKey(r) == key)
    && forall r :: r in rows ==> cells[RowKey(r)] == r.cell
  }

  /** What buildCenterGridCells builds: for each key the last row that has it. */
  function CellsOf(rows: seq<CellRow>): map<string, Cell> {
    if rows == [] then map[]
    else CellsOf(rows[..|rows| - 1])[RowKey(rows[|rows| - 1]) := rows[|rows| - 1].cell]
  }

  /** buildCenterGridCells, without the graders' initials. */
  method BuildCells(rows: seq<CellRow>) returns (cells: map<string, Cell>)
    ensures cells == CellsOf(rows)
  {
    cells := map[];
    for i := 0 to |rows|
      invariant cells == CellsOf(rows[..i])
    {
      assert rows[..i + 1][..i] == rows[..i];
      cells := cells[CellKey(rows[i].student, rows[i].subproblem) := rows[i].cell];
    }
    assert rows[..|rows|] == rows;
  }

  lemma {:induction false} CellsOfMaps(rows: seq<CellRow>)
    requires DistinctKeys(rows)
    ensures Maps(CellsOf(rows), rows)
    decreases |rows|
  {
    hide RowKey, DistinctKeys;
    if rows != [] {
      var front, last := rows[..|rows| - 1], rows[|rows| - 1];
      assert DistinctKeys(front) by {
        FrontKeys(rows);
      }
      CellsOfMaps(front);
      assert rows == front + [last];
      NewKey(rows, |rows| - 1);
    }
  }

  lemma FrontKeys(rows: seq<CellRow>)
    requires DistinctKeys(rows) && rows != []
    ensures DistinctKeys(rows[..|rows| - 1])
  {
    hide RowKey;
  }

  lemma NewKey(rows: seq<CellRow>, i: nat)
    requires DistinctKeys(rows) && i < |rows|
    ensures forall r :: r in rows[..i] ==> RowKey(r) != RowKey(rows[i])
  {
    hide RowKey;
  }

  function LookUp(cells: map<string, Cell>, student: nat, sp: nat): Cell {
    if CellKey(student, sp) in cells then cells[CellKey(student, sp)] else EMPTY
  }

  /** Rows of joined threads never share a key. */
  lemma ThreadRowsHaveDistinctKeys(db: Db, rows: seq<CellRow>)
    requires db.Valid() && Distinct(rows)
    requires forall r :: r in rows ==> exists id :: id in db.threads && r == RowOf(id, db.threads[id])
    ensures DistinctKeys(rows)
  {
    forall i, j | 0 <= i < j < |rows| ensures RowKey(rows[i]) != RowKey(rows[j]) {
      assert rows[i] in rows && rows[j] in rows;
      var a :| a in db.threads && rows[i] == RowOf(a, db.threads[a]);
      var b :| b in db.threads && rows[j] == RowOf(b, db.threads[b]);
      CellKeyIsInjective(rows[i].student, rows[i].subproblem, rows[j].student, rows[j].subproblem);
      if RowKey(rows[i]) == RowKey(rows[j]) {
        assert SameCell(db.threads[a], db.threads[b]);
      }
    }
  }

  /** The row of a cell, if there is one. */
  lemma LookUpFinds(cells: map<string, Cell>, rows: seq<CellRow>, student: nat, sp: nat)
    requires Maps(cells, rows)
    ensures CellKey(student, sp) in cells <==> exists r :: r in rows && r.student == student && r.subproblem == sp
    ensures forall r :: r in rows && r.student == student && r.subproblem == sp ==> LookUp(cells, student, sp) == r.cell
  {
    hide CellKey;
    forall r | r in rows ensures RowKey(r) == CellKey(student, sp) <==> r.student == student && r.subproblem == sp {
      CellKeyIsInjective(r.student, r.subproblem, student, sp);
    }
  }

  /** The maps the two cell queries lead to. */
  lemma TermCells(db: Db, center: nat, term: nat, rows: seq<CellRow>)
    requires db.Valid() && TermRows(db, center, term, rows)
    ensures Maps(CellsOf(rows), rows)
  {
    ThreadRowsHaveDistinctKeys(db, rows);
    CellsOfMaps(rows);
  }

  lemma SeriesCells(db: Db, center: nat, series: nat, rows: seq<CellRow>)
    requires db.Valid() && SeriesRows(db, center, series, rows)
    ensures Maps(CellsOf(rows), rows)
  {
    ThreadRowsHaveDistinctKeys(db, rows);
    CellsOfMaps(rows);
  }

  /** The sparse cells denote the cross product: for every rostered student and every column, looking the cell up
      with the ungraded default gives the row of the cross-product query. */
  lemma SparseDenotesCross(db: Db, center: nat, term: nat, rows: seq<CellRow>, cells: map<string, Cell>, r: CrossRow)
    requires db.Valid() && TermRows(db, center, term, rows) && Maps(cells, rows)
    ensures InCross(db, center, term, r) <==>
      InRoster(db, center, term, r.group, r.student) && InColumns(db, center, term, r.series, r.subproblem)
      && LookUp(cells, r.student, r.subproblem) == r.cell
  {
    CrossIsProduct(db, center, term, r);
    if InRoster(db, center, term, r.group, r.student) && InColumns(db, center, term, r.series, r.subproblem) {
      LookUpIsCell(db, center, term, rows, cells, r.group, r.student, r.series, r.subproblem);
      var found := LookUp(cells, r.student, r.subproblem);
      if IsCellAt(db, r.student, r.subproblem, r.cell) {
        CellAtIsUnique(db, r.student, r.subproblem, found, r.cell);
      }
    }
  }

  /** The cell tells of the thread what its row says, and that nothing was done where there is none. */
  predicate Tells(cell: Cell, id: nat, t: Thread) {
    cell.thread == id && cell.status == t.row.status && cell.lastGrader == t.row.lastGrader
    && cell.lastGraderName == t.row.lastGraderName && cell.holder == t.row.holder && cell.expires == t.row.expires
    && cell.noted == t.noted
  }

  /** For a rostered student and a column, the cell found tells of their thread; without one it is ungraded,
      unclaimed and blank. */
  lemma CellTellsThread(db: Db, center: nat, term: nat, rows: seq<CellRow>, group: nat, student: nat, series: nat, sp: nat)
    requires db.Valid() && TermRows(db, center, term, rows)
    requires InRoster(db, center, term, group, student) && InColumns(db, center, term, series, sp)
    ensures var cell := LookUp(CellsOf(rows), student, sp);
            (forall id :: id in db.threads && db.threads[id].student == student && db.threads[id].subproblem == sp ==>
               Tells(cell, id, db.threads[id]))
            && ((forall id :: id in db.threads && db.threads[id].student == student ==> db.threads[id].subproblem != sp) ==>
                  cell.thread == 0 && cell.status == Ungraded && cell.lastGrader.None? && cell.lastGraderName == ""
                  && cell.holder.None? && cell.expires.None? && !cell.noted)
  {
    TermCells(db, center, term, rows);
    LookUpIsCell(db, center, term, rows, CellsOf(rows), group, student, series, sp);
    hide CellsOf, LookUp, TermRows, InRoster, InColumns, Maps;
    var cell := LookUp(CellsOf(rows), student, sp);
    forall id | IsThreadAt(db, id, student, sp) ensures Tells(cell, id, db.threads[id]) {
      var i :| IsThreadAt(db, i, student, sp) && cell == CellOf(i, db.threads[i]);
      assert SameCell(db.threads[i], db.threads[id]);
    }
    assert forall id :: id in db.threads && db.threads[id].student == student && db.threads[id].subproblem == sp
                        <==> IsThreadAt(db, id, student, sp);
  }

  lemma LookUpIsCell(db: Db, center: nat, term: nat, rows: seq<CellRow>, cells: map<string, Cell>, group: nat,
                     student: nat, series: nat, sp: nat)
    requires db.Valid() && TermRows(db, center, term, rows) && Maps(cells, rows)
    requires InRoster(db, center, term, group, student) && InColumns(db, center, term, series, sp)
    ensures IsCellAt(db, student, sp, LookUp(cells, student, sp))
  {
    hide CellKey, JoinsTerm, Maps;
    LookUpFinds(cells, rows, student, sp);
    if exists id :: IsThreadAt(db, id, student, sp) {
      var id :| IsThreadAt(db, id, student, sp);
      RosteredThreadJoins(db, center, term, group, student, series, sp, id);
      assert RowOf(id, db.threads[id]) in rows;
    } else {
      forall r | r in rows ensures r.student != student || r.subproblem != sp {
        var id :| id in db.threads && r == RowOf(id, db.threads[id]);
        assert !IsThreadAt(db, id, student, sp);
      }
    }
  }

  // ---- one series ----

  /** The term's cells are the disjoint union of its series' cells: each entry of the term map is an entry of the map
      of exactly one series of the term, and each of theirs is one of its. */
  lemma TermIsDisjointUnion(db: Db, center: nat, term: nat, rows: seq<CellRow>, cells: map<string, Cell>,
                             student: nat, sp: nat)
    requires db.Valid() && TermRows(db, center, term, rows) && Maps(cells, rows)
    ensures CellKey(student, sp) in cells <==>
      exists s :: s in db.series && db.series[s] == Series(center, term) && InSeriesCells(db, center, s, student, sp)
    ensures forall s, t :: InSeriesCells(db, center, s, student, sp) && InSeriesCells(db, center, t, student, sp) ==> s == t
  {
    hide CellKey, Rostered, Maps;
    LookUpFinds(cells, rows, student, sp);
    if CellKey(student, sp) in cells {
      var r :| r in rows && r.student == student && r.subproblem == sp;
      var id :| id in db.threads && r == RowOf(id, db.threads[id]) && JoinsTerm(db, center, term, db.threads[id]);
      assert SeriesThread(db, center, db.threads[id].series, student, sp, id);
    }
    if exists s :: s in db.series && db.series[s] == Series(center, term) && InSeriesCells(db, center, s, student, sp) {
      var s :| s in db.series && db.series[s] == Series(center, term) && InSeriesCells(db, center, s, student, sp);
      var id :| SeriesThread(db, center, s, student, sp, id);
      assert RowOf(id, db.threads[id]) in rows;
    }
  }

  ghost predicate SeriesThread(db: Db, center: nat, series: nat, student: nat, sp: nat, id: nat) {
    IsThreadAt(db, id, student, sp) && JoinsSeries(db, center, series, db.threads[id])
  }

  /** The refresh of one series returns a cell here. */
  ghost predicate InSeriesCells(db: Db, center: nat, series: nat, student: nat, sp: nat) {
    exists id :: SeriesThread(db, center, series, student, sp, id)
  }

  /** Where the refresh of a series returns a cell, the term's map has the same one. */
  lemma SeriesCellsAgree(db: Db, center: nat, term: nat, series: nat, rows: seq<CellRow>, cells: map<string, Cell>,
                         part: seq<CellRow>, update: map<string, Cell>, student: nat, sp: nat)
    requires db.Valid() && TermRows(db, center, term, rows) && Maps(cells, rows)
    requires SeriesRows(db, center, series, part) && Maps(update, part)
    requires series in db.series && db.series[series] == Series(center, term)
    ensures CellKey(student, sp) in update <==> InSeriesCells(db, center, series, student, sp)
    ensures CellKey(student, sp) in update ==>
      CellKey(student, sp) in cells && cells[CellKey(student, sp)] == update[CellKey(student, sp)]
  {
    hide CellKey, Rostered, Maps;
    LookUpFinds(cells, rows, student, sp);
    LookUpFinds(update, part, student, sp);
    if CellKey(student, sp) in update {
      var r :| r in part && r.student == student && r.subproblem == sp;
      var id :| id in db.threads && r == RowOf(id, db.threads[id]) && JoinsSeries(db, center, series, db.threads[id]);
      assert SeriesThread(db, center, series, student, sp, id);
      assert r in rows;
    }
    if InSeriesCells(db, center, series, student, sp) {
      var id :| SeriesThread(db, center, series, student, sp, id);
      assert RowOf(id, db.threads[id]) in part;
    }
  }

  /** Two databases that differ in the threads of one series only. */
  ghost predicate DiffersInSeries(a: Db, b: Db, series: nat) {
    a.groups == b.groups && a.series == b.series && a.problems == b.problems && a.subproblems == b.subproblems
    && a.enrollments == b.enrollments
    && (forall id :: id in a.threads && a.threads[id].series != series ==>
          id in b.threads && b.threads[id] == a.threads[id])
    && forall id :: id in b.threads && b.threads[id].series != series ==>
         id in a.threads && b.threads[id] == a.threads[id]
  }

  /** A refresh agrees with a full reload: after threads of one series changed, none of them going away, putting the
      refreshed cells over the shown ones gives the cells a full reload would. */
  lemma RefreshIsReload(before: Db, after: Db, center: nat, term: nat, series: nat,
                        oldRows: seq<CellRow>, shown: map<string, Cell>, rows: seq<CellRow>, cells: map<string, Cell>,
                        part: seq<CellRow>, update: map<string, Cell>)
    requires before.Valid() && after.Valid() && DiffersInSeries(before, after, series)
    requires forall id :: id in before.threads && before.threads[id].series == series ==>
      id in after.threads && SameCell(before.threads[id], after.threads[id])
    requires series in before.series && before.series[series] == Series(center, term)
    requires TermRows(before, center, term, oldRows) && Maps(shown, oldRows)
    requires TermRows(after, center, term, rows) && Maps(cells, rows)
    requires SeriesRows(after, center, series, part) && Maps(update, part)
    ensures shown + update == cells
  {
    hide *;
    SameTables(before, after, series);
    SplitRows(after, center, term, series, rows, part);
    KeptRows(before, after, center, term, series, oldRows, rows);
    forall key ensures key in shown + update <==> key in cells {
      MergedKeys(before, after, center, term, series, oldRows, shown, rows, cells, part, update, key);
    }
    forall key | key in cells ensures (shown + update)[key] == cells[key] {
      MergedKeys(before, after, center, term, series, oldRows, shown, rows, cells, part, update, key);
    }
  }

  lemma SameTables(before: Db, after: Db, series: nat)
    requires DiffersInSeries(before, after, series)
    ensures after.series == before.series
  {
  }

  /** A row of this series. */
  predicate OfSeries(db: Db, r: CellRow, series: nat) {
    db.SeriesOf(r.subproblem) == Some(series)
  }

  lemma SplitRows(db: Db, center: nat, term: nat, series: nat, rows: seq<CellRow>, part: seq<CellRow>)
    requires db.Valid() && TermRows(db, center, term, rows) && SeriesRows(db, center, series, part)
    requires series in db.series && db.series[series] == Series(center, term)
    ensures forall r :: r in part <==> r in rows && OfSeries(db, r, series)
  {
    hide Rostered;
    forall r | r in rows && OfSeries(db, r, series) ensures r in part {
      var id :| id in db.threads && r == RowOf(id, db.threads[id]) && JoinsTerm(db, center, term, db.threads[id]);
      assert JoinsSeries(db, center, series, db.threads[id]);
    }
    forall r | r in part ensures r in rows && OfSeries(db, r, series) {
      var id :| id in db.threads && r == RowOf(id, db.threads[id]) && JoinsSeries(db, center, series, db.threads[id]);
      assert JoinsTerm(db, center, term, db.threads[id]);
    }
  }

  /** Rows of other series are the same before and after ... */
  lemma OtherRowsKept(before: Db, after: Db, center: nat, term: nat, series: nat, oldRows: seq<CellRow>, rows: seq<CellRow>,
                      r: CellRow)
    requires before.Valid() && after.Valid() && DiffersInSeries(before, after, series) && !OfSeries(after, r, series)
    requires TermRows(before, center, term, oldRows) && TermRows(after, center, term, rows)
    ensures r in oldRows <==> r in rows
  {
    if r in oldRows {
      var id :| id in before.threads && r == RowOf(id, before.threads[id])
                && JoinsTerm(before, center, term, before.threads[id]);
      assert JoinsTerm(after, center, term, after.threads[id]);
    }
    if r in rows {
      var id :| id in after.threads && r == RowOf(id, after.threads[id])
                && JoinsTerm(after, center, term, after.threads[id]);
      assert JoinsTerm(before, center, term, before.threads[id]);
    }
  }

  /** ... and the cells of this series stay cells. */
  lemma CellsStay(before: Db, after: Db, center: nat, term: nat, series: nat, oldRows: seq<CellRow>, rows: seq<CellRow>,
                  r: CellRow)
    requires before.Valid() && after.Valid() && DiffersInSeries(before, after, series)
    requires forall id :: id in before.threads && before.threads[id].series == series ==>
      id in after.threads && SameCell(before.threads[id], after.threads[id])
    requires TermRows(before, center, term, oldRows) && TermRows(after, center, term, rows) && r in oldRows
    ensures exists q :: q in rows && RowKey(q) == RowKey(r)
  {
    hide CellKey;
    var id :| id in before.threads && r == RowOf(id, before.threads[id])
              && JoinsTerm(before, center, term, before.threads[id]);
    assert after.ThreadFits(after.threads[id]) && before.ThreadFits(before.threads[id]);
    assert JoinsTerm(after, center, term, after.threads[id]);
    assert RowOf(id, after.threads[id]) in rows;
  }

  lemma KeptRows(before: Db, after: Db, center: nat, term: nat, series: nat, oldRows: seq<CellRow>, rows: seq<CellRow>)
    requires before.Valid() && after.Valid() && DiffersInSeries(before, after, series)
    requires forall id :: id in before.threads && before.threads[id].series == series ==>
      id in after.threads && SameCell(before.threads[id], after.threads[id])
    requires TermRows(before, center, term, oldRows) && TermRows(after, center, term, rows)
    ensures forall r :: !OfSeries(after, r, series) ==> (r in oldRows <==> r in rows)
    ensures forall r :: r in oldRows ==> exists q :: q in rows && RowKey(q) == RowKey(r)
  {
    hide *;
    forall r | !OfSeries(after, r, series) ensures r in oldRows <==> r in rows {
      OtherRowsKept(before, after, center, term, series, oldRows, rows, r);
    }
    forall r | r in oldRows ensures exists q :: q in rows && RowKey(q) == RowKey(r) {
      CellsStay(before, after, center, term, series, oldRows, rows, r);
    }
  }

  lemma MergedKeys(before: Db, after: Db, center: nat, term: nat, series: nat,
                   oldRows: seq<CellRow>, shown: map<string, Cell>, rows: seq<CellRow>, cells: map<string, Cell>,
                   part: seq<CellRow>, update: map<string, Cell>, key: string)
    requires Maps(shown, oldRows) && Maps(cells, rows) && Maps(update, part)
    requires forall r :: r in part <==> r in rows && OfSeries(after, r, series)
    requires forall r :: !OfSeries(after, r, series) ==> (r in oldRows <==> r in rows)
    requires forall r :: r in oldRows ==> exists q :: q in rows && RowKey(q) == RowKey(r)
    ensures key in shown + update <==> key in cells
    ensures key in cells ==> (shown + update)[key] == cells[key]
  {
    hide RowKey, OfSeries;
    if key in cells {
      var r :| r in rows && RowKey(r) == key;
      if r in part {
        assert update[key] == r.cell;
      } else {
        assert shown[key] == r.cell;
        assert key in update ==> update[key] == cells[key];
      }
    }
  }

  // ---- the two axes ----

  /** A group with its students, or a series with its columns. */
  datatype Entry = Entry(id: nat, items: seq<nat>)

  /** A row of an axis query: the group and a student, or the series and a subproblem. */
  datatype AxisRow = AxisRow(id: nat, item: nat)

  predicate HasEntry(axis: seq<Entry>, id: nat) {
    exists i :: 0 <= i < |axis| && axis[i].id == id
  }

  predicate Lists(axis: seq<Entry>, id: nat, item: nat) {
    exists i :: 0 <= i < |axis| && axis[i].id == id && item in axis[i].items
  }

  /** The sequence has an x ahead of every y. */
  ghost predicate Before<T>(s: seq<T>, x: T, y: T) {
    exists a :: 0 <= a < |s| && s[a] == x && y !in s[..a + 1]
  }

  function Ids(rows: seq<AxisRow>): seq<nat> {
    seq(|rows|, i requires 0 <= i < |rows| => rows[i].id)
  }

  /** Entries stand in the order in which the rows first show their ids. */
  ghost predicate EntriesFirstSeen(axis: seq<Entry>, rows: seq<AxisRow>) {
    forall i, j :: 0 <= i < j < |axis| ==> Before(Ids(rows), axis[i].id, axis[j].id)
  }

  /** The items of an entry stand in the order in which the rows first show them under its id. */
  ghost predicate ItemsFirstSeen(entry: Entry, rows: seq<AxisRow>) {
    forall a, b :: 0 <= a < b < |entry.items| ==>
      Before(rows, AxisRow(entry.id, entry.items[a]), AxisRow(entry.id, entry.items[b]))
  }

  /** The pairs of the rows, entries and their items without repeats and in first-seen order. */
  ghost predicate IsAxis(axis: seq<Entry>, rows: seq<AxisRow>) {
    DistinctIds(axis)
    && (forall i :: 0 <= i < |axis| ==> Distinct(axis[i].items) && axis[i].items != [])
    && (forall id, item :: Lists(axis, id, item) <==> AxisRow(id, item) in rows)
    && EntriesFirstSeen(axis, rows)
    && (forall i :: 0 <= i < |axis| ==> ItemsFirstSeen(axis[i], rows))
  }

  predicate DistinctIds(axis: seq<Entry>) {
    forall i, j :: 0 <= i < j < |axis| ==> axis[i].id != axis[j].id
  }

  /** Position of an entry; the length when there is none. */
  function IndexOfEntry(axis: seq<Entry>, id: nat): (k: nat)
    ensures k <= |axis| && (k < |axis| ==> axis[k].id == id)
    ensures k == |axis| <==> !HasEntry(axis, id)
  {
    if axis == [] then 0
    else
      var k := IndexOfEntry(axis[..|axis| - 1], id);
      assert forall i :: 0 <= i < |axis| - 1 ==> axis[..|axis| - 1][i] == axis[i];
      if k < |axis| - 1 then k else if axis[|axis| - 1].id == id then |axis| - 1 else |axis|
  }

  function WithEntry(axis: seq<Entry>, id: nat): seq<Entry> {
    if HasEntry(axis, id) then axis else axis + [Entry(id, [])]
  }

  function WithItem(axis: seq<Entry>, k: nat, item: nat): seq<Entry>
    requires k < |axis|
  {
    if item in axis[k].items then axis else axis[k := Entry(axis[k].id, axis[k].items + [item])]
  }

  /** The axis after one more row. */
  function Added(axis: seq<Entry>, id: nat, item: nat): seq<Entry> {
    WithItem(WithEntry(axis, id), IndexOfEntry(axis, id), item)
  }

  lemma AddedIsAxis(axis: seq<Entry>, rows: seq<AxisRow>, id: nat, item: nat)
    requires IsAxis(axis, rows)
    ensures IsAxis(Added(axis, id, item), rows + [AxisRow(id, item)])
  {
    hide HasEntry, Added, EntriesFirstSeen, ItemsFirstSeen;
    AddedIsDistinct(axis, rows, id, item);
    AddedEntriesFirstSeen(axis, rows, id, item);
    AddedItemsFirstSeen(axis, rows, id, item);
    var after := Added(axis, id, item);
    forall i, t ensures Lists(after, i, t) <==> Lists(axis, i, t) || (i == id && t == item) {
      AddedLists(axis, id, item, i, t);
    }
  }

  lemma AddedIsDistinct(axis: seq<Entry>, rows: seq<AxisRow>, id: nat, item: nat)
    requires IsAxis(axis, rows)
    ensures DistinctIds(Added(axis, id, item))
    ensures forall i :: 0 <= i < |Added(axis, id, item)| ==>
      Distinct(Added(axis, id, item)[i].items) && Added(axis, id, item)[i].items != []
  {
    hide Lists;
    var k := IndexOfEntry(axis, id);
    assert k < |axis| ==> Distinct(axis[k].items);
  }

  lemma BeforeGrows<T>(s: seq<T>, x: T, y: T, z: T)
    ensures Before(s, x, y) ==> Before(s + [z], x, y)
    ensures x in s && z !in s ==> Before(s + [z], x, z)
  {
    if Before(s, x, y) {
      var a :| 0 <= a < |s| && s[a] == x && y !in s[..a + 1];
      assert (s + [z])[..a + 1] == s[..a + 1];
    }
    if x in s && z !in s {
      var a :| 0 <= a < |s| && s[a] == x;
      assert (s + [z])[..a + 1] == s[..a + 1];
    }
  }

  /** An id has an entry when some row shows it. */
  lemma EntryIsSeen(axis: seq<Entry>, rows: seq<AxisRow>, id: nat)
    requires IsAxis(axis, rows)
    ensures HasEntry(axis, id) <==> id in Ids(rows)
  {
    hide EntriesFirstSeen, ItemsFirstSeen;
    if HasEntry(axis, id) {
      var i :| 0 <= i < |axis| && axis[i].id == id;
      assert Lists(axis, id, axis[i].items[0]);
      var a :| 0 <= a < |rows| && rows[a] == AxisRow(id, axis[i].items[0]);
      assert Ids(rows)[a] == id;
    }
    if id in Ids(rows) {
      var a :| 0 <= a < |rows| && Ids(rows)[a] == id;
      assert AxisRow(id, rows[a].item) in rows;
      assert Lists(axis, id, rows[a].item);
    }
  }

  lemma AddedEntriesFirstSeen(axis: seq<Entry>, rows: seq<AxisRow>, id: nat, item: nat)
    requires IsAxis(axis, rows)
    ensures EntriesFirstSeen(Added(axis, id, item), rows + [AxisRow(id, item)])
  {
    hide ItemsFirstSeen, Lists, Before, HasEntry;
    var after, ids := Added(axis, id, item), Ids(rows);
    assert Ids(rows + [AxisRow(id, item)]) == ids + [id];
    forall i, j | 0 <= i < j < |after| ensures Before(ids + [id], after[i].id, after[j].id) {
      EntryIsSeen(axis, rows, id);
      EntryIsSeen(axis, rows, axis[i].id) by { assert i < |axis|; }
      assert HasEntry(axis, axis[i].id) by { EntryAt(axis, i); }
      BeforeGrows(ids, axis[i].id, after[j].id, id);
    }
  }

  lemma EntryAt(axis: seq<Entry>, i: nat)
    requires i < |axis|
    ensures HasEntry(axis, axis[i].id)
  {
  }

  lemma AddedItemsFirstSeen(axis: seq<Entry>, rows: seq<AxisRow>, id: nat, item: nat)
    requires IsAxis(axis, rows)
    ensures forall i :: 0 <= i < |Added(axis, id, item)| ==>
      ItemsFirstSeen(Added(axis, id, item)[i], rows + [AxisRow(id, item)])
  {
    hide EntriesFirstSeen, Before, HasEntry;
    var after, row := Added(axis, id, item), AxisRow(id, item);
    forall i | 0 <= i < |after| ensures ItemsFirstSeen(after[i], rows + [row]) {
      forall a, b | 0 <= a < b < |after[i].items|
        ensures Before(rows + [row], AxisRow(after[i].id, after[i].items[a]), AxisRow(after[i].id, after[i].items[b]))
      {
        var x, y := AxisRow(after[i].id, after[i].items[a]), AxisRow(after[i].id, after[i].items[b]);
        assert ItemsFirstSeen(axis[i], rows);
        assert Lists(axis, x.id, x.item);
        BeforeGrows(rows, x, y, row);
      }
    }
  }

  lemma AddedLists(axis: seq<Entry>, id: nat, item: nat, i: nat, t: nat)
    requires DistinctIds(axis)
    ensures Lists(Added(axis, id, item), i, t) <==> Lists(axis, i, t) || (i == id && t == item)
  {
    hide HasEntry;
    var k, after := IndexOfEntry(axis, id), Added(axis, id, item);
    if Lists(axis, i, t) {
      var n :| 0 <= n < |axis| && axis[n].id == i && t in axis[n].items;
      assert after[n].id == i && t in after[n].items;
    }
    if i == id && t == item {
      assert after[k].id == id && item in after[k].items;
    }
    if Lists(after, i, t) && !(i == id && t == item) {
      var n :| 0 <= n < |after| && after[n].id == i && t in after[n].items;
      assert n < |axis| && axis[n].id == i && t in axis[n].items;
    }
  }

  /** The builder's index and seen-sets belong to its output. */
  ghost predicate Indexes(byID: map<nat, nat>, seen: map<nat, set<nat>>, out: seq<Entry>) {
    DistinctIds(out)
    && (forall id :: id in byID <==> HasEntry(out, id))
    && (forall id :: id in seen <==> HasEntry(out, id))
    && forall i :: 0 <= i < |out| ==> IndexesEntry(byID, seen, out[i], i)
  }

  predicate IndexesEntry(byID: map<nat, nat>, seen: map<nat, set<nat>>, entry: Entry, i: nat) {
    entry.id in byID && byID[entry.id] == i && entry.id in seen && seen[entry.id] == set item | item in entry.items
  }

  lemma IndexNewEntry(byID: map<nat, nat>, seen: map<nat, set<nat>>, out: seq<Entry>, id: nat)
    requires Indexes(byID, seen, out) && !HasEntry(out, id)
    ensures Indexes(byID[id := |out|], seen[id := {}], out + [Entry(id, [])])
  {
    var next := out + [Entry(id, [])];
    forall x ensures HasEntry(next, x) <==> HasEntry(out, x) || x == id {
      if HasEntry(out, x) {
        var i :| 0 <= i < |out| && out[i].id == x;
        assert next[i].id == x;
      }
      assert next[|out|].id == id;
    }
    forall i | 0 <= i < |next| ensures IndexesEntry(byID[id := |out|], seen[id := {}], next[i], i) {
      assert i < |out| ==> IndexesEntry(byID, seen, out[i], i);
    }
  }

  lemma IndexNewItem(byID: map<nat, nat>, seen: map<nat, set<nat>>, out: seq<Entry>, k: nat, item: nat)
    requires Indexes(byID, seen, out) && k < |out|
    ensures IndexesEntry(byID, seen, out[k], k)
    ensures Indexes(byID, seen[out[k].id := seen[out[k].id] + {item}], out[k := Entry(out[k].id, out[k].items + [item])])
  {
    var next := out[k := Entry(out[k].id, out[k].items + [item])];
    assert IndexesEntry(byID, seen, out[k], k);
    forall x ensures HasEntry(next, x) <==> HasEntry(out, x) {
      if HasEntry(out, x) {
        var i :| 0 <= i < |out| && out[i].id == x;
        assert next[i].id == x;
      }
      if HasEntry(next, x) {
        var i :| 0 <= i < |next| && next[i].id == x;
        assert out[i].id == x;
      }
    }
    var grown := seen[out[k].id := seen[out[k].id] + {item}];
    forall i | 0 <= i < |next| ensures IndexesEntry(byID, grown, next[i], i) {
      assert IndexesEntry(byID, seen, out[i], i);
      assert i != k ==> out[i].id != out[k].id;
    }
  }

  lemma IndexedPosition(byID: map<nat, nat>, seen: map<nat, set<nat>>, out: seq<Entry>, id: nat)
    requires Indexes(byID, seen, out)
    ensures id in byID <==> HasEntry(out, id)
    ensures id in byID ==> id in seen && byID[id] == IndexOfEntry(out, id) < |out| && out[byID[id]].id == id
    ensures id in byID ==> forall item :: item in seen[id] <==> item in out[byID[id]].items
  {
    hide HasEntry;
    var k := IndexOfEntry(out, id);
    if k < |out| {
      assert IndexesEntry(byID, seen, out[k], k);
    }
  }

  lemma WithEntryPosition(axis: seq<Entry>, id: nat)
    requires DistinctIds(axis)
    ensures IndexOfEntry(WithEntry(axis, id), id) == IndexOfEntry(axis, id) < |WithEntry(axis, id)|
    ensures HasEntry(WithEntry(axis, id), id)
  {
    var next := WithEntry(axis, id);
    if !HasEntry(axis, id) {
      assert next[|axis|].id == id;
      assert next[..|axis|] == axis;
    }
  }

  /** groupBuilder and seriesBuilder, which differ in their labels only. */
  class AxisBuilder {
    var byID: map<nat, nat>
    var out: seq<Entry>
    var seen: map<nat, set<nat>>
    ghost var rows: seq<AxisRow>

    ghost predicate Valid()
      reads this
    {
      IsAxis(out, rows) && Indexes(byID, seen, out)
    }

    constructor ()
      ensures Valid() && rows == [] && out == []
    {
      byID, out, seen, rows := map[], [], map[], [];
    }

    method AddEntry(id: nat)
      requires Indexes(byID, seen, out)
      modifies this`byID, this`out, this`seen
      ensures Indexes(byID, seen, out) && out == WithEntry(old(out), id)
    {
      hide Indexes, HasEntry;
      IndexedPosition(byID, seen, out, id);
      if id !in byID {
        IndexNewEntry(byID, seen, out, id);
        byID, seen := byID[id := |out|], seen[id := {}];
        out := out + [Entry(id, [])];
      }
    }

    method AddItem(id: nat, item: nat)
      requires Indexes(byID, seen, out) && HasEntry(out, id)
      modifies this`out, this`seen
      ensures Indexes(byID, seen, out) && out == WithItem(old(out), IndexOfEntry(old(out), id), item)
    {
      hide Indexes, HasEntry;
      IndexedPosition(byID, seen, out, id);
      var index := byID[id];
      if item !in seen[id] {
        IndexNewItem(byID, seen, out, index, item);
        seen := seen[id := seen[id] + {item}];
        out := out[index := Entry(id, out[index].items + [item])];
      }
    }

    method Add(id: nat, item: nat)
      requires Valid()
      modifies this
      ensures Valid() && rows == old(rows) + [AxisRow(id, item)]
      ensures out == Added(old(out), id, item)
    {
      hide Indexes, IsAxis, HasEntry, WithEntry, WithItem;
      AddedIsAxis(out, rows, id, item);
      WithEntryPosition(out, id) by {
        AxisIsDistinct(out, rows);
      }
      AddEntry(id);
      AddItem(id, item);
      rows := rows + [AxisRow(id, item)];
    }
  }

  lemma AxisIsDistinct(axis: seq<Entry>, rows: seq<AxisRow>)
    requires IsAxis(axis, rows)
    ensures DistinctIds(axis)
  {
  }

  /** Rows of the roster query, and of the columns query. */
  ghost predicate RosterRows(db: Db, center: nat, term: nat, rows: seq<AxisRow>) {
    forall g, u :: AxisRow(g, u) in rows <==> InRoster(db, center, term, g, u)
  }

  ghost predicate ColumnRows(db: Db, center: nat, term: nat, rows: seq<AxisRow>) {
    forall s, sp :: AxisRow(s, sp) in rows <==> InColumns(db, center, term, s, sp)
  }

  method BuildAxis(rows: seq<AxisRow>) returns (axis: seq<Entry>)
    ensures IsAxis(axis, rows)
  {
    hide IsAxis, Indexes, Added;
    var b := new AxisBuilder();
    for i := 0 to |rows|
      invariant fresh(b) && b.Valid() && b.rows == rows[..i]
    {
      b.Add(rows[i].id, rows[i].item);
      assert rows[..i + 1] == rows[..i] + [AxisRow(rows[i].id, rows[i].item)];
    }
    assert rows[..|rows|] == rows;
    axis := b.out;
  }

  datatype Response = Response(groups: seq<Entry>, series: seq<Entry>, cells: map<string, Cell>)

  /** buildCenterGridResponse. */
  method BuildResponse(roster: seq<AxisRow>, columns: seq<AxisRow>, cellRows: seq<CellRow>) returns (r: Response)
    ensures IsAxis(r.groups, roster) && IsAxis(r.series, columns) && r.cells == CellsOf(cellRows)
  {
    hide *;
    var groups := BuildAxis(roster);
    var series := BuildAxis(columns);
    var cells := BuildCells(cellRows);
    r := Response(groups, series, cells);
  }

  /** A row of the cross-product query, read off a response. */
  ghost predicate Shows(r: Response, row: CrossRow) {
    Lists(r.groups, row.group, row.student) && Lists(r.series, row.series, row.subproblem)
    && LookUp(r.cells, row.student, row.subproblem) == row.cell
  }

  /** The whole response denotes exactly the rows of the cross-product query. */
  lemma ResponseDenotesCross(db: Db, center: nat, term: nat, roster: seq<AxisRow>, columns: seq<AxisRow>,
                             cellRows: seq<CellRow>, r: Response, row: CrossRow)
    requires db.Valid() && RosterRows(db, center, term, roster) && ColumnRows(db, center, term, columns)
    requires TermRows(db, center, term, cellRows)
    requires IsAxis(r.groups, roster) && IsAxis(r.series, columns) && r.cells == CellsOf(cellRows)
    ensures Shows(r, row) <==> InCross(db, center, term, row)
  {
    TermCells(db, center, term, cellRows);
    SparseDenotesCross(db, center, term, cellRows, r.cells, row);
    hide InCross, InRoster, InColumns, CellsOf, Maps, Lists, LookUp;
  }

  // ---- the dense pivot ----

  /** The last position of a column. */
  function ColumnIndex(columns: seq<nat>, sp: nat): (k: Option<nat>)
    ensures k.Some? ==> k.value < |columns| && columns[k.value] == sp
    ensures k.None? <==> sp !in columns
  {
    if columns == [] then None
    else if columns[|columns| - 1] == sp then Some(|columns| - 1)
    else
      assert columns == columns[..|columns| - 1] + [columns[|columns| - 1]];
      ColumnIndex(columns[..|columns| - 1], sp)
  }

  /** A student's row of the matrix; slots no row has filled yet are None. */
  datatype GridStudent = GridStudent(student: nat, cells: seq<Option<Cell>>)

  function StudentIndex(students: seq<GridStudent>, student: nat): (k: nat)
    ensures k <= |students| && (k < |students| ==> students[k].student == student)
    ensures forall i :: 0 <= i < k ==> students[i].student != student
  {
    if students == [] then 0
    else
      var k := StudentIndex(students[..|students| - 1], student);
      assert forall i :: 0 <= i < |students| - 1 ==> students[..|students| - 1][i] == students[i];
      if k < |students| - 1 then k
      else if students[|students| - 1].student == student then |students| - 1 else |students|
  }

  function BlankStudent(student: nat, width: nat): (g: GridStudent)
    ensures g.student == student && |g.cells| == width && forall j :: 0 <= j < width ==> g.cells[j].None?
  {
    GridStudent(student, seq(width, _ => None))
  }

  function WithStudent(students: seq<GridStudent>, student: nat, width: nat): seq<GridStudent> {
    if StudentIndex(students, student) < |students| then students else students + [BlankStudent(student, width)]
  }

  function WithCell(students: seq<GridStudent>, k: nat, column: nat, cell: Cell): seq<GridStudent>
    requires k < |students| && column < |students[k].cells|
  {
    students[k := students[k].(cells := students[k].cells[column := Some(cell)])]
  }

  predicate Rectangular(students: seq<GridStudent>, width: nat) {
    forall i :: 0 <= i < |students| ==> |students[i].cells| == width
  }

  /** The matrix after one more row. */
  function PlaceRow(students: seq<GridStudent>, row: DenseRow, columns: seq<nat>): (r: seq<GridStudent>)
    requires Rectangular(students, |columns|)
    ensures Rectangular(r, |columns|)
  {
    var out := WithStudent(students, row.student, |columns|);
    var column := ColumnIndex(columns, row.subproblem);
    if column.None? then out
    else WithCell(out, StudentIndex(students, row.student), column.value, row.cell)
  }

  function Pivot(rows: seq<DenseRow>, columns: seq<nat>): (students: seq<GridStudent>)
    ensures Rectangular(students, |columns|)
  {
    if rows == [] then [] else PlaceRow(Pivot(rows[..|rows| - 1], columns), rows[|rows| - 1], columns)
  }

  function Subproblems(rows: seq<DenseRow>): seq<nat> {
    seq(|rows|, i requires 0 <= i < |rows| => rows[i].subproblem)
  }

  /** Each subproblem of the rows once, in the order in which the rows first show them. */
  ghost predicate AreColumns(columns: seq<nat>, rows: seq<DenseRow>) {
    Distinct(columns) && (forall sp :: sp in columns <==> exists r :: r in rows && r.subproblem == sp)
    && FirstSeen(columns, Subproblems(rows))
  }

  ghost predicate FirstSeen(columns: seq<nat>, shown: seq<nat>) {
    forall i, j :: 0 <= i < j < |columns| ==> Before(shown, columns[i], columns[j])
  }

  lemma FirstSeenNext(columns: seq<nat>, shown: seq<nat>, sp: nat)
    requires FirstSeen(columns, shown) && forall c :: c in columns <==> c in shown
    ensures FirstSeen(if sp in columns then columns else columns + [sp], shown + [sp])
  {
    hide Before;
    var next := if sp in columns then columns else columns + [sp];
    forall i, j | 0 <= i < j < |next| ensures Before(shown + [sp], next[i], next[j]) {
      assert next[i] == columns[i] && columns[i] in columns;
      BeforeGrows(shown, next[i], next[j], sp);
    }
  }

  lemma ShownByRows(rows: seq<DenseRow>, sp: nat)
    ensures sp in Subproblems(rows) <==> exists r :: r in rows && r.subproblem == sp
  {
    if sp in Subproblems(rows) {
      var i :| 0 <= i < |rows| && Subproblems(rows)[i] == sp;
      assert rows[i] in rows;
    }
    if exists r :: r in rows && r.subproblem == sp {
      var r :| r in rows && r.subproblem == sp;
      var i :| 0 <= i < |rows| && rows[i] == r;
      assert Subproblems(rows)[i] == sp;
    }
  }

  /** buildGridColumns: each subproblem of the rows once, in first-seen order. */
  method BuildGridColumns(rows: seq<DenseRow>) returns (columns: seq<nat>)
    ensures AreColumns(columns, rows)
  {
    hide FirstSeen;
    columns := [];
    var seen: set<nat> := {};
    NothingFirst();
    for i := 0 to |rows|
      invariant Distinct(columns) && (forall sp :: sp in columns <==> sp in seen)
      invariant forall sp :: sp in seen <==> exists r :: r in rows[..i] && r.subproblem == sp
      invariant FirstSeen(columns, Subproblems(rows[..i]))
    {
      assert rows[..i + 1] == rows[..i] + [rows[i]];
      assert Subproblems(rows[..i + 1]) == Subproblems(rows[..i]) + [rows[i].subproblem];
      forall sp ensures sp in columns <==> sp in Subproblems(rows[..i]) {
        ShownByRows(rows[..i], sp);
      }
      FirstSeenNext(columns, Subproblems(rows[..i]), rows[i].subproblem);
      if rows[i].subproblem in seen {
        continue;
      }
      seen := seen + {rows[i].subproblem};
      columns := columns + [rows[i].subproblem];
    }
    assert rows[..|rows|] == rows;
  }

  lemma NothingFirst()
    ensures FirstSeen([], Subproblems([]))
  {
  }

  ghost predicate IndexesColumns(colIndex: map<nat, nat>, columns: seq<nat>) {
    forall sp :: (if sp in colIndex then Some(colIndex[sp]) else None) == ColumnIndex(columns, sp)
  }

  ghost predicate IndexesStudents(index: map<nat, nat>, students: seq<GridStudent>) {
    forall u :: IndexesStudent(index, students, u)
  }

  predicate IndexesStudent(index: map<nat, nat>, students: seq<GridStudent>, u: nat) {
    if u in index then index[u] == StudentIndex(students, u) < |students| else StudentIndex(students, u) == |students|
  }

  method IndexColumns(columns: seq<nat>) returns (colIndex: map<nat, nat>)
    ensures IndexesColumns(colIndex, columns)
  {
    colIndex := map[];
    for i := 0 to |columns|
      invariant IndexesColumns(colIndex, columns[..i])
    {
      assert columns[..i + 1][..i] == columns[..i];
      colIndex := colIndex[columns[i] := i];
    }
    assert columns[..|columns|] == columns;
  }

  lemma StudentIndexAppend(students: seq<GridStudent>, g: GridStudent, u: nat)
    ensures StudentIndex(students + [g], u) ==
      var k := StudentIndex(students, u);
      if k < |students| then k else if g.student == u then |students| else |students| + 1
  {
    assert (students + [g])[..|students|] == students;
  }

  lemma StudentAppended(index: map<nat, nat>, students: seq<GridStudent>, g: GridStudent)
    requires IndexesStudents(index, students) && StudentIndex(students, g.student) == |students|
    ensures IndexesStudents(index[g.student := |students|], students + [g])
  {
    hide StudentIndex;
    var next, longer := index[g.student := |students|], students + [g];
    forall u ensures IndexesStudent(next, longer, u) {
      assert IndexesStudent(index, students, u);
      StudentIndexAppend(students, g, u);
    }
  }

  lemma StudentReplaced(students: seq<GridStudent>, k: nat, g: GridStudent, u: nat)
    requires k < |students| && students[k].student == g.student
    ensures StudentIndex(students[k := g], u) == StudentIndex(students, u)
  {
    hide StudentIndex;
    var next := students[k := g];
    var a, b := StudentIndex(next, u), StudentIndex(students, u);
    assert forall i :: 0 <= i < |students| ==> next[i].student == students[i].student;
  }

  lemma StudentsReplaced(index: map<nat, nat>, students: seq<GridStudent>, k: nat, g: GridStudent)
    requires IndexesStudents(index, students) && k < |students| && students[k].student == g.student
    ensures IndexesStudents(index, students[k := g])
  {
    hide StudentIndex;
    var next := students[k := g];
    forall u ensures IndexesStudent(index, next, u) {
      assert IndexesStudent(index, students, u);
      StudentReplaced(students, k, g, u);
    }
  }

  lemma NextRow(rows: seq<DenseRow>, columns: seq<nat>, i: nat)
    requires i < |rows|
    ensures Pivot(rows[..i + 1], columns) == PlaceRow(Pivot(rows[..i], columns), rows[i], columns)
  {
    hide PlaceRow;
    assert rows[..i + 1][..i] == rows[..i];
  }

  /** One turn of the loop of buildGridStudents. */
  method AddRow(before: seq<GridStudent>, studentIndex: map<nat, nat>, colIndex: map<nat, nat>, row: DenseRow,
                columns: seq<nat>)
    returns (students: seq<GridStudent>, index: map<nat, nat>)
    requires Rectangular(before, |columns|) && IndexesStudents(studentIndex, before) && IndexesColumns(colIndex, columns)
    ensures students == PlaceRow(before, row, columns) && IndexesStudents(index, students)
  {
    hide StudentIndex, ColumnIndex;
    students, index := before, studentIndex;
    assert IndexesStudent(index, before, row.student);
    StudentIndexAppend(before, BlankStudent(row.student, |columns|), row.student);
    if row.student !in index {
      StudentAppended(index, students, BlankStudent(row.student, |columns|));
      index := index[row.student := |students|];
      students := students + [BlankStudent(row.student, |columns|)];
    }
    if row.subproblem !in colIndex {
      return;
    }
    var at, column := index[row.student], colIndex[row.subproblem];
    var next := students[at].(cells := students[at].cells[column := Some(row.cell)]);
    StudentsReplaced(index, students, at, next);
    students := students[at := next];
  }

  /** buildGridStudents. */
  method BuildGridStudents(rows: seq<DenseRow>, columns: seq<nat>) returns (students: seq<GridStudent>)
    ensures students == Pivot(rows, columns)
  {
    hide *;
    var colIndex := IndexColumns(columns);
    students := [];
    var studentIndex: map<nat, nat> := map[];
    NoStudents(columns);
    for i := 0 to |rows|
      invariant students == Pivot(rows[..i], columns) && IndexesStudents(studentIndex, students)
    {
      NextRow(rows, columns, i);
      students, studentIndex := AddRow(students, studentIndex, colIndex, rows[i], columns);
    }
    assert rows[..|rows|] == rows;
  }

  lemma NoStudents(columns: seq<nat>)
    ensures IndexesStudents(map[], []) && Pivot([], columns) == []
  {
  }

  // ---- what the pivot holds ----

  predicate SameSlot(a: DenseRow, b: DenseRow) {
    a.student == b.student && a.subproblem == b.subproblem
  }

  predicate DistinctSlots(rows: seq<DenseRow>) {
    forall i, j :: 0 <= i < j < |rows| ==> !SameSlot(rows[i], rows[j])
  }

  predicate DistinctStudents(students: seq<GridStudent>) {
    forall i, j :: 0 <= i < j < |students| ==> students[i].student != students[j].student
  }

  /** The matrix shows this row's cell at its student and column. */
  predicate Holds(students: seq<GridStudent>, columns: seq<nat>, row: DenseRow)
    requires Rectangular(students, |columns|)
  {
    var k, j := StudentIndex(students, row.student), ColumnIndex(columns, row.subproblem);
    k < |students| && (j.Some? ==> students[k].cells[j.value] == Some(row.cell))
  }

  lemma PlacedHolds(students: seq<GridStudent>, columns: seq<nat>, row: DenseRow)
    requires Rectangular(students, |columns|)
    ensures Holds(PlaceRow(students, row, columns), columns, row)
  {
    hide StudentIndex, ColumnIndex;
    PlacedIndex(students, columns, row, row.student);
  }

  /** Where a student is after one more row. */
  lemma PlacedIndex(students: seq<GridStudent>, columns: seq<nat>, row: DenseRow, u: nat)
    requires Rectangular(students, |columns|)
    ensures var k := StudentIndex(students, u);
            StudentIndex(PlaceRow(students, row, columns), u) ==
              if k < |students| || u == row.student then k else |PlaceRow(students, row, columns)|
  {
    hide StudentIndex, ColumnIndex;
    StudentIndexAppend(students, BlankStudent(row.student, |columns|), u);
    StudentIndexAppend(students, BlankStudent(row.student, |columns|), row.student);
    var out, column := WithStudent(students, row.student, |columns|), ColumnIndex(columns, row.subproblem);
    if column.Some? {
      var k := StudentIndex(students, row.student);
      StudentReplaced(out, k, out[k].(cells := out[k].cells[column.value := Some(row.cell)]), u);
    }
  }

  lemma PlacedKeeps(students: seq<GridStudent>, columns: seq<nat>, row: DenseRow, other: DenseRow)
    requires Rectangular(students, |columns|) && Holds(students, columns, other) && !SameSlot(row, other)
    ensures Holds(PlaceRow(students, row, columns), columns, other)
  {
    hide StudentIndex, ColumnIndex;
    PlacedIndex(students, columns, row, other.student);
  }

  lemma PlacedStudents(students: seq<GridStudent>, columns: seq<nat>, row: DenseRow)
    requires Rectangular(students, |columns|) && DistinctStudents(students)
    ensures DistinctStudents(PlaceRow(students, row, columns))
    ensures forall i :: 0 <= i < |PlaceRow(students, row, columns)| ==>
      PlaceRow(students, row, columns)[i].student == row.student
      || (i < |students| && PlaceRow(students, row, columns)[i].student == students[i].student)
  {
    hide StudentIndex, ColumnIndex;
  }

  /** The pivot of rows that do not repeat a slot shows every one of them, and only their students, each once. */
  lemma {:induction false} PivotHolds(rows: seq<DenseRow>, columns: seq<nat>)
    requires DistinctSlots(rows)
    ensures DistinctStudents(Pivot(rows, columns))
    ensures forall r :: r in rows ==> Holds(Pivot(rows, columns), columns, r)
    ensures forall i :: 0 <= i < |Pivot(rows, columns)| ==> HasStudent(rows, Pivot(rows, columns)[i].student)
    decreases |rows|
  {
    hide PlaceRow, Holds, SameSlot;
    if rows != [] {
      var front, last := rows[..|rows| - 1], rows[|rows| - 1];
      var before := Pivot(front, columns);
      assert rows == front + [last];
      PivotHolds(front, columns);
      PlacedHolds(before, columns, last);
      PlacedStudents(before, columns, last);
      forall r | r in front ensures Holds(PlaceRow(before, last, columns), columns, r) {
        OtherSlot(rows, r);
        PlacedKeeps(before, columns, last, r);
      }
      forall i | 0 <= i < |Pivot(rows, columns)| ensures HasStudent(rows, Pivot(rows, columns)[i].student) {
        if Pivot(rows, columns)[i].student == last.student {
          assert last in rows;
        } else {
          assert HasStudent(front, before[i].student);
          MoreStudents(front, last, before[i].student);
        }
      }
    }
  }

  ghost predicate HasStudent(rows: seq<DenseRow>, u: nat) {
    exists r :: r in rows && r.student == u
  }

  lemma MoreStudents(rows: seq<DenseRow>, r: DenseRow, u: nat)
    requires HasStudent(rows, u)
    ensures HasStudent(rows + [r], u)
  {
    var q :| q in rows && q.student == u;
    assert q in rows + [r];
  }

  lemma OtherSlot(rows: seq<DenseRow>, r: DenseRow)
    requires DistinctSlots(rows) && rows != [] && r in rows[..|rows| - 1]
    ensures !SameSlot(rows[|rows| - 1], r)
  {
    var i :| 0 <= i < |rows| - 1 && rows[i] == r;
    assert !SameSlot(rows[i], rows[|rows| - 1]);
  }

  lemma DenseRowsAreDistinct(db: Db, series: nat, rows: seq<DenseRow>)
    requires db.Valid() && DenseRows(db, series, rows)
    ensures DistinctSlots(rows)
  {
    hide IsCellAt;
    forall i, j | 0 <= i < j < |rows| ensures !SameSlot(rows[i], rows[j]) {
      assert rows[i] in rows && rows[j] in rows;
      if SameSlot(rows[i], rows[j]) {
        CellAtIsUnique(db, rows[i].student, rows[i].subproblem, rows[i].cell, rows[j].cell);
      }
    }
  }

  lemma SomeCellAt(db: Db, student: nat, sp: nat) returns (cell: Cell)
    ensures IsCellAt(db, student, sp, cell)
  {
    if id :| IsThreadAt(db, id, student, sp) {
      cell := CellOf(id, db.threads[id]);
    } else {
      cell := EMPTY;
    }
  }

  lemma ColumnAt(columns: seq<nat>, j: nat)
    requires Distinct(columns) && j < |columns|
    ensures ColumnIndex(columns, columns[j]) == Some(j)
  {
    assert columns[j] in columns;
  }

  lemma StudentAt(students: seq<GridStudent>, i: nat)
    requires DistinctStudents(students) && i < |students|
    ensures StudentIndex(students, students[i].student) == i
  {
  }

  /** Students and columns of dense rows meet in a dense row. */
  lemma DenseRowAt(db: Db, series: nat, rows: seq<DenseRow>, columns: seq<nat>, u: nat, sp: nat) returns (row: DenseRow)
    requires DenseRows(db, series, rows) && HasStudent(rows, u) && AreColumns(columns, rows) && sp in columns
    ensures row in rows && row.student == u && row.subproblem == sp && IsCellAt(db, u, sp, row.cell)
  {
    hide IsCellAt;
    var a :| a in rows && a.student == u;
    var b :| b in rows && b.subproblem == sp;
    var cell := SomeCellAt(db, u, sp);
    row := DenseRow(u, sp, cell);
    assert InDense(db, series, a) && InDense(db, series, b);
    assert InDense(db, series, row);
  }

  lemma SlotOf(students: seq<GridStudent>, columns: seq<nat>, row: DenseRow, i: nat, j: nat)
    requires Rectangular(students, |columns|) && DistinctStudents(students) && Distinct(columns)
    requires i < |students| && j < |columns| && Holds(students, columns, row)
    requires row.student == students[i].student && row.subproblem == columns[j]
    ensures students[i].cells[j] == Some(row.cell)
  {
    hide StudentIndex, ColumnIndex;
    StudentAt(students, i);
    ColumnAt(columns, j);
  }

  /** Every slot is filled, with the cell of its student and column. */
  lemma SlotIsCell(db: Db, series: nat, rows: seq<DenseRow>, columns: seq<nat>, i: nat, j: nat)
    requires db.Valid() && DenseRows(db, series, rows) && AreColumns(columns, rows)
    requires i < |Pivot(rows, columns)| && j < |columns|
    ensures var g := Pivot(rows, columns)[i];
            |g.cells| == |columns| && g.cells[j].Some? && IsCellAt(db, g.student, columns[j], g.cells[j].value)
    ensures HasStudent(rows, Pivot(rows, columns)[i].student)
  {
    hide *;
    DenseRowsAreDistinct(db, series, rows);
    PivotHolds(rows, columns);
    PivotWidth(rows, columns, i);
    var row := DenseRowAt(db, series, rows, columns, Pivot(rows, columns)[i].student, columns[j]);
    ColumnsAreDistinct(columns, rows);
    SlotOf(Pivot(rows, columns), columns, row, i, j);
  }

  /** Slot (i, j) of a matrix belongs to this student and column. */
  predicate SlotFor(students: seq<GridStudent>, columns: seq<nat>, i: nat, j: nat, u: nat, sp: nat) {
    i < |students| && j < |columns| && students[i].student == u && columns[j] == sp && j < |students[i].cells|
  }

  /** A dense row has its slot. */
  lemma RowHasSlot(db: Db, series: nat, rows: seq<DenseRow>, columns: seq<nat>, r: DenseRow) returns (i: nat, j: nat)
    requires db.Valid() && DenseRows(db, series, rows) && AreColumns(columns, rows) && InDense(db, series, r)
    ensures SlotFor(Pivot(rows, columns), columns, i, j, r.student, r.subproblem)
    ensures Pivot(rows, columns)[i].cells[j] == Some(r.cell)
  {
    DenseRowsAreDistinct(db, series, rows);
    PivotHolds(rows, columns);
    assert r in rows && r.subproblem in columns;
    hide IsCellAt, InDense, StudentIndex, ColumnIndex, Pivot;
    assert Holds(Pivot(rows, columns), columns, r);
    i, j := StudentIndex(Pivot(rows, columns), r.student), ColumnIndex(columns, r.subproblem).value;
  }

  /** The dense matrix of a series is its cross product: a student, a subproblem and a cell are a row of the query
      exactly when the matrix has a slot for them that shows the cell. */
  lemma DenseIsCross(db: Db, series: nat, rows: seq<DenseRow>, columns: seq<nat>, r: DenseRow)
    requires db.Valid() && DenseRows(db, series, rows) && AreColumns(columns, rows)
    ensures InDense(db, series, r) <==>
      exists i: nat, j: nat :: SlotFor(Pivot(rows, columns), columns, i, j, r.student, r.subproblem)
                     && Pivot(rows, columns)[i].cells[j] == Some(r.cell)
  {
    hide Pivot, IsCellAt, InDense;
    if InDense(db, series, r) {
      var i, j := RowHasSlot(db, series, rows, columns, r);
    }
    if i: nat, j: nat :| (SlotFor(Pivot(rows, columns), columns, i, j, r.student, r.subproblem)
                          && Pivot(rows, columns)[i].cells[j] == Some(r.cell)) {
      SlotIsCell(db, series, rows, columns, i, j);
      var row := DenseRowAt(db, series, rows, columns, r.student, r.subproblem);
      CellAtIsUnique(db, r.student, r.subproblem, row.cell, r.cell);
    }
  }

  lemma ColumnsAreDistinct(columns: seq<nat>, rows: seq<DenseRow>)
    requires AreColumns(columns, rows)
    ensures Distinct(columns)
  {
  }

  lemma PivotWidth(rows: seq<DenseRow>, columns: seq<nat>, i: nat)
    requires i < |Pivot(rows, columns)|
    ensures |Pivot(rows, columns)[i].cells| == |columns|
  {
  }

  lemma DenseStudentIsRostered(db: Db, center: nat, term: nat, series: nat, rows: seq<DenseRow>, columns: seq<nat>, u: nat,
                               sp: nat)
    returns (group: nat)
    requires db.Valid() && DenseRows(db, series, rows) && HasStudent(rows, u) && AreColumns(columns, rows) && sp in columns
    requires series in db.series && db.series[series] == Series(center, term)
    ensures InRoster(db, center, term, group, u) && InColumns(db, center, term, series, sp)
  {
    hide IsCellAt;
    var a :| a in rows && a.student == u;
    var b :| b in rows && b.subproblem == sp;
    assert InDense(db, series, a) && InDense(db, series, b);
    var e :| e in db.enrollments && e.student == u && e.group in db.groups && db.groups[e.group].term == term;
    assert e == Enrollment(u, e.group, term);
    group := e.group;
  }

  /** The dense matrix of a series and the sparse cells of its term show the same: the matrix has a slot for exactly
      the rostered students and the columns of the series, and each shows the sparse cell. */
  lemma DenseIsSparse(db: Db, center: nat, term: nat, series: nat, cellRows: seq<CellRow>, rows: seq<DenseRow>,
                      columns: seq<nat>, u: nat, sp: nat)
    requires db.Valid() && TermRows(db, center, term, cellRows) && DenseRows(db, series, rows)
    requires series in db.series && db.series[series] == Series(center, term) && AreColumns(columns, rows)
    ensures (exists i: nat, j: nat :: SlotFor(Pivot(rows, columns), columns, i, j, u, sp)) <==>
      (exists g :: InRoster(db, center, term, g, u)) && InColumns(db, center, term, series, sp)
    ensures forall i: nat, j: nat :: SlotFor(Pivot(rows, columns), columns, i, j, u, sp) ==>
      Pivot(rows, columns)[i].cells[j] == Some(LookUp(CellsOf(cellRows), u, sp))
  {
    hide Pivot, IsCellAt, CellsOf, LookUp, InRoster, InColumns, TermRows, DenseRows, AreColumns;
    forall i: nat, j: nat | SlotFor(Pivot(rows, columns), columns, i, j, u, sp)
      ensures (exists g :: InRoster(db, center, term, g, u)) && InColumns(db, center, term, series, sp)
      ensures Pivot(rows, columns)[i].cells[j] == Some(LookUp(CellsOf(cellRows), u, sp))
    {
      SlotIsSparse(db, center, term, series, cellRows, rows, columns, i, j);
    }
    if (exists g :: InRoster(db, center, term, g, u)) && InColumns(db, center, term, series, sp) {
      var g :| InRoster(db, center, term, g, u);
      var cell := SomeCellAt(db, u, sp);
      RosteredIsDense(db, center, term, series, g, u, sp, cell);
      var i, j := RowHasSlot(db, series, rows, columns, DenseRow(u, sp, cell));
    }
  }

  lemma RosteredIsDense(db: Db, center: nat, term: nat, series: nat, group: nat, u: nat, sp: nat, cell: Cell)
    requires db.Valid() && InRoster(db, center, term, group, u) && InColumns(db, center, term, series, sp)
    requires IsCellAt(db, u, sp, cell)
    ensures InDense(db, series, DenseRow(u, sp, cell))
  {
    hide IsCellAt;
    assert Enrollment(u, group, term) in db.enrollments;
  }

  lemma SlotIsSparse(db: Db, center: nat, term: nat, series: nat, cellRows: seq<CellRow>, rows: seq<DenseRow>,
                     columns: seq<nat>, i: nat, j: nat)
    requires db.Valid() && TermRows(db, center, term, cellRows) && DenseRows(db, series, rows)
    requires series in db.series && db.series[series] == Series(center, term) && AreColumns(columns, rows)
    requires i < |Pivot(rows, columns)| && j < |columns| && j < |Pivot(rows, columns)[i].cells|
    ensures var g := Pivot(rows, columns)[i];
            (exists group :: InRoster(db, center, term, group, g.student)) && InColumns(db, center, term, series, columns[j])
            && g.cells[j] == Some(LookUp(CellsOf(cellRows), g.student, columns[j]))
  {
    hide *;
    SlotIsCell(db, series, rows, columns, i, j);
    TermCells(db, center, term, cellRows);
    var u, sp := Pivot(rows, columns)[i].student, columns[j];
    var group := DenseStudentIsRostered(db, center, term, series, rows, columns, u, sp);
    LookUpIsCell(db, center, term, cellRows, CellsOf(cellRows), group, u, series, sp);
    CellAtIsUnique(db, u, sp, LookUp(CellsOf(cellRows), u, sp), Pivot(rows, columns)[i].cells[j].value);
  }
}
