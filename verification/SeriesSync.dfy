/** SyncSeries (internal/googlesheets/structure_sync.go): the union of the series in the database and
    in every linked conduit tab, in one run. */
module SeriesSync {
  import opened Prelude
  import opened SheetText
  import opened SheetHeaders
  import opened SheetAddress
  import opened SheetGrid
  import opened SeriesScan
  import opened SeriesLayout
  import opened SeriesMerge
  import SeriesSections
  import SheetMarkers

  datatype Tab = Tab(sheet: Sheet, writable: bool)

  datatype Result = Result(addedToMy239: nat, addedToSheets: nat, matched: nat, readOnly: bool)

  datatype Outcome = Synced(result: Result) | Failed

  /** The term's series: each number with its columns as localSeriesLayouts lists them. */
  type Database = map<nat, seq<Problem>>

  function Numbers(series: seq<Series>): set<nat> {
    set s | s in series :: s.number
  }

  ghost predicate ReadFrom(tabs: seq<Tab>, layouts: seq<Layout>) {
    |layouts| == |tabs| && forall i :: 0 <= i < |tabs| ==> ParsesTo(tabs[i].sheet, layouts[i])
  }

  /** The series numbers some tab lists. */
  function SheetNumbers(layouts: seq<Layout>): set<nat> {
    set l, s | l in layouts && s in l.series :: s.number
  }

  /** The columns all tabs together list under one series number. */
  function SheetColumns(layouts: seq<Layout>, number: nat): set<Problem> {
    set l, s, p | l in layouts && s in l.series && s.number == number && p in s.problems :: p
  }

  predicate NumberStorable(layouts: seq<Layout>, number: nat) {
    number <= MAX_INT32 && forall p :: p in SheetColumns(layouts, number) ==> Storable(p)
  }

  // ---- reading ----

  /** importLayouts after the given tabs. */
  ghost predicate Imports(layouts: seq<Layout>, imports: map<nat, Series>) {
    imports.Keys == SheetNumbers(layouts)
    && forall n :: n in imports ==> imports[n].number == n && Elements(imports[n].problems) == SheetColumns(layouts, n)
  }

  ghost predicate ImportsWith(layouts: seq<Layout>, series: seq<Series>, imports: map<nat, Series>) {
    imports.Keys == SheetNumbers(layouts) + Numbers(series)
    && forall n :: n in imports ==>
         imports[n].number == n && Elements(imports[n].problems) == SheetColumns(layouts, n) + ColumnsUnder(series, n)
  }

  function ColumnsUnder(series: seq<Series>, number: nat): set<Problem> {
    set s, p | s in series && s.number == number && p in s.problems :: p
  }

  lemma OneMoreSeries(series: seq<Series>, s: Series, n: nat)
    ensures Numbers(series + [s]) == Numbers(series) + {s.number}
    ensures ColumnsUnder(series + [s], n) == ColumnsUnder(series, n) + if s.number == n then Elements(s.problems) else {}
    ensures n !in Numbers(series) ==> ColumnsUnder(series, n) == {}
  {
    forall t ensures t in series + [s] <==> t in series || t == s {}
    assert forall p :: p in ColumnsUnder(series + [s], n) <==>
      p in ColumnsUnder(series, n) || (s.number == n && p in s.problems);
    assert forall m :: m in Numbers(series + [s]) <==> m in Numbers(series) || m == s.number by {
      assert s in series + [s];
    }
  }

  lemma OneMoreLayout(layouts: seq<Layout>, l: Layout, n: nat)
    ensures SheetNumbers(layouts + [l]) == SheetNumbers(layouts) + Numbers(l.series)
    ensures SheetColumns(layouts + [l], n) == SheetColumns(layouts, n) + ColumnsUnder(l.series, n)
    ensures n !in SheetNumbers(layouts) ==> SheetColumns(layouts, n) == {}
  {
    forall k ensures k in layouts + [l] <==> k in layouts || k == l {}
    assert forall p :: p in SheetColumns(layouts + [l], n) <==>
      p in SheetColumns(layouts, n) || p in ColumnsUnder(l.series, n);
    assert forall m :: m in SheetNumbers(layouts + [l]) <==> m in SheetNumbers(layouts) || m in Numbers(l.series);
  }

  lemma ImportsGrow(layouts: seq<Layout>, done: seq<Series>, series: Series, imports: map<nat, Series>, entry: Series)
    requires ImportsWith(layouts, done, imports) && entry.number == series.number
    requires Elements(entry.problems) ==
      Elements(series.problems) + if series.number in imports then Elements(imports[series.number].problems) else {}
    ensures ImportsWith(layouts, done + [series], imports[series.number := entry])
  {
    hide SheetNumbers, SheetColumns, ColumnsUnder, Numbers, Elements;
    var after := imports[series.number := entry];
    OneMoreSeries(done, series, series.number);
    OneMoreLayout(layouts, Layout(0, 0, done), series.number);
    forall n | n in after
      ensures after[n].number == n
      ensures Elements(after[n].problems) == SheetColumns(layouts, n) + ColumnsUnder(done + [series], n)
    {
      OneMoreSeries(done, series, n);
    }
  }

  lemma NoSeriesYet(layouts: seq<Layout>, imports: map<nat, Series>)
    requires Imports(layouts, imports)
    ensures ImportsWith(layouts, [], imports)
  {
    forall n ensures ColumnsUnder([], n) == {} {}
  }

  /** Folds the series of one tab into importLayouts. */
  method ImportTab(ghost layouts: seq<Layout>, layout: Layout, before: map<nat, Series>) returns (imports: map<nat, Series>)
    requires Imports(layouts, before)
    ensures Imports(layouts + [layout], imports)
  {
    hide SheetNumbers, SheetColumns, Elements;
    imports := before;
    NoSeriesYet(layouts, before);
    for i := 0 to |layout.series|
      invariant ImportsWith(layouts, layout.series[..i], imports)
    {
      var series := layout.series[i];
      ghost var done := layout.series[..i];
      assert layout.series[..i + 1] == done + [series];
      if series.number in imports {
        var merged := MergeSeriesLayout(imports[series.number], series);
        ImportsGrow(layouts, done, series, imports, merged);
        imports := imports[series.number := merged];
      } else {
        ImportsGrow(layouts, done, series, imports, series);
        imports := imports[series.number := series];
      }
    }
    assert layout.series[..|layout.series|] == layout.series;
    OneMoreLayout(layouts, layout, 0);
    forall n | n in imports ensures Elements(imports[n].problems) == SheetColumns(layouts + [layout], n) {
      OneMoreLayout(layouts, layout, n);
    }
  }

  ghost predicate Readable(tab: Tab) {
    exists l :: ParsesTo(tab.sheet, l)
  }

  method ReadTabs(tabs: seq<Tab>) returns (ok: bool, layouts: seq<Layout>, imports: map<nat, Series>, readOnly: bool)
    ensures ok <==> forall i :: 0 <= i < |tabs| ==> Readable(tabs[i])
    ensures ok ==> ReadFrom(tabs, layouts) && Imports(layouts, imports)
    ensures ok ==> (readOnly <==> exists t :: t in tabs && !t.writable)
  {
    hide ParsesTo;
    layouts, imports, readOnly := [], map[], false;
    for i := 0 to |tabs|
      invariant |layouts| == i && forall k :: 0 <= k < i ==> ParsesTo(tabs[k].sheet, layouts[k])
      invariant forall k :: 0 <= k < i ==> Readable(tabs[k])
      invariant Imports(layouts, imports)
      invariant readOnly <==> exists t :: t in tabs[..i] && !t.writable
    {
      var layout := ParseSheetSeries(tabs[i].sheet);
      if layout.None? {
        assert !Readable(tabs[i]);
        return false, [], map[], false;
      }
      assert tabs[..i + 1] == tabs[..i] + [tabs[i]];
      if !tabs[i].writable {
        readOnly := true;
      }
      imports := ImportTab(layouts, layout.value, imports);
      layouts := layouts + [layout.value];
    }
    assert tabs[..|tabs|] == tabs;
    ok := true;
  }

  // ---- importing ----

  predicate Ascending(s: seq<nat>) {
    forall i, j :: 0 <= i < j < |s| ==> s[i] < s[j]
  }

  function InsertNumber(s: seq<nat>, n: nat): (r: seq<nat>)
    requires Ascending(s) && n !in s
    ensures Ascending(r) && (forall m :: m in r <==> m in s || m == n)
  {
    if s == [] || n < s[0] then [n] + s
    else
      assert s == [s[0]] + s[1..];
      var rest := InsertNumber(s[1..], n);
      assert forall k :: 0 <= k < |rest| ==> rest[k] in rest;
      [s[0]] + rest
  }

  /** sort.Ints of a set of keys. */
  method SortNumbers(keys: set<nat>) returns (numbers: seq<nat>)
    ensures Ascending(numbers) && forall n :: n in numbers <==> n in keys
  {
    numbers := [];
    var rest := keys;
    while rest != {}
      invariant rest <= keys && Ascending(numbers)
      invariant forall n :: n in numbers <==> n in keys && n !in rest
      decreases |rest|
    {
      var n :| n in rest;
      numbers := InsertNumber(numbers, n);
      rest := rest - {n};
    }
  }

  /** One placeholder series with its columns, or the database error. */
  method CreateSeries(ghost layouts: seq<Layout>, imports: map<nat, Series>, number: nat)
    returns (ok: bool, columns: seq<Problem>)
    requires Imports(layouts, imports) && number in imports
    ensures ok <==> NumberStorable(layouts, number)
    ensures ok ==> IsCreated(layouts, number, columns)
  {
    hide SheetColumns;
    columns := [];
    if number > MAX_INT32 {
      return false, columns;
    }
    var stored, problems, subproblems := CreateSeriesProblems(imports[number].problems);
    forall p ensures p in imports[number].problems <==> p in SheetColumns(layouts, number) {
      assert p in Elements(imports[number].problems) <==> p in SheetColumns(layouts, number);
    }
    if !stored {
      return false, columns;
    }
    SortSorts(subproblems);
    return true, Sort(subproblems);
  }

  /** The database with the series of `done` created where they were missing. */
  ghost predicate Created(db: Database, after: Database, layouts: seq<Layout>, done: seq<nat>) {
    && (forall n :: n in after <==> n in db || n in done)
    && (forall n :: n in db ==> after[n] == db[n])
    && forall n :: n in after && n !in db ==> IsCreated(layouts, n, after[n])
  }

  /** What the transaction stores for a sheet-only series: the columns of all tabs, each once, in order. */
  ghost predicate IsCreated(layouts: seq<Layout>, number: nat, columns: seq<Problem>) {
    NumberStorable(layouts, number) && Sorted(columns) && Elements(columns) == SheetColumns(layouts, number)
  }

  lemma CreateOne(db: Database, after: Database, layouts: seq<Layout>, done: seq<nat>, n: nat, columns: seq<Problem>)
    requires Created(db, after, layouts, done)
    requires n in after || IsCreated(layouts, n, columns)
    ensures Created(db, if n in after then after else after[n := columns], layouts, done + [n])
  {
    hide IsCreated;
  }

  lemma CreatedAll(db: Database, after: Database, layouts: seq<Layout>, done: seq<nat>)
    requires Created(db, after, layouts, done) && forall n :: n in done <==> n in SheetNumbers(layouts)
    ensures after.Keys == db.Keys + SheetNumbers(layouts)
    ensures forall n :: n in db ==> after[n] == db[n]
    ensures forall n :: n in SheetNumbers(layouts) && n !in db ==> IsCreated(layouts, n, after[n])
  {
    hide IsCreated, SheetNumbers;
  }

  /** The transaction that creates the sheet-only series: all of them, or a database error and nothing. */
  method ImportSeries(db: Database, ghost layouts: seq<Layout>, imports: map<nat, Series>)
    returns (ok: bool, after: Database, added: nat)
    requires Imports(layouts, imports)
    ensures ok <==> forall n :: n in SheetNumbers(layouts) && n !in db ==> NumberStorable(layouts, n)
    ensures ok ==> after.Keys == db.Keys + SheetNumbers(layouts) && |after| == |db| + added
    ensures ok ==> forall n :: n in db ==> after[n] == db[n]
    ensures ok ==> forall n :: n in SheetNumbers(layouts) && n !in db ==> IsCreated(layouts, n, after[n])
  {
    after, added := db, 0;
    assert imports.Keys == SheetNumbers(layouts);
    assert Created(db, db, layouts, []);
    assert forall n, c :: IsCreated(layouts, n, c) ==> NumberStorable(layouts, n);
    hide *;
    var numbers := SortNumbers(imports.Keys);
    for i := 0 to |numbers|
      invariant Created(db, after, layouts, numbers[..i])
      invariant |after| == |db| + added
    {
      var number := numbers[i];
      assert numbers[..i + 1] == numbers[..i] + [number];
      assert number in numbers;
      if number !in after {
        var stored, columns := CreateSeries(layouts, imports, number);
        if !stored {
          NotYetCreated(db, after, layouts, numbers[..i], number);
          return false, db, 0;
        }
        CreateOne(db, after, layouts, numbers[..i], number, columns);
        after := after[number := columns];
        added := added + 1;
      } else {
        CreateOne(db, after, layouts, numbers[..i], number, []);
      }
    }
    assert numbers[..|numbers|] == numbers;
    CreatedAll(db, after, layouts, numbers);
    ok := true;
  }

  lemma NotYetCreated(db: Database, after: Database, layouts: seq<Layout>, done: seq<nat>, n: nat)
    requires Created(db, after, layouts, done) && n !in after
    ensures n !in db
  {
  }

  // ---- exporting ----

  /** The series of the database a tab does not list, in ascending order. */
  ghost predicate IsMissing(missing: seq<Series>, db: Database, listed: set<nat>) {
    (forall i, j :: 0 <= i < j < |missing| ==> missing[i].number < missing[j].number)
    && Numbers(missing) == db.Keys - listed
    && forall s :: s in missing ==> s.number in db && s.problems == db[s.number]
  }

  method MissingSeries(db: Database, listed: set<nat>) returns (missing: seq<Series>)
    ensures IsMissing(missing, db, listed)
  {
    var numbers := SortNumbers(db.Keys);
    missing := [];
    for i := 0 to |numbers|
      invariant forall a, b :: 0 <= a < b < |missing| ==> missing[a].number < missing[b].number
      invariant forall s :: s in missing ==> s.number in numbers[..i]
      invariant forall n :: n in numbers[..i] && n !in listed ==> Series(n, db[n]) in missing
      invariant forall s :: s in missing ==> s.number in db && s.problems == db[s.number] && s.number !in listed
    {
      assert numbers[..i + 1] == numbers[..i] + [numbers[i]];
      if numbers[i] !in listed {
        missing := missing + [Series(numbers[i], db[numbers[i]])];
      }
    }
    assert numbers[..|numbers|] == numbers;
    forall n ensures n in Numbers(missing) <==> n in db && n !in listed {
      if n in db && n !in listed {
        assert Series(n, db[n]) in missing;
      }
    }
  }

  /** The two header rows of the given series, and nothing else, written where nothing was. */
  ghost predicate WroteBeyond(v: Sheet, w: Sheet, headerRow: nat, series: seq<Series>) {
    headerRow >= 1 && exists start: nat :: BlankFrom(v, start) && ExportedAt(v, w, headerRow, start, series)
  }

  /** A tab after its export: read-only tabs are untouched, complete ones too; the others have the series
      they missed written beyond everything used, and read as before followed by exactly those series,
      each as it reads back. */
  ghost predicate Exported(before: Tab, after: Tab, layout: Layout, db: Database, appended: seq<Series>) {
    if !before.writable then after == before && appended == []
    else
      IsMissing(appended, db, Numbers(layout.series))
      && (if appended == [] then after == before
          else after.writable && WroteBeyond(before.sheet, after.sheet, layout.headerRow, appended)
               && ParsesTo(after.sheet, layout.(series := layout.series + ReadBackAll(appended))))
  }

  lemma {:induction false} MissingTakesColumns(missing: seq<Series>)
    requires missing != []
    ensures |TitleRows(missing)| > 0
  {
  }

  lemma UpdateLands(v: Sheet, rect: Rect, values: seq<seq<string>>)
    requires Fits(rect, values)
    ensures UpdateValues(v, RangeName(rect), values) == Some(Overwrite(v, rect, values))
    ensures Wrote(v, Overwrite(v, rect, values), rect, values)
  {
    hide RangeName, DecodeRange, Overwrite, Wrote;
    DecodeRangeName(rect);
    OverwriteWrites(v, rect, values);
  }

  /** The request for the two header rows is accepted and lands right of everything used. */
  lemma ExportLands(sheet: Sheet, layout: Layout, start: nat, missing: seq<Series>)
    requires ParsesTo(sheet, layout) && BlankFrom(sheet, start)
    requires |TitleRows(missing)| > 0 && forall i :: 0 <= i < |missing| ==> missing[i].number <= MAX_INT64
    ensures var rect := ExportRect(layout.headerRow, start, missing);
            var updated := UpdateValues(sheet, RangeName(rect), [TitleRows(missing), HeaderRows(missing)]);
            updated.Some? && WroteBeyond(sheet, updated.value, layout.headerRow, missing)
            && ParsesTo(updated.value, layout.(series := layout.series + ReadBackAll(missing)))
  {
    assert layout.headerRow >= 1;
    assert EndsBefore(sheet, layout.headerRow, start);
    hide ParsesTo, TitleRows, HeaderRows, ReadBackAll, UpdateValues, RangeName, Overwrite, Wrote, EndsBefore, BlankFrom;
    var rect := ExportRect(layout.headerRow, start, missing);
    var values := [TitleRows(missing), HeaderRows(missing)];
    UpdateLands(sheet, rect, values);
    AppendThenParse(sheet, Overwrite(sheet, rect, values), layout, start, missing);
  }

  /** The values.update request that writes the missing series right of everything used. */
  method AppendSeries(sheet: Sheet, layout: Layout, missing: seq<Series>) returns (updated: Sheet)
    requires ParsesTo(sheet, layout) && missing != []
    requires forall s :: s in missing ==> s.number <= MAX_INT32
    ensures WroteBeyond(sheet, updated, layout.headerRow, missing)
    ensures ParsesTo(updated, layout.(series := layout.series + ReadBackAll(missing)))
  {
    hide *;
    MissingFits(sheet, layout, missing);
    var last := LastUsedColumn(sheet);
    ExportLands(sheet, layout, last + 1, missing);
    var titles, headers := SeriesExportRows(missing);
    var range := PrintRange(layout.headerRow - 1, last + 1, layout.headerRow, last + |titles|);
    RectOfExport(layout.headerRow, last + 1, missing);
    updated := UpdateValues(sheet, range, [titles, headers]).value;
  }

  lemma MissingFits(sheet: Sheet, layout: Layout, missing: seq<Series>)
    requires ParsesTo(sheet, layout) && missing != []
    requires forall s :: s in missing ==> s.number <= MAX_INT32
    ensures layout.headerRow >= 1 && |TitleRows(missing)| > 0
    ensures forall i :: 0 <= i < |missing| ==> missing[i].number <= MAX_INT64
  {
    MissingTakesColumns(missing);
  }

  lemma RectOfExport(row: nat, start: nat, missing: seq<Series>)
    requires row >= 1 && |TitleRows(missing)| > 0
    ensures ExportRect(row, start, missing) == Rect(row - 1, start, row, start + |TitleRows(missing)| - 1)
  {
  }

  method ExportTab(before: Tab, layout: Layout, db: Database) returns (after: Tab, ghost appended: seq<Series>, added: nat)
    requires ParsesTo(before.sheet, layout) && NumbersFit(db)
    ensures Exported(before, after, layout, db, appended) && added == |appended|
  {
    hide ParsesTo, ReadBackAll, WroteBeyond;
    var sheetNumbers: set<nat> := {};
    for i := 0 to |layout.series|
      invariant sheetNumbers == Numbers(layout.series[..i])
    {
      OneMoreSeries(layout.series[..i], layout.series[i], 0);
      assert layout.series[..i + 1] == layout.series[..i] + [layout.series[i]];
      sheetNumbers := sheetNumbers + {layout.series[i].number};
    }
    assert layout.series[..|layout.series|] == layout.series;
    var missing := MissingSeries(db, sheetNumbers);
    if missing == [] {
      return before, [], 0;
    }
    if !before.writable {
      return before, [], 0;
    }
    var updated := AppendSeries(before.sheet, layout, missing);
    return before.(sheet := updated), missing, |missing|;
  }

  // ---- the whole run ----

  /** INTEGER columns. */
  predicate NumbersFit(db: Database) {
    forall n :: n in db ==> n <= MAX_INT32
  }

  function SeriesOf(layouts: seq<Layout>): (s: seq<seq<Series>>)
    ensures |s| == |layouts| && forall i :: 0 <= i < |s| ==> s[i] == layouts[i].series
  {
    seq(|layouts|, i requires 0 <= i < |layouts| => layouts[i].series)
  }

  /** Every tab lists series of the database only, and the writable ones list them all. */
  ghost predicate Settled(db: Database, tabs: seq<Tab>) {
    forall i :: 0 <= i < |tabs| ==> TabSettled(db, tabs[i])
  }

  ghost predicate TabSettled(db: Database, tab: Tab) {
    exists l :: ParsesTo(tab.sheet, l) && Lists(db, tab, l)
  }

  predicate Lists(db: Database, tab: Tab, l: Layout) {
    Numbers(l.series) <= db.Keys && (tab.writable ==> Numbers(l.series) == db.Keys)
  }

  /** Every series of the database from the tabs: the database after an import. */
  ghost predicate Unioned(before: Database, after: Database, layouts: seq<Layout>) {
    && after.Keys == before.Keys + SheetNumbers(layouts)
    && (forall n :: n in before ==> after[n] == before[n])
    && forall n :: n in SheetNumbers(layouts) && n !in before ==> IsCreated(layouts, n, after[n])
  }

  ghost predicate AllExported(before: seq<Tab>, after: seq<Tab>, layouts: seq<Layout>, db: Database,
                              appended: seq<seq<Series>>)
  {
    |before| == |after| == |layouts| == |appended|
    && forall i :: 0 <= i < |before| ==> Exported(before[i], after[i], layouts[i], db, appended[i])
  }

  lemma NumbersAppend(a: seq<Series>, b: seq<Series>)
    ensures Numbers(a + b) == Numbers(a) + Numbers(b)
  {
    assert forall s :: s in a + b <==> s in a || s in b;
  }

  lemma ReadBackKeepsNumbers(s: seq<Series>)
    ensures Numbers(ReadBackAll(s)) == Numbers(s)
  {
    hide ReadBackProblems;
    var r := ReadBackAll(s);
    forall n ensures n in Numbers(r) <==> n in Numbers(s) {
      if n in Numbers(r) {
        var t :| t in r && t.number == n;
        var i :| 0 <= i < |r| && r[i] == t;
        assert s[i] in s;
      }
      if n in Numbers(s) {
        var t :| t in s && t.number == n;
        var i :| 0 <= i < |s| && s[i] == t;
        assert r[i] in r;
      }
    }
  }

  lemma ExportSettles(before: Tab, after: Tab, l: Layout, db: Database, appended: seq<Series>)
    requires Exported(before, after, l, db, appended) && ParsesTo(before.sheet, l) && Numbers(l.series) <= db.Keys
    ensures TabSettled(db, after)
  {
    hide ParsesTo, ReadBackAll, Numbers, WroteBeyond;
    NumbersAppend(l.series, ReadBackAll(appended));
    ReadBackKeepsNumbers(appended);
    if before.writable && appended != [] {
      assert Lists(db, after, l.(series := l.series + ReadBackAll(appended)));
    } else {
      if before.writable {
        NoNumbers();
      }
      assert Lists(db, after, l);
    }
  }

  lemma FirstNumber(s: seq<Series>)
    requires s != []
    ensures s[0].number in Numbers(s)
  {
  }

  lemma NoNumbers()
    ensures Numbers([]) == {}
  {
  }

  /** Neither the order of the links nor how often a tab is linked matters to what is created. */
  lemma LinkOrderIsIrrelevant(db: Database, a: Database, b: Database, layouts: seq<Layout>, others: seq<Layout>)
    requires Unioned(db, a, layouts) && Unioned(db, b, others)
    requires forall l :: l in layouts <==> l in others
    ensures a == b
  {
    hide Sorted, Elements;
    assert SheetNumbers(layouts) == SheetNumbers(others);
    forall n | n in SheetNumbers(layouts) && n !in db ensures a[n] == b[n] {
      assert SheetColumns(layouts, n) == SheetColumns(others, n);
      SortedIsCanonical(a[n], b[n]);
    }
  }

  /** A run succeeds when every tab has the header and every new series fits the database columns. */
  ghost predicate CanSync(db: Database, tabs: seq<Tab>) {
    exists layouts :: ReadFrom(tabs, layouts) && AllFit(db, layouts)
  }

  ghost predicate AllFit(db: Database, layouts: seq<Layout>) {
    forall n :: n in SheetNumbers(layouts) && n !in db ==> NumberStorable(layouts, n)
  }

  lemma ReadFromIsUnique(tabs: seq<Tab>, layouts: seq<Layout>, others: seq<Layout>)
    requires ReadFrom(tabs, layouts) && ReadFrom(tabs, others)
    ensures layouts == others
  {
    hide ParsesTo;
    forall i | 0 <= i < |tabs| ensures layouts[i] == others[i] {
      LayoutIsUnique(tabs[i].sheet, tabs[i].sheet, layouts[i], others[i]);
    }
  }

  lemma ReadFromReadable(tabs: seq<Tab>, layouts: seq<Layout>)
    requires ReadFrom(tabs, layouts)
    ensures forall i :: 0 <= i < |tabs| ==> Readable(tabs[i])
  {
    hide ParsesTo;
  }

  lemma UnreadableCannotSync(db: Database, tabs: seq<Tab>)
    requires !(forall i :: 0 <= i < |tabs| ==> Readable(tabs[i]))
    ensures !CanSync(db, tabs)
  {
    hide ReadFrom, AllFit;
    if CanSync(db, tabs) {
      var layouts :| ReadFrom(tabs, layouts) && AllFit(db, layouts);
      ReadFromReadable(tabs, layouts);
    }
  }

  lemma UnfitCannotSync(db: Database, tabs: seq<Tab>, layouts: seq<Layout>)
    requires ReadFrom(tabs, layouts) && !AllFit(db, layouts)
    ensures !CanSync(db, tabs)
  {
    hide ReadFrom, AllFit;
    if CanSync(db, tabs) {
      var others :| ReadFrom(tabs, others) && AllFit(db, others);
      ReadFromIsUnique(tabs, layouts, others);
    }
  }

  /** A layout's numbers are among those of all layouts. */
  lemma OneOfTheLayouts(layouts: seq<Layout>, i: nat)
    requires i < |layouts|
    ensures Numbers(layouts[i].series) <= SheetNumbers(layouts)
  {
    assert layouts[i] in layouts;
  }

  lemma SyncSettles(db: Database, after: Database, before: seq<Tab>, tabs: seq<Tab>, layouts: seq<Layout>,
                    appended: seq<seq<Series>>)
    requires ReadFrom(before, layouts) && Unioned(db, after, layouts)
    requires AllExported(before, tabs, layouts, after, appended)
    ensures Settled(after, tabs)
  {
    hide ParsesTo, Exported, SheetNumbers, Numbers, TabSettled, IsCreated;
    forall i | 0 <= i < |tabs| ensures TabSettled(after, tabs[i]) {
      OneOfTheLayouts(layouts, i);
      ExportSettles(before[i], tabs[i], layouts[i], after, appended[i]);
    }
  }

  lemma SettledLists(db: Database, tab: Tab, l: Layout)
    requires TabSettled(db, tab) && ParsesTo(tab.sheet, l)
    ensures Lists(db, tab, l)
  {
    hide ParsesTo, Lists;
    var m :| ParsesTo(tab.sheet, m) && Lists(db, tab, m);
    LayoutIsUnique(tab.sheet, tab.sheet, l, m);
  }

  lemma SettledNumbers(db: Database, tabs: seq<Tab>, layouts: seq<Layout>)
    requires Settled(db, tabs) && ReadFrom(tabs, layouts)
    ensures SheetNumbers(layouts) <= db.Keys
  {
    hide ParsesTo, TabSettled;
    forall n | n in SheetNumbers(layouts) ensures n in db {
      var l, s :| l in layouts && s in l.series && s.number == n;
      var i :| 0 <= i < |layouts| && layouts[i] == l;
      SettledLists(db, tabs[i], l);
      assert n in Numbers(l.series);
    }
  }

  lemma SettledExports(db: Database, before: Tab, after: Tab, l: Layout, appended: seq<Series>)
    requires TabSettled(db, before) && ParsesTo(before.sheet, l) && Exported(before, after, l, db, appended)
    ensures after == before && appended == []
  {
    hide ParsesTo, TabSettled;
    SettledLists(db, before, l);
    if appended != [] {
      FirstNumber(appended);
    }
  }

  /** Settled state is a fixed point: such a run creates nothing and writes nothing. */
  lemma SettledStays(db: Database, after: Database, before: seq<Tab>, tabs: seq<Tab>, layouts: seq<Layout>,
                     appended: seq<seq<Series>>)
    requires Settled(db, before) && ReadFrom(before, layouts) && Unioned(db, after, layouts)
    requires AllExported(before, tabs, layouts, after, appended)
    ensures after == db && tabs == before && TotalLength(appended) == 0
  {
    hide ParsesTo, Exported, SheetNumbers, Numbers, TabSettled, IsCreated;
    SettledNumbers(db, before, layouts);
    assert after == db;
    forall i | 0 <= i < |tabs| ensures tabs[i] == before[i] && appended[i] == [] {
      SettledExports(db, before[i], tabs[i], layouts[i], appended[i]);
    }
    TotalIsZero(appended);
  }

  lemma SettledCanSync(db: Database, tabs: seq<Tab>, layouts: seq<Layout>)
    requires Settled(db, tabs)
    ensures forall i :: 0 <= i < |tabs| ==> Readable(tabs[i])
    ensures ReadFrom(tabs, layouts) ==> AllFit(db, layouts)
  {
    hide ParsesTo, NumberStorable;
    forall i | 0 <= i < |tabs| ensures Readable(tabs[i]) {
      assert TabSettled(db, tabs[i]);
    }
    if ReadFrom(tabs, layouts) {
      SettledNumbers(db, tabs, layouts);
    }
  }

  /** Settled state stays settled however many trailing blanks the next reading returns. */
  lemma SettledSurvivesRereading(db: Database, tabs: seq<Tab>, again: seq<Tab>)
    requires Settled(db, tabs) && |again| == |tabs|
    requires forall i :: 0 <= i < |tabs| ==>
      again[i].writable == tabs[i].writable && SameCells(tabs[i].sheet, again[i].sheet)
    ensures Settled(db, again)
  {
    hide ParsesTo, SameCells;
    forall i | 0 <= i < |tabs| ensures TabSettled(db, again[i]) {
      assert TabSettled(db, tabs[i]);
      var l :| ParsesTo(tabs[i].sheet, l) && Lists(db, tabs[i], l);
      SameCellsParse(tabs[i].sheet, again[i].sheet, l);
      assert Lists(db, again[i], l);
    }
  }

  /** The export loop: one update request per writable tab that misses series. */
  method ExportAll(before: seq<Tab>, layouts: seq<Layout>, db: Database)
    returns (tabs: seq<Tab>, ghost appended: seq<seq<Series>>, added: nat, matched: nat)
    requires ReadFrom(before, layouts) && NumbersFit(db)
    ensures AllExported(before, tabs, layouts, db, appended)
    ensures added == TotalLength(appended) && matched == TotalLength(SeriesOf(layouts))
  {
    hide ParsesTo, Exported;
    tabs, appended, added, matched := [], [], 0, 0;
    for i := 0 to |before|
      invariant |tabs| == |appended| == i
      invariant forall k :: 0 <= k < i ==> Exported(before[k], tabs[k], layouts[k], db, appended[k])
      invariant added == TotalLength(appended) && matched == TotalLength(SeriesOf(layouts)[..i])
    {
      var tab, columns, count := ExportTab(before[i], layouts[i], db);
      AppendLength(appended, columns);
      AppendLength(SeriesOf(layouts)[..i], layouts[i].series);
      assert SeriesOf(layouts)[..i + 1] == SeriesOf(layouts)[..i] + [layouts[i].series];
      tabs, appended, added := tabs + [tab], appended + [columns], added + count;
      matched := matched + |layouts[i].series|;
    }
    assert SeriesOf(layouts)[..|before|] == SeriesOf(layouts);
  }

  lemma UnionFits(db: Database, after: Database, layouts: seq<Layout>)
    requires NumbersFit(db) && Unioned(db, after, layouts)
    ensures NumbersFit(after)
  {
    hide SheetNumbers, SheetColumns, Sorted, Elements;
  }

  lemma Refusals(db: Database, tabs: seq<Tab>, layouts: seq<Layout>)
    ensures (forall i :: 0 <= i < |tabs| ==> Readable(tabs[i])) && ReadFrom(tabs, layouts) ==>
      (CanSync(db, tabs) <==> forall n :: n in SheetNumbers(layouts) && n !in db ==> NumberStorable(layouts, n))
    ensures !(forall i :: 0 <= i < |tabs| ==> Readable(tabs[i])) ==> !CanSync(db, tabs)
    ensures Settled(db, tabs) ==> forall i :: 0 <= i < |tabs| ==> Readable(tabs[i])
    ensures Settled(db, tabs) && ReadFrom(tabs, layouts) ==> CanSync(db, tabs)
  {
    hide ParsesTo, NumberStorable, SheetNumbers, TabSettled, Readable;
    if !(forall i :: 0 <= i < |tabs| ==> Readable(tabs[i])) {
      UnreadableCannotSync(db, tabs);
    } else if ReadFrom(tabs, layouts) && !AllFit(db, layouts) {
      UnfitCannotSync(db, tabs, layouts);
    }
    if Settled(db, tabs) {
      SettledCanSync(db, tabs, layouts);
    }
  }

  lemma Imported(db: Database, after: Database, layouts: seq<Layout>)
    requires NumbersFit(db) && after.Keys == db.Keys + SheetNumbers(layouts)
    requires forall n :: n in db ==> after[n] == db[n]
    requires forall n :: n in SheetNumbers(layouts) && n !in db ==> IsCreated(layouts, n, after[n])
    ensures Unioned(db, after, layouts) && NumbersFit(after)
  {
    hide SheetNumbers, IsCreated;
    assert Unioned(db, after, layouts);
    UnionFits(db, after, layouts);
  }

  /** A series is in the database after a run when it was before or some tab has a header of its number; a new
      one has the columns that some tab says are its own. */
  ghost predicate FromTabs(before: Database, after: Database, tabs: seq<Tab>) {
    (forall n: nat :: n in after <==> n in before || exists tab :: tab in tabs && SeriesSections.TabHeads(tab.sheet, n))
    && forall n, p :: n in after && n !in before ==>
         (p in after[n] <==> exists tab :: tab in tabs && SeriesSections.TabSays(tab.sheet, n, p))
  }

  lemma LayoutsHead(tabs: seq<Tab>, layouts: seq<Layout>, n: nat)
    requires ReadFrom(tabs, layouts)
    ensures n in SheetNumbers(layouts) <==> exists tab :: tab in tabs && SeriesSections.TabHeads(tab.sheet, n)
  {
    hide ParsesTo, SeriesSections.TabHeads;
    forall i | 0 <= i < |tabs|
      ensures (exists s :: s in layouts[i].series && s.number == n) <==> SeriesSections.TabHeads(tabs[i].sheet, n)
    {
      SeriesSections.TabExactly(tabs[i].sheet, layouts[i], n, Problem(0, ""));
    }
    if n in SheetNumbers(layouts) {
      var l, s :| l in layouts && s in l.series && s.number == n;
      var i :| 0 <= i < |layouts| && layouts[i] == l;
      assert tabs[i] in tabs && SeriesSections.TabHeads(tabs[i].sheet, n);
    }
    if exists tab :: tab in tabs && SeriesSections.TabHeads(tab.sheet, n) {
      var tab :| tab in tabs && SeriesSections.TabHeads(tab.sheet, n);
      var i :| 0 <= i < |tabs| && tabs[i] == tab;
      assert layouts[i] in layouts;
    }
  }

  lemma LayoutsSay(tabs: seq<Tab>, layouts: seq<Layout>, n: nat, p: Problem)
    requires ReadFrom(tabs, layouts)
    ensures p in SheetColumns(layouts, n) <==> exists tab :: tab in tabs && SeriesSections.TabSays(tab.sheet, n, p)
  {
    hide ParsesTo, SeriesSections.TabSays;
    forall i | 0 <= i < |tabs|
      ensures SheetMarkers.Listed(layouts[i].series, n, p) <==> SeriesSections.TabSays(tabs[i].sheet, n, p)
    {
      SeriesSections.TabExactly(tabs[i].sheet, layouts[i], n, p);
    }
    if p in SheetColumns(layouts, n) {
      var l, s :| l in layouts && s in l.series && s.number == n && p in s.problems;
      var i :| 0 <= i < |layouts| && layouts[i] == l;
      assert tabs[i] in tabs && SeriesSections.TabSays(tabs[i].sheet, n, p);
    }
    if exists tab :: tab in tabs && SeriesSections.TabSays(tab.sheet, n, p) {
      var tab :| tab in tabs && SeriesSections.TabSays(tab.sheet, n, p);
      var i :| 0 <= i < |tabs| && tabs[i] == tab;
      assert layouts[i] in layouts;
    }
  }

  lemma UnionIsFromTabs(before: Database, after: Database, tabs: seq<Tab>, layouts: seq<Layout>)
    requires ReadFrom(tabs, layouts) && Unioned(before, after, layouts)
    ensures FromTabs(before, after, tabs)
  {
    hide ReadFrom, SheetNumbers, SheetColumns, SeriesSections.TabHeads, SeriesSections.TabSays, Sorted, NumberStorable;
    forall n: nat ensures n in after <==> n in before || exists tab :: tab in tabs && SeriesSections.TabHeads(tab.sheet, n) {
      LayoutsHead(tabs, layouts, n);
    }
    forall n, p | n in after && n !in before
      ensures p in after[n] <==> exists tab :: tab in tabs && SeriesSections.TabSays(tab.sheet, n, p)
    {
      LayoutsSay(tabs, layouts, n, p);
      assert p in Elements(after[n]) <==> p in after[n];
    }
  }

  lemma Unmoved(db: Database, after: Database, before: seq<Tab>, tabs: seq<Tab>, layouts: seq<Layout>,
                appended: seq<seq<Series>>)
    requires ReadFrom(before, layouts) && Unioned(db, after, layouts)
    requires AllExported(before, tabs, layouts, after, appended)
    ensures Settled(db, before) ==> after == db && tabs == before && TotalLength(appended) == 0
  {
    if Settled(db, before) {
      SettledStays(db, after, before, tabs, layouts, appended);
    }
  }

  /** A center's term: its series and the conduit tabs linked to it. */
  class Center {
    var series: Database
    var tabs: seq<Tab>

    constructor (series: Database, tabs: seq<Tab>)
      requires NumbersFit(series)
      ensures this.series == series && this.tabs == tabs
    {
      this.series, this.tabs := series, tabs;
    }

    /** SyncSeries. It fails exactly when a tab has no header or a new series does not fit the columns of
        the database, and then changes nothing. Otherwise the database becomes the union, the tabs are
        exported to, and the result is settled; a run from settled state changes nothing. */
    method SyncSeries() returns (outcome: Outcome, ghost layouts: seq<Layout>, ghost appended: seq<seq<Series>>)
      requires NumbersFit(series)
      modifies this
      ensures NumbersFit(series)
      ensures outcome.Synced? <==> CanSync(old(series), old(tabs))
      ensures outcome.Failed? ==> series == old(series) && tabs == old(tabs)
      ensures outcome.Synced? ==> ReadFrom(old(tabs), layouts) && Unioned(old(series), series, layouts)
      ensures outcome.Synced? ==> FromTabs(old(series), series, old(tabs))
      ensures outcome.Synced? ==> AllExported(old(tabs), tabs, layouts, series, appended)
      ensures outcome.Synced? ==> Settled(series, tabs)
      ensures outcome.Synced? ==> |series| == |old(series)| + outcome.result.addedToMy239
      ensures outcome.Synced? ==> outcome.result.addedToSheets == TotalLength(appended)
      ensures outcome.Synced? ==> outcome.result.matched == TotalLength(SeriesOf(layouts))
      ensures outcome.Synced? ==> (outcome.result.readOnly <==> exists t :: t in old(tabs) && !t.writable)
      ensures Settled(old(series), old(tabs)) ==>
        outcome.Synced? && series == old(series) && tabs == old(tabs)
        && outcome.result.addedToMy239 == 0 && outcome.result.addedToSheets == 0
    {
      hide *;
      var ok, found, imports, readOnly := ReadTabs(tabs);
      layouts, appended := found, [];
      Refusals(series, tabs, found);
      if !ok {
        return Failed, layouts, appended;
      }
      var stored, after, added := ImportSeries(series, found, imports);
      if !stored {
        return Failed, layouts, appended;
      }
      Imported(series, after, found);
      UnionIsFromTabs(series, after, tabs, found);
      var exported, columns, count, matched := ExportAll(tabs, found, after);
      SyncSettles(series, after, tabs, exported, found, columns);
      Unmoved(series, after, tabs, exported, found, columns);
      appended, series, tabs := columns, after, exported;
      outcome := Synced(Result(added, count, matched, readOnly));
    }
  }
}
