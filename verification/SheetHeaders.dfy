/** Problem headers and series headers: the parser of internal/googlesheets/service.go against the
    printer of structure_sync.go. */
module SheetHeaders {
  import opened Prelude
  import opened SheetText

  const MAX_INT32 := 0x7fff_ffff

  /** sheetProblem: problem 0 is the exercise, written «У». */
  datatype Problem = Problem(number: nat, tag: string)

  // ---- problem headers ----

  const PREFIXES := ["упражнение", "упр", "у"]

  predicate HasPrefixFold(s: string, prefix: string) {
    |prefix| <= |s| && forall i :: 0 <= i < |prefix| ==> Lower(s[i]) == prefix[i]
  }

  /** The first exercise prefix that fits, longest first; 0 when none does. */
  function ExercisePrefix(s: string): (k: nat)
    ensures k <= |s|
  {
    if HasPrefixFold(s, PREFIXES[0]) then |PREFIXES[0]|
    else if HasPrefixFold(s, PREFIXES[1]) then |PREFIXES[1]|
    else if HasPrefixFold(s, PREFIXES[2]) then |PREFIXES[2]|
    else 0
  }

  /** parseProblemHeader. The regular expression takes all leading digits, refuses a line break in
      the rest, and strconv.Atoi refuses what does not fit an int64. */
  function ParseProblem(cell: string): Option<Problem> {
    var compact := Compact(cell);
    var p := ExercisePrefix(compact);
    if p > 0 then Some(Problem(0, NormalizeLabel(compact[p..])))
    else
      var k := LeadingDigits(compact);
      if k == 0 || '\n' in compact[k..] || NumberOf(compact[..k]) > MAX_INT64 then None
      else Some(Problem(NumberOf(compact[..k]), NormalizeLabel(compact[k..])))
  }

  /** A header that starts with the word, in any letter case. */
  predicate Opens(compact: string, word: string, k: nat) {
    k == |word| <= |compact| && forall i :: 0 <= i < k ==> Lower(compact[i]) == word[i]
  }

  /** Which cells are problem headers, and of which problem. The exercise is spelled «упражнение», «упр» or «у», the
      longest that fits; any other header starts with its number. */
  lemma ProblemHeaderExactly(cell: string, k: nat)
    ensures var c := Compact(cell);
            (Opens(c, "упражнение", k)
             || (Opens(c, "упр", k) && !Opens(c, "упражнение", 10))
             || (Opens(c, "у", k) && !Opens(c, "упр", 3)) ==>
               ParseProblem(cell) == Some(Problem(0, NormalizeLabel(c[k..]))))
            && (0 < k <= |c| && AllDigits(c[..k]) && (k < |c| ==> !IsDigit(c[k])) ==>
                  ParseProblem(cell) == if '\n' in c[k..] || NumberOf(c[..k]) > MAX_INT64 then None
                                        else Some(Problem(NumberOf(c[..k]), NormalizeLabel(c[k..]))))
            && (c == "" || (Lower(c[0]) != 'у' && !IsDigit(c[0])) ==> ParseProblem(cell) == None)
  {
    var c := Compact(cell);
    assert PREFIXES[0] == "упражнение" && PREFIXES[1] == "упр" && PREFIXES[2] == "у";
    hide Compact, NormalizeLabel, NumberOf;
    LongestSpelled(c);
    if 0 < k <= |c| && AllDigits(c[..k]) && (k < |c| ==> !IsDigit(c[k])) {
      assert c[0] == c[..k][0];
      assert !Opens(c, "у", 1) && !Opens(c, "упр", 3) && !Opens(c, "упражнение", 10);
      LeadingDigitsAre(c, k);
    }
    if c == "" || (Lower(c[0]) != 'у' && !IsDigit(c[0])) {
      assert LeadingDigits(c) == 0;
    }
  }

  lemma LongestSpelled(c: string)
    ensures ExercisePrefix(c) == if Opens(c, "упражнение", 10) then 10 else if Opens(c, "упр", 3) then 3
                                 else if Opens(c, "у", 1) then 1 else 0
    ensures Opens(c, "упражнение", 10) ==> Opens(c, "упр", 3)
    ensures Opens(c, "упр", 3) ==> Opens(c, "у", 1)
    ensures Opens(c, "у", 1) <==> c != "" && Lower(c[0]) == 'у'
  {
    hide Lower;
    var long, short := "упражнение", "упр";
    assert long[0] == short[0] && long[1] == short[1] && long[2] == short[2];
  }

  lemma LeadingDigitsAre(s: string, k: nat)
    requires k <= |s| && AllDigits(s[..k]) && (k < |s| ==> !IsDigit(s[k]))
    ensures LeadingDigits(s) == k
  {
    LeadingDigitsAfter(s[..k], s[k..]);
    assert s == s[..k] + s[k..];
  }

  /** The header seriesExportRows writes for a problem column. */
  function PrintProblem(p: Problem): string {
    if p.number == 0 then "У" + p.tag else Itoa(p.number) + p.tag
  }

  /** Labels whose printed header reads back: already normalised, without a blank, and not
      continuing the problem number with another digit. */
  predicate Exportable(p: Problem) {
    NormalizeLabel(p.tag) == p.tag && ' ' !in p.tag
    && (p.number > 0 && p.tag != "" ==> !IsDigit(p.tag[0]))
  }

  lemma PrintedExercise(tag: string)
    requires NormalizeLabel(tag) == tag && NoSpace(tag)
    ensures ExercisePrefix("У" + tag) == 1
  {
    var s := "У" + tag;
    NormalizeWordLabel(tag);
    assert Lower(s[0]) == PREFIXES[2][0];
    if |s| >= 3 {
      assert s[2] == LabelChar(tag[1]);
      assert Lower(s[2]) != PREFIXES[0][2] && Lower(s[2]) != PREFIXES[1][2];
    }
  }

  lemma PrintedNumber(n: nat, tag: string)
    requires n > 0
    ensures ExercisePrefix(Itoa(n) + tag) == 0
    ensures LeadingDigits(Itoa(n) + tag) == |Itoa(n)| + LeadingDigits(tag)
    ensures forall k :: |Itoa(n)| == k ==> (Itoa(n) + tag)[..k] == Itoa(n) && (Itoa(n) + tag)[k..] == tag
  {
    LeadingDigitsAfter(Itoa(n), tag);
    assert IsDigit((Itoa(n) + tag)[0]);
    assert forall i :: 0 <= i < 3 ==> !IsDigit(PREFIXES[i][0]);
  }

  lemma DigitsAreWords(s: string)
    requires AllDigits(s)
    ensures NoSpace(s)
  {
  }

  lemma ExportableReadsBack(p: Problem)
    requires p.number <= MAX_INT64 && Exportable(p)
    ensures ParseProblem(PrintProblem(p)) == Some(p)
  {
    NormalizedBlanks(p.tag);
    assert NoSpace(p.tag);
    if p.number == 0 {
      var rest := CompactAfter("У", p.tag);
      PrintedExercise(p.tag);
      assert ("У" + p.tag)[1..] == p.tag;
    } else {
      DigitsAreWords(Itoa(p.number));
      var rest := CompactAfter(Itoa(p.number), p.tag);
      PrintedNumber(p.number, p.tag);
      NumberOfItoa(p.number);
    }
  }

  /** Printing then parsing is the identity on exactly the exportable problems. */
  lemma PrintThenParse(p: Problem)
    requires p.number <= MAX_INT64
    ensures ParseProblem(PrintProblem(p)) == Some(p) <==> Exportable(p)
  {
    if Exportable(p) {
      ExportableReadsBack(p);
    } else if ParseProblem(PrintProblem(p)) == Some(p) {
      ParsedLabelIsShort(p);
    }
  }

  /** The label of an accepted header is what follows the prefix or the number, normalised. */
  lemma ParsedTail(cell: string) returns (k: nat)
    requires ParseProblem(cell).Some?
    ensures 0 < k <= |Compact(cell)|
    ensures ParseProblem(cell).value.tag == NormalizeLabel(Compact(cell)[k..])
    ensures k == ExercisePrefix(Compact(cell)) || (ExercisePrefix(Compact(cell)) == 0 && k == LeadingDigits(Compact(cell)))
  {
    var p := ExercisePrefix(Compact(cell));
    k := if p > 0 then p else LeadingDigits(Compact(cell));
  }

  /** A label can only have come back whole if nothing was cut from it. */
  lemma ParsedLabelIsShort(p: Problem)
    requires ParseProblem(PrintProblem(p)) == Some(p)
    ensures Exportable(p)
  {
    var base := if p.number == 0 then "У" else Itoa(p.number);
    if p.number > 0 {
      DigitsAreWords(base);
    }
    var rest := CompactAfter(base, p.tag);
    var k := ParsedTail(PrintProblem(p));
    NormalizedBlanks((base + rest)[k..]);
    if p.number > 0 {
      PrintedNumber(p.number, rest);
    }
    assert k == |base| && |rest| == |p.tag|;
    assert (base + rest)[k..] == rest;
  }

  /** Whatever cell was read as a problem column, its exported header reads back as the same column
      exactly when the label has no inner blank and, after a positive number, no leading digit. */
  lemma HeaderRetraction(cell: string)
    requires ParseProblem(cell).Some?
    ensures var p := ParseProblem(cell).value;
            ParseProblem(PrintProblem(p)) == Some(p)
            <==> ' ' !in p.tag && (p.number > 0 && p.tag != "" ==> !IsDigit(p.tag[0]))
  {
    var p := ParseProblem(cell).value;
    var compact := Compact(cell);
    var k := if ExercisePrefix(compact) > 0 then ExercisePrefix(compact) else LeadingDigits(compact);
    if ' ' !in p.tag {
      NormalizeLabelIsIdempotent(compact[k..]);
    }
    PrintThenParse(p);
  }

  /** Both ways a parsed label can fail to print back, on cells that hold a tab. */
  lemma HeaderRetractionCanFail()
    ensures ParseProblem("Уa\tb") == Some(Problem(0, "a b"))
    ensures ParseProblem("1\t2") == Some(Problem(1, "2"))
    ensures forall p :: p in {Problem(0, "a b"), Problem(1, "2")} ==> ParseProblem(PrintProblem(p)) != Some(p)
  {
    ParseTabbedExercise();
    ParseTabbedNumber();
    PrintThenParse(Problem(0, "a b"));
    PrintThenParse(Problem(1, "2"));
  }

  lemma TwoTabbedLetters()
    ensures NormalizeLabel("a\tb") == "a b"
  {
    FieldsAcross("a", '\t', "b");
    FieldsOfWord("a");
    FieldsOfWord("b");
    assert "a" + ['\t'] + "b" == "a\tb";
    assert Squeeze("a\tb") == "a b";
  }

  lemma ParseTabbedExercise()
    ensures ParseProblem("Уa\tb") == Some(Problem(0, "a b"))
  {
    hide NormalizeLabel;
    var x := "a\tb";
    var rest := CompactAfter("У", x);
    assert "У" + x == "Уa\tb" && ("У" + x)[1..] == x;
    TwoTabbedLetters();
  }

  lemma TabbedDigit()
    ensures NormalizeLabel("\t2") == "2"
  {
    FieldsAcross("", '\t', "2");
    FieldsOfWord("2");
    assert "" + ['\t'] + "2" == "\t2";
    assert Squeeze("\t2") == "2";
  }

  lemma ParseTabbedNumber()
    ensures ParseProblem("1\t2") == Some(Problem(1, "2"))
  {
    hide NormalizeLabel, Compact;
    CompactTabbed();
    var x := "\t2";
    assert "1" + x == "1\t2" && ("1" + x)[1..] == x && ("1" + x)[..1] == "1";
    LeadingDigitsAfter("1", x);
    assert NumberOf("1") == 1;
    TabbedDigit();
  }

  lemma CompactTabbed()
    ensures Compact("1\t2") == "1\t2"
  {
    hide Compact;
    var x := "\t2";
    var rest := CompactAfter("1", x);
    assert "1" + x == "1\t2";
  }

  // ---- series headers ----

  function SkipRegexpSpace(s: string): string {
    if s != [] && IsRegexpSpace(s[0]) then SkipRegexpSpace(s[1..]) else s
  }

  /** `(?i)^серия\s*(\d+)$` on a section title; strconv.Atoi saturates, its error is ignored. */
  function SeriesNumber(section: string): Option<nat> {
    if HasPrefixFold(section, "серия") then
      var digits := SkipRegexpSpace(section[5..]);
      if digits != [] && AllDigits(digits)
      then Some(if NumberOf(digits) > MAX_INT64 then MAX_INT64 else NumberOf(digits))
      else None
    else None
  }

  /** A section is a series header exactly when it is the word «серия» in any letter case, white space, and digits;
      what does not fit an int64 saturates. */
  lemma SeriesNumberExactly(section: string, gap: string, digits: string)
    requires |section| >= 5 && section[5..] == gap + digits && forall i :: 0 <= i < |gap| ==> IsRegexpSpace(gap[i])
    requires digits != "" ==> !IsRegexpSpace(digits[0])
    ensures SeriesNumber(section) ==
      if Opens(section, "серия", 5) && digits != "" && AllDigits(digits)
      then Some(if NumberOf(digits) <= 0x7fff_ffff_ffff_ffff then NumberOf(digits) else 0x7fff_ffff_ffff_ffff)
      else None
  {
    SkipGap(gap, digits);
    hide Lower, NumberOf, AllDigits, SkipRegexpSpace, IsRegexpSpace;
    assert Opens(section, "серия", 5) <==> HasPrefixFold(section, "серия");
  }

  lemma {:induction false} SkipGap(gap: string, rest: string)
    requires forall i :: 0 <= i < |gap| ==> IsRegexpSpace(gap[i])
    requires rest != "" ==> !IsRegexpSpace(rest[0])
    ensures SkipRegexpSpace(gap + rest) == rest
    decreases |gap|
  {
    hide IsRegexpSpace;
    if gap == [] {
      assert gap + rest == rest;
    } else {
      assert (gap + rest)[1..] == gap[1..] + rest;
      SkipGap(gap[1..], rest);
    }
  }

  function PrintSeries(number: nat): string {
    "Серия " + Itoa(number)
  }

  /** A printed series title is its own trimmed form and reads back as its number. */
  lemma SeriesTitleRoundTrip(number: nat)
    requires number <= MAX_INT64
    ensures Trim(PrintSeries(number)) == PrintSeries(number) && SeriesNumber(PrintSeries(number)) == Some(number)
  {
    var s, digits := PrintSeries(number), Itoa(number);
    DigitsAreWords(digits);
    TrimRightShorter(digits);
    assert s[|s| - 1] == digits[|digits| - 1];
    assert s[5..] == " " + digits && (" " + digits)[1..] == digits;
    assert SkipRegexpSpace(digits) == digits;
    NumberOfItoa(number);
  }
}

/** A1 addresses: spreadsheet columns are bijective base 26 (columnName), rows are decimal. */
module SheetAddress {
  import opened Prelude
  import opened SheetText

  function Letter(d: nat): (c: char)
    requires d < 26
    ensures 'A' <= c <= 'Z' && c as int - 'A' as int == d
  {
    ('A' as int + d) as char
  }

  predicate IsLetter(c: char) {
    'A' <= c <= 'Z'
  }

  predicate AllLetters(s: string) {
    forall i :: 0 <= i < |s| ==> IsLetter(s[i])
  }

  function ColumnNameSpec(index: int): (s: string)
    requires index >= -1
    ensures AllLetters(s) && (index >= 0 ==> s != [])
    decreases index + 1
  {
    if index < 0 then "" else ColumnNameSpec(index / 26 - 1) + [Letter(index % 26)]
  }

  /** columnName. */
  method ColumnName(index: nat) returns (name: string)
    ensures name == ColumnNameSpec(index)
  {
    name := "";
    var rest: int := index;
    while rest >= 0
      invariant rest >= -1
      invariant ColumnNameSpec(index) == ColumnNameSpec(rest) + name
    {
      var before := name;
      name := [Letter(rest % 26)] + name;
      assert ColumnNameSpec(rest) + before == ColumnNameSpec(rest / 26 - 1) + name;
      rest := rest / 26 - 1;
    }
    assert ColumnNameSpec(rest) + name == name;
  }

  /** The column a name stands for; -1 for the empty name. */
  function ColumnIndex(name: string): (index: int)
    requires AllLetters(name)
    ensures index >= -1 && (index >= 0 <==> name != [])
  {
    if name == [] then -1
    else 26 * (ColumnIndex(name[..|name| - 1]) + 1) + (name[|name| - 1] as int - 'A' as int)
  }

  /** columnName is injective: the index comes back ... */
  lemma {:induction false} ColumnIndexOfName(index: int)
    requires index >= -1
    ensures ColumnIndex(ColumnNameSpec(index)) == index
    decreases index + 1
  {
    if index >= 0 {
      ColumnIndexOfName(index / 26 - 1);
      var name := ColumnNameSpec(index);
      assert name[..|name| - 1] == ColumnNameSpec(index / 26 - 1);
    }
  }

  /** ... and onto: every string of letters names its index. */
  lemma {:induction false} ColumnNameOfIndex(name: string)
    requires AllLetters(name)
    ensures ColumnNameSpec(ColumnIndex(name)) == name
    decreases |name|
  {
    hide ColumnNameSpec, ColumnIndex, AllLetters;
    if name == [] {
      NoColumnName();
    } else {
      var front := name[..|name| - 1];
      var d := LastLetter(name);
      ColumnNameOfIndex(front);
      ColumnNameStep(ColumnIndex(front) + 1, d);
    }
  }

  lemma NoColumnName()
    ensures ColumnIndex("") == -1 && ColumnNameSpec(-1) == ""
  {
  }

  lemma LastLetter(name: string) returns (d: nat)
    requires AllLetters(name) && name != []
    ensures d < 26 && name == name[..|name| - 1] + [Letter(d)] && AllLetters(name[..|name| - 1])
    ensures ColumnIndex(name[..|name| - 1]) >= -1 && ColumnIndex(name) == 26 * (ColumnIndex(name[..|name| - 1]) + 1) + d
  {
    d := name[|name| - 1] as int - 'A' as int;
  }

  lemma ColumnNameStep(q: nat, d: nat)
    requires d < 26
    ensures ColumnNameSpec(26 * q + d) == ColumnNameSpec(q - 1) + [Letter(d)]
  {
    assert (26 * q + d) / 26 == q && (26 * q + d) % 26 == d;
  }

  /** Shorter names first, equal lengths by the first difference. */
  ghost predicate ShortlexLess(a: string, b: string) {
    |a| < |b| || (|a| == |b| && exists k: nat :: DiffersFirstAt(a, b, k))
  }

  predicate DiffersFirstAt(a: string, b: string, k: nat) {
    k < |a| && k < |b| && a[..k] == b[..k] && a[k] < b[k]
  }

  lemma {:induction false} ShortlexIsSmaller(a: string, b: string)
    requires AllLetters(a) && AllLetters(b) && ShortlexLess(a, b)
    ensures ColumnIndex(a) < ColumnIndex(b)
    decreases |a|
  {
    if a != [] {
      var a', b' := a[..|a| - 1], b[..|b| - 1];
      if |a| == |b| {
        var k: nat :| DiffersFirstAt(a, b, k);
        if k == |a| - 1 {
          assert a' == b';
        } else {
          assert a'[..k] == a[..k] && b'[..k] == b[..k];
          assert DiffersFirstAt(a', b', k);
          ShortlexIsSmaller(a', b');
        }
      } else {
        ShortlexIsSmaller(a', b');
      }
    }
  }

  lemma {:induction false} FirstDifference(a: string, b: string) returns (k: nat)
    requires |a| == |b| && a != b
    ensures k < |a| && a[..k] == b[..k] && a[k] != b[k]
  {
    if a[0] != b[0] {
      k := 0;
    } else {
      assert a == [a[0]] + a[1..] && b == [b[0]] + b[1..];
      k := FirstDifference(a[1..], b[1..]);
      assert a[..k + 1] == [a[0]] + a[1..][..k] && b[..k + 1] == [b[0]] + b[1..][..k];
      k := k + 1;
    }
  }

  /** columnName preserves and reflects order. */
  lemma ColumnNamesAreOrdered(m: nat, n: nat)
    ensures m < n <==> ShortlexLess(ColumnNameSpec(m), ColumnNameSpec(n))
  {
    var a, b := ColumnNameSpec(m), ColumnNameSpec(n);
    ColumnIndexOfName(m);
    ColumnIndexOfName(n);
    if ShortlexLess(a, b) {
      ShortlexIsSmaller(a, b);
    } else if a != b {
      if |a| == |b| {
        var k := FirstDifference(a, b);
        assert DiffersFirstAt(a, b, k) || DiffersFirstAt(b, a, k);
      }
      ShortlexIsSmaller(b, a);
    }
  }

  // ---- cells and ranges ----

  /** The address of a zero-based cell. */
  function CellName(row: nat, column: nat): string {
    ColumnNameSpec(column) + Itoa(row + 1)
  }

  function LetterCount(s: string): (k: nat)
    ensures k <= |s| && AllLetters(s[..k]) && (k < |s| ==> !IsLetter(s[k]))
  {
    if s == [] || !IsLetter(s[0]) then 0 else 1 + LetterCount(s[1..])
  }

  /** Reads `[A-Z]+[1-9][0-9]*` as a zero-based (row, column). */
  function DecodeCell(s: string): Option<(nat, nat)> {
    var k := LetterCount(s);
    if k == 0 || k == |s| || s[k] == '0' || !AllDigits(s[k..]) || NumberOf(s[k..]) == 0 then None
    else Some((NumberOf(s[k..]) - 1, ColumnIndex(s[..k])))
  }

  lemma LetterCountAfter(a: string, b: string)
    requires AllLetters(a) && (b != [] ==> !IsLetter(b[0]))
    ensures LetterCount(a + b) == |a|
  {
    if a == [] {
      assert a + b == b;
    } else {
      assert (a + b)[1..] == a[1..] + b;
      LetterCountAfter(a[1..], b);
    }
  }

  /** Addresses read back, so distinct cells have distinct addresses. */
  lemma DecodeCellName(row: nat, column: nat)
    ensures DecodeCell(CellName(row, column)) == Some((row, column))
  {
    var a, b := ColumnNameSpec(column), Itoa(row + 1);
    LetterCountAfter(a, b);
    assert (a + b)[..|a|] == a && (a + b)[|a|..] == b;
    NumberOfItoa(row + 1);
    ColumnIndexOfName(column);
  }

  /** The closed rectangle of cells from (top, left) to (bottom, right), zero-based. */
  datatype Rect = Rect(top: nat, left: nat, bottom: nat, right: nat)

  function RangeName(r: Rect): string {
    CellName(r.top, r.left) + ":" + CellName(r.bottom, r.right)
  }

  function IndexOf(s: string, c: char): (k: nat)
    ensures k <= |s| && c !in s[..k] && (k < |s| ==> s[k] == c)
  {
    if s == [] || s[0] == c then 0 else 1 + IndexOf(s[1..], c)
  }

  /** The range an update request accepts: two cells around a colon. */
  function DecodeRange(s: string): Option<Rect> {
    var k := IndexOf(s, ':');
    if k == |s| then None
    else
      var first, last := DecodeCell(s[..k]), DecodeCell(s[k + 1..]);
      if first.None? || last.None? then None
      else Some(Rect(first.value.0, first.value.1, last.value.0, last.value.1))
  }

  lemma IndexOfAfter(a: string, c: char, b: string)
    requires c !in a
    ensures IndexOf(a + [c] + b, c) == |a|
  {
    if a != [] {
      assert (a + [c] + b)[1..] == a[1..] + [c] + b;
      IndexOfAfter(a[1..], c, b);
    }
  }

  /** A printed range decodes to exactly its rectangle. */
  lemma DecodeRangeName(r: Rect)
    ensures DecodeRange(RangeName(r)) == Some(r)
  {
    var a, b := CellName(r.top, r.left), CellName(r.bottom, r.right);
    assert forall i :: 0 <= i < |a| ==> IsLetter(a[i]) || IsDigit(a[i]);
    IndexOfAfter(a, ':', b);
    var s := a + ":" + b;
    assert s[..|a|] == a && s[|a| + 1..] == b;
    DecodeCellName(r.top, r.left);
    DecodeCellName(r.bottom, r.right);
  }

  /** A range as both synchronizations spell it. */
  method PrintRange(top: nat, left: nat, bottom: nat, right: nat) returns (range: string)
    ensures range == RangeName(Rect(top, left, bottom, right))
  {
    hide Itoa, ColumnNameSpec;
    var first := ColumnName(left);
    var last := ColumnName(right);
    var from, to := first + Itoa(top + 1), last + Itoa(bottom + 1);
    range := from + ":" + to;
  }

  /** A separator no part before it contains splits a key uniquely. */
  lemma SplitAt(a: string, c: char, x: string, b: string, y: string)
    requires c !in a && c !in b && a + [c] + x == b + [c] + y
    ensures a == b && x == y
  {
    IndexOfAfter(a, c, x);
    IndexOfAfter(b, c, y);
    assert (a + [c] + x)[..|a|] == a && (b + [c] + y)[..|b|] == b;
    assert (a + [c] + x)[|a| + 1..] == x && (b + [c] + y)[|b| + 1..] == y;
  }

  lemma NoneInDigits(c: char, n: nat)
    requires !IsDigit(c)
    ensures c !in Itoa(n)
  {
    assert forall i :: 0 <= i < |Itoa(n)| ==> IsDigit(Itoa(n)[i]);
  }
}
