/** Merging the columns of one series over several tabs, and creating the series from the result
    (mergeSeriesLayout and createSeriesProblems in internal/googlesheets/structure_sync.go). */
module SeriesMerge {
  import opened Prelude
  import opened SheetText
  import opened SheetHeaders
  import opened SheetAddress
  import opened SeriesScan

  // ---- the order of columns ----

  predicate StringLess(a: string, b: string) {
    b != [] && (a == [] || a[0] < b[0] || (a[0] == b[0] && StringLess(a[1..], b[1..])))
  }

  predicate Less(p: Problem, q: Problem) {
    if p.number != q.number then p.number < q.number else StringLess(p.tag, q.tag)
  }

  /** The texts agree up to position k and differ there, or the first one ends there. */
  predicate FirstDifference(a: string, b: string, k: nat) {
    k <= |a| && k < |b| && a[..k] == b[..k] && (k < |a| ==> a[k] < b[k])
  }

  lemma {:induction false} StringLessExactly(a: string, b: string)
    ensures StringLess(a, b) <==> exists k: nat :: FirstDifference(a, b, k)
    decreases |a|
  {
    if b != [] && a != [] && a[0] == b[0] {
      StringLessExactly(a[1..], b[1..]);
      if k: nat :| FirstDifference(a[1..], b[1..], k) {
        assert a[..k + 1] == [a[0]] + a[1..][..k] && b[..k + 1] == [b[0]] + b[1..][..k];
        assert FirstDifference(a, b, k + 1);
      }
      if k: nat :| FirstDifference(a, b, k) {
        assert k > 0;
        assert a[1..][..k - 1] == a[..k][1..] && b[1..][..k - 1] == b[..k][1..];
        assert FirstDifference(a[1..], b[1..], k - 1);
      }
    } else if b != [] && (a == [] || a[0] < b[0]) {
      assert a[..0] == b[..0];
      assert FirstDifference(a, b, 0);
    } else if a != [] && b != [] {
      forall k: nat ensures !FirstDifference(a, b, k) {
        assert 0 < k <= |a| && k <= |b| ==> a[..k][0] == a[0] && b[..k][0] == b[0];
      }
    }
  }

  /** Columns are ordered by number, the exercise first, and then by label. */
  lemma LessExactly(p: Problem, q: Problem)
    ensures Less(p, q) <==>
      p.number < q.number || (p.number == q.number && exists k: nat :: FirstDifference(p.tag, q.tag, k))
  {
    StringLessExactly(p.tag, q.tag);
  }

  lemma {:induction false} StringOrder(a: string, b: string, c: string)
    ensures !StringLess(a, a)
    ensures StringLess(a, b) && StringLess(b, c) ==> StringLess(a, c)
    ensures StringLess(a, b) || a == b || StringLess(b, a)
    decreases |a| + |b| + |c|
  {
    if a != [] && b != [] && c != [] {
      StringOrder(a[1..], b[1..], c[1..]);
    } else if a != [] && b != [] {
      StringOrder(a[1..], b[1..], c);
    } else if a != [] {
      StringOrder(a[1..], b, c);
    }
    if a != [] && b != [] {
      assert a == [a[0]] + a[1..] && b == [b[0]] + b[1..];
    }
  }

  lemma Order(p: Problem, q: Problem, r: Problem)
    ensures !Less(p, p)
    ensures Less(p, q) && Less(q, r) ==> Less(p, r)
    ensures Less(p, q) || p == q || Less(q, p)
  {
    StringOrder(p.tag, q.tag, r.tag);
  }

  predicate Sorted(s: seq<Problem>) {
    forall i, j :: 0 <= i < j < |s| ==> Less(s[i], s[j])
  }

  function Elements(s: seq<Problem>): set<Problem> {
    set p | p in s
  }

  lemma ElementsAppend(a: seq<Problem>, b: seq<Problem>)
    ensures Elements(a + b) == Elements(a) + Elements(b)
  {
  }

  lemma FirstIsElement(s: seq<Problem>)
    requires s != []
    ensures s[0] in Elements(s)
  {
  }

  /** A strictly sorted list is determined by its elements. */
  lemma {:induction false} SortedIsCanonical(a: seq<Problem>, b: seq<Problem>)
    requires Sorted(a) && Sorted(b) && Elements(a) == Elements(b)
    ensures a == b
    decreases |a|
  {
    if a == [] {
      if b != [] {
        FirstIsElement(b);
      }
    } else {
      forall p ensures p in a <==> p in b {
        assert p in Elements(a) <==> p in Elements(b);
      }
      assert a[0] in b && b != [] && b[0] in a;
      SameFirst(a, b);
      forall p ensures p in a[1..] <==> p in b[1..] {
        TailWithoutFirst(a, p);
        TailWithoutFirst(b, p);
      }
      SortedIsCanonical(a[1..], b[1..]);
      assert a == [a[0]] + a[1..] && b == [b[0]] + b[1..];
    }
  }

  lemma SameFirst(a: seq<Problem>, b: seq<Problem>)
    requires Sorted(a) && Sorted(b) && a != [] && b != [] && a[0] in b && b[0] in a
    ensures a[0] == b[0]
  {
    var i :| 0 <= i < |b| && b[i] == a[0];
    var j :| 0 <= j < |a| && a[j] == b[0];
    if a[0] != b[0] {
      Order(a[0], b[0], a[0]);
      assert false;
    }
  }

  lemma TailWithoutFirst(a: seq<Problem>, p: Problem)
    requires Sorted(a) && a != []
    ensures p in a[1..] <==> p in a && p != a[0]
  {
    Order(a[0], a[0], a[0]);
    assert a == [a[0]] + a[1..];
    if p in a[1..] {
      var i :| 0 <= i < |a| - 1 && a[1..][i] == p;
      assert Less(a[0], a[i + 1]);
    }
  }

  /** Insertion into a sorted list that does not hold the element yet. */
  function Insert(s: seq<Problem>, p: Problem): (r: seq<Problem>)
    ensures Elements(r) == Elements(s) + {p}
  {
    if s == [] then [p]
    else if Less(p, s[0]) then [p] + s
    else
      ElementsAppend([s[0]], Insert(s[1..], p));
      ElementsAppend([s[0]], s[1..]);
      assert s == [s[0]] + s[1..];
      [s[0]] + Insert(s[1..], p)
  }

  lemma {:induction false} InsertSorts(s: seq<Problem>, p: Problem)
    requires Sorted(s) && p !in s
    ensures Sorted(Insert(s, p))
    decreases |s|
  {
    var r := Insert(s, p);
    if s != [] {
      Order(p, s[0], p);
      if Less(p, s[0]) {
        forall i, j | 0 <= i < j < |r| ensures Less(r[i], r[j]) {
          if i == 0 && j > 1 {
            Order(p, s[0], s[j - 1]);
          }
        }
      } else {
        InsertSorts(s[1..], p);
        var rest := Insert(s[1..], p);
        forall j | 0 <= j < |rest| ensures Less(s[0], rest[j]) {
          assert rest[j] in Elements(rest);
          if rest[j] != p {
            assert rest[j] in s[1..];
          }
        }
      }
    }
  }

  /** sort.Slice with the comparison of mergeSeriesLayout, for distinct columns. */
  function Sort(s: seq<Problem>): (r: seq<Problem>)
    ensures Elements(r) == Elements(s)
  {
    if s == [] then []
    else
      assert s == s[..|s| - 1] + [s[|s| - 1]];
      Insert(Sort(s[..|s| - 1]), s[|s| - 1])
  }

  lemma {:induction false} SortSorts(s: seq<Problem>)
    requires Distinct(s)
    ensures Sorted(Sort(s))
    decreases |s|
  {
    if s != [] {
      var front, last := s[..|s| - 1], s[|s| - 1];
      SortSorts(front);
      assert last !in front;
      assert last !in Elements(front) && Elements(Sort(front)) == Elements(front);
      InsertSorts(Sort(front), last);
    }
  }

  /** The sorted, duplicate-free union of two column lists under the left number. */
  ghost predicate IsMerge(left: Series, right: Series, m: Series) {
    m.number == left.number && Sorted(m.problems)
    && Elements(m.problems) == Elements(left.problems) + Elements(right.problems)
  }

  /** mergeSeriesLayout. */
  method MergeSeriesLayout(left: Series, right: Series) returns (merged: Series)
    ensures IsMerge(left, right, merged)
  {
    var both := left.problems + right.problems;
    var seen: set<Problem> := {};
    var problems: seq<Problem> := [];
    for i := 0 to |both|
      invariant seen == Elements(both[..i]) == Elements(problems)
      invariant Distinct(problems)
    {
      assert both[..i + 1] == both[..i] + [both[i]];
      if both[i] !in seen {
        seen := seen + {both[i]};
        problems := problems + [both[i]];
      }
    }
    assert both[..|both|] == both;
    assert Elements(both) == Elements(left.problems) + Elements(right.problems);
    SortSorts(problems);
    merged := Series(left.number, Sort(problems));
  }

  /** Merging does not care about the order of the tabs ... */
  lemma MergeCommutes(a: Series, b: Series, m: Series, m': Series)
    requires a.number == b.number && IsMerge(a, b, m) && IsMerge(b, a, m')
    ensures m == m'
  {
    SortedIsCanonical(m.problems, m'.problems);
  }

  /** ... nor about their grouping ... */
  lemma MergeAssociates(a: Series, b: Series, c: Series, ab: Series, bc: Series, m: Series, m': Series)
    requires IsMerge(a, b, ab) && IsMerge(ab, c, m) && IsMerge(b, c, bc) && IsMerge(a, bc, m')
    ensures m == m'
  {
    SortedIsCanonical(m.problems, m'.problems);
  }

  /** ... and reading a tab that adds nothing new leaves a merged layout alone. */
  lemma MergeAbsorbs(m: Series, part: Series, again: Series)
    requires Sorted(m.problems) && Elements(part.problems) <= Elements(m.problems) && IsMerge(m, part, again)
    ensures again == m
  {
    SortedIsCanonical(again.problems, m.problems);
  }

  // ---- creating the rows ----

  /** VARCHAR(8) and INTEGER columns: what an INSERT accepts. */
  predicate Storable(p: Problem) {
    p.number <= MAX_INT32 && |p.tag| <= 8
  }

  function SeenKey(p: Problem): string {
    Itoa(p.number) + "|" + p.tag
  }

  lemma SeenKeyIsInjective(p: Problem, q: Problem)
    requires SeenKey(p) == SeenKey(q)
    ensures p == q
  {
    NoneInDigits('|', p.number);
    NoneInDigits('|', q.number);
    SplitAt(Itoa(p.number), '|', p.tag, Itoa(q.number), q.tag);
    NumberOfItoa(p.number);
    NumberOfItoa(q.number);
  }

  /** createSeriesProblems on an empty series: the problem and subproblem rows it inserts, in order, or
      a database error. Neither unique constraint, (series, number) or (problem, label), ever fires. */
  method CreateSeriesProblems(columns: seq<Problem>) returns (ok: bool, problems: seq<nat>, subproblems: seq<Problem>)
    ensures ok <==> forall p :: p in columns ==> Storable(p)
    ensures ok <==> forall p :: p in columns ==> p.number < 0x8000_0000 && |p.tag| <= 8
    ensures ok ==> Distinct(subproblems) && Elements(subproblems) == Elements(columns)
    ensures ok ==> Distinct(problems) && (forall n :: n in problems <==> exists p :: p in columns && p.number == n)
  {
    problems, subproblems := [], [];
    var seen: set<string> := {};
    for i := 0 to |columns|
      invariant forall p :: p in columns[..i] ==> Storable(p)
      invariant Distinct(subproblems) && Elements(subproblems) == Elements(columns[..i])
      invariant Distinct(problems)
      invariant forall p :: p in columns[..i] ==> p.number in problems
      invariant forall n :: n in problems ==> exists p :: p in columns[..i] && p.number == n
      invariant seen == set p | p in columns[..i] :: SeenKey(p)
    {
      var column := columns[i];
      assert columns[..i + 1] == columns[..i] + [column];
      assert column in columns[..i + 1];
      if SeenKey(column) in seen {
        var p :| p in columns[..i] && SeenKey(p) == SeenKey(column);
        SeenKeyIsInjective(p, column);
        assert Elements(columns[..i + 1]) == Elements(columns[..i]);
        continue;
      }
      assert column !in columns[..i];
      assert column !in Elements(subproblems);
      seen := seen + {SeenKey(column)};
      if column.number !in problems {
        if column.number > MAX_INT32 {
          assert column in columns && !Storable(column);
          return false, [], [];
        }
        problems := problems + [column.number];
      }
      if |column.tag| > 8 {
        assert column in columns && !Storable(column);
        return false, [], [];
      }
      ElementsAppend(subproblems, [column]);
      ElementsAppend(columns[..i], [column]);
      subproblems := subproblems + [column];
    }
    assert columns[..|columns|] == columns;
    ok := true;
  }
}
