/** A worksheet as the Sheets API returns it: rows of cells, trailing blanks left out. */
module SheetGrid {
  import opened Prelude
  import opened SheetText
  import opened SheetAddress

  type Sheet = seq<seq<string>>

  /** The cell at a zero-based position; blank outside what the API returned. */
  function Cell(v: Sheet, row: nat, column: nat): string {
    if row < |v| && column < |v[row]| then v[row][column] else ""
  }

  /** Two readings of the same cells: they may differ in trailing blanks only. */
  ghost predicate SameCells(v: Sheet, w: Sheet) {
    forall r: nat, c: nat :: Cell(v, r, c) == Cell(w, r, c)
  }

  predicate Within(r: Rect, row: nat, column: nat) {
    r.top <= row <= r.bottom && r.left <= column <= r.right
  }

  predicate Fits(r: Rect, values: seq<seq<string>>) {
    r.top <= r.bottom && r.left <= r.right && |values| == r.bottom - r.top + 1
    && forall i :: 0 <= i < |values| ==> |values[i]| == r.right - r.left + 1
  }

  /** w is v with a rectangle overwritten. */
  ghost predicate Wrote(v: Sheet, w: Sheet, r: Rect, values: seq<seq<string>>)
    requires Fits(r, values)
  {
    && (forall row: nat, column: nat :: Within(r, row, column) ==>
          OverwrittenCell(r, values, row, column, Cell(w, row, column)))
    && (forall row: nat, column: nat :: !Within(r, row, column) ==> Cell(w, row, column) == Cell(v, row, column))
  }

  function OverwriteRow(cells: seq<string>, left: nat, values: seq<string>): (r: seq<string>)
    ensures forall c: nat :: c < |r| ==>
      r[c] == if left <= c < left + |values| then values[c - left] else if c < |cells| then cells[c] else ""
    ensures |r| >= |cells| && |r| >= left + |values|
  {
    var width := if |cells| > left + |values| then |cells| else left + |values|;
    seq(width, c requires 0 <= c < width =>
      if left <= c < left + |values| then values[c - left] else if c < |cells| then cells[c] else "")
  }

  function Overwrite(v: Sheet, r: Rect, values: seq<seq<string>>): (w: Sheet)
    requires Fits(r, values)
    ensures |w| >= |v| && |w| >= r.bottom + 1
    ensures forall row: nat :: row < |w| ==> w[row] == NewRow(v, r, values, row)
  {
    var height := if |v| > r.bottom + 1 then |v| else r.bottom + 1;
    seq(height, row requires 0 <= row < height => NewRow(v, r, values, row))
  }

  function NewRow(v: Sheet, r: Rect, values: seq<seq<string>>, row: nat): seq<string>
    requires Fits(r, values)
  {
    var cells := if row < |v| then v[row] else [];
    if r.top <= row <= r.bottom then OverwriteRow(cells, r.left, values[row - r.top]) else cells
  }

  lemma OverwriteWrites(v: Sheet, r: Rect, values: seq<seq<string>>)
    requires Fits(r, values)
    ensures Wrote(v, Overwrite(v, r, values), r, values)
  {
    hide Fits;
    var w := Overwrite(v, r, values);
    forall row: nat, column: nat
      ensures Within(r, row, column) ==> OverwrittenCell(r, values, row, column, Cell(w, row, column))
      ensures !Within(r, row, column) ==> Cell(w, row, column) == Cell(v, row, column)
    {
      WriteCell(v, r, values, row, column);
    }
  }

  predicate OverwrittenCell(r: Rect, values: seq<seq<string>>, row: nat, column: nat, cell: string)
    requires Fits(r, values) && Within(r, row, column)
  {
    cell == values[row - r.top][column - r.left]
  }

  lemma WriteCell(v: Sheet, r: Rect, values: seq<seq<string>>, row: nat, column: nat)
    requires Fits(r, values)
    ensures var w := Overwrite(v, r, values);
            (Within(r, row, column) ==> OverwrittenCell(r, values, row, column, Cell(w, row, column)))
            && (!Within(r, row, column) ==> Cell(w, row, column) == Cell(v, row, column))
  {
    var w := Overwrite(v, r, values);
    if row < |w| {
      assert w[row] == NewRow(v, r, values, row);
      if r.top <= row <= r.bottom {
        assert |values[row - r.top]| == r.right - r.left + 1;
      }
    }
  }

  /** A values.update request: refused unless the range decodes and has the shape of the values. */
  function UpdateValues(v: Sheet, range: string, values: seq<seq<string>>): Option<Sheet> {
    var r := DecodeRange(range);
    if r.Some? && Fits(r.value, values) then Some(Overwrite(v, r.value, values)) else None
  }

  /** Nothing is written from this column on. */
  ghost predicate BlankFrom(v: Sheet, start: nat) {
    forall r: nat, c: nat :: start <= c ==> Cell(v, r, c) == ""
  }

  /** lastUsedColumn. */
  method LastUsedColumn(v: Sheet) returns (last: nat)
    ensures BlankFrom(v, last + 1)
    ensures last > 0 ==> exists r :: 0 <= r < |v| && |v[r]| == last + 1
  {
    last := 0;
    for i := 0 to |v|
      invariant forall r :: 0 <= r < i ==> |v[r]| <= last + 1
      invariant last > 0 ==> exists r :: 0 <= r < i && |v[r]| == last + 1
    {
      if |v[i]| - 1 > last {
        last := |v[i]| - 1;
      }
    }
  }

  // ---- the conduit header ----

  const HEADER := "фамилия имя"

  predicate IsHeaderCell(value: string) {
    NormalizeCell(value) == HEADER
  }

  /** The first header cell in reading order. */
  ghost predicate IsConduitHeader(v: Sheet, row: nat, column: nat) {
    IsHeaderCell(Cell(v, row, column))
    && forall r: nat, c: nat :: r < row || (r == row && c < column) ==> !IsHeaderCell(Cell(v, r, c))
  }

  lemma BlankIsNoHeader()
    ensures !IsHeaderCell("")
  {
  }

  /** findConduitHeader. */
  method FindConduitHeader(v: Sheet) returns (header: Option<(nat, nat)>)
    ensures header.Some? ==> IsConduitHeader(v, header.value.0, header.value.1)
    ensures header.Some? ==> header.value.0 < |v| && header.value.1 < |v[header.value.0]|
    ensures header.None? ==> forall r: nat, c: nat :: !IsHeaderCell(Cell(v, r, c))
  {
    BlankIsNoHeader();
    for row := 0 to |v|
      invariant forall r: nat, c: nat :: r < row ==> !IsHeaderCell(Cell(v, r, c))
    {
      for column := 0 to |v[row]|
        invariant forall c: nat :: c < column ==> !IsHeaderCell(Cell(v, row, c))
      {
        if IsHeaderCell(v[row][column]) {
          return Some((row, column));
        }
      }
    }
    return None;
  }

  lemma HeaderIsUnique(v: Sheet, r: nat, c: nat, r': nat, c': nat)
    requires IsConduitHeader(v, r, c) && IsConduitHeader(v, r', c')
    ensures r == r' && c == c'
  {
  }
}
