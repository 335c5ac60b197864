/** Blocks of rows, stored by column: their shape, their slices, and the size estimate of a chunk. */
module Columns {
  import opened Wrappers
  import opened Values
  import Utf8

  const CHUNK_MAX_ROWS := 65_536
  const CHUNK_TARGET_BYTES := 2 * 1024 * 1024

  type Columns = seq<seq<Value>>

  function Rows(columns: Columns): nat {
    if columns == [] then 0 else |columns[0]|
  }

  /** Every column holds as many cells as the first. */
  predicate Rectangular(columns: Columns) {
    forall c :: 0 <= c < |columns| ==> |columns[c]| == Rows(columns)
  }

  /** Rows `lo..hi` of every column. */
  function RowSlice(columns: Columns, lo: nat, hi: nat): (s: Columns)
    requires Rectangular(columns) && lo <= hi <= Rows(columns)
    ensures |s| == |columns| && Rectangular(s)
    ensures columns != [] ==> Rows(s) == hi - lo
  {
    seq(|columns|, c requires 0 <= c < |columns| => columns[c][lo..hi])
  }

  /** The rows of `a`, then those of `b`. */
  function Append(a: Columns, b: Columns): (s: Columns)
    requires |a| == |b|
    ensures |s| == |a| && (a != [] ==> Rows(s) == Rows(a) + Rows(b))
    ensures Rectangular(a) && Rectangular(b) ==> Rectangular(s)
  {
    seq(|a|, c requires 0 <= c < |a| => a[c] + b[c])
  }

  function NoRows(width: nat): (s: Columns)
    ensures |s| == width && Rectangular(s) && Rows(s) == 0
  {
    seq(width, _ => [])
  }

  // ---------------------------------------------------------------- the size estimate

  /** What a cell is taken to weigh when a chunk is measured. */
  function CellWidth(value: Value): nat {
    match value
    case Text(text) => |Utf8.Encode(text)| + 9
    case Json(text) => |Utf8.Encode(text)| + 9
    case Bytes(bytes) => |bytes| + 9
    case Unknown(_, shown, raw) =>
      (if shown.Some? then |Utf8.Encode(shown.value)| else 0) + (if raw.Some? then |raw.value| else 0) + 21
    case Array(items) => 9 + |items| * 16
    case Row(fields) => 9 + |fields| * 16
    case _ => 16
  }

  function ColumnWidth(cells: seq<Value>): nat {
    if cells == [] then 0 else CellWidth(cells[0]) + ColumnWidth(cells[1..])
  }

  /** All cells, summed column by column. */
  function TotalWidth(columns: Columns): nat {
    if columns == [] then 0 else ColumnWidth(columns[0]) + TotalWidth(columns[1..])
  }

  /** One row, summed across the columns. */
  function RowWidth(columns: Columns, row: nat): nat
    requires forall c :: 0 <= c < |columns| ==> row < |columns[c]|
  {
    if columns == [] then 0 else CellWidth(columns[0][row]) + RowWidth(columns[1..], row)
  }

  /** The seal test: at or past either limit. */
  predicate Full(columns: Columns) {
    Rows(columns) >= CHUNK_MAX_ROWS || TotalWidth(columns) >= CHUNK_TARGET_BYTES
  }

  lemma {:induction false} ColumnWidthOfAppend(a: seq<Value>, b: seq<Value>)
    ensures ColumnWidth(a + b) == ColumnWidth(a) + ColumnWidth(b)
  {
    if a == [] {
      assert a + b == b;
    } else {
      assert (a + b)[1..] == a[1..] + b;
      ColumnWidthOfAppend(a[1..], b);
    }
  }

  lemma {:induction false} TotalWidthOfAppend(a: Columns, b: Columns)
    requires |a| == |b|
    ensures TotalWidth(Append(a, b)) == TotalWidth(a) + TotalWidth(b)
  {
    if a != [] {
      ColumnWidthOfAppend(a[0], b[0]);
      assert Append(a, b)[1..] == Append(a[1..], b[1..]);
      TotalWidthOfAppend(a[1..], b[1..]);
    }
  }

  lemma {:induction false} NoRowsHaveNoWidth(columns: Columns)
    requires Rectangular(columns) && Rows(columns) == 0
    ensures TotalWidth(columns) == 0 && columns == NoRows(|columns|)
  {
    if columns != [] {
      assert forall c :: 0 <= c < |columns| ==> columns[c] == [];
      assert forall c :: 0 <= c < |columns[1..]| ==> columns[1..][c] == columns[c + 1];
      NoRowsHaveNoWidth(columns[1..]);
    }
  }

  lemma SliceJoins(columns: Columns, lo: nat, mid: nat, hi: nat)
    requires Rectangular(columns) && lo <= mid <= hi <= Rows(columns)
    ensures Append(RowSlice(columns, lo, mid), RowSlice(columns, mid, hi)) == RowSlice(columns, lo, hi)
    ensures TotalWidth(RowSlice(columns, lo, hi)) == TotalWidth(RowSlice(columns, lo, mid)) + TotalWidth(RowSlice(columns, mid, hi))
  {
    var joined := Append(RowSlice(columns, lo, mid), RowSlice(columns, mid, hi));
    forall c | 0 <= c < |columns|
      ensures joined[c] == RowSlice(columns, lo, hi)[c]
    {
      assert columns[c][lo..mid] + columns[c][mid..hi] == columns[c][lo..hi];
    }
    assert joined == RowSlice(columns, lo, hi);
    TotalWidthOfAppend(RowSlice(columns, lo, mid), RowSlice(columns, mid, hi));
  }

  lemma SliceOfSlice(columns: Columns, lo: nat, hi: nat, from: nat, to: nat)
    requires Rectangular(columns) && lo <= hi <= Rows(columns) && from <= to <= hi - lo && columns != []
    ensures RowSlice(RowSlice(columns, lo, hi), from, to) == RowSlice(columns, lo + from, lo + to)
  {
    var inner := RowSlice(RowSlice(columns, lo, hi), from, to);
    forall c | 0 <= c < |columns|
      ensures inner[c] == RowSlice(columns, lo + from, lo + to)[c]
    {
      var cells := columns[c];
      assert |cells| == Rows(columns);
      assert cells[lo..hi][from..to] == cells[lo + from..lo + to];
    }
    assert inner == RowSlice(columns, lo + from, lo + to);
  }

  lemma AppendToNoRows(a: Columns, b: Columns)
    requires |a| == |b| && Rectangular(a) && Rows(a) == 0
    ensures Append(a, b) == b
  {
    NoRowsHaveNoWidth(a);
    forall c | 0 <= c < |a|
      ensures Append(a, b)[c] == b[c]
    {
      assert a[c] == [];
      assert [] + b[c] == b[c];
    }
    assert Append(a, b) == b;
  }

  lemma AppendNothing(a: Columns, b: Columns)
    requires |a| == |b| && Rectangular(b)
    ensures Append(a, RowSlice(b, 0, 0)) == a
  {
    forall c | 0 <= c < |a|
      ensures Append(a, RowSlice(b, 0, 0))[c] == a[c]
    {
      assert a[c] + b[c][0..0] == a[c];
    }
    assert Append(a, RowSlice(b, 0, 0)) == a;
  }

  lemma AppendOneMore(a: Columns, b: Columns, row: nat, grown: Columns)
    requires |a| == |b| == |grown| && Rectangular(b) && row < Rows(b)
    requires forall c :: 0 <= c < |b| ==> |b[c]| == Rows(b) && grown[c] == Append(a, RowSlice(b, 0, row))[c] + [b[c][row]]
    ensures grown == Append(a, RowSlice(b, 0, row + 1))
  {
    forall c | 0 <= c < |a|
      ensures grown[c] == Append(a, RowSlice(b, 0, row + 1))[c]
    {
      var cells := b[c];
      assert cells[0..row + 1] == cells[0..row] + [cells[row]];
    }
    assert grown == Append(a, RowSlice(b, 0, row + 1));
  }

  lemma WholeSlice(columns: Columns)
    requires Rectangular(columns)
    ensures RowSlice(columns, 0, Rows(columns)) == columns
  {
    assert RowSlice(columns, 0, Rows(columns)) == columns by {
      assert forall c :: 0 <= c < |columns| ==> columns[c][0..Rows(columns)] == columns[c];
    }
  }

  /** The two ways of summing agree: a one-row slice summed by column is that row summed across. */
  lemma {:induction false} RowWidthIsSliceWidth(columns: Columns, row: nat)
    requires forall c :: 0 <= c < |columns| ==> |columns[c]| == Rows(columns)
    requires columns != [] ==> row < Rows(columns)
    ensures columns != [] ==> TotalWidth(RowSlice(columns, row, row + 1)) == RowWidth(columns, row)
  {
    if columns != [] {
      var slice := RowSlice(columns, row, row + 1);
      assert slice[0] == [columns[0][row]];
      OneCellWidth(columns[0][row]);
      assert TotalWidth(slice) == CellWidth(columns[0][row]) + TotalWidth(slice[1..]);
      assert RowWidth(columns, row) == CellWidth(columns[0][row]) + RowWidth(columns[1..], row);
      if |columns| > 1 {
        assert forall c :: 0 <= c < |columns[1..]| ==> columns[1..][c] == columns[c + 1];
        RowWidthIsSliceWidth(columns[1..], row);
        assert slice[1..] == RowSlice(columns[1..], row, row + 1);
      } else {
        assert slice[1..] == [] && columns[1..] == [];
      }
    }
  }

  lemma OneCellWidth(value: Value)
    ensures ColumnWidth([value]) == CellWidth(value)
  {
    assert [value][1..] == [];
  }

  /** Summing row by row gives what summing column by column gives. */
  lemma PrefixGrows(columns: Columns, row: nat)
    requires Rectangular(columns) && columns != [] && row < Rows(columns)
    ensures TotalWidth(RowSlice(columns, 0, row + 1)) == TotalWidth(RowSlice(columns, 0, row)) + RowWidth(columns, row)
  {
    SliceJoins(columns, 0, row, row + 1);
    RowWidthIsSliceWidth(columns, row);
  }

  lemma FullIsMonotone(columns: Columns, fewer: nat, more: nat)
    requires Rectangular(columns) && columns != [] && fewer <= more <= Rows(columns)
    requires Full(RowSlice(columns, 0, fewer))
    ensures Full(RowSlice(columns, 0, more))
  {
    SliceJoins(columns, 0, fewer, more);
  }

  // ---------------------------------------------------------------- batches

  datatype BatchError = NoColumns | RaggedColumn(index: nat, expected: nat, found: nat)

  /** A rectangular block of at least one column, checked when it is built and nowhere else. */
  datatype ColumnBatch = ColumnBatch(columns: Columns) {
    ghost predicate Valid() {
      columns != [] && Rectangular(columns)
    }

    function Cell(row: nat, column: nat): Option<Value> {
      if column < |columns| && row < |columns[column]| then Some(columns[column][row]) else None
    }

    /** Rows `start..end`, both clamped to the rows there are. */
    function SliceRows(start: nat, end: nat): (r: ColumnBatch)
      requires Valid() && start <= end
      ensures r.Valid() && |r.columns| == |columns|
    {
      var rows := Rows(columns);
      ColumnBatch(RowSlice(columns, if start < rows then start else rows, if end < rows then end else rows))
    }
  }

  /** Accepts exactly the rectangular blocks, and names the first column that is not as long as column 0. */
  method NewBatch(columns: Columns) returns (r: Result<ColumnBatch, BatchError>)
    ensures r.Ok? <==> columns != [] && Rectangular(columns)
    ensures r.Ok? ==> r.value.columns == columns && r.value.Valid()
    ensures r == Err(NoColumns) <==> columns == []
    ensures r.Err? && columns != [] ==>
              && r.error.RaggedColumn? && r.error.index < |columns|
              && r.error.expected == |columns[0]| && r.error.found == |columns[r.error.index]| != |columns[0]|
              && forall c :: 0 <= c < r.error.index ==> |columns[c]| == |columns[0]|
  {
    if columns == [] {
      return Err(NoColumns);
    }
    var expected := |columns[0]|;
    for index := 0 to |columns|
      invariant forall c :: 0 <= c < index ==> |columns[c]| == expected
    {
      if |columns[index]| != expected {
        return Err(RaggedColumn(index, expected, |columns[index]|));
      }
    }
    r := Ok(ColumnBatch(columns));
  }
}
