/** Staging rows for one chunk at a time, and cutting a staged block into chunks. */
module ChunkBuilders {
  import opened Wrappers
  import opened Values
  import opened Columns

  datatype WidthError = WidthError(expected: nat, found: nat)

  class ChunkBuilder {
    const width: nat
    var columns: Columns
    var estimatedBytes: nat

    /** The estimate is the sum of every staged cell: no subtraction from it can underflow. */
    ghost predicate Measured()
      reads this
    {
      |columns| == width && estimatedBytes == TotalWidth(columns)
    }

    ghost predicate Valid()
      reads this
    {
      Measured() && Rectangular(columns)
    }

    constructor (width: nat)
      ensures this.width == width && columns == NoRows(width) && Valid()
    {
      this.width := width;
      columns := NoRows(width);
      estimatedBytes := 0;
      new;
      NoRowsHaveNoWidth(columns);
    }

    /** The builder that `split_sealable` assembles from the parts it detached. */
    constructor OfParts(width: nat, columns: Columns, estimatedBytes: nat)
      ensures this.width == width && this.columns == columns && this.estimatedBytes == estimatedBytes
    {
      this.width := width;
      this.columns := columns;
      this.estimatedBytes := estimatedBytes;
    }

    function RowCount(): nat
      reads this
    {
      Rows(columns)
    }

    predicate IsEmpty()
      reads this
    {
      RowCount() == 0
    }

    predicate IsFull()
      requires Measured()
      reads this
      ensures IsFull() <==> Full(columns)
    {
      RowCount() >= CHUNK_MAX_ROWS || estimatedBytes >= CHUNK_TARGET_BYTES
    }

    /** Drops the rows past the first `rows`; past the end it does nothing. */
    method Truncate(rows: nat)
      requires Valid()
      modifies this`columns, this`estimatedBytes
      ensures Valid()
      ensures rows >= Rows(old(columns)) ==> columns == old(columns)
      ensures rows < Rows(old(columns)) ==> columns == RowSlice(old(columns), 0, rows)
    {
      if rows >= RowCount() {
        return;
      }
      SliceJoins(columns, 0, rows, RowCount());
      WholeSlice(columns);
      var dropped := TotalWidth(RowSlice(columns, rows, RowCount()));
      columns := RowSlice(columns, 0, rows);
      estimatedBytes := estimatedBytes - dropped;
    }

    method PushValue(column: nat, value: Value)
      requires Measured() && column < width
      modifies this`columns, this`estimatedBytes
      ensures Measured()
      ensures columns == old(columns)[column := old(columns)[column] + [value]]
    {
      estimatedBytes := estimatedBytes + CellWidth(value);
      CellAdds(columns, column, value);
      columns := columns[column := columns[column] + [value]];
    }

    /** One whole row, cell by cell. */
    method PushRow(cells: seq<Value>)
      requires Valid() && |cells| == width
      modifies this`columns, this`estimatedBytes
      ensures Valid()
      ensures |columns| == |old(columns)|
      ensures forall c :: 0 <= c < width ==> columns[c] == old(columns)[c] + [cells[c]]
    {
      for column := 0 to width
        invariant Measured()
        invariant forall c :: 0 <= c < column ==> columns[c] == old(columns)[c] + [cells[c]]
        invariant forall c :: column <= c < width ==> columns[c] == old(columns)[c]
      {
        PushValue(column, cells[column]);
      }
    }

    /** Appends every row of the batch; a batch of another width changes nothing. */
    method PushOwned(batch: ColumnBatch) returns (r: Result<nat, WidthError>)
      requires Valid() && batch.Valid()
      modifies this`columns, this`estimatedBytes
      ensures Valid()
      ensures |batch.columns| != width ==> r == Err(WidthError(width, |batch.columns|)) && columns == old(columns)
      ensures |batch.columns| == width ==>
                r == Ok(Rows(batch.columns)) && columns == Append(old(columns), batch.columns)
    {
      if |batch.columns| != width {
        return Err(WidthError(width, |batch.columns|));
      }
      var cells := batch.columns;
      if IsEmpty() {
        AppendToNoRows(columns, cells);
        estimatedBytes := TotalWidth(cells);
        columns := cells;
        return Ok(Rows(cells));
      }
      for column := 0 to |cells|
        invariant Measured()
        invariant forall c :: 0 <= c < column ==> columns[c] == old(columns)[c] + cells[c]
        invariant forall c :: column <= c < width ==> columns[c] == old(columns)[c]
      {
        for row := 0 to |cells[column]|
          invariant Measured()
          invariant forall c :: 0 <= c < width && c != column ==> columns[c] == if c < column then old(columns)[c] + cells[c] else old(columns)[c]
          invariant columns[column] == old(columns)[column] + cells[column][..row]
        {
          PushValue(column, cells[column][row]);
          assert cells[column][..row + 1] == cells[column][..row] + [cells[column][row]];
        }
        assert cells[column][..|cells[column]|] == cells[column];
      }
      assert columns == Append(old(columns), cells);
      r := Ok(Rows(cells));
    }

    /** Appends rows until the builder is full; stops at the first row it finds itself full before. */
    method PushBatch(batch: ColumnBatch) returns (r: Result<nat, WidthError>)
      requires Valid() && batch.Valid()
      modifies this`columns, this`estimatedBytes
      ensures Valid()
      ensures |batch.columns| != width ==> r == Err(WidthError(width, |batch.columns|)) && columns == old(columns)
      ensures |batch.columns| == width ==>
                && r.Ok? && r.value <= Rows(batch.columns)
                && columns == Append(old(columns), RowSlice(batch.columns, 0, r.value))
                && (r.value < Rows(batch.columns) ==> Full(columns))
                && forall t :: 0 <= t < r.value ==> !Full(Append(old(columns), RowSlice(batch.columns, 0, t)))
    {
      if |batch.columns| != width {
        return Err(WidthError(width, |batch.columns|));
      }
      var accepted := 0;
      var rows := Rows(batch.columns);
      AppendNothing(columns, batch.columns);
      while accepted < rows
        invariant Valid() && accepted <= rows
        invariant columns == Append(old(columns), RowSlice(batch.columns, 0, accepted))
        invariant forall t :: 0 <= t < accepted ==> !Full(Append(old(columns), RowSlice(batch.columns, 0, t)))
      {
        if IsFull() {
          break;
        }
        PushRow(seq(width, c requires 0 <= c < width =>
          match batch.Cell(accepted, c) case Some(value) => value case None => Null));
        AppendOneMore(old(columns), batch.columns, accepted, columns);
        accepted := accepted + 1;
      }
      r := Ok(accepted);
    }

    /**
     Takes rows off the front into a builder of their own: the fewest that fill a chunk, or all there are.
     */
    method SplitSealable() returns (head: ChunkBuilder)
      requires Valid()
      modifies this`columns, this`estimatedBytes
      ensures fresh(head) && head.Valid() && Valid() && head.width == width
      ensures IsCut(old(columns), head.RowCount())
      ensures head.columns == RowSlice(old(columns), 0, head.RowCount())
      ensures columns == RowSlice(old(columns), head.RowCount(), Rows(old(columns)))
    {
      var staged := columns;
      var rows := RowCount();
      var take, bytes := CutPoint(staged);
      SliceJoins(staged, 0, take, rows);
      WholeSlice(staged);
      assert TotalWidth(staged) == bytes + TotalWidth(RowSlice(staged, take, rows));
      var headBytes := if take == rows then estimatedBytes else bytes;
      if take == rows {
        assert RowSlice(staged, 0, take) == staged;
      }
      head := new ChunkBuilder.OfParts(width, RowSlice(staged, 0, take), headBytes);
      columns := RowSlice(staged, take, rows);
      estimatedBytes := estimatedBytes - headBytes;
    }
  }

  /** Counts rows, one at a time across the columns, until a seal limit is met or none are left. */
  method CutPoint(columns: Columns) returns (take: nat, bytes: nat)
    requires Rectangular(columns)
    ensures IsCut(columns, take) && bytes == TotalWidth(RowSlice(columns, 0, take))
  {
    var rows := Rows(columns);
    bytes := 0;
    take := 0;
    NoRowsHaveNoWidth(RowSlice(columns, 0, 0));
    while take < rows && take < CHUNK_MAX_ROWS && bytes < CHUNK_TARGET_BYTES
      invariant take <= rows
      invariant bytes == TotalWidth(RowSlice(columns, 0, take))
      invariant forall t :: 0 <= t < take ==> !Full(RowSlice(columns, 0, t))
    {
      PrefixGrows(columns, take);
      bytes := bytes + RowWidth(columns, take);
      take := take + 1;
    }
  }

  lemma {:induction false} CellAdds(columns: Columns, column: nat, value: Value)
    requires column < |columns|
    ensures TotalWidth(columns[column := columns[column] + [value]]) == TotalWidth(columns) + CellWidth(value)
  {
    var grown := columns[column := columns[column] + [value]];
    if column == 0 {
      ColumnWidthOfAppend(columns[0], [value]);
      assert grown[1..] == columns[1..];
      assert [value][1..] == [];
    } else {
      CellAdds(columns[1..], column - 1, value);
      assert grown[1..] == columns[1..][column - 1 := columns[column] + [value]];
    }
  }

  /** The cut of `split_sealable`: no shorter block of leading rows is full, and this one is, or is everything. */
  ghost predicate IsCut(columns: Columns, take: nat)
    requires Rectangular(columns)
  {
    && take <= Rows(columns)
    && (forall t :: 0 <= t < take ==> !Full(RowSlice(columns, 0, t)))
    && (take < Rows(columns) ==> Full(RowSlice(columns, 0, take)))
  }
}
