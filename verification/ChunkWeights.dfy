/** What chunks weigh, in bytes and rows: nothing here speaks of the builder's own measure of a cell. */
module ChunkWeights {
  import opened Wrappers
  import opened Values
  import opened Columns
  import opened ChunkBuilders
  import opened Chunking
  import Utf8

  // ---------------------------------------------------------------- text and bytes in a chunk

  /** The UTF-8 and raw bytes a cell holds. */
  function Payload(value: Value): nat {
    match value
    case Text(text) => |Utf8.Encode(text)|
    case Json(text) => |Utf8.Encode(text)|
    case Bytes(bytes) => |bytes|
    case Unknown(_, None, None) => 0
    case Unknown(_, Some(shown), None) => |Utf8.Encode(shown)|
    case Unknown(_, None, Some(raw)) => |raw|
    case Unknown(_, Some(shown), Some(raw)) => |Utf8.Encode(shown)| + |raw|
    case _ => 0
  }

  function ColumnPayload(cells: seq<Value>): nat {
    if cells == [] then 0 else Payload(cells[0]) + ColumnPayload(cells[1..])
  }

  function TotalPayload(columns: Columns): nat {
    if columns == [] then 0 else ColumnPayload(columns[0]) + TotalPayload(columns[1..])
  }

  lemma {:induction false} ColumnPayloadIsWeighed(cells: seq<Value>)
    ensures ColumnPayload(cells) <= ColumnWidth(cells)
  {
    if cells != [] {
      ColumnPayloadIsWeighed(cells[1..]);
    }
  }

  lemma {:induction false} PayloadIsWeighed(columns: Columns)
    ensures TotalPayload(columns) <= TotalWidth(columns)
  {
    if columns != [] {
      ColumnPayloadIsWeighed(columns[0]);
      PayloadIsWeighed(columns[1..]);
    }
  }

  /** No chunk holds 2 MiB of text and bytes before its last row, nor more than 65,536 rows. */
  lemma ChunkPayload(width: nat, chunk: Columns)
    requires Sealable(width, chunk)
    ensures 1 <= Rows(chunk) <= 65_536
    ensures TotalPayload(RowSlice(chunk, 0, Rows(chunk) - 1)) < 2_097_152
  {
    SealableBounds(width, chunk);
    PayloadIsWeighed(RowSlice(chunk, 0, Rows(chunk) - 1));
  }

  // ---------------------------------------------------------------- where the cut falls

  function Least(a: nat, b: nat): nat {
    if a < b then a else b
  }

  /** The whole number not below `a / b`. */
  function CeilDiv(a: nat, b: nat): nat
    requires b > 0
  {
    (a + b - 1) / b
  }

  lemma CeilDivMeans(a: nat, b: nat, t: nat)
    requires b > 0
    ensures t >= CeilDiv(a, b) <==> t * b >= a
  {
    var q := CeilDiv(a, b);
    assert q * b <= a + b - 1 < q * b + b;
    if t < q {
      assert (t + 1) * b <= q * b;
    } else {
      assert q * b <= t * b;
    }
  }

  lemma {:induction false} UniformWidth(columns: Columns, weight: nat, rows: nat)
    requires Rectangular(columns) && columns != [] && rows <= Rows(columns)
    requires forall row :: 0 <= row < Rows(columns) ==> RowWidth(columns, row) == weight
    ensures TotalWidth(RowSlice(columns, 0, rows)) == rows * weight
  {
    if rows == 0 {
      NoRowsHaveNoWidth(RowSlice(columns, 0, 0));
    } else {
      hide RowWidth, TotalWidth, RowSlice;
      UniformWidth(columns, weight, rows - 1);
      PrefixGrows(columns, rows - 1);
      assert rows * weight == (rows - 1) * weight + weight;
    }
  }

  /** A block whose rows all weigh the same is cut at the row limit or where the weight adds up to 2 MiB. */
  lemma UniformCut(columns: Columns, weight: nat, take: nat)
    requires Rectangular(columns) && columns != [] && weight > 0 && IsCut(columns, take)
    requires forall row :: 0 <= row < Rows(columns) ==> RowWidth(columns, row) == weight
    ensures take == Least(Rows(columns), Least(65_536, CeilDiv(2_097_152, weight)))
  {
    var limit := Least(65_536, CeilDiv(2_097_152, weight));
    forall t | 0 <= t <= Rows(columns)
      ensures Full(RowSlice(columns, 0, t)) <==> t >= limit
    {
      UniformWidth(columns, weight, t);
      CeilDivMeans(2_097_152, weight, t);
    }
    assert limit <= Rows(columns) ==> Full(RowSlice(columns, 0, limit));
  }

  // ---------------------------------------------------------------- rows of one kind

  /** The variants without text, bytes or a list of children; a map counts as one of them. */
  predicate FixedSize(value: Value) {
    || value.Null? || value.Bool? || value.Int? || value.UInt? || value.Float? || value.Decimal?
    || value.Timestamp? || value.Date? || value.Time? || value.Interval? || value.Map?
  }

  lemma {:induction false} FixedRow(columns: Columns, row: nat)
    requires forall c :: 0 <= c < |columns| ==> row < |columns[c]| && FixedSize(columns[c][row])
    ensures RowWidth(columns, row) == 16 * |columns|
  {
    if columns != [] {
      FixedRow(columns[1..], row);
    }
  }

  lemma DivideBoth(width: nat)
    requires width > 0
    ensures CeilDiv(2_097_152, 16 * width) == CeilDiv(131_072, width)
  {
    var q := CeilDiv(131_072, width);
    CeilDivMeans(131_072, width, q);
    assert q * (16 * width) == 16 * (q * width);
    CeilDivMeans(2_097_152, 16 * width, q);
    if q > 0 {
      CeilDivMeans(131_072, width, q - 1);
      assert (q - 1) * (16 * width) == 16 * ((q - 1) * width);
      CeilDivMeans(2_097_152, 16 * width, q - 1);
    }
  }

  /** Columns of fixed-size cells: 131,072 cells to a chunk, or 65,536 rows. */
  lemma CutOfFixedSize(columns: Columns, take: nat)
    requires Rectangular(columns) && columns != [] && IsCut(columns, take)
    requires forall c, row :: 0 <= c < |columns| && 0 <= row < Rows(columns) ==>
               row < |columns[c]| && FixedSize(columns[c][row])
    ensures take == Least(Rows(columns), Least(65_536, CeilDiv(131_072, |columns|)))
  {
    forall row | 0 <= row < Rows(columns)
      ensures RowWidth(columns, row) == 16 * |columns|
    {
      FixedRow(columns, row);
    }
    UniformCut(columns, 16 * |columns|, take);
    DivideBoth(|columns|);
  }

  /** A text, JSON or byte string of so many bytes. */
  predicate HoldsBytes(value: Value, n: nat) {
    match value
    case Text(text) => |Utf8.Encode(text)| == n
    case Json(text) => |Utf8.Encode(text)| == n
    case Bytes(bytes) => |bytes| == n
    case _ => false
  }

  /** An unknown value whose text and raw bytes, where it has them, make so many bytes. */
  predicate UnknownOfBytes(value: Value, n: nat) {
    value.Unknown? && Payload(value) == n
  }

  /** An array or row of so many children, whatever they are. */
  predicate ListOf(value: Value, n: nat) {
    match value
    case Array(items) => |items| == n
    case Row(fields) => |fields| == n
    case _ => false
  }

  lemma OneColumnRow(cells: seq<Value>, row: nat)
    requires row < |cells|
    ensures RowWidth([cells], row) == CellWidth(cells[row])
  {
    assert [cells][1..] == [];
  }

  /** One column of texts or byte strings of one length. */
  lemma CutOfBytes(cells: seq<Value>, n: nat, take: nat)
    requires IsCut([cells], take) && forall row :: 0 <= row < |cells| ==> HoldsBytes(cells[row], n)
    ensures take == Least(|cells|, Least(65_536, CeilDiv(2_097_152, n + 9)))
  {
    forall row | 0 <= row < |cells|
      ensures RowWidth([cells], row) == n + 9
    {
      OneColumnRow(cells, row);
    }
    UniformCut([cells], n + 9, take);
  }

  /** One column of unknown values of one length. */
  lemma CutOfUnknown(cells: seq<Value>, n: nat, take: nat)
    requires IsCut([cells], take) && forall row :: 0 <= row < |cells| ==> UnknownOfBytes(cells[row], n)
    ensures take == Least(|cells|, Least(65_536, CeilDiv(2_097_152, n + 21)))
  {
    forall row | 0 <= row < |cells|
      ensures RowWidth([cells], row) == n + 21
    {
      OneColumnRow(cells, row);
    }
    UniformCut([cells], n + 21, take);
  }

  /** One column of arrays or rows of one length. */
  lemma CutOfLists(cells: seq<Value>, n: nat, take: nat)
    requires IsCut([cells], take) && forall row :: 0 <= row < |cells| ==> ListOf(cells[row], n)
    ensures take == Least(|cells|, Least(65_536, CeilDiv(2_097_152, 9 + 16 * n)))
  {
    forall row | 0 <= row < |cells|
      ensures RowWidth([cells], row) == 9 + 16 * n
    {
      OneColumnRow(cells, row);
    }
    UniformCut([cells], 9 + 16 * n, take);
  }

  /** Two texts of 2 MiB go into two chunks of one row each, by either way of cutting. */
  lemma LargeTextsPart(cells: seq<Value>, chunks: seq<Columns>)
    requires |cells| == 2 && forall row :: 0 <= row < 2 ==> HoldsBytes(cells[row], 2_097_152)
    requires Chunks([cells], chunks)
    ensures chunks == [[cells[..1]], [cells[1..]]]
  {
    var expected := [[cells[..1]], [cells[1..]]];
    forall row | 0 <= row < 2
      ensures Sealable(1, [[cells[row]]]) && Full([[cells[row]]])
    {
      OneCellWidth(cells[row]);
      assert [[cells[row]]][1..] == [];
      NoRowsHaveNoWidth(RowSlice([[cells[row]]], 0, 0));
    }
    assert cells[..1] == [cells[0]] && cells[1..] == [cells[1]];
    TwoChunksJoin(cells);
    OneChunking([cells], chunks, expected);
  }

  lemma TwoChunksJoin(cells: seq<Value>)
    requires |cells| == 2
    ensures Join(1, [[cells[..1]], [cells[1..]]]) == [cells]
  {
    var a, b: Columns := [cells[..1]], [cells[1..]];
    assert [a, b][1..] == [b] && [b][1..] == [];
    AppendToEmptyEnd(b);
    assert Join(1, [b]) == Append(b, Join(1, [])) == b;
    assert cells[..1] + cells[1..] == cells;
    assert Append(a, b) == [cells];
    assert Join(1, [a, b]) == Append(a, Join(1, [b]));
  }
}
