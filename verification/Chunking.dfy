/** Cutting a block of rows into chunks: what a chunking is, why there is one, and the loops that find it. */
module Chunking {
  import opened Columns
  import opened ChunkBuilders

  /** The rows of every chunk, end to end. */
  function Join(width: nat, chunks: seq<Columns>): (s: Columns)
    requires forall i :: 0 <= i < |chunks| ==> |chunks[i]| == width
    ensures |s| == width
  {
    if chunks == [] then NoRows(width) else Append(chunks[0], Join(width, chunks[1..]))
  }

  /** A chunk that may be sealed: rectangular, not empty, and below both limits before its last row. */
  predicate Sealable(width: nat, chunk: Columns) {
    |chunk| == width && Rectangular(chunk) && Rows(chunk) > 0 && !Full(RowSlice(chunk, 0, Rows(chunk) - 1))
  }

  /** Sealable chunks that hold the rows in order, none lost or added, each one full except the last. */
  predicate Chunks(columns: Columns, chunks: seq<Columns>) {
    && (forall i :: 0 <= i < |chunks| ==> Sealable(|columns|, chunks[i]))
    && Join(|columns|, chunks) == columns
    && (forall i :: 0 <= i < |chunks| - 1 ==> Full(chunks[i]))
  }

  /** What being sealable means in numbers. */
  lemma SealableBounds(width: nat, chunk: Columns)
    requires Sealable(width, chunk)
    ensures 1 <= Rows(chunk) <= CHUNK_MAX_ROWS
    ensures TotalWidth(RowSlice(chunk, 0, Rows(chunk) - 1)) < CHUNK_TARGET_BYTES
    ensures TotalWidth(chunk) < CHUNK_TARGET_BYTES + RowWidth(chunk, Rows(chunk) - 1)
  {
    PrefixGrows(chunk, Rows(chunk) - 1);
    WholeSlice(chunk);
  }

  lemma AppendAssociates(a: Columns, b: Columns, c: Columns)
    requires |a| == |b| == |c|
    ensures Append(Append(a, b), c) == Append(a, Append(b, c))
  {
    forall k | 0 <= k < |a|
      ensures Append(Append(a, b), c)[k] == Append(a, Append(b, c))[k]
    {
      assert (a[k] + b[k]) + c[k] == a[k] + (b[k] + c[k]);
    }
    assert Append(Append(a, b), c) == Append(a, Append(b, c));
  }

  lemma {:induction false} JoinOneMore(width: nat, chunks: seq<Columns>, chunk: Columns)
    requires |chunk| == width && forall i :: 0 <= i < |chunks| ==> |chunks[i]| == width
    ensures Join(width, chunks + [chunk]) == Append(Join(width, chunks), chunk)
  {
    var more := chunks + [chunk];
    if chunks == [] {
      assert more[1..] == [];
      AppendToNoRows(NoRows(width), chunk);
      AppendToEmptyEnd(chunk);
    } else {
      assert more[1..] == chunks[1..] + [chunk];
      JoinOneMore(width, chunks[1..], chunk);
      AppendAssociates(chunks[0], Join(width, chunks[1..]), chunk);
    }
  }

  lemma AppendToEmptyEnd(a: Columns)
    ensures Append(a, NoRows(|a|)) == a
  {
    forall k | 0 <= k < |a|
      ensures Append(a, NoRows(|a|))[k] == a[k]
    {
      assert a[k] + [] == a[k];
    }
    assert Append(a, NoRows(|a|)) == a;
  }

  lemma {:induction false} JoinIsRectangular(width: nat, chunks: seq<Columns>)
    requires forall i :: 0 <= i < |chunks| ==> |chunks[i]| == width && Rectangular(chunks[i])
    ensures Rectangular(Join(width, chunks))
  {
    if chunks != [] {
      JoinIsRectangular(width, chunks[1..]);
    }
  }

  lemma AppendCancels(a: Columns, b: Columns, c: Columns)
    requires |a| == |b| == |c| && Append(a, b) == Append(a, c)
    ensures b == c
  {
    forall k | 0 <= k < |a|
      ensures b[k] == c[k]
    {
      assert Append(a, b)[k] == a[k] + b[k] && Append(a, c)[k] == a[k] + c[k];
      assert (a[k] + b[k])[|a[k]|..] == b[k] && (a[k] + c[k])[|a[k]|..] == c[k];
    }
  }

  lemma FirstPart(a: Columns, b: Columns)
    requires |a| == |b| && a != [] && Rectangular(a) && Rectangular(b)
    ensures RowSlice(Append(a, b), 0, Rows(a)) == a
  {
    forall k | 0 <= k < |a|
      ensures RowSlice(Append(a, b), 0, Rows(a))[k] == a[k]
    {
      assert |a[k]| == Rows(a);
      assert (a[k] + b[k])[0..|a[k]|] == a[k];
    }
    assert RowSlice(Append(a, b), 0, Rows(a)) == a;
  }

  /** The first chunk of one chunking cannot be shorter than the first chunk of another. */
  lemma FirstNotShorter(columns: Columns, a: seq<Columns>, b: seq<Columns>)
    requires columns != [] && Rectangular(columns) && Chunks(columns, a) && Chunks(columns, b)
    requires a != [] && b != []
    ensures Rows(a[0]) >= Rows(b[0])
  {
    var width := |columns|;
    JoinIsRectangular(width, a[1..]);
    JoinIsRectangular(width, b[1..]);
    FirstPart(a[0], Join(width, a[1..]));
    FirstPart(b[0], Join(width, b[1..]));
    if Rows(a[0]) < Rows(b[0]) {
      SliceOfSlice(columns, 0, Rows(b[0]), 0, Rows(a[0]));
      if Full(a[0]) {
        FullIsMonotone(b[0], Rows(a[0]), Rows(b[0]) - 1);
      }
    }
  }

  /** There is only one way to cut a block into chunks. */
  lemma {:induction false} OneChunking(columns: Columns, a: seq<Columns>, b: seq<Columns>)
    requires columns != [] && Rectangular(columns) && Chunks(columns, a) && Chunks(columns, b)
    ensures a == b
    decreases |a|
  {
    var width := |columns|;
    if a != [] && b != [] {
      FirstNotShorter(columns, a, b);
      FirstNotShorter(columns, b, a);
      var restA, restB := Join(width, a[1..]), Join(width, b[1..]);
      JoinIsRectangular(width, a[1..]);
      JoinIsRectangular(width, b[1..]);
      FirstPart(a[0], restA);
      FirstPart(b[0], restB);
      assert a[0] == b[0];
      AppendCancels(a[0], restA, restB);
      OneChunking(restA, a[1..], b[1..]);
      assert a == [a[0]] + a[1..] && b == [b[0]] + b[1..];
    }
  }

  /** The chunks cut so far, and the rows still staged. */
  ghost predicate Progress(columns: Columns, chunks: seq<Columns>, rest: Columns) {
    && |rest| == |columns| && Rectangular(rest)
    && (forall i :: 0 <= i < |chunks| ==> Sealable(|columns|, chunks[i]))
    && Append(Join(|columns|, chunks), rest) == columns
    && (forall i :: 0 <= i < |chunks| && (i < |chunks| - 1 || Rows(rest) > 0) ==> Full(chunks[i]))
  }

  lemma ProgressStarts(columns: Columns)
    requires Rectangular(columns)
    ensures Progress(columns, [], columns)
  {
    AppendToNoRows(NoRows(|columns|), columns);
  }

  lemma ProgressGoesOn(columns: Columns, chunks: seq<Columns>, rest: Columns, take: nat)
    requires columns != [] && Progress(columns, chunks, rest) && 0 < Rows(rest)
    requires IsCut(rest, take)
    ensures take > 0
    ensures Progress(columns, chunks + [RowSlice(rest, 0, take)], RowSlice(rest, take, Rows(rest)))
  {
    var width := |columns|;
    NoRowsHaveNoWidth(RowSlice(rest, 0, 0));
    var head, tail := RowSlice(rest, 0, take), RowSlice(rest, take, Rows(rest));
    SliceOfSlice(rest, 0, take, 0, take - 1);
    assert Sealable(width, head);
    SliceJoins(rest, 0, take, Rows(rest));
    WholeSlice(rest);
    JoinOneMore(width, chunks, head);
    AppendAssociates(Join(width, chunks), head, tail);
  }

  lemma ProgressEnds(columns: Columns, chunks: seq<Columns>, rest: Columns)
    requires Progress(columns, chunks, rest) && Rows(rest) == 0
    ensures Chunks(columns, chunks)
  {
    NoRowsHaveNoWidth(rest);
    AppendToEmptyEnd(Join(|columns|, chunks));
  }

  /** Emptying a builder by `split_sealable`, as the fetch loop does. */
  method Drain(builder: ChunkBuilder) returns (chunks: seq<Columns>)
    requires builder.Valid() && builder.width > 0
    modifies builder`columns, builder`estimatedBytes
    ensures builder.Valid() && builder.IsEmpty()
    ensures Chunks(old(builder.columns), chunks)
  {
    ghost var columns := builder.columns;
    chunks := [];
    ProgressStarts(columns);
    while !builder.IsEmpty()
      invariant builder.Valid() && Progress(columns, chunks, builder.columns)
      decreases builder.RowCount()
    {
      ghost var rest := builder.columns;
      var piece := builder.SplitSealable();
      ProgressGoesOn(columns, chunks, rest, piece.RowCount());
      chunks := chunks + [piece.columns];
    }
    ProgressEnds(columns, chunks, builder.columns);
  }

  /** Loading a batch whole, then draining it. */
  method LoadAndDrain(batch: ColumnBatch) returns (chunks: seq<Columns>)
    requires batch.Valid()
    ensures Chunks(batch.columns, chunks)
  {
    var builder := new ChunkBuilder(|batch.columns|);
    AppendToNoRows(builder.columns, batch.columns);
    var loaded := builder.PushOwned(batch);
    chunks := Drain(builder);
  }

  /** Pushing up to the seal limit, sealing, and retrying with the rest. */
  method PushAndRetry(batch: ColumnBatch) returns (chunks: seq<Columns>)
    requires batch.Valid()
    ensures Chunks(batch.columns, chunks)
  {
    var rest := batch;
    chunks := [];
    ProgressStarts(batch.columns);
    while Rows(rest.columns) > 0
      invariant rest.Valid() && Progress(batch.columns, chunks, rest.columns)
      decreases Rows(rest.columns)
    {
      var builder := new ChunkBuilder(|batch.columns|);
      ghost var before := builder.columns;
      var rows := Rows(rest.columns);
      var accepted := builder.PushBatch(rest);
      AcceptedIsCut(rest.columns, before, accepted.value);
      ProgressGoesOn(batch.columns, chunks, rest.columns, accepted.value);
      chunks := chunks + [builder.columns];
      rest := rest.SliceRows(accepted.value, rows);
    }
    ProgressEnds(batch.columns, chunks, rest.columns);
  }

  lemma AcceptedIsCut(columns: Columns, before: Columns, accepted: nat)
    requires Rectangular(columns) && before == NoRows(|columns|) && accepted <= Rows(columns)
    requires accepted < Rows(columns) ==> Full(Append(before, RowSlice(columns, 0, accepted)))
    requires forall t :: 0 <= t < accepted ==> !Full(Append(before, RowSlice(columns, 0, t)))
    ensures Append(before, RowSlice(columns, 0, accepted)) == RowSlice(columns, 0, accepted)
    ensures IsCut(columns, accepted)
  {
    forall t | 0 <= t <= accepted
      ensures Append(before, RowSlice(columns, 0, t)) == RowSlice(columns, 0, t)
    {
      AppendToNoRows(before, RowSlice(columns, 0, t));
    }
  }

  /** Both ways of cutting a batch give the same chunks. */
  method CutBothWays(batch: ColumnBatch) returns (drained: seq<Columns>, retried: seq<Columns>)
    requires batch.Valid()
    ensures drained == retried && Chunks(batch.columns, drained)
  {
    drained := LoadAndDrain(batch);
    retried := PushAndRetry(batch);
    OneChunking(batch.columns, drained, retried);
  }
}
