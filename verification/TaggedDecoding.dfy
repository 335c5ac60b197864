/**
 Decoding a tagged blob, as a function of the bytes, the position and the depth.
 */
module TaggedDecoding {
  import opened Machine
  import opened Wrappers
  import opened Values
  import opened TaggedFormat
  import Utf8

  /** Every reason a blob is called corrupt. */
  datatype Damage =
    | LengthOverflow
    | Truncated(wanted: nat, at: nat, length: nat)
    | TooLong(length: nat)
    | InvalidText
    | BadOffsetFlag(flag: u8)
    | BadPresenceFlags(flags: u8)
    | BadTag(tag: u8)
    | TooDeep

  /** A value and the position after it, or the damage met. */
  datatype Parsed<+T> = Done(value: T, next: nat) | Damaged(cause: Damage) {
    predicate IsFailure() {
      Damaged?
    }

    function PropagateFailure<U>(): Parsed<U>
      requires Damaged?
    {
      Damaged(cause)
    }

    function Extract(): (T, nat)
      requires Done?
    {
      (value, next)
    }
  }

  // ---------------------------------------------------------------- fields

  function TakeAt(bytes: Slice, p: nat, count: nat): (r: Parsed<seq<u8>>)
    requires p <= |bytes|
    ensures r.Done? ==> r.next == p + count <= |bytes| && |r.value| == count
  {
    if p + count > USIZE_MAX then Damaged(LengthOverflow)
    else if p + count > |bytes| then Damaged(Truncated(count, p, |bytes|))
    else Done(bytes[p..p + count], p + count)
  }

  function ByteAt(bytes: Slice, p: nat): (r: Parsed<u8>)
    requires p <= |bytes|
    ensures r.Done? ==> r.next == p + 1 <= |bytes|
  {
    var (b, q) :- TakeAt(bytes, p, 1);
    Done(b[0], q)
  }

  /** `from_le_bytes` of the next `width` bytes. */
  function NumberAt(bytes: Slice, p: nat, width: nat): (r: Parsed<nat>)
    requires p <= |bytes|
    ensures r.Done? ==> r.next == p + width <= |bytes| && r.value < Pow256(width)
  {
    var (b, q) :- TakeAt(bytes, p, width);
    FromLittleEndianRoundTrip(b);
    Done(FromLittleEndian(b), q)
  }

  function U32At(bytes: Slice, p: nat): (r: Parsed<u32>)
    requires p <= |bytes|
    ensures r.Done? ==> r.next == p + 4 <= |bytes|
  {
    Pow256Values();
    var (n, q) :- NumberAt(bytes, p, 4);
    Done(n, q)
  }

  function U64At(bytes: Slice, p: nat): (r: Parsed<u64>)
    requires p <= |bytes|
    ensures r.Done? ==> r.next == p + 8 <= |bytes|
  {
    Pow256Values();
    var (n, q) :- NumberAt(bytes, p, 8);
    Done(n, q)
  }

  function I32At(bytes: Slice, p: nat): (r: Parsed<i32>)
    requires p <= |bytes|
    ensures r.Done? ==> r.next == p + 4 <= |bytes|
  {
    Pow256Values();
    var (n, q) :- U32At(bytes, p);
    Done(AsSigned(n, 4), q)
  }

  function I64At(bytes: Slice, p: nat): (r: Parsed<i64>)
    requires p <= |bytes|
    ensures r.Done? ==> r.next == p + 8 <= |bytes|
  {
    Pow256Values();
    var (n, q) :- U64At(bytes, p);
    Done(AsSigned(n, 8), q)
  }

  function I128At(bytes: Slice, p: nat): (r: Parsed<i128>)
    requires p <= |bytes|
    ensures r.Done? ==> r.next == p + 16 <= |bytes|
  {
    Pow256Values();
    var (n, q) :- NumberAt(bytes, p, 16);
    Done(AsSigned(n, 16), q)
  }

  function PrefixedAt(bytes: Slice, p: nat): (r: Parsed<seq<u8>>)
    requires p <= |bytes|
    ensures r.Done? ==> p + 4 <= r.next <= |bytes|
  {
    var (length, q) :- U32At(bytes, p);
    if length > MAX_LENGTH then Damaged(TooLong(length)) else TakeAt(bytes, q, length)
  }

  function TextAt(bytes: Slice, p: nat): (r: Parsed<string>)
    requires p <= |bytes|
    ensures r.Done? ==> p + 4 <= r.next <= |bytes|
  {
    var (b, q) :- PrefixedAt(bytes, p);
    match Utf8.Decode(b)
    case Some(text) => Done(text, q)
    case None => Damaged(InvalidText)
  }

  function OffsetAt(bytes: Slice, p: nat): (r: Parsed<Option<i32>>)
    requires p <= |bytes|
    ensures r.Done? ==> p < r.next <= |bytes|
  {
    var (flag, q) :- ByteAt(bytes, p);
    match flag
    case 0 => Done(None, q)
    case 1 =>
      var (secs, q2) :- I32At(bytes, q);
      Done(Some(secs), q2)
    case _ => Damaged(BadOffsetFlag(flag))
  }

  function TimestampAt(bytes: Slice, p: nat): (r: Parsed<Value>)
    requires p <= |bytes|
    ensures r.Done? ==> p < r.next <= |bytes|
    ensures r.Done? ==> r.value.Timestamp?
  {
    var (micros, q) :- I64At(bytes, p);
    var (offset, q2) :- OffsetAt(bytes, q);
    Done(Timestamp(micros, offset), q2)
  }

  function DecimalAt(bytes: Slice, p: nat): (r: Parsed<Value>)
    requires p <= |bytes|
    ensures r.Done? ==> p < r.next <= |bytes|
    ensures r.Done? ==> r.value.Decimal?
  {
    var (unscaled, q) :- I128At(bytes, p);
    var (scale, q2) :- ByteAt(bytes, q);
    Done(Decimal(unscaled, scale), q2)
  }

  function IntervalAt(bytes: Slice, p: nat): (r: Parsed<Value>)
    requires p <= |bytes|
    ensures r.Done? ==> p < r.next <= |bytes|
    ensures r.Done? ==> r.value.Interval?
  {
    var (months, q) :- I32At(bytes, p);
    var (days, q2) :- I32At(bytes, q);
    var (micros, q3) :- I64At(bytes, q2);
    Done(Interval(IntervalValue(months, days, micros)), q3)
  }

  function OptionalTextAt(bytes: Slice, p: nat, present: bool): (r: Parsed<Option<string>>)
    requires p <= |bytes|
    ensures r.Done? ==> p <= r.next <= |bytes|
  {
    if present then
      var (text, q) :- TextAt(bytes, p);
      Done(Some(text), q)
    else
      Done(None, p)
  }

  function OptionalBytesAt(bytes: Slice, p: nat, present: bool): (r: Parsed<Option<seq<u8>>>)
    requires p <= |bytes|
    ensures r.Done? ==> p <= r.next <= |bytes|
  {
    if present then
      var (raw, q) :- PrefixedAt(bytes, p);
      Done(Some(raw), q)
    else
      Done(None, p)
  }

  function PartsAt(bytes: Slice, p: nat, hasText: bool, hasRaw: bool): (r: Parsed<(Option<string>, Option<seq<u8>>)>)
    requires p <= |bytes|
    ensures r.Done? ==> p <= r.next <= |bytes| && r.value.0.Some? == hasText && r.value.1.Some? == hasRaw
  {
    var (shown, q) :- OptionalTextAt(bytes, p, hasText);
    var (raw, q2) :- OptionalBytesAt(bytes, q, hasRaw);
    Done((shown, raw), q2)
  }

  /** The presence flags of an unknown value, and the parts they announce. */
  function DetailsAt(bytes: Slice, p: nat): (r: Parsed<(Option<string>, Option<seq<u8>>)>)
    requires p <= |bytes|
    ensures r.Done? ==> p < r.next <= |bytes|
  {
    var (flags, q) :- ByteAt(bytes, p);
    if flags > HAS_TEXT + HAS_RAW then
      Damaged(BadPresenceFlags(flags))
    else
      PartsAt(bytes, q, flags % 2 == 1, flags / 2 == 1)
  }

  function UnknownAt(bytes: Slice, p: nat): (r: Parsed<Value>)
    requires p <= |bytes|
    ensures r.Done? ==> p < r.next <= |bytes|
    ensures r.Done? ==> r.value.Unknown?
  {
    var (typeName, q) :- TextAt(bytes, p);
    var (details, q2) :- DetailsAt(bytes, q);
    Done(Unknown(typeName, details.0, details.1), q2)
  }

  // ---------------------------------------------------------------- values

  /** What follows the tag byte of a fixed-width scalar; no other tag is left. */
  function ScalarAt(bytes: Slice, q: nat, tag: u8): (r: Parsed<Value>)
    requires q <= |bytes|
    ensures r.Done? ==> q <= r.next <= |bytes| && Tag(r.value) == tag
  {
    match tag
    case TAG_NULL => Done(Null, q)
    case TAG_BOOL =>
      var (flag, q2) :- ByteAt(bytes, q);
      Done(Bool(flag != 0), q2)
    case TAG_INT =>
      var (n, q2) :- I64At(bytes, q);
      Done(Int(n), q2)
    case TAG_UINT =>
      var (n, q2) :- U64At(bytes, q);
      Done(UInt(n), q2)
    case TAG_FLOAT =>
      var (bits, q2) :- U64At(bytes, q);
      Done(Float(bits), q2)
    case TAG_DATE =>
      var (days, q2) :- I32At(bytes, q);
      Done(Date(days), q2)
    case TAG_TIME =>
      var (micros, q2) :- I64At(bytes, q);
      Done(Time(micros), q2)
    case _ => Damaged(BadTag(tag))
  }

  /** What follows the tag byte of a value without children. */
  function LeafAt(bytes: Slice, q: nat, tag: u8): (r: Parsed<Value>)
    requires q <= |bytes|
    ensures r.Done? ==> q <= r.next <= |bytes| && Tag(r.value) == tag
  {
    match tag
    case TAG_DECIMAL => DecimalAt(bytes, q)
    case TAG_TEXT =>
      var (text, q2) :- TextAt(bytes, q);
      Done(Text(text), q2)
    case TAG_BYTES =>
      var (b, q2) :- PrefixedAt(bytes, q);
      Done(Bytes(b), q2)
    case TAG_TIMESTAMP => TimestampAt(bytes, q)
    case TAG_INTERVAL => IntervalAt(bytes, q)
    case TAG_JSON =>
      var (text, q2) :- TextAt(bytes, q);
      Done(Json(text), q2)
    case TAG_UNKNOWN => UnknownAt(bytes, q)
    case _ => ScalarAt(bytes, q, tag)
  }

  /** One value at `p`, met `depth` levels down. Every success moves forward and stays in bounds. */
  function ValueAt(bytes: Slice, p: nat, depth: nat): (r: Parsed<Value>)
    requires p <= |bytes|
    ensures r.Done? ==> p < r.next <= |bytes|
    ensures r.Done? ==> bytes[p] == Tag(r.value)
    decreases |bytes| - p, 0, 0
  {
    var (tag, q) :- ByteAt(bytes, p);
    BodyAt(bytes, q, depth, tag)
  }

  /** What follows the tag byte. */
  function BodyAt(bytes: Slice, q: nat, depth: nat, tag: u8): (r: Parsed<Value>)
    requires q <= |bytes|
    ensures r.Done? ==> q <= r.next <= |bytes| && Tag(r.value) == tag
    decreases |bytes| - q, 0, 3
  {
    match tag
    case TAG_ARRAY =>
      var (items, q2) :- CountedAt(bytes, q, depth);
      Done(Array(items), q2)
    case TAG_ROW =>
      var (fields, q2) :- CountedAt(bytes, q, depth);
      Done(Row(fields), q2)
    case TAG_MAP =>
      var (entries, q2) :- CountedEntriesAt(bytes, q, depth);
      Done(Map(entries), q2)
    case _ => LeafAt(bytes, q, tag)
  }

  /** A child: one level deeper, refused past the limit. */
  function NestedAt(bytes: Slice, p: nat, depth: nat): (r: Parsed<Value>)
    requires p <= |bytes|
    ensures r.Done? ==> p < r.next <= |bytes|
    decreases |bytes| - p, 0, 1
  {
    if depth >= MAX_DEPTH then Damaged(TooDeep) else ValueAt(bytes, p, depth + 1)
  }

  function CountedAt(bytes: Slice, p: nat, depth: nat): (r: Parsed<seq<Value>>)
    requires p <= |bytes|
    ensures r.Done? ==> p < r.next <= |bytes|
    decreases |bytes| - p, 0, 0
  {
    var (count, q) :- U32At(bytes, p);
    AllAt(bytes, q, depth, count)
  }

  function CountedEntriesAt(bytes: Slice, p: nat, depth: nat): (r: Parsed<seq<Entry>>)
    requires p <= |bytes|
    ensures r.Done? ==> p < r.next <= |bytes|
    decreases |bytes| - p, 0, 0
  {
    var (count, q) :- U32At(bytes, p);
    EntriesAt(bytes, q, depth, count)
  }

  function AllAt(bytes: Slice, p: nat, depth: nat, count: nat): (r: Parsed<seq<Value>>)
    requires p <= |bytes|
    ensures r.Done? ==> p <= r.next <= |bytes| && |r.value| == count
    decreases |bytes| - p, 1, count
  {
    if count == 0 then Done([], p)
    else
      var (item, q) :- NestedAt(bytes, p, depth);
      var (rest, q2) :- AllAt(bytes, q, depth, count - 1);
      Done([item] + rest, q2)
  }

  function EntryAt(bytes: Slice, p: nat, depth: nat): (r: Parsed<Entry>)
    requires p <= |bytes|
    ensures r.Done? ==> p < r.next <= |bytes|
    decreases |bytes| - p, 0, 2
  {
    var (key, q) :- NestedAt(bytes, p, depth);
    var (item, q2) :- NestedAt(bytes, q, depth);
    Done(Entry(key, item), q2)
  }

  function EntriesAt(bytes: Slice, p: nat, depth: nat, count: nat): (r: Parsed<seq<Entry>>)
    requires p <= |bytes|
    ensures r.Done? ==> p <= r.next <= |bytes| && |r.value| == count
    decreases |bytes| - p, 1, count
  {
    if count == 0 then Done([], p)
    else
      var (entry, q) :- EntryAt(bytes, p, depth);
      var (rest, q2) :- EntriesAt(bytes, q, depth, count - 1);
      Done([entry] + rest, q2)
  }
}
