/** The tagged blob of one cell: a tag byte, then the fields, every number little-endian. */
module TaggedFormat {
  import opened Machine
  import opened Wrappers
  import opened Values
  import Utf8

  const TAG_NULL: u8 := 0
  const TAG_BOOL: u8 := 1
  const TAG_INT: u8 := 2
  const TAG_UINT: u8 := 3
  const TAG_FLOAT: u8 := 4
  const TAG_DECIMAL: u8 := 5
  const TAG_TEXT: u8 := 6
  const TAG_BYTES: u8 := 7
  const TAG_TIMESTAMP: u8 := 8
  const TAG_DATE: u8 := 9
  const TAG_TIME: u8 := 10
  const TAG_INTERVAL: u8 := 11
  const TAG_JSON: u8 := 12
  const TAG_ARRAY: u8 := 13
  const TAG_ROW: u8 := 14
  const TAG_MAP: u8 := 15
  const TAG_UNKNOWN: u8 := 16

  /** Presence bits of an unknown value. */
  const HAS_TEXT := 1
  const HAS_RAW := 2

  const MAX_DEPTH := 64

  /** The longest byte string a decoder accepts: 256 MiB. */
  const MAX_LENGTH := 256 * 1024 * 1024

  function Tag(v: Value): u8 {
    match v
    case Null => TAG_NULL
    case Bool(_) => TAG_BOOL
    case Int(_) => TAG_INT
    case UInt(_) => TAG_UINT
    case Float(_) => TAG_FLOAT
    case Decimal(_, _) => TAG_DECIMAL
    case Text(_) => TAG_TEXT
    case Bytes(_) => TAG_BYTES
    case Timestamp(_, _) => TAG_TIMESTAMP
    case Date(_) => TAG_DATE
    case Time(_) => TAG_TIME
    case Interval(_) => TAG_INTERVAL
    case Json(_) => TAG_JSON
    case Array(_) => TAG_ARRAY
    case Row(_) => TAG_ROW
    case Map(_) => TAG_MAP
    case Unknown(_, _, _) => TAG_UNKNOWN
  }

  /** What every number, string and count costs: the length is cut to 32 bits. */
  function Length32(n: nat): (b: seq<u8>)
    ensures |b| == 4
  {
    LittleEndian(n % U32_MODULUS, 4)
  }

  function Prefixed(bytes: seq<u8>): seq<u8> {
    Length32(|bytes|) + bytes
  }

  function OffsetField(offset: Option<i32>): seq<u8> {
    match offset
    case Some(secs) => [1] + SignedBytes(secs, 4)
    case None => [0]
  }

  function PresenceFlags(shown: Option<string>, raw: Option<seq<u8>>): u8 {
    (if shown.Some? then HAS_TEXT else 0) + (if raw.Some? then HAS_RAW else 0)
  }

  function OptionalText(shown: Option<string>): seq<u8> {
    if shown.Some? then Prefixed(Utf8.Encode(shown.value)) else []
  }

  function OptionalBytes(raw: Option<seq<u8>>): seq<u8> {
    if raw.Some? then Prefixed(raw.value) else []
  }

  function Details(shown: Option<string>, raw: Option<seq<u8>>): seq<u8> {
    [PresenceFlags(shown, raw)] + (OptionalText(shown) + OptionalBytes(raw))
  }

  /** The blob of a value, without regard to depth: its tag, then its body. */
  function Blob(v: Value): seq<u8>
    decreases v, 1
  {
    [Tag(v)] + Body(v)
  }

  function Body(v: Value): seq<u8>
    decreases v, 0
  {
    match v
    case Null => []
    case Bool(flag) => [if flag then 1 else 0]
    case Int(n) => SignedBytes(n, 8)
    case UInt(n) => LittleEndian(n, 8)
    case Float(bits) => LittleEndian(bits, 8)
    case Decimal(unscaled, scale) => SignedBytes(unscaled, 16) + [scale]
    case Text(text) => Prefixed(Utf8.Encode(text))
    case Bytes(bytes) => Prefixed(bytes)
    case Timestamp(micros, offset) => SignedBytes(micros, 8) + OffsetField(offset)
    case Date(days) => SignedBytes(days, 4)
    case Time(micros) => SignedBytes(micros, 8)
    case Interval(i) => SignedBytes(i.months, 4) + (SignedBytes(i.days, 4) + SignedBytes(i.micros, 8))
    case Json(text) => Prefixed(Utf8.Encode(text))
    case Array(items) => Length32(|items|) + BlobOfAll(items)
    case Row(fields) => Length32(|fields|) + BlobOfAll(fields)
    case Map(entries) => Length32(|entries|) + BlobOfEntries(entries)
    case Unknown(typeName, shown, raw) => Prefixed(Utf8.Encode(typeName)) + Details(shown, raw)
  }

  function BlobOfAll(items: seq<Value>): seq<u8>
    decreases items, 0
  {
    if items == [] then [] else Blob(items[0]) + BlobOfAll(items[1..])
  }

  function BlobOfEntries(entries: seq<Entry>): seq<u8>
    decreases entries, 0
  {
    if entries == [] then []
    else BlobOfEntry(entries[0]) + BlobOfEntries(entries[1..])
  }

  function BlobOfEntry(entry: Entry): seq<u8>
    decreases entry, 0
  {
    Blob(entry.key) + Blob(entry.item)
  }

  predicate TextFits(text: string) {
    |Utf8.Encode(text)| <= MAX_LENGTH
  }

  /** Strings the decoder accepts, and counts that survive the cut to 32 bits, at every level. */
  predicate Fits(v: Value) {
    match v
    case Text(text) => TextFits(text)
    case Json(text) => TextFits(text)
    case Bytes(bytes) => |bytes| <= MAX_LENGTH
    case Array(items) => |items| < U32_MODULUS && AllFit(items)
    case Row(fields) => |fields| < U32_MODULUS && AllFit(fields)
    case Map(entries) => |entries| < U32_MODULUS && EntriesFit(entries)
    case Unknown(typeName, shown, raw) =>
      TextFits(typeName) && DetailsFit(shown, raw)
    case _ => true
  }

  predicate DetailsFit(shown: Option<string>, raw: Option<seq<u8>>) {
    (shown.Some? ==> TextFits(shown.value)) && (raw.Some? ==> |raw.value| <= MAX_LENGTH)
  }

  predicate AllFit(items: seq<Value>) {
    items == [] || (Fits(items[0]) && AllFit(items[1..]))
  }

  predicate EntriesFit(entries: seq<Entry>) {
    entries == [] || (EntryFits(entries[0]) && EntriesFit(entries[1..]))
  }

  predicate EntryFits(entry: Entry) {
    Fits(entry.key) && Fits(entry.item)
  }
}
