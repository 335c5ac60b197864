/** No blob starts another, whatever the depth of the values and however long their strings. */
module TaggedPrefixes {
  import opened Machine
  import opened Wrappers
  import opened Values
  import opened TaggedFormat
  import opened TaggedTheorems
  import Utf8

  // ---------------------------------------------------------------- lengths that survive the cut to 32 bits

  predicate TextCounted(text: string) {
    |Utf8.Encode(text)| < U32_MODULUS
  }

  predicate DetailsCounted(shown: Option<string>, raw: Option<seq<u8>>) {
    (shown.Some? ==> TextCounted(shown.value)) && (raw.Some? ==> |raw.value| < U32_MODULUS)
  }

  /** Every string and count, at every level, is below 2^32. */
  predicate Counted(v: Value) {
    match v
    case Text(text) => TextCounted(text)
    case Json(text) => TextCounted(text)
    case Bytes(bytes) => |bytes| < U32_MODULUS
    case Array(items) => |items| < U32_MODULUS && AllCounted(items)
    case Row(fields) => |fields| < U32_MODULUS && AllCounted(fields)
    case Map(entries) => |entries| < U32_MODULUS && EntriesCounted(entries)
    case Unknown(typeName, shown, raw) => TextCounted(typeName) && DetailsCounted(shown, raw)
    case _ => true
  }

  predicate AllCounted(items: seq<Value>) {
    items == [] || (Counted(items[0]) && AllCounted(items[1..]))
  }

  predicate EntriesCounted(entries: seq<Entry>) {
    entries == [] || (EntryCounted(entries[0]) && EntriesCounted(entries[1..]))
  }

  predicate EntryCounted(entry: Entry) {
    Counted(entry.key) && Counted(entry.item)
  }

  // ---------------------------------------------------------------- fields that lie at one place

  lemma NumbersAgree(bytes: seq<u8>, p: nat, width: nat, m: nat, n: nat)
    requires m < Pow256(width) && n < Pow256(width)
    requires Holds(bytes, p, LittleEndian(m, width)) && Holds(bytes, p, LittleEndian(n, width))
    ensures m == n
  {
    LittleEndianRoundTrip(m, width);
    LittleEndianRoundTrip(n, width);
  }

  lemma SignedAgree(bytes: seq<u8>, p: nat, width: nat, m: int, n: int)
    requires FitsSigned(m, width) && FitsSigned(n, width)
    requires Holds(bytes, p, SignedBytes(m, width)) && Holds(bytes, p, SignedBytes(n, width))
    ensures m == n
  {
    SignedRoundTrip(m, width);
    SignedRoundTrip(n, width);
  }

  lemma LengthsAgree(bytes: seq<u8>, p: nat, m: nat, n: nat)
    requires m < U32_MODULUS && n < U32_MODULUS
    requires Holds(bytes, p, Length32(m)) && Holds(bytes, p, Length32(n))
    ensures m == n
  {
    Pow256Values();
    hide Pow256, LittleEndian;
    NumbersAgree(bytes, p, 4, m, n);
  }

  lemma PrefixedAgree(bytes: seq<u8>, p: nat, a: seq<u8>, b: seq<u8>)
    requires |a| < U32_MODULUS && |b| < U32_MODULUS
    requires Holds(bytes, p, Prefixed(a)) && Holds(bytes, p, Prefixed(b))
    ensures a == b
  {
    HoldsJoin(bytes, p, Length32(|a|), a);
    HoldsJoin(bytes, p, Length32(|b|), b);
    LengthsAgree(bytes, p, |a|, |b|);
  }

  lemma TextsAgree(bytes: seq<u8>, p: nat, a: string, b: string)
    requires TextCounted(a) && TextCounted(b)
    requires Holds(bytes, p, Prefixed(Utf8.Encode(a))) && Holds(bytes, p, Prefixed(Utf8.Encode(b)))
    ensures a == b
  {
    PrefixedAgree(bytes, p, Utf8.Encode(a), Utf8.Encode(b));
    Utf8.DecodeOfEncode(a);
    Utf8.DecodeOfEncode(b);
  }

  lemma OffsetsAgree(bytes: seq<u8>, p: nat, a: Option<i32>, b: Option<i32>)
    requires Holds(bytes, p, OffsetField(a)) && Holds(bytes, p, OffsetField(b))
    ensures a == b
  {
    hide SignedBytes;
    Pow256Values();
    assert OffsetField(a)[0] == bytes[p] && OffsetField(b)[0] == bytes[p];
    if a.Some? && b.Some? {
      HoldsJoin(bytes, p, [1], SignedBytes(a.value, 4));
      HoldsJoin(bytes, p, [1], SignedBytes(b.value, 4));
      SignedAgree(bytes, p + 1, 4, a.value, b.value);
    }
  }

  lemma DetailsAgree(bytes: seq<u8>, p: nat, shown: Option<string>, raw: Option<seq<u8>>, shown2: Option<string>, raw2: Option<seq<u8>>)
    requires DetailsCounted(shown, raw) && DetailsCounted(shown2, raw2)
    requires Holds(bytes, p, Details(shown, raw)) && Holds(bytes, p, Details(shown2, raw2))
    ensures shown == shown2 && raw == raw2
  {
    hide Prefixed, TextCounted;
    HoldsJoin(bytes, p, [PresenceFlags(shown, raw)], OptionalText(shown) + OptionalBytes(raw));
    HoldsJoin(bytes, p, [PresenceFlags(shown2, raw2)], OptionalText(shown2) + OptionalBytes(raw2));
    assert PresenceFlags(shown, raw) == bytes[p] == PresenceFlags(shown2, raw2);
    HoldsJoin(bytes, p + 1, OptionalText(shown), OptionalBytes(raw));
    HoldsJoin(bytes, p + 1, OptionalText(shown2), OptionalBytes(raw2));
    if shown.Some? {
      TextsAgree(bytes, p + 1, shown.value, shown2.value);
    }
    if raw.Some? {
      PrefixedAgree(bytes, p + 1 + |OptionalText(shown)|, raw.value, raw2.value);
    }
  }

  lemma TimestampsAgree(bytes: seq<u8>, p: nat, a: i64, x: Option<i32>, b: i64, y: Option<i32>)
    requires Holds(bytes, p, SignedBytes(a, 8) + OffsetField(x)) && Holds(bytes, p, SignedBytes(b, 8) + OffsetField(y))
    ensures a == b && x == y
  {
    hide SignedBytes, OffsetField;
    Pow256Values();
    HoldsJoin(bytes, p, SignedBytes(a, 8), OffsetField(x));
    HoldsJoin(bytes, p, SignedBytes(b, 8), OffsetField(y));
    SignedAgree(bytes, p, 8, a, b);
    OffsetsAgree(bytes, p + 8, x, y);
  }

  lemma DecimalsAgree(bytes: seq<u8>, p: nat, a: i128, x: u8, b: i128, y: u8)
    requires Holds(bytes, p, SignedBytes(a, 16) + [x]) && Holds(bytes, p, SignedBytes(b, 16) + [y])
    ensures a == b && x == y
  {
    hide SignedBytes;
    Pow256Values();
    HoldsJoin(bytes, p, SignedBytes(a, 16), [x]);
    HoldsJoin(bytes, p, SignedBytes(b, 16), [y]);
    SignedAgree(bytes, p, 16, a, b);
    assert bytes[p + 16] == x && bytes[p + 16] == y;
  }

  lemma IntervalsAgree(bytes: seq<u8>, p: nat, i: IntervalValue, j: IntervalValue)
    requires Holds(bytes, p, Body(Interval(i))) && Holds(bytes, p, Body(Interval(j)))
    ensures i == j
  {
    hide SignedBytes;
    Pow256Values();
    HoldsJoin(bytes, p, SignedBytes(i.months, 4), SignedBytes(i.days, 4) + SignedBytes(i.micros, 8));
    HoldsJoin(bytes, p, SignedBytes(j.months, 4), SignedBytes(j.days, 4) + SignedBytes(j.micros, 8));
    HoldsJoin(bytes, p + 4, SignedBytes(i.days, 4), SignedBytes(i.micros, 8));
    HoldsJoin(bytes, p + 4, SignedBytes(j.days, 4), SignedBytes(j.micros, 8));
    SignedAgree(bytes, p, 4, i.months, j.months);
    SignedAgree(bytes, p + 4, 4, i.days, j.days);
    SignedAgree(bytes, p + 8, 8, i.micros, j.micros);
  }

  lemma UnknownsAgree(bytes: seq<u8>, p: nat, v: Value, w: Value)
    requires v.Unknown? && w.Unknown? && Counted(v) && Counted(w)
    requires Holds(bytes, p, Body(v)) && Holds(bytes, p, Body(w))
    ensures v == w
  {
    hide Prefixed, Details, DetailsCounted, TextCounted;
    HoldsJoin(bytes, p, Prefixed(Utf8.Encode(v.typeName)), Details(v.shown, v.raw));
    HoldsJoin(bytes, p, Prefixed(Utf8.Encode(w.typeName)), Details(w.shown, w.raw));
    TextsAgree(bytes, p, v.typeName, w.typeName);
    DetailsAgree(bytes, p + |Prefixed(Utf8.Encode(v.typeName))|, v.shown, v.raw, w.shown, w.raw);
  }

  // ---------------------------------------------------------------- values that lie at one place

  lemma LeavesAgree(bytes: seq<u8>, q: nat, v: Value, w: Value)
    requires !Composite(v) && Tag(v) == Tag(w) && Counted(v) && Counted(w)
    requires Holds(bytes, q, Body(v)) && Holds(bytes, q, Body(w))
    ensures v == w
  {
    hide Prefixed, SignedBytes, LittleEndian, Details, TextCounted, DetailsCounted, OffsetField;
    Pow256Values();
    match v {
      case Null =>
      case Bool(flag) => assert Body(v)[0] == bytes[q] && Body(w)[0] == bytes[q];
      case Int(n) => SignedAgree(bytes, q, 8, n, w.signed);
      case UInt(n) => NumbersAgree(bytes, q, 8, n, w.unsigned);
      case Float(bits) => NumbersAgree(bytes, q, 8, bits, w.bits);
      case Decimal(unscaled, scale) => DecimalsAgree(bytes, q, unscaled, scale, w.unscaled, w.scale);
      case Text(text) => TextsAgree(bytes, q, text, w.text);
      case Bytes(b) => PrefixedAgree(bytes, q, b, w.bytes);
      case Timestamp(micros, offset) => TimestampsAgree(bytes, q, micros, offset, w.instant, w.offsetSecs);
      case Date(days) => SignedAgree(bytes, q, 4, days, w.days);
      case Time(micros) => SignedAgree(bytes, q, 8, micros, w.micros);
      case Interval(i) => IntervalsAgree(bytes, q, i, w.interval);
      case Json(text) => TextsAgree(bytes, q, text, w.json);
      case Unknown(_, _, _) => UnknownsAgree(bytes, q, v, w);
      case _ =>
    }
  }

  /** Two values whose blobs both lie at one place are one value. */
  lemma {:induction false} ValuesAgree(bytes: seq<u8>, p: nat, v: Value, w: Value)
    requires Counted(v) && Counted(w) && Holds(bytes, p, Blob(v)) && Holds(bytes, p, Blob(w))
    ensures v == w
    decreases v, 1
  {
    hide Body, Counted;
    HoldsJoin(bytes, p, [Tag(v)], Body(v));
    HoldsJoin(bytes, p, [Tag(w)], Body(w));
    assert Tag(v) == bytes[p] && Tag(w) == bytes[p];
    BodiesAgree(bytes, p + 1, v, w);
  }

  lemma {:induction false} BodiesAgree(bytes: seq<u8>, q: nat, v: Value, w: Value)
    requires Tag(v) == Tag(w) && Counted(v) && Counted(w) && Holds(bytes, q, Body(v)) && Holds(bytes, q, Body(w))
    ensures v == w
    decreases v, 0
  {
    hide Length32, BlobOfAll, BlobOfEntries, SignedBytes, LittleEndian, Prefixed, Details, OffsetField,
      AllCounted, EntriesCounted, TextCounted, DetailsCounted;
    match v {
      case Array(items) => ListsAgree(bytes, q, items, w.items);
      case Row(fields) => ListsAgree(bytes, q, fields, w.fields);
      case Map(entries) => MapsAgree(bytes, q, entries, w.entries);
      case _ => LeavesAgree(bytes, q, v, w);
    }
  }

  lemma {:induction false} ListsAgree(bytes: seq<u8>, q: nat, items: seq<Value>, others: seq<Value>)
    requires |items| < U32_MODULUS && |others| < U32_MODULUS && AllCounted(items) && AllCounted(others)
    requires Holds(bytes, q, Length32(|items|) + BlobOfAll(items)) && Holds(bytes, q, Length32(|others|) + BlobOfAll(others))
    ensures items == others
    decreases items, 1
  {
    HoldsJoin(bytes, q, Length32(|items|), BlobOfAll(items));
    HoldsJoin(bytes, q, Length32(|others|), BlobOfAll(others));
    LengthsAgree(bytes, q, |items|, |others|);
    AllAgree(bytes, q + 4, items, others);
  }

  lemma {:induction false} AllAgree(bytes: seq<u8>, p: nat, items: seq<Value>, others: seq<Value>)
    requires |items| == |others| && AllCounted(items) && AllCounted(others)
    requires Holds(bytes, p, BlobOfAll(items)) && Holds(bytes, p, BlobOfAll(others))
    ensures items == others
    decreases items, 0
  {
    if items != [] {
      HoldsJoin(bytes, p, Blob(items[0]), BlobOfAll(items[1..]));
      HoldsJoin(bytes, p, Blob(others[0]), BlobOfAll(others[1..]));
      ValuesAgree(bytes, p, items[0], others[0]);
      AllAgree(bytes, p + |Blob(items[0])|, items[1..], others[1..]);
      assert items == [items[0]] + items[1..] && others == [others[0]] + others[1..];
    }
  }

  lemma {:induction false} MapsAgree(bytes: seq<u8>, q: nat, entries: seq<Entry>, others: seq<Entry>)
    requires |entries| < U32_MODULUS && |others| < U32_MODULUS && EntriesCounted(entries) && EntriesCounted(others)
    requires Holds(bytes, q, Length32(|entries|) + BlobOfEntries(entries))
    requires Holds(bytes, q, Length32(|others|) + BlobOfEntries(others))
    ensures entries == others
    decreases entries, 1
  {
    HoldsJoin(bytes, q, Length32(|entries|), BlobOfEntries(entries));
    HoldsJoin(bytes, q, Length32(|others|), BlobOfEntries(others));
    LengthsAgree(bytes, q, |entries|, |others|);
    EntriesAgree(bytes, q + 4, entries, others);
  }

  lemma {:induction false} EntryAgrees(bytes: seq<u8>, p: nat, entry: Entry, other: Entry)
    requires EntryCounted(entry) && EntryCounted(other)
    requires Holds(bytes, p, BlobOfEntry(entry)) && Holds(bytes, p, BlobOfEntry(other))
    ensures entry == other
    decreases entry, 0
  {
    hide Blob;
    HoldsJoin(bytes, p, Blob(entry.key), Blob(entry.item));
    HoldsJoin(bytes, p, Blob(other.key), Blob(other.item));
    ValuesAgree(bytes, p, entry.key, other.key);
    ValuesAgree(bytes, p + |Blob(entry.key)|, entry.item, other.item);
  }

  lemma {:induction false} EntriesAgree(bytes: seq<u8>, p: nat, entries: seq<Entry>, others: seq<Entry>)
    requires |entries| == |others| && EntriesCounted(entries) && EntriesCounted(others)
    requires Holds(bytes, p, BlobOfEntries(entries)) && Holds(bytes, p, BlobOfEntries(others))
    ensures entries == others
    decreases entries, 0
  {
    hide BlobOfEntry;
    if entries != [] {
      HoldsJoin(bytes, p, BlobOfEntry(entries[0]), BlobOfEntries(entries[1..]));
      HoldsJoin(bytes, p, BlobOfEntry(others[0]), BlobOfEntries(others[1..]));
      EntryAgrees(bytes, p, entries[0], others[0]);
      EntriesAgree(bytes, p + |BlobOfEntry(entries[0])|, entries[1..], others[1..]);
      assert entries == [entries[0]] + entries[1..] && others == [others[0]] + others[1..];
    }
  }

  // ---------------------------------------------------------------- main results

  /**
   Blobs can be laid end to end: whatever follows them, equal bytes start with the blob of one
   value only, so no blob is a proper prefix of another.
   */
  lemma SelfDelimiting(v: Value, after: seq<u8>, w: Value, after2: seq<u8>)
    requires Counted(v) && Counted(w) && Blob(v) + after == Blob(w) + after2
    ensures v == w && after == after2
  {
    hide Blob, Counted;
    var bytes := Blob(v) + after;
    assert bytes[..|Blob(v)|] == Blob(v) && bytes[..|Blob(w)|] == Blob(w);
    ValuesAgree(bytes, 0, v, w);
    assert bytes[|Blob(v)|..] == after && bytes[|Blob(w)|..] == after2;
  }

  /** Whatever a decoder keeps is counted, so storable values are covered. */
  lemma {:induction false} FitsIsCounted(v: Value)
    requires Fits(v)
    ensures Counted(v)
    decreases v, 1
  {
    match v {
      case Array(items) => AllFitIsCounted(items);
      case Row(fields) => AllFitIsCounted(fields);
      case Map(entries) => EntriesFitIsCounted(entries);
      case _ =>
    }
  }

  lemma {:induction false} AllFitIsCounted(items: seq<Value>)
    requires AllFit(items)
    ensures AllCounted(items)
    decreases items, 0
  {
    if items != [] {
      FitsIsCounted(items[0]);
      AllFitIsCounted(items[1..]);
    }
  }

  lemma {:induction false} EntriesFitIsCounted(entries: seq<Entry>)
    requires EntriesFit(entries)
    ensures EntriesCounted(entries)
    decreases entries, 0
  {
    if entries != [] {
      EntryFitIsCounted(entries[0]);
      EntriesFitIsCounted(entries[1..]);
    }
  }

  lemma {:induction false} EntryFitIsCounted(entry: Entry)
    requires EntryFits(entry)
    ensures EntryCounted(entry)
    decreases entry, 0
  {
    FitsIsCounted(entry.key);
    FitsIsCounted(entry.item);
  }

  /** A count of 2^32 is cut to zero, and the blob of the empty array starts that of the full one. */
  lemma CutCountIsPrefix(items: seq<Value>)
    requires |items| == U32_MODULUS
    ensures Blob(Array([])) <= Blob(Array(items)) && |Blob(Array([]))| < |Blob(Array(items))|
  {
    hide LittleEndian;
    assert Length32(|items|) == Length32(0);
    assert Blob(Array([])) == [TAG_ARRAY] + Length32(0) by {
      assert Length32(0) + [] == Length32(0);
    }
    assert Blob(Array(items)) == [TAG_ARRAY] + Length32(0) + BlobOfAll(items);
    assert |BlobOfAll(items)| > 0;
  }
}
