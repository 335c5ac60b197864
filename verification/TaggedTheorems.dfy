/** What the tagged codec guarantees, for every value and for every byte string. */
module TaggedTheorems {
  import opened Machine
  import opened Wrappers
  import opened Values
  import opened TaggedFormat
  import opened TaggedDecoding
  import Utf8

  /** `part` lies in `bytes` at `p`. */
  predicate Holds(bytes: seq<u8>, p: nat, part: seq<u8>) {
    p + |part| <= |bytes| && bytes[p..p + |part|] == part
  }

  /** The parser reads exactly `x`, whatever position it stops at. */
  predicate Reads<T(==)>(r: Parsed<T>, x: T) {
    r.Done? && r.value == x
  }

  /**
   The byte strings that stand for a value: its blob, except that any non-zero byte says `true`.
   */
  predicate AcceptedAt(bytes: seq<u8>, p: nat, v: Value)
    decreases v, 1
  {
    Holds(bytes, p, [Tag(v)]) && BodyAcceptedAt(bytes, p + 1, v)
  }

  predicate BodyAcceptedAt(bytes: seq<u8>, q: nat, v: Value)
    decreases v, 0
  {
    match v
    case Bool(flag) => q < |bytes| && (bytes[q] != 0) == flag
    case Array(items) => Holds(bytes, q, Length32(|items|)) && AllAcceptedAt(bytes, q + 4, items)
    case Row(fields) => Holds(bytes, q, Length32(|fields|)) && AllAcceptedAt(bytes, q + 4, fields)
    case Map(entries) => Holds(bytes, q, Length32(|entries|)) && EntriesAcceptedAt(bytes, q + 4, entries)
    case _ => Holds(bytes, q, Body(v))
  }

  predicate AllAcceptedAt(bytes: seq<u8>, p: nat, items: seq<Value>)
    decreases items, 0
  {
    items == [] ||
    (AcceptedAt(bytes, p, items[0]) && AllAcceptedAt(bytes, p + |Blob(items[0])|, items[1..]))
  }

  predicate EntryAcceptedAt(bytes: seq<u8>, p: nat, entry: Entry)
    decreases entry, 0
  {
    AcceptedAt(bytes, p, entry.key) && AcceptedAt(bytes, p + |Blob(entry.key)|, entry.item)
  }

  predicate EntriesAcceptedAt(bytes: seq<u8>, p: nat, entries: seq<Entry>)
    decreases entries, 0
  {
    entries == [] ||
    (EntryAcceptedAt(bytes, p, entries[0]) && EntriesAcceptedAt(bytes, p + |BlobOfEntry(entries[0])|, entries[1..]))
  }

  // ---------------------------------------------------------------- fields

  lemma HoldsJoin(bytes: seq<u8>, p: nat, a: seq<u8>, b: seq<u8>)
    ensures Holds(bytes, p, a + b) <==> Holds(bytes, p, a) && Holds(bytes, p + |a|, b)
  {
    if p + |a| + |b| <= |bytes| {
      var all := bytes[p..p + |a| + |b|];
      assert all[..|a|] == bytes[p..p + |a|] && all[|a|..] == bytes[p + |a|..p + |a| + |b|];
      assert all == all[..|a|] + all[|a|..];
      assert (a + b)[..|a|] == a && (a + b)[|a|..] == b;
    }
  }

  lemma ByteExact(bytes: Slice, p: nat, b: u8)
    requires p <= |bytes|
    ensures Reads(ByteAt(bytes, p), b) <==> Holds(bytes, p, [b])
  {
  }

  lemma TakeExact(bytes: Slice, p: nat, b: seq<u8>)
    requires p <= |bytes|
    ensures Reads(TakeAt(bytes, p, |b|), b) <==> Holds(bytes, p, b)
  {
  }

  lemma NumberExact(bytes: Slice, p: nat, width: nat, n: nat)
    requires p <= |bytes|
    ensures Reads(NumberAt(bytes, p, width), n) <==> n < Pow256(width) && Holds(bytes, p, LittleEndian(n, width))
  {
    if n < Pow256(width) {
      LittleEndianRoundTrip(n, width);
    }
    if p + width <= |bytes| {
      FromLittleEndianRoundTrip(bytes[p..p + width]);
    }
  }

  lemma U32Exact(bytes: Slice, p: nat, n: u32)
    requires p <= |bytes|
    ensures Reads(U32At(bytes, p), n) <==> Holds(bytes, p, LittleEndian(n, 4))
  {
    Pow256Values();
    NumberExact(bytes, p, 4, n);
  }

  lemma CountExact(bytes: Slice, p: nat, count: u32)
    requires p <= |bytes|
    ensures Reads(U32At(bytes, p), count) <==> Holds(bytes, p, Length32(count))
  {
    U32Exact(bytes, p, count);
  }

  lemma U64Exact(bytes: Slice, p: nat, n: u64)
    requires p <= |bytes|
    ensures Reads(U64At(bytes, p), n) <==> Holds(bytes, p, LittleEndian(n, 8))
  {
    Pow256Values();
    NumberExact(bytes, p, 8, n);
  }

  lemma SignedExact(bytes: Slice, p: nat, width: nat, n: int)
    requires p <= |bytes| && FitsSigned(n, width)
    ensures (NumberAt(bytes, p, width).Done? && AsSigned(NumberAt(bytes, p, width).value, width) == n)
            <==> Holds(bytes, p, SignedBytes(n, width))
  {
    SignedRoundTrip(n, width);
    if p + width <= |bytes| {
      FromSignedRoundTrip(bytes[p..p + width]);
    }
  }

  lemma I32Exact(bytes: Slice, p: nat, n: i32)
    requires p <= |bytes|
    ensures Reads(I32At(bytes, p), n) <==> Holds(bytes, p, SignedBytes(n, 4))
  {
    Pow256Values();
    SignedExact(bytes, p, 4, n);
  }

  lemma I64Exact(bytes: Slice, p: nat, n: i64)
    requires p <= |bytes|
    ensures Reads(I64At(bytes, p), n) <==> Holds(bytes, p, SignedBytes(n, 8))
  {
    Pow256Values();
    SignedExact(bytes, p, 8, n);
  }

  lemma I128Exact(bytes: Slice, p: nat, n: i128)
    requires p <= |bytes|
    ensures Reads(I128At(bytes, p), n) <==> Holds(bytes, p, SignedBytes(n, 16))
  {
    Pow256Values();
    SignedExact(bytes, p, 16, n);
  }

  lemma PrefixedExact(bytes: Slice, p: nat, b: seq<u8>)
    requires p <= |bytes|
    ensures Reads(PrefixedAt(bytes, p), b) <==> |b| <= MAX_LENGTH && Holds(bytes, p, Prefixed(b))
    ensures Reads(PrefixedAt(bytes, p), b) ==> PrefixedAt(bytes, p).next == p + |Prefixed(b)|
  {
    hide Pow256, LittleEndian;
    HoldsJoin(bytes, p, Length32(|b|), b);
    if |b| <= MAX_LENGTH {
      CountExact(bytes, p, |b|);
      if p + 4 <= |bytes| {
        TakeExact(bytes, p + 4, b);
      }
    }
  }

  lemma TextExact(bytes: Slice, p: nat, text: string)
    requires p <= |bytes|
    ensures Reads(TextAt(bytes, p), text) <==> TextFits(text) && Holds(bytes, p, Prefixed(Utf8.Encode(text)))
    ensures Reads(TextAt(bytes, p), text) ==> TextAt(bytes, p).next == p + |Prefixed(Utf8.Encode(text))|
  {
    PrefixedExact(bytes, p, Utf8.Encode(text));
    Utf8.DecodeOfEncode(text);
    var r := PrefixedAt(bytes, p);
    if r.Done? && Utf8.Decode(r.value) == Some(text) {
      Utf8.EncodeOfDecode(r.value);
    }
  }

  lemma OffsetExact(bytes: Slice, p: nat, offset: Option<i32>)
    requires p <= |bytes|
    ensures Reads(OffsetAt(bytes, p), offset) <==> Holds(bytes, p, OffsetField(offset))
    ensures Reads(OffsetAt(bytes, p), offset) ==> OffsetAt(bytes, p).next == p + |OffsetField(offset)|
  {
    match offset
    case None => ByteExact(bytes, p, 0);
    case Some(secs) =>
      ByteExact(bytes, p, 1);
      HoldsJoin(bytes, p, [1], SignedBytes(secs, 4));
      if p < |bytes| {
        I32Exact(bytes, p + 1, secs);
      }
  }

  lemma TimestampExact(bytes: Slice, p: nat, micros: i64, offset: Option<i32>)
    requires p <= |bytes|
    ensures Reads(TimestampAt(bytes, p), Timestamp(micros, offset))
            <==> Holds(bytes, p, SignedBytes(micros, 8) + OffsetField(offset))
    ensures Reads(TimestampAt(bytes, p), Timestamp(micros, offset))
            ==> TimestampAt(bytes, p).next == p + 8 + |OffsetField(offset)|
  {
    HoldsJoin(bytes, p, SignedBytes(micros, 8), OffsetField(offset));
    I64Exact(bytes, p, micros);
    if p + 8 <= |bytes| {
      OffsetExact(bytes, p + 8, offset);
    }
  }

  lemma DecimalExact(bytes: Slice, p: nat, unscaled: i128, scale: u8)
    requires p <= |bytes|
    ensures Reads(DecimalAt(bytes, p), Decimal(unscaled, scale)) <==> Holds(bytes, p, SignedBytes(unscaled, 16) + [scale])
    ensures Reads(DecimalAt(bytes, p), Decimal(unscaled, scale)) ==> DecimalAt(bytes, p).next == p + 17
  {
    HoldsJoin(bytes, p, SignedBytes(unscaled, 16), [scale]);
    I128Exact(bytes, p, unscaled);
    if p + 16 <= |bytes| {
      ByteExact(bytes, p + 16, scale);
    }
  }

  lemma IntervalExact(bytes: Slice, p: nat, i: IntervalValue)
    requires p <= |bytes|
    ensures Reads(IntervalAt(bytes, p), Interval(i))
            <==> Holds(bytes, p, SignedBytes(i.months, 4) + (SignedBytes(i.days, 4) + SignedBytes(i.micros, 8)))
    ensures Reads(IntervalAt(bytes, p), Interval(i)) ==> IntervalAt(bytes, p).next == p + 16
  {
    HoldsJoin(bytes, p, SignedBytes(i.months, 4), SignedBytes(i.days, 4) + SignedBytes(i.micros, 8));
    HoldsJoin(bytes, p + 4, SignedBytes(i.days, 4), SignedBytes(i.micros, 8));
    I32Exact(bytes, p, i.months);
    if p + 4 <= |bytes| {
      I32Exact(bytes, p + 4, i.days);
    }
    if p + 8 <= |bytes| {
      I64Exact(bytes, p + 8, i.micros);
    }
  }

  lemma OptionalTextExact(bytes: Slice, p: nat, shown: Option<string>)
    requires p <= |bytes|
    ensures Reads(OptionalTextAt(bytes, p, shown.Some?), shown)
            <==> (shown.Some? ==> TextFits(shown.value)) && Holds(bytes, p, OptionalText(shown))
    ensures Reads(OptionalTextAt(bytes, p, shown.Some?), shown)
            ==> OptionalTextAt(bytes, p, shown.Some?).next == p + |OptionalText(shown)|
  {
    if shown.Some? {
      TextExact(bytes, p, shown.value);
    }
  }

  lemma OptionalBytesExact(bytes: Slice, p: nat, raw: Option<seq<u8>>)
    requires p <= |bytes|
    ensures Reads(OptionalBytesAt(bytes, p, raw.Some?), raw)
            <==> (raw.Some? ==> |raw.value| <= MAX_LENGTH) && Holds(bytes, p, OptionalBytes(raw))
    ensures Reads(OptionalBytesAt(bytes, p, raw.Some?), raw)
            ==> OptionalBytesAt(bytes, p, raw.Some?).next == p + |OptionalBytes(raw)|
  {
    if raw.Some? {
      PrefixedExact(bytes, p, raw.value);
    }
  }

  lemma PartsExact(bytes: Slice, p: nat, shown: Option<string>, raw: Option<seq<u8>>)
    requires p <= |bytes|
    ensures var r := PartsAt(bytes, p, shown.Some?, raw.Some?);
            var parts := OptionalText(shown) + OptionalBytes(raw);
            && (Reads(r, (shown, raw)) <==> DetailsFit(shown, raw) && Holds(bytes, p, parts))
            && (Reads(r, (shown, raw)) ==> r.next == p + |parts|)
  {
    HoldsJoin(bytes, p, OptionalText(shown), OptionalBytes(raw));
    OptionalTextExact(bytes, p, shown);
    var r := OptionalTextAt(bytes, p, shown.Some?);
    if Reads(r, shown) {
      OptionalBytesExact(bytes, r.next, raw);
    }
  }

  lemma DetailsExact(bytes: Slice, p: nat, shown: Option<string>, raw: Option<seq<u8>>)
    requires p <= |bytes|
    ensures Reads(DetailsAt(bytes, p), (shown, raw)) <==> DetailsFit(shown, raw) && Holds(bytes, p, Details(shown, raw))
    ensures Reads(DetailsAt(bytes, p), (shown, raw)) ==> DetailsAt(bytes, p).next == p + |Details(shown, raw)|
  {
    hide PartsAt, OptionalText, OptionalBytes;
    var flags := PresenceFlags(shown, raw);
    var parts := OptionalText(shown) + OptionalBytes(raw);
    HoldsJoin(bytes, p, [flags], parts);
    ByteExact(bytes, p, flags);
    if p < |bytes| {
      PartsExact(bytes, p + 1, shown, raw);
      assert bytes[p] <= HAS_TEXT + HAS_RAW && (bytes[p] % 2 == 1) == shown.Some? && (bytes[p] / 2 == 1) == raw.Some?
             <==> bytes[p] == flags;
    }
  }

  lemma UnknownExact(bytes: Slice, p: nat, typeName: string, shown: Option<string>, raw: Option<seq<u8>>)
    requires p <= |bytes|
    ensures var v := Unknown(typeName, shown, raw);
            var name := Prefixed(Utf8.Encode(typeName));
            && (Reads(UnknownAt(bytes, p), v)
                <==> TextFits(typeName) && DetailsFit(shown, raw)
                     && Holds(bytes, p, name) && Holds(bytes, p + |name|, Details(shown, raw)))
            && (Reads(UnknownAt(bytes, p), v) ==> UnknownAt(bytes, p).next == p + |name| + |Details(shown, raw)|)
  {
    hide TextAt, DetailsAt, Holds, Details, Prefixed;
    TextExact(bytes, p, typeName);
    var r := TextAt(bytes, p);
    if Reads(r, typeName) {
      DetailsExact(bytes, r.next, shown, raw);
    }
  }

  // ---------------------------------------------------------------- values

  predicate Scalar(v: Value) {
    v.Null? || v.Bool? || v.Int? || v.UInt? || v.Float? || v.Date? || v.Time?
  }

  lemma ScalarExact(bytes: Slice, q: nat, v: Value)
    requires q <= |bytes| && Scalar(v)
    ensures Reads(ScalarAt(bytes, q, Tag(v)), v) <==> BodyAcceptedAt(bytes, q, v)
    ensures Reads(ScalarAt(bytes, q, Tag(v)), v) ==> ScalarAt(bytes, q, Tag(v)).next == q + |Body(v)|
  {
    match v {
      case Null =>
      case Bool(flag) =>
      case Int(n) => I64Exact(bytes, q, n);
      case UInt(n) => U64Exact(bytes, q, n);
      case Float(bits) => U64Exact(bytes, q, bits);
      case Date(days) => I32Exact(bytes, q, days);
      case Time(micros) => I64Exact(bytes, q, micros);
    }
  }

  lemma LeafExact(bytes: Slice, q: nat, v: Value)
    requires q <= |bytes| && !Composite(v)
    ensures Reads(LeafAt(bytes, q, Tag(v)), v) <==> Fits(v) && BodyAcceptedAt(bytes, q, v)
    ensures Reads(LeafAt(bytes, q, Tag(v)), v) ==> LeafAt(bytes, q, Tag(v)).next == q + |Body(v)|
  {
    hide Holds, Prefixed, Details, DecimalAt, TextAt, PrefixedAt, TimestampAt, IntervalAt, UnknownAt, ScalarAt, SignedBytes, OffsetField;
    match v {
      case Decimal(unscaled, scale) => DecimalExact(bytes, q, unscaled, scale);
      case Text(text) => TextExact(bytes, q, text);
      case Bytes(b) => PrefixedExact(bytes, q, b);
      case Timestamp(micros, offset) => TimestampExact(bytes, q, micros, offset);
      case Interval(i) => IntervalExact(bytes, q, i);
      case Json(text) => TextExact(bytes, q, text);
      case Unknown(typeName, shown, raw) =>
        HoldsJoin(bytes, q, Prefixed(Utf8.Encode(typeName)), Details(shown, raw));
        UnknownExact(bytes, q, typeName, shown, raw);
      case _ => ScalarExact(bytes, q, v);
    }
  }

  lemma {:induction false} ValueExact(bytes: Slice, p: nat, depth: nat, v: Value)
    requires p <= |bytes| && depth <= MAX_DEPTH
    ensures Reads(ValueAt(bytes, p, depth), v)
            <==> AcceptedAt(bytes, p, v) && Fits(v) && depth + Nesting(v) <= MAX_DEPTH
    ensures Reads(ValueAt(bytes, p, depth), v) ==> ValueAt(bytes, p, depth).next == p + |Blob(v)|
    decreases v, 1
  {
    ByteExact(bytes, p, Tag(v));
    if p < |bytes| {
      BodyExact(bytes, p + 1, depth, v);
    }
  }

  lemma {:induction false} BodyExact(bytes: Slice, q: nat, depth: nat, v: Value)
    requires q <= |bytes| && depth <= MAX_DEPTH
    ensures Reads(BodyAt(bytes, q, depth, Tag(v)), v)
            <==> BodyAcceptedAt(bytes, q, v) && Fits(v) && depth + Nesting(v) <= MAX_DEPTH
    ensures Reads(BodyAt(bytes, q, depth, Tag(v)), v) ==> BodyAt(bytes, q, depth, Tag(v)).next == q + |Body(v)|
    decreases v, 0
  {
    hide Length32, LittleEndian, SignedBytes, Prefixed, Details, OffsetField;
    hide Holds, LeafAt, CountedAt, CountedEntriesAt;
    match v {
      case Array(items) => CountedExact(bytes, q, depth, items);
      case Row(fields) => CountedExact(bytes, q, depth, fields);
      case Map(entries) => CountedEntriesExact(bytes, q, depth, entries);
      case _ => LeafExact(bytes, q, v);
    }
  }

  lemma {:induction false} CountedExact(bytes: Slice, q: nat, depth: nat, items: seq<Value>)
    requires q <= |bytes| && depth <= MAX_DEPTH
    ensures Reads(CountedAt(bytes, q, depth), items)
            <==> |items| < U32_MODULUS && Holds(bytes, q, Length32(|items|)) && AllAcceptedAt(bytes, q + 4, items)
                 && AllFit(items) && depth + NestingOfAll(items) <= MAX_DEPTH
    ensures Reads(CountedAt(bytes, q, depth), items) ==> CountedAt(bytes, q, depth).next == q + 4 + |BlobOfAll(items)|
    decreases items, 2
  {
    hide Holds, U32At, Length32;
    if |items| < U32_MODULUS {
      CountExact(bytes, q, |items|);
      if U32At(bytes, q).Done? {
        AllExact(bytes, q + 4, depth, items);
      }
    }
  }

  lemma {:induction false} CountedEntriesExact(bytes: Slice, q: nat, depth: nat, entries: seq<Entry>)
    requires q <= |bytes| && depth <= MAX_DEPTH
    ensures Reads(CountedEntriesAt(bytes, q, depth), entries)
            <==> |entries| < U32_MODULUS && Holds(bytes, q, Length32(|entries|))
                 && EntriesAcceptedAt(bytes, q + 4, entries)
                 && EntriesFit(entries) && depth + NestingOfEntries(entries) <= MAX_DEPTH
    ensures Reads(CountedEntriesAt(bytes, q, depth), entries)
            ==> CountedEntriesAt(bytes, q, depth).next == q + 4 + |BlobOfEntries(entries)|
    decreases entries, 2
  {
    hide Holds, U32At, Length32;
    if |entries| < U32_MODULUS {
      CountExact(bytes, q, |entries|);
      if U32At(bytes, q).Done? {
        EntriesExact(bytes, q + 4, depth, entries);
      }
    }
  }

  lemma {:induction false} NestedExact(bytes: Slice, p: nat, depth: nat, v: Value)
    requires p <= |bytes| && depth <= MAX_DEPTH
    ensures Reads(NestedAt(bytes, p, depth), v)
            <==> AcceptedAt(bytes, p, v) && Fits(v) && depth + 1 + Nesting(v) <= MAX_DEPTH
    ensures Reads(NestedAt(bytes, p, depth), v) ==> NestedAt(bytes, p, depth).next == p + |Blob(v)|
    decreases v, 2
  {
    if depth < MAX_DEPTH {
      ValueExact(bytes, p, depth + 1, v);
    }
  }

  lemma {:induction false} AllExact(bytes: Slice, p: nat, depth: nat, items: seq<Value>)
    requires p <= |bytes| && depth <= MAX_DEPTH
    ensures Reads(AllAt(bytes, p, depth, |items|), items)
            <==> AllAcceptedAt(bytes, p, items) && AllFit(items) && depth + NestingOfAll(items) <= MAX_DEPTH
    ensures Reads(AllAt(bytes, p, depth, |items|), items)
            ==> AllAt(bytes, p, depth, |items|).next == p + |BlobOfAll(items)|
    decreases items, 1
  {
    hide NestedAt;
    if items != [] {
      NestedExact(bytes, p, depth, items[0]);
      var r := NestedAt(bytes, p, depth);
      if Reads(r, items[0]) {
        AllExact(bytes, r.next, depth, items[1..]);
        assert items == [items[0]] + items[1..];
      }
    }
  }

  lemma {:induction false} EntryExact(bytes: Slice, p: nat, depth: nat, entry: Entry)
    requires p <= |bytes| && depth <= MAX_DEPTH
    ensures Reads(EntryAt(bytes, p, depth), entry)
            <==> EntryAcceptedAt(bytes, p, entry) && EntryFits(entry) && depth + 1 + NestingOfEntry(entry) <= MAX_DEPTH
    ensures Reads(EntryAt(bytes, p, depth), entry) ==> EntryAt(bytes, p, depth).next == p + |BlobOfEntry(entry)|
    decreases entry, 1
  {
    hide NestedAt;
    NestedExact(bytes, p, depth, entry.key);
    var r := NestedAt(bytes, p, depth);
    if Reads(r, entry.key) {
      NestedExact(bytes, r.next, depth, entry.item);
    }
  }

  lemma {:induction false} EntriesExact(bytes: Slice, p: nat, depth: nat, entries: seq<Entry>)
    requires p <= |bytes| && depth <= MAX_DEPTH
    ensures Reads(EntriesAt(bytes, p, depth, |entries|), entries)
            <==> EntriesAcceptedAt(bytes, p, entries) && EntriesFit(entries)
                 && depth + NestingOfEntries(entries) <= MAX_DEPTH
    ensures Reads(EntriesAt(bytes, p, depth, |entries|), entries)
            ==> EntriesAt(bytes, p, depth, |entries|).next == p + |BlobOfEntries(entries)|
    decreases entries, 1
  {
    hide EntryAt;
    if entries != [] {
      EntryExact(bytes, p, depth, entries[0]);
      var r := EntryAt(bytes, p, depth);
      if Reads(r, entries[0]) {
        EntriesExact(bytes, r.next, depth, entries[1..]);
        assert entries == [entries[0]] + entries[1..];
      }
    }
  }

  // ---------------------------------------------------------------- blobs

  lemma {:induction false} BlobAccepted(bytes: seq<u8>, p: nat, v: Value)
    requires Holds(bytes, p, Blob(v))
    ensures AcceptedAt(bytes, p, v)
    decreases v, 1
  {
    HoldsJoin(bytes, p, [Tag(v)], Body(v));
    match v {
      case Array(items) =>
        HoldsJoin(bytes, p + 1, Length32(|items|), BlobOfAll(items));
        AllAccepted(bytes, p + 5, items);
      case Row(fields) =>
        HoldsJoin(bytes, p + 1, Length32(|fields|), BlobOfAll(fields));
        AllAccepted(bytes, p + 5, fields);
      case Map(entries) =>
        HoldsJoin(bytes, p + 1, Length32(|entries|), BlobOfEntries(entries));
        EntriesAccepted(bytes, p + 5, entries);
      case _ =>
    }
  }

  lemma {:induction false} AllAccepted(bytes: seq<u8>, p: nat, items: seq<Value>)
    requires Holds(bytes, p, BlobOfAll(items))
    ensures AllAcceptedAt(bytes, p, items)
    decreases items, 0
  {
    if items != [] {
      HoldsJoin(bytes, p, Blob(items[0]), BlobOfAll(items[1..]));
      BlobAccepted(bytes, p, items[0]);
      AllAccepted(bytes, p + |Blob(items[0])|, items[1..]);
    }
  }

  lemma {:induction false} EntryAccepted(bytes: seq<u8>, p: nat, entry: Entry)
    requires Holds(bytes, p, BlobOfEntry(entry))
    ensures EntryAcceptedAt(bytes, p, entry)
    decreases entry, 0
  {
    HoldsJoin(bytes, p, Blob(entry.key), Blob(entry.item));
    BlobAccepted(bytes, p, entry.key);
    BlobAccepted(bytes, p + |Blob(entry.key)|, entry.item);
  }

  lemma {:induction false} EntriesAccepted(bytes: seq<u8>, p: nat, entries: seq<Entry>)
    requires Holds(bytes, p, BlobOfEntries(entries))
    ensures EntriesAcceptedAt(bytes, p, entries)
    decreases entries, 0
  {
    if entries != [] {
      HoldsJoin(bytes, p, BlobOfEntry(entries[0]), BlobOfEntries(entries[1..]));
      EntryAccepted(bytes, p, entries[0]);
      EntriesAccepted(bytes, p + |BlobOfEntry(entries[0])|, entries[1..]);
    }
  }

  lemma {:induction false} BlobCoversNodes(v: Value)
    ensures Nodes(v) <= |Blob(v)|
    decreases v, 1
  {
    match v {
      case Array(items) => BlobsCoverNodes(items);
      case Row(fields) => BlobsCoverNodes(fields);
      case Map(entries) => EntriesCoverNodes(entries);
      case _ =>
    }
  }

  lemma {:induction false} BlobsCoverNodes(items: seq<Value>)
    ensures NodesOfAll(items) <= |BlobOfAll(items)|
    decreases items, 0
  {
    if items != [] {
      BlobCoversNodes(items[0]);
      BlobsCoverNodes(items[1..]);
    }
  }

  lemma {:induction false} EntryCoversNodes(entry: Entry)
    ensures NodesOfEntry(entry) <= |BlobOfEntry(entry)|
    decreases entry, 0
  {
    BlobCoversNodes(entry.key);
    BlobCoversNodes(entry.item);
  }

  lemma {:induction false} EntriesCoverNodes(entries: seq<Entry>)
    ensures NodesOfEntries(entries) <= |BlobOfEntries(entries)|
    decreases entries, 0
  {
    if entries != [] {
      EntryCoversNodes(entries[0]);
      EntriesCoverNodes(entries[1..]);
    }
  }

  // ---------------------------------------------------------------- main results

  /** A value the codec keeps: every string and count within its limit, at most 64 levels of children. */
  predicate Storable(v: Value) {
    Fits(v) && Nesting(v) <= MAX_DEPTH
  }

  /**
   Exactly the storable values come back: decoding a blob, wherever it lies and whatever follows
   it, returns the value and stops at its end if and only if the value is storable.
   */
  lemma RoundTrip(before: seq<u8>, v: Value, after: seq<u8>)
    requires |before + Blob(v) + after| <= ISIZE_MAX
    ensures ValueAt(before + Blob(v) + after, |before|, 0) == Done(v, |before + Blob(v)|) <==> Storable(v)
  {
    hide ValueAt, Blob;
    var bytes := before + Blob(v) + after;
    assert Holds(bytes, |before|, Blob(v));
    BlobAccepted(bytes, |before|, v);
    ValueExact(bytes, |before|, 0, v);
  }

  /**
   On any bytes at all, a success stops after as many bytes as the value's own blob has (so at
   least one for each value in the tree), having read bytes that say that value; the value is
   storable below the depth it was met at, so encoding it again gives bytes that decode to it.
   */
  lemma DecodedIsStorable(bytes: Slice, p: nat, depth: nat)
    requires p <= |bytes| && depth <= MAX_DEPTH && ValueAt(bytes, p, depth).Done?
    ensures var v, next := ValueAt(bytes, p, depth).value, ValueAt(bytes, p, depth).next;
            && next == p + |Blob(v)| && next - p >= Nodes(v)
            && AcceptedAt(bytes, p, v)
            && Fits(v) && depth + Nesting(v) <= MAX_DEPTH
            && |Blob(v)| <= ISIZE_MAX && ValueAt(Blob(v), 0, 0) == Done(v, |Blob(v)|)
  {
    var v := ValueAt(bytes, p, depth).value;
    ValueExact(bytes, p, depth, v);
    BlobCoversNodes(v);
    assert [] + Blob(v) + [] == Blob(v);
    RoundTrip([], v, []);
  }
}
