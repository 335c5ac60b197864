/** The encoder as it runs: every field is pushed onto a buffer that only grows. */
module TaggedCodec {
  import opened Machine
  import opened Wrappers
  import opened Values
  import opened TaggedFormat
  import opened TaggedDecoding
  import Utf8

  // ---------------------------------------------------------------- encoding

  lemma JoinFields(a: seq<u8>, b: seq<u8>, c: seq<u8>, d: seq<u8>)
    ensures a + b + c + d == a + (b + (c + d))
  {
  }

  class ByteBuffer {
    var data: seq<u8>

    constructor ()
      ensures data == []
    {
      data := [];
    }

    method Push(b: u8)
      modifies this
      ensures data == old(data) + [b]
    {
      data := data + [b];
    }

    method Extend(bytes: seq<u8>)
      modifies this
      ensures data == old(data) + bytes
    {
      data := data + bytes;
    }
  }

  method EncodeValue(out: ByteBuffer, value: Value) returns (r: Result<(), Damage>)
    modifies out
    ensures r.Ok? <==> Nesting(value) <= MAX_DEPTH
    ensures r.Ok? ==> out.data == old(out.data) + Blob(value)
    ensures r.Err? ==> r.error == TooDeep && old(out.data) <= out.data
  {
    r := EncodeAt(out, value, 0);
  }

  /** Refuses exactly the values whose children pass the depth limit; until then the buffer only grows. */
  method EncodeAt(out: ByteBuffer, value: Value, depth: nat) returns (r: Result<(), Damage>)
    modifies out
    ensures r.Ok? <==> depth + Nesting(value) <= MAX_DEPTH
    ensures r.Ok? ==> out.data == old(out.data) + Blob(value)
    ensures r.Err? ==> r.error == TooDeep && old(out.data) <= out.data
    decreases value, 1
  {
    hide SignedBytes, LittleEndian, Length32, Prefixed, Details, OffsetField;
    if depth > MAX_DEPTH {
      return Err(TooDeep);
    }
    match value {
      case Array(items) => r := EncodeComposite(out, TAG_ARRAY, items, depth);
      case Row(fields) => r := EncodeComposite(out, TAG_ROW, fields, depth);
      case Map(entries) => r := EncodeEntries(out, entries, depth);
      case _ =>
        EncodeLeaf(out, value);
        r := Ok(());
    }
    if r.Ok? {
      assert out.data == old(out.data) + Blob(value);
    }
  }

  method EncodeComposite(out: ByteBuffer, tag: u8, items: seq<Value>, depth: nat) returns (r: Result<(), Damage>)
    requires depth <= MAX_DEPTH
    modifies out
    ensures r.Ok? <==> depth + NestingOfAll(items) <= MAX_DEPTH
    ensures r.Ok? ==> out.data == old(out.data) + ([tag] + (Length32(|items|) + BlobOfAll(items)))
    ensures r.Err? ==> r.error == TooDeep && old(out.data) <= out.data
    decreases items, 0
  {
    hide Length32;
    out.Push(tag);
    out.Extend(Length32(|items|));
    ghost var start := out.data;
    var i := 0;
    while i < |items|
      invariant 0 <= i <= |items|
      invariant start <= out.data
      invariant out.data + BlobOfAll(items[i..]) == start + BlobOfAll(items)
      invariant depth + NestingOfAll(items) <= MAX_DEPTH <==> depth + NestingOfAll(items[i..]) <= MAX_DEPTH
    {
      assert items[i..][1..] == items[i + 1..];
      ghost var before := out.data;
      var step := EncodeAt(out, items[i], depth + 1);
      if step.Err? {
        return step;
      }
      assert before + BlobOfAll(items[i..]) == out.data + BlobOfAll(items[i + 1..]);
      i := i + 1;
    }
    assert items[i..] == [] && out.data + [] == out.data;
    JoinFields(old(out.data), [tag], Length32(|items|), BlobOfAll(items));
    r := Ok(());
  }

  method EncodeEntries(out: ByteBuffer, entries: seq<Entry>, depth: nat) returns (r: Result<(), Damage>)
    requires depth <= MAX_DEPTH
    modifies out
    ensures r.Ok? <==> depth + NestingOfEntries(entries) <= MAX_DEPTH
    ensures r.Ok? ==> out.data == old(out.data) + ([TAG_MAP] + (Length32(|entries|) + BlobOfEntries(entries)))
    ensures r.Err? ==> r.error == TooDeep && old(out.data) <= out.data
    decreases entries, 0
  {
    hide Length32;
    out.Push(TAG_MAP);
    out.Extend(Length32(|entries|));
    ghost var start := out.data;
    var i := 0;
    while i < |entries|
      invariant 0 <= i <= |entries|
      invariant start <= out.data
      invariant out.data + BlobOfEntries(entries[i..]) == start + BlobOfEntries(entries)
      invariant depth + NestingOfEntries(entries) <= MAX_DEPTH <==> depth + NestingOfEntries(entries[i..]) <= MAX_DEPTH
    {
      assert entries[i..][1..] == entries[i + 1..];
      ghost var before := out.data;
      var step := EncodeEntry(out, entries[i], depth + 1);
      if step.Err? {
        return step;
      }
      assert before + BlobOfEntries(entries[i..]) == out.data + BlobOfEntries(entries[i + 1..]);
      i := i + 1;
    }
    assert entries[i..] == [] && out.data + [] == out.data;
    JoinFields(old(out.data), [TAG_MAP], Length32(|entries|), BlobOfEntries(entries));
    r := Ok(());
  }

  method EncodeEntry(out: ByteBuffer, entry: Entry, depth: nat) returns (r: Result<(), Damage>)
    modifies out
    ensures r.Ok? <==> depth + NestingOfEntry(entry) <= MAX_DEPTH
    ensures r.Ok? ==> out.data == old(out.data) + BlobOfEntry(entry)
    ensures r.Err? ==> r.error == TooDeep && old(out.data) <= out.data
    decreases entry, 0
  {
    r := EncodeAt(out, entry.key, depth);
    if r.Ok? {
      r := EncodeAt(out, entry.item, depth);
    }
  }

  method EncodeBytes(out: ByteBuffer, bytes: seq<u8>)
    modifies out
    ensures out.data == old(out.data) + Prefixed(bytes)
  {
    out.Extend(Length32(|bytes|));
    out.Extend(bytes);
  }

  method EncodeUnknown(out: ByteBuffer, typeName: string, shown: Option<string>, raw: Option<seq<u8>>)
    modifies out
    ensures out.data == old(out.data) + ([TAG_UNKNOWN] + (Prefixed(Utf8.Encode(typeName)) + Details(shown, raw)))
  {
    hide Prefixed, Details;
    out.Push(TAG_UNKNOWN);
    EncodeBytes(out, Utf8.Encode(typeName));
    EncodeDetails(out, shown, raw);
    JoinFields(old(out.data), [TAG_UNKNOWN], Prefixed(Utf8.Encode(typeName)), Details(shown, raw));
  }

  method EncodeDetails(out: ByteBuffer, shown: Option<string>, raw: Option<seq<u8>>)
    modifies out
    ensures out.data == old(out.data) + Details(shown, raw)
  {
    hide Prefixed;
    var flags: u8 := 0;
    if shown.Some? {
      flags := flags + HAS_TEXT;
    }
    if raw.Some? {
      flags := flags + HAS_RAW;
    }
    out.Push(flags);
    if shown.Some? {
      EncodeBytes(out, Utf8.Encode(shown.value));
    }
    if raw.Some? {
      EncodeBytes(out, raw.value);
    }
    JoinFields(old(out.data), [flags], OptionalText(shown), OptionalBytes(raw));
  }

  method EncodeLeaf(out: ByteBuffer, value: Value)
    requires !Composite(value)
    modifies out
    ensures out.data == old(out.data) + Blob(value)
  {
    hide Details, Prefixed, SignedBytes, LittleEndian;
    match value {
      case Null => out.Push(TAG_NULL);
      case Bool(flag) =>
        out.Push(TAG_BOOL);
        out.Push(if flag then 1 else 0);
      case Int(n) =>
        out.Push(TAG_INT);
        out.Extend(SignedBytes(n, 8));
      case UInt(n) =>
        out.Push(TAG_UINT);
        out.Extend(LittleEndian(n, 8));
      case Float(bits) =>
        out.Push(TAG_FLOAT);
        out.Extend(LittleEndian(bits, 8));
      case Decimal(unscaled, scale) =>
        out.Push(TAG_DECIMAL);
        out.Extend(SignedBytes(unscaled, 16));
        out.Push(scale);
      case Text(text) =>
        out.Push(TAG_TEXT);
        EncodeBytes(out, Utf8.Encode(text));
      case Bytes(bytes) =>
        out.Push(TAG_BYTES);
        EncodeBytes(out, bytes);
      case Timestamp(micros, offset) => EncodeTimestamp(out, micros, offset);
      case Date(days) =>
        out.Push(TAG_DATE);
        out.Extend(SignedBytes(days, 4));
      case Time(micros) =>
        out.Push(TAG_TIME);
        out.Extend(SignedBytes(micros, 8));
      case Interval(interval) => EncodeInterval(out, interval);
      case Json(text) =>
        out.Push(TAG_JSON);
        EncodeBytes(out, Utf8.Encode(text));
      case Unknown(typeName, shown, raw) => EncodeUnknown(out, typeName, shown, raw);
    }
  }

  method EncodeTimestamp(out: ByteBuffer, micros: i64, offset: Option<i32>)
    modifies out
    ensures out.data == old(out.data) + ([TAG_TIMESTAMP] + (SignedBytes(micros, 8) + OffsetField(offset)))
  {
    hide SignedBytes;
    out.Push(TAG_TIMESTAMP);
    out.Extend(SignedBytes(micros, 8));
    match offset {
      case Some(secs) =>
        // A zone at offset zero still writes its flag and its four bytes.
        out.Push(1);
        out.Extend(SignedBytes(secs, 4));
      case None => out.Push(0);
    }
    JoinFields(old(out.data), [TAG_TIMESTAMP], SignedBytes(micros, 8), OffsetField(offset));
  }

  method EncodeInterval(out: ByteBuffer, i: IntervalValue)
    modifies out
    ensures out.data == old(out.data) + Blob(Interval(i))
  {
    hide SignedBytes;
    out.Push(TAG_INTERVAL);
    out.Extend(SignedBytes(i.months, 4));
    out.Extend(SignedBytes(i.days, 4));
    out.Extend(SignedBytes(i.micros, 8));
    JoinFields(old(out.data), [TAG_INTERVAL], SignedBytes(i.months, 4), SignedBytes(i.days, 4) + SignedBytes(i.micros, 8));
  }
}
