/** The decoder as it runs: a cursor whose position and depth change in place. */
module TaggedReader {
  import opened Machine
  import opened Wrappers
  import opened Values
  import opened TaggedFormat
  import opened TaggedDecoding
  import Utf8

  /**
   The cursor did what the specification says: on success it returned its value and stopped where
   it stops; on damage it reported the same cause, and moved forward within the bytes at most.
   */
  ghost predicate Follows<T>(spec: Parsed<T>, r: Result<T, Damage>, before: nat, after: nat, length: nat) {
    match spec
    case Done(v, next) => r == Ok(v) && after == next
    case Damaged(cause) => r == Err(cause) && before <= after <= length
  }

  class Reader {
    const bytes: Slice
    var position: nat
    var depth: nat

    ghost predicate Valid()
      reads this
    {
      position <= |bytes|
    }

    constructor (bytes: Slice)
      ensures Valid() && this.bytes == bytes && position == 0 && depth == 0
    {
      this.bytes := bytes;
      position := 0;
      depth := 0;
    }

    predicate IsEmpty()
      reads this
    {
      position >= |bytes|
    }

    method Take(count: nat) returns (r: Result<seq<u8>, Damage>)
      requires Valid()
      modifies this`position
      ensures Valid() && Follows(TakeAt(bytes, old(position), count), r, old(position), position, |bytes|)
      ensures r.Err? ==> position == old(position)
    {
      var end := position + count;
      if end > USIZE_MAX {
        return Err(LengthOverflow);
      }
      if end > |bytes| {
        return Err(Truncated(count, position, |bytes|));
      }
      r := Ok(bytes[position..end]);
      position := end;
    }

    method U8() returns (r: Result<u8, Damage>)
      requires Valid()
      modifies this`position
      ensures Valid() && Follows(ByteAt(bytes, old(position)), r, old(position), position, |bytes|)
    {
      var b :- Take(1);
      r := Ok(b[0]);
    }

    method U32() returns (r: Result<u32, Damage>)
      requires Valid()
      modifies this`position
      ensures Valid() && Follows(U32At(bytes, old(position)), r, old(position), position, |bytes|)
    {
      var b :- Take(4);
      FromLittleEndianRoundTrip(b);
      Pow256Values();
      r := Ok(FromLittleEndian(b));
    }

    method I32() returns (r: Result<i32, Damage>)
      requires Valid()
      modifies this`position
      ensures Valid() && Follows(I32At(bytes, old(position)), r, old(position), position, |bytes|)
    {
      hide U32At;
      var n :- U32();
      Pow256Values();
      r := Ok(AsSigned(n, 4));
    }

    method U64() returns (r: Result<u64, Damage>)
      requires Valid()
      modifies this`position
      ensures Valid() && Follows(U64At(bytes, old(position)), r, old(position), position, |bytes|)
    {
      var b :- Take(8);
      FromLittleEndianRoundTrip(b);
      Pow256Values();
      r := Ok(FromLittleEndian(b));
    }

    method I64() returns (r: Result<i64, Damage>)
      requires Valid()
      modifies this`position
      ensures Valid() && Follows(I64At(bytes, old(position)), r, old(position), position, |bytes|)
    {
      hide U64At;
      var n :- U64();
      Pow256Values();
      r := Ok(AsSigned(n, 8));
    }

    method I128() returns (r: Result<i128, Damage>)
      requires Valid()
      modifies this`position
      ensures Valid() && Follows(I128At(bytes, old(position)), r, old(position), position, |bytes|)
    {
      var b :- Take(16);
      FromLittleEndianRoundTrip(b);
      Pow256Values();
      r := Ok(AsSigned(FromLittleEndian(b), 16));
    }

    method LengthPrefixed() returns (r: Result<seq<u8>, Damage>)
      requires Valid()
      modifies this`position
      ensures Valid() && Follows(PrefixedAt(bytes, old(position)), r, old(position), position, |bytes|)
    {
      hide U32At;
      var length :- U32();
      if length > MAX_LENGTH {
        return Err(TooLong(length));
      }
      r := Take(length);
    }

    method Text() returns (r: Result<string, Damage>)
      requires Valid()
      modifies this`position
      ensures Valid() && Follows(TextAt(bytes, old(position)), r, old(position), position, |bytes|)
    {
      hide PrefixedAt;
      var b :- LengthPrefixed();
      match Utf8.Decode(b) {
        case Some(text) => r := Ok(text);
        case None => r := Err(InvalidText);
      }
    }

    method DecodeTimestamp() returns (r: Result<Value, Damage>)
      requires Valid()
      modifies this`position
      ensures Valid() && Follows(TimestampAt(bytes, old(position)), r, old(position), position, |bytes|)
    {
      hide I64At, I32At;
      var micros :- I64();
      var flag :- U8();
      match flag {
        case 0 => r := Ok(Timestamp(micros, None));
        case 1 =>
          var secs :- I32();
          r := Ok(Timestamp(micros, Some(secs)));
        case _ => r := Err(BadOffsetFlag(flag));
      }
    }

    method DecodeUnknown() returns (r: Result<Value, Damage>)
      requires Valid()
      modifies this`position
      ensures Valid() && Follows(UnknownAt(bytes, old(position)), r, old(position), position, |bytes|)
    {
      hide TextAt, PrefixedAt;
      var typeName :- Text();
      var flags :- U8();
      if flags > HAS_TEXT + HAS_RAW {
        return Err(BadPresenceFlags(flags));
      }
      var shown: Option<string> := None;
      if flags % 2 == 1 {
        var text :- Text();
        shown := Some(text);
      }
      var raw: Option<seq<u8>> := None;
      if flags / 2 == 1 {
        var b :- LengthPrefixed();
        raw := Some(b);
      }
      r := Ok(Unknown(typeName, shown, raw));
    }

    /** The arms whose values have no children. */
    method DecodeLeaf(tag: u8) returns (r: Result<Value, Damage>)
      requires Valid()
      modifies this`position
      ensures Valid() && Follows(LeafAt(bytes, old(position), tag), r, old(position), position, |bytes|)
    {
      hide TextAt, PrefixedAt, TimestampAt, UnknownAt, I64At, I32At, U64At, I128At;
      match tag {
        case TAG_NULL => r := Ok(Null);
        case TAG_BOOL =>
          var flag :- U8();
          r := Ok(Bool(flag != 0));
        case TAG_INT =>
          var n :- I64();
          r := Ok(Int(n));
        case TAG_UINT =>
          var n :- U64();
          r := Ok(UInt(n));
        case TAG_FLOAT =>
          var bits :- U64();
          r := Ok(Float(bits));
        case TAG_DECIMAL =>
          var unscaled :- I128();
          var scale :- U8();
          r := Ok(Decimal(unscaled, scale));
        case TAG_TEXT =>
          var text :- Text();
          r := Ok(Values.Text(text));
        case TAG_BYTES =>
          var b :- LengthPrefixed();
          r := Ok(Bytes(b));
        case TAG_JSON =>
          var text :- Text();
          r := Ok(Json(text));
        case TAG_TIMESTAMP => r := DecodeTimestamp();
        case TAG_DATE =>
          var days :- I32();
          r := Ok(Date(days));
        case TAG_TIME =>
          var micros :- I64();
          r := Ok(Time(micros));
        case TAG_INTERVAL =>
          var months :- I32();
          var days :- I32();
          var micros :- I64();
          r := Ok(Interval(IntervalValue(months, days, micros)));
        case TAG_UNKNOWN => r := DecodeUnknown();
        case _ => r := Err(BadTag(tag));
      }
    }

    /** One value; the depth is the same afterwards, whether it was read or refused. */
    method DecodeValue() returns (r: Result<Value, Damage>)
      requires Valid()
      modifies this`position, this`depth
      ensures Valid() && depth == old(depth)
      ensures Follows(ValueAt(bytes, old(position), old(depth)), r, old(position), position, |bytes|)
      decreases |bytes| - position, 0, 0
    {
      hide LeafAt;
      var tag :- U8();
      match tag {
        case TAG_ARRAY =>
          var items :- DecodeComposite();
          r := Ok(Array(items));
        case TAG_ROW =>
          var fields :- DecodeComposite();
          r := Ok(Row(fields));
        case TAG_MAP =>
          var entries :- DecodeEntries();
          r := Ok(Map(entries));
        case _ => r := DecodeLeaf(tag);
      }
    }

    method DecodeComposite() returns (r: Result<seq<Value>, Damage>)
      requires Valid()
      modifies this`position, this`depth
      ensures Valid() && depth == old(depth)
      ensures Follows(CountedAt(bytes, old(position), old(depth)), r, old(position), position, |bytes|)
      decreases |bytes| - position, 0, 0
    {
      hide U32At, NestedAt;
      var count :- U32();
      ghost var spec := AllAt(bytes, position, depth, count);
      assert spec.Done? ==> [] + spec.value == spec.value;
      ghost var start := position;
      var items: seq<Value> := [];
      while |items| < count
        invariant Valid() && start <= position && depth == old(depth) && |items| <= count
        invariant var rest := AllAt(bytes, position, depth, count - |items|);
                  spec == if rest.Done? then Done(items + rest.value, rest.next) else rest
      {
        ghost var rest := AllAt(bytes, position, depth, count - |items|);
        ghost var had := items;
        var item :- DecodeNested();
        items := items + [item];
        ghost var after := AllAt(bytes, position, depth, count - |items|);
        assert after.Done? ==> had + rest.value == items + after.value;
      }
      assert items + [] == items;
      r := Ok(items);
    }

    method DecodeEntries() returns (r: Result<seq<Entry>, Damage>)
      requires Valid()
      modifies this`position, this`depth
      ensures Valid() && depth == old(depth)
      ensures Follows(CountedEntriesAt(bytes, old(position), old(depth)), r, old(position), position, |bytes|)
      decreases |bytes| - position, 0, 0
    {
      hide U32At, NestedAt;
      var count :- U32();
      ghost var spec := EntriesAt(bytes, position, depth, count);
      assert spec.Done? ==> [] + spec.value == spec.value;
      ghost var start := position;
      var entries: seq<Entry> := [];
      while |entries| < count
        invariant Valid() && start <= position && depth == old(depth) && |entries| <= count
        invariant var rest := EntriesAt(bytes, position, depth, count - |entries|);
                  spec == if rest.Done? then Done(entries + rest.value, rest.next) else rest
      {
        ghost var rest := EntriesAt(bytes, position, depth, count - |entries|);
        ghost var had := entries;
        var key :- DecodeNested();
        var item :- DecodeNested();
        entries := entries + [Entry(key, item)];
        ghost var after := EntriesAt(bytes, position, depth, count - |entries|);
        assert after.Done? ==> had + rest.value == entries + after.value;
      }
      assert entries + [] == entries;
      r := Ok(entries);
    }

    method DecodeNested() returns (r: Result<Value, Damage>)
      requires Valid()
      modifies this`position, this`depth
      ensures Valid() && depth == old(depth)
      ensures Follows(NestedAt(bytes, old(position), old(depth)), r, old(position), position, |bytes|)
      decreases |bytes| - position, 0, 1
    {
      if depth >= MAX_DEPTH {
        return Err(TooDeep);
      }
      depth := depth + 1;
      r := DecodeValue();
      depth := depth - 1;
    }
  }
}
