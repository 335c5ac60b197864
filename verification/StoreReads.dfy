/** What reading a slot gives on any well-typed array, sealed here or not. */
module StoreReads {
  import opened Machine
  import opened Wrappers
  import opened Values
  import opened Zones
  import opened Encodings
  import opened Store
  import TaggedDecoding

  /** `whole` is `part` thousandths, cut towards zero. */
  predicate Thousandth(whole: int, part: int) {
    if part >= 0 then whole * 1000 <= part < whole * 1000 + 1000
    else whole * 1000 - 1000 < part <= whole * 1000
  }

  /** A valid slot under each encoding: the value it holds, or what is wrong with it. */
  predicate ReadSays(dataType: DataType, slot: Physical, enc: Encoding, r: Result<Value, ColumnarError>)
    requires SlotFits(dataType, slot) && Compatible(enc, dataType)
  {
    match enc
    case Null => r == Ok(Value.Null)
    case Bool => r.Ok? && r.value.Bool? && r.value.flag == slot.flag
    case I64 => r.Ok? && r.value.Int? && r.value.signed == slot.n64
    case U64 => r.Ok? && r.value.UInt? && r.value.unsigned == slot.u
    case F64 => r.Ok? && r.value.Float? && r.value.bits == slot.bits
    case Dec =>
      && r.Ok? && r.value.Decimal? && r.value.unscaled == slot.n128
      && r.value.scale == if dataType.scale >= 0 then dataType.scale else 256 + dataType.scale
    case Date => r.Ok? && r.value.Date? && r.value.days == slot.n32
    case Time => r.Ok? && r.value.Time? && r.value.micros == slot.n64
    case Ts => r.Ok? && r.value.Timestamp? && r.value.instant == slot.n64 && r.value.offsetSecs == None
    case Tsz =>
      (match OffsetOf(dataType.zone.value)
       case Some(offset) => InI32(offset) ==> r == Ok(Timestamp(slot.n64, Some(offset)))
       case None => r == Err(Corrupt(BadZone(dataType.zone.value))))
    case Interval =>
      && r.Ok? && r.value.Interval? && r.value.interval.months == slot.months && r.value.interval.days == slot.days
      && Thousandth(r.value.interval.micros, slot.nanos)
    case Text => r.Ok? && r.value.Text? && r.value.text == slot.text
    case Json => r.Ok? && r.value.Json? && r.value.json == slot.text
    case Bytes => r.Ok? && r.value.Bytes? && r.value.bytes == slot.bytes
    case Tagged =>
      (match TaggedDecoding.ValueAt(slot.bytes, 0, 0)
       case Damaged(cause) => r == Err(Corrupt(BadBlob(cause)))
       case Done(v, next) => r == if next == |slot.bytes| then Ok(v) else Err(Corrupt(TrailingBytes)))
  }

  /** A type that cannot hold the encoding is a mismatch, an empty slot a null, and any other slot says what it holds. */
  lemma ReadMeans(arr: ArrowArray, enc: Encoding, row: nat)
    requires WellTyped(arr) && row < |arr.slots|
    ensures !Compatible(enc, arr.dataType) <==> ValueAt(arr, enc, row) == Err(Mismatch(enc, arr.dataType))
    ensures Compatible(enc, arr.dataType) ==>
              match arr.slots[row]
              case None => ValueAt(arr, enc, row) == Ok(Value.Null)
              case Some(slot) => ReadSays(arr.dataType, slot, enc, ValueAt(arr, enc, row))
  {
    hide TaggedDecoding.ValueAt, OffsetOf;
    if Compatible(enc, arr.dataType) && arr.slots[row].Some? && enc == Encoding.Interval {
      Thousandths(arr.slots[row].value.nanos);
    }
  }

  lemma Thousandths(part: int)
    ensures Thousandth(Quot(part, 1000), part)
  {
  }
}
