/** Sealing staged columns into typed arrays, and reading the cells back. */
module Store {
  import opened Machine
  import opened Wrappers
  import opened Values
  import opened Columns
  import opened NumberText
  import opened Zones
  import opened TaggedFormat
  import opened TaggedTheorems
  import opened TaggedCodec
  import TaggedDecoding
  import opened Encodings

  const DECIMAL_LIMIT := 100_000_000_000_000_000_000_000_000_000_000_000_000 // 10^38

  // ---------------------------------------------------------------- arrays

  /** What an Arrow slot holds, by physical type. */
  datatype Physical =
    | PBool(flag: bool)
    | PI32(n32: i32)
    | PI64(n64: i64)
    | PU64(u: u64)
    | PF64(bits: u64)
    | PI128(n128: i128)
    | PMonthDayNano(months: i32, days: i32, nanos: i64)
    | PText(text: string)
    | PBytes(bytes: seq<u8>)

  /** A type and one slot a row; `None` where the validity bitmap says null. */
  datatype ArrowArray = ArrowArray(dataType: DataType, slots: seq<Option<Physical>>)

  predicate SlotFits(dataType: DataType, slot: Physical) {
    match dataType
    case NullType => false
    case Boolean => slot.PBool?
    case Int64 => slot.PI64?
    case UInt64 => slot.PU64?
    case Float64 => slot.PF64?
    case Decimal128(_, _) => slot.PI128?
    case Date32 => slot.PI32?
    case Time64(_) => slot.PI64?
    case TimestampType(_, _) => slot.PI64?
    case IntervalType(unit) => unit == MonthDayNano ==> slot.PMonthDayNano?
    case Utf8Type => slot.PText?
    case Binary => slot.PBytes? && |slot.bytes| <= ISIZE_MAX
    case OtherType(_) => true
  }

  predicate WellTyped(arr: ArrowArray) {
    forall row :: 0 <= row < |arr.slots| && arr.slots[row].Some? ==> SlotFits(arr.dataType, arr.slots[row].value)
  }

  // ---------------------------------------------------------------- choosing an encoding

  datatype ColumnKind =
    | NullKind | BoolKind | I64Kind | U64Kind | F64Kind | DecKind(scale: u8) | DateKind | TimeKind | TsKind
    | TszKind(offset: i32) | IntervalKind | TextKind | JsonKind | BytesKind | TaggedKind

  function EncodingOfKind(kind: ColumnKind): Encoding {
    match kind
    case NullKind => Encoding.Null
    case BoolKind => Encoding.Bool
    case I64Kind => Encoding.I64
    case U64Kind => Encoding.U64
    case F64Kind => Encoding.F64
    case DecKind(_) => Encoding.Dec
    case DateKind => Encoding.Date
    case TimeKind => Encoding.Time
    case TsKind => Encoding.Ts
    case TszKind(_) => Encoding.Tsz
    case IntervalKind => Encoding.Interval
    case TextKind => Encoding.Text
    case JsonKind => Encoding.Json
    case BytesKind => Encoding.Bytes
    case TaggedKind => Encoding.Tagged
  }

  /** The kind one cell asks for; a null asks for none. */
  function KindOf(v: Value): ColumnKind {
    match v
    case Null => NullKind
    case Bool(_) => BoolKind
    case Int(_) => I64Kind
    case UInt(_) => U64Kind
    case Float(_) => F64Kind
    case Decimal(unscaled, scale) =>
      if scale > 38 || Abs(unscaled) >= DECIMAL_LIMIT then TaggedKind else DecKind(scale)
    case Date(_) => DateKind
    case Time(_) => TimeKind
    case Timestamp(_, None) => TsKind
    case Timestamp(_, Some(offset)) => if offset % 60 == 0 then TszKind(offset) else TaggedKind
    case Interval(i) => if InI64(i.micros * 1000) then IntervalKind else TaggedKind
    case Text(_) => TextKind
    case Json(_) => JsonKind
    case Bytes(_) => BytesKind
    case _ => TaggedKind
  }

  function MergeKinds(current: ColumnKind, single: ColumnKind): ColumnKind {
    if current == single then current else TaggedKind
  }

  /** Every cell that is not null asks for this kind. */
  predicate Agree(values: seq<Value>, kind: ColumnKind) {
    forall i :: 0 <= i < |values| && !values[i].Null? ==> KindOf(values[i]) == kind
  }

  /** The kind of a column: the one its cells agree on, none if all are null, tagged if they differ. */
  ghost predicate Chosen(values: seq<Value>, kind: ColumnKind) {
    if forall i :: 0 <= i < |values| ==> values[i].Null? then kind == NullKind
    else kind != NullKind && (Agree(values, kind) || (kind == TaggedKind && forall k :: !Agree(values, k)))
  }

  method PickEncoding(values: seq<Value>) returns (kind: ColumnKind)
    ensures Chosen(values, kind)
  {
    var found: Option<ColumnKind> := None;
    for i := 0 to |values|
      invariant found.None? ==> forall j :: 0 <= j < i ==> values[j].Null?
      invariant found.Some? ==> found.value != NullKind && exists j :: 0 <= j < i && !values[j].Null?
      invariant found.Some? ==>
                  || (forall j :: 0 <= j < i && !values[j].Null? ==> KindOf(values[j]) == found.value)
                  || (found.value == TaggedKind && forall k :: !Agree(values, k))
    {
      if !values[i].Null? {
        var single := KindOf(values[i]);
        ghost var before := found;
        found := Some(match found case None => single case Some(current) => MergeKinds(current, single));
        if before.Some? && before.value != single && (forall j :: 0 <= j < i && !values[j].Null? ==> KindOf(values[j]) == before.value) {
          ghost var j :| 0 <= j < i && !values[j].Null?;
          assert KindOf(values[j]) != KindOf(values[i]);
          assert forall k :: !Agree(values, k);
        }
      }
    }
    kind := match found case Some(k) => k case None => NullKind;
  }

  // ---------------------------------------------------------------- building

  function TypeOfKind(kind: ColumnKind): DataType
    requires kind.DecKind? ==> kind.scale <= 38
  {
    match kind
    case NullKind => NullType
    case BoolKind => Boolean
    case I64Kind => Int64
    case U64Kind => UInt64
    case F64Kind => Float64
    case DecKind(scale) => Decimal128(38, scale)
    case DateKind => Date32
    case TimeKind => Time64(Microsecond)
    case TsKind => TimestampType(Microsecond, None)
    case TszKind(offset) => TimestampType(Microsecond, Some(FormatTz(offset)))
    case IntervalKind => IntervalType(MonthDayNano)
    case TextKind => Utf8Type
    case JsonKind => Utf8Type
    case BytesKind => Binary
    case TaggedKind => Binary
  }

  /** What a cell becomes in an array of a typed kind; a cell of another variant becomes null. */
  function SlotOf(kind: ColumnKind, v: Value): Result<Option<Physical>, ColumnarError> {
    match (kind, v)
    case (BoolKind, Bool(flag)) => Ok(Some(PBool(flag)))
    case (I64Kind, Int(n)) => Ok(Some(PI64(n)))
    case (U64Kind, UInt(n)) => Ok(Some(PU64(n)))
    case (F64Kind, Float(bits)) => Ok(Some(PF64(bits)))
    case (DecKind(_), Decimal(unscaled, _)) => Ok(Some(PI128(unscaled)))
    case (DateKind, Date(days)) => Ok(Some(PI32(days)))
    case (TimeKind, Time(micros)) => Ok(Some(PI64(micros)))
    case (TsKind, Timestamp(micros, _)) => Ok(Some(PI64(micros)))
    case (TszKind(_), Timestamp(micros, _)) => Ok(Some(PI64(micros)))
    case (IntervalKind, Interval(i)) =>
      var nanos := i.micros * 1000;
      if InI64(nanos) then Ok(Some(PMonthDayNano(i.months, i.days, nanos))) else Err(Corrupt(IntervalOverflow))
    case (TextKind, Text(text)) => Ok(Some(PText(text)))
    case (TextKind, Json(text)) => Ok(Some(PText(text)))
    case (JsonKind, Text(text)) => Ok(Some(PText(text)))
    case (JsonKind, Json(text)) => Ok(Some(PText(text)))
    case (BytesKind, Bytes(bytes)) => Ok(Some(PBytes(bytes)))
    case (TaggedKind, Null) => Ok(None)
    case (TaggedKind, _) =>
      if Nesting(v) <= MAX_DEPTH then Ok(Some(PBytes(Blob(v)))) else Err(Corrupt(BadBlob(TaggedDecoding.TooDeep)))
    case _ => Ok(None)
  }

  /** The array holds, row by row, what the kind makes of each cell. */
  predicate Built(kind: ColumnKind, values: seq<Value>, arr: ArrowArray) {
    && (kind.DecKind? ==> kind.scale <= 38)
    && arr.dataType == TypeOfKind(kind) && |arr.slots| == |values|
    && forall row :: 0 <= row < |values| ==> SlotOf(kind, values[row]) == Ok(arr.slots[row])
  }

  method BuildColumn(kind: ColumnKind, values: seq<Value>) returns (r: Result<ArrowArray, ColumnarError>)
    ensures r.Ok? <==> (kind.DecKind? ==> kind.scale <= 38) && forall row :: 0 <= row < |values| ==> SlotOf(kind, values[row]).Ok?
    ensures r.Ok? ==> Built(kind, values, r.value)
    ensures r.Err? ==>
              || (kind.DecKind? && kind.scale > 38 && r.error == Arrow)
              || exists row :: 0 <= row < |values| && SlotOf(kind, values[row]) == Err(r.error)
  {
    var slots: seq<Option<Physical>> := [];
    var scratch := new ByteBuffer();
    for row := 0 to |values|
      invariant |slots| == row
      invariant forall i :: 0 <= i < row ==> SlotOf(kind, values[i]) == Ok(slots[i])
    {
      if kind.TaggedKind? && !values[row].Null? {
        scratch.data := [];
        var encoded := EncodeValue(scratch, values[row]);
        if encoded.Err? {
          assert SlotOf(kind, values[row]) == Err(Corrupt(BadBlob(encoded.error)));
          return Err(Corrupt(BadBlob(encoded.error)));
        }
        assert scratch.data == Blob(values[row]);
        slots := slots + [Some(PBytes(scratch.data))];
      } else {
        var slot := SlotOf(kind, values[row]);
        if slot.Err? {
          return Err(slot.error);
        }
        slots := slots + [slot.value];
      }
    }
    if kind.DecKind? && kind.scale > 38 {
      return Err(Arrow);
    }
    r := Ok(ArrowArray(TypeOfKind(kind), slots));
  }

  // ---------------------------------------------------------------- reading

  /** One cell back as a value. */
  function ValueAt(arr: ArrowArray, enc: Encoding, row: nat): Result<Value, ColumnarError>
    requires WellTyped(arr) && row < |arr.slots|
  {
    if !Compatible(enc, arr.dataType) then Err(Mismatch(enc, arr.dataType))
    else
      match arr.slots[row]
      case None => Ok(Value.Null)
      case Some(slot) =>
        match enc
        case Null => Ok(Value.Null)
        case Bool => Ok(Value.Bool(slot.flag))
        case I64 => Ok(Int(slot.n64))
        case U64 => Ok(UInt(slot.u))
        case F64 => Ok(Float(slot.bits))
        case Dec => Ok(Decimal(slot.n128, arr.dataType.scale % 0x100))
        case Date => Ok(Value.Date(slot.n32))
        case Time => Ok(Value.Time(slot.n64))
        case Ts => Ok(Timestamp(slot.n64, None))
        case Tsz =>
          var zone := arr.dataType.zone.value;
          (match OffsetOf(zone)
           case Some(offset) => Ok(Timestamp(slot.n64, Some(WrapI32(offset))))
           case None => Err(Corrupt(BadZone(zone))))
        case Interval => Ok(Value.Interval(IntervalValue(slot.months, slot.days, Quot(slot.nanos, 1000))))
        case Text => Ok(Value.Text(slot.text))
        case Json => Ok(Value.Json(slot.text))
        case Bytes => Ok(Value.Bytes(slot.bytes))
        case Tagged =>
          var r := TaggedDecoding.ValueAt(slot.bytes, 0, 0);
          if r.Damaged? then Err(Corrupt(BadBlob(r.cause)))
          else if r.next < |slot.bytes| then Err(Corrupt(TrailingBytes))
          else Ok(r.value)
  }

  // ---------------------------------------------------------------- sealing then reading

  /** Whether a cell of a column stored as `kind` comes back. */
  predicate Survives(kind: ColumnKind, v: Value) {
    v.Null? ||
    match kind
    case TszKind(offset) => -86_400 < offset < 86_400
    case TaggedKind => Storable(v)
    case _ => true
  }

  /** A cell whose blob a slice can hold. */
  predicate InMemory(v: Value) {
    |Blob(v)| <= ISIZE_MAX
  }

  lemma SlotsAreWellTyped(kind: ColumnKind, values: seq<Value>, arr: ArrowArray)
    requires Built(kind, values, arr) && forall row :: 0 <= row < |values| ==> InMemory(values[row])
    ensures WellTyped(arr) && Compatible(EncodingOfKind(kind), arr.dataType)
  {
    forall row | 0 <= row < |values| && arr.slots[row].Some?
      ensures SlotFits(arr.dataType, arr.slots[row].value)
    {
      var v := values[row];
      assert SlotOf(kind, v) == Ok(arr.slots[row]);
      if kind.BytesKind? {
        assert |v.bytes| <= |Blob(v)|;
      }
    }
  }

  /** A tagged cell comes back exactly when the codec keeps it. */
  lemma TaggedSurvives(arr: ArrowArray, row: nat, v: Value)
    requires WellTyped(arr) && row < |arr.slots| && arr.dataType == Binary
    requires InMemory(v) && arr.slots[row] == Some(PBytes(Blob(v)))
    ensures ValueAt(arr, Tagged, row) == Ok(v) <==> Storable(v)
  {
    hide TaggedDecoding.ValueAt, Blob, Storable;
    RoundTrip([], v, []);
    assert [] + Blob(v) + [] == Blob(v) && [] + Blob(v) == Blob(v);
    if ValueAt(arr, Tagged, row) == Ok(v) {
      assert TaggedDecoding.ValueAt(Blob(v), 0, 0) == TaggedDecoding.Done(v, |Blob(v)|);
    }
  }

  /** A null cell comes back from every kind. */
  lemma NullSurvives(kind: ColumnKind, arr: ArrowArray, row: nat)
    requires WellTyped(arr) && row < |arr.slots| && SlotOf(kind, Value.Null) == Ok(arr.slots[row])
    requires Compatible(EncodingOfKind(kind), arr.dataType)
    ensures ValueAt(arr, EncodingOfKind(kind), row) == Ok(Value.Null)
  {
    hide WellTyped, Compatible, EncodingOfKind;
  }

  /** A zoned timestamp comes back exactly when its zone text is read as the offset it was printed from. */
  lemma ZonedSurvives(kind: ColumnKind, v: Value, arr: ArrowArray, row: nat)
    requires WellTyped(arr) && row < |arr.slots| && SlotOf(kind, v) == Ok(arr.slots[row])
    requires !v.Null? && KindOf(v) == kind && kind.TszKind? && arr.dataType == TypeOfKind(kind)
    ensures ValueAt(arr, Tsz, row) == Ok(v) <==> -86_400 < kind.offset < 86_400
  {
    hide OffsetOf, FormatTz, WellTyped, SlotFits;
    OffsetSurvives(kind.offset);
  }

  lemma KindOfCell(kind: ColumnKind, values: seq<Value>, row: nat)
    requires Chosen(values, kind) && row < |values| && !values[row].Null?
    ensures kind == TaggedKind || KindOf(values[row]) == kind
  {
  }

  /**
   Reading row `row` of a column stored as the chosen kind gives the staged cell, if and only if
   the cell survives that kind; the encoding never mismatches the array.
   */
  lemma ReadBack(kind: ColumnKind, values: seq<Value>, arr: ArrowArray, row: nat)
    requires Chosen(values, kind) && Built(kind, values, arr) && row < |values|
    requires forall i :: 0 <= i < |values| ==> InMemory(values[i])
    ensures WellTyped(arr) && Compatible(EncodingOfKind(kind), arr.dataType)
    ensures ValueAt(arr, EncodingOfKind(kind), row) == Ok(values[row]) <==> Survives(kind, values[row])
  {
    SlotsAreWellTyped(kind, values, arr);
    var v := values[row];
    assert SlotOf(kind, v) == Ok(arr.slots[row]);
    if v.Null? {
      hide *;
      NullSurvives(kind, arr, row);
      NullsAlwaysSurvive(kind);
    } else {
      KindOfCell(kind, values, row);
      if kind.TaggedKind? {
        TaggedSlot(v, arr.slots[row]);
        hide Blob, Storable, ValueAt, WellTyped, Chosen, SlotOf;
        TaggedSurvives(arr, row, v);
      } else if kind.TszKind? {
        hide ValueAt, WellTyped, Chosen, SlotOf;
        ZonedSurvives(kind, v, arr, row);
      } else {
        hide ValueAt, WellTyped, Chosen, SlotOf;
        TypedSurvives(kind, v, arr, row);
      }
    }
  }

  lemma NullsAlwaysSurvive(kind: ColumnKind)
    ensures Survives(kind, Value.Null)
  {
  }

  lemma TaggedSlot(v: Value, slot: Option<Physical>)
    requires !v.Null? && SlotOf(TaggedKind, v) == Ok(slot)
    ensures slot == Some(PBytes(Blob(v)))
  {
    hide Blob;
  }

  lemma TypedSurvives(kind: ColumnKind, v: Value, arr: ArrowArray, row: nat)
    requires WellTyped(arr) && row < |arr.slots| && SlotOf(kind, v) == Ok(arr.slots[row])
    requires !v.Null? && KindOf(v) == kind && !kind.TaggedKind? && !kind.TszKind?
    requires arr.dataType == TypeOfKind(kind)
    ensures ValueAt(arr, EncodingOfKind(kind), row) == Ok(v)
  {
    match v {
      case Interval(i) => assert Quot(i.micros * 1000, 1000) == i.micros;
      case _ =>
    }
  }

  /** No column has two chosen kinds. */
  lemma ChosenOnce(values: seq<Value>, a: ColumnKind, b: ColumnKind)
    requires Chosen(values, a) && Chosen(values, b)
    ensures a == b
  {
    if i :| 0 <= i < |values| && !values[i].Null? {
    }
  }

  datatype SealedChunk = SealedChunk(fields: seq<Field>, arrays: seq<ArrowArray>, encodings: seq<Encoding>)

  /** The column is stored in its chosen kind, and its field says so. */
  ghost predicate Sealed(column: seq<Value>, field: Field, arr: ArrowArray, enc: Encoding) {
    exists kind :: Chosen(column, kind) && Built(kind, column, arr) && enc == EncodingOfKind(kind)
                   && EncodingOf(field) == Ok(enc) && field.dataType == arr.dataType
  }

  /** No cell nests deeper than the codec goes. */
  predicate Shallow(column: seq<Value>) {
    forall row :: 0 <= row < |column| ==> Nesting(column[row]) <= MAX_DEPTH
  }

  /** Column `index` of a chunk: sealed, named by its place, and marked with its encoding. */
  ghost predicate Placed(index: nat, column: seq<Value>, field: Field, arr: ArrowArray, enc: Encoding) {
    Sealed(column, field, arr, enc) && field.name == "c" + NatText(index) && Marked(field, enc)
  }

  method SealColumn(index: nat, column: seq<Value>) returns (r: Result<(Field, ArrowArray, Encoding), ColumnarError>)
    ensures r.Ok? <==> Shallow(column)
    ensures r.Ok? ==> Placed(index, column, r.value.0, r.value.1, r.value.2)
    ensures r.Err? ==> r.error == Corrupt(BadBlob(TaggedDecoding.TooDeep))
  {
    hide Chosen, Built, EncodingOf, FieldWithEncoding, Nesting, SlotOf, Marked, NatText;
    var kind := PickEncoding(column);
    var built := BuildColumn(kind, column);
    RefusedForDepth(kind, column);
    if built.Err? {
      return Err(built.error);
    }
    var enc := EncodingOfKind(kind);
    var name := "c" + NatText(index);
    FieldKeepsEncoding(name, built.value.dataType, enc);
    FieldIsMarked(name, built.value.dataType, enc);
    r := Ok((FieldWithEncoding(name, built.value.dataType, enc), built.value, enc));
  }

  /**
   Refused are a chunk without columns, one with a cell nested too deep, and a ragged one, in that
   order; every other is sealed.
   */
  method SealColumns(columns: Columns) returns (r: Result<SealedChunk, ColumnarError>)
    ensures columns == [] ==> r == Err(Width(1, 0))
    ensures (exists c :: 0 <= c < |columns| && !Shallow(columns[c])) ==> r == Err(Corrupt(BadBlob(TaggedDecoding.TooDeep)))
    ensures (forall c :: 0 <= c < |columns| ==> Shallow(columns[c])) && !Rectangular(columns) ==> r == Err(Arrow)
    ensures columns != [] && Rectangular(columns) && (forall c :: 0 <= c < |columns| ==> Shallow(columns[c])) ==>
              && r.Ok?
              && |r.value.fields| == |r.value.arrays| == |r.value.encodings| == |columns|
              && forall c :: 0 <= c < |columns| ==>
                   Placed(c, columns[c], r.value.fields[c], r.value.arrays[c], r.value.encodings[c])
  {
    if columns == [] {
      return Err(Width(1, 0));
    }
    hide Placed, Shallow;
    var fields: seq<Field> := [];
    var arrays: seq<ArrowArray> := [];
    var encodings: seq<Encoding> := [];
    for index := 0 to |columns|
      invariant |fields| == |arrays| == |encodings| == index
      invariant forall c :: 0 <= c < index ==> Shallow(columns[c]) && Placed(c, columns[c], fields[c], arrays[c], encodings[c])
    {
      var column := SealColumn(index, columns[index]);
      if column.Err? {
        return Err(column.error);
      }
      fields := fields + [column.value.0];
      arrays := arrays + [column.value.1];
      encodings := encodings + [column.value.2];
    }
    if exists c :: 0 <= c < |columns| && |columns[c]| != |columns[0]| {
      return Err(Arrow);
    }
    r := Ok(SealedChunk(fields, arrays, encodings));
  }

  /** Under the chosen kind a cell is refused exactly when it nests too deep. */
  lemma RefusedOnlyForDepth(kind: ColumnKind, values: seq<Value>, row: nat)
    requires Chosen(values, kind) && row < |values|
    ensures kind.DecKind? ==> kind.scale <= 38
    ensures SlotOf(kind, values[row]).Err? <==> Nesting(values[row]) > MAX_DEPTH
    ensures SlotOf(kind, values[row]).Err? ==> SlotOf(kind, values[row]) == Err(Corrupt(BadBlob(TaggedDecoding.TooDeep)))
  {
    hide Blob;
  }

  lemma RefusedForDepth(kind: ColumnKind, values: seq<Value>)
    requires Chosen(values, kind)
    ensures kind.DecKind? ==> kind.scale <= 38
    ensures Shallow(values) <==> forall row :: 0 <= row < |values| ==> SlotOf(kind, values[row]).Ok?
    ensures forall row :: 0 <= row < |values| && SlotOf(kind, values[row]).Err? ==>
              SlotOf(kind, values[row]) == Err(Corrupt(BadBlob(TaggedDecoding.TooDeep)))
  {
    ScaleIsBounded(kind, values);
    hide SlotOf, Chosen, Nesting;
    forall row | 0 <= row < |values|
      ensures SlotOf(kind, values[row]).Err? <==> Nesting(values[row]) > MAX_DEPTH
      ensures SlotOf(kind, values[row]).Err? ==> SlotOf(kind, values[row]) == Err(Corrupt(BadBlob(TaggedDecoding.TooDeep)))
    {
      RefusedOnlyForDepth(kind, values, row);
    }
  }

  lemma ScaleIsBounded(kind: ColumnKind, values: seq<Value>)
    requires Chosen(values, kind)
    ensures kind.DecKind? ==> kind.scale <= 38
  {
    if row :| 0 <= row < |values| && !values[row].Null? {
    }
  }

  /** Sealing then reading is the identity on every cell that survives, and on no other. */
  lemma SealedReadsBack(column: seq<Value>, field: Field, arr: ArrowArray, enc: Encoding, row: nat)
    requires Sealed(column, field, arr, enc) && row < |column|
    requires forall i :: 0 <= i < |column| ==> InMemory(column[i])
    ensures WellTyped(arr) && |arr.slots| == |column| && EncodingOf(field) == Ok(enc) && Compatible(enc, arr.dataType)
    ensures exists kind :: Chosen(column, kind)
              && (ValueAt(arr, enc, row) == Ok(column[row]) <==> Survives(kind, column[row]))
  {
    var kind :| Chosen(column, kind) && Built(kind, column, arr) && enc == EncodingOfKind(kind)
                && EncodingOf(field) == Ok(enc) && field.dataType == arr.dataType;
    ReadBack(kind, column, arr, row);
  }
}
