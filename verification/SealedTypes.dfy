/** Which encoding and Arrow type a sealed column has, from the cells that are in it. */
module SealedTypes {
  import opened Machine
  import opened Wrappers
  import opened Values
  import opened Columns
  import opened NumberText
  import opened Zones
  import opened Encodings
  import opened Store

  // ---------------------------------------------------------------- what cells ask for

  predicate AllNull(column: seq<Value>) {
    forall row :: 0 <= row < |column| ==> column[row].Null?
  }

  /** A cell no typed column can hold. */
  predicate Untyped(v: Value) {
    match v
    case Array(_) => true
    case Row(_) => true
    case Map(_) => true
    case Unknown(_, _, _) => true
    case Decimal(unscaled, scale) =>
      || scale > 38
      || unscaled >= 100_000_000_000_000_000_000_000_000_000_000_000_000
      || unscaled <= -100_000_000_000_000_000_000_000_000_000_000_000_000
    case Timestamp(_, Some(offset)) => offset % 60 != 0
    case Interval(i) => !InI64(i.micros * 1000)
    case _ => false
  }

  /** Two cells of one variant, with one scale if they are decimals and one zone, or none, if timestamps. */
  predicate Alike(v: Value, w: Value) {
    match v
    case Null => w.Null?
    case Bool(_) => w.Bool?
    case Int(_) => w.Int?
    case UInt(_) => w.UInt?
    case Float(_) => w.Float?
    case Decimal(_, scale) => w.Decimal? && w.scale == scale
    case Text(_) => w.Text?
    case Bytes(_) => w.Bytes?
    case Timestamp(_, offset) => w.Timestamp? && w.offsetSecs == offset
    case Date(_) => w.Date?
    case Time(_) => w.Time?
    case Interval(_) => w.Interval?
    case Json(_) => w.Json?
    case Array(_) => w.Array?
    case Row(_) => w.Row?
    case Map(_) => w.Map?
    case Unknown(_, _, _) => w.Unknown?
  }

  /** A cell no typed column can hold, or two cells no one typed column can. */
  predicate NeedsTags(column: seq<Value>) {
    || (exists row :: 0 <= row < |column| && Untyped(column[row]))
    || (exists row, other ::
          0 <= row < |column| && 0 <= other < |column|
          && !column[row].Null? && !column[other].Null? && !Alike(column[row], column[other]))
  }

  /** The encoding and the type that belong to a cell a typed column can hold. */
  predicate TypedAs(v: Value, enc: Encoding, dataType: DataType) {
    match v
    case Null => true
    case Bool(_) => enc == Encoding.Bool && dataType == Boolean
    case Int(_) => enc == I64 && dataType == Int64
    case UInt(_) => enc == U64 && dataType == UInt64
    case Float(_) => enc == F64 && dataType == Float64
    case Decimal(_, scale) => scale <= 38 && enc == Dec && dataType == Decimal128(38, scale)
    case Text(_) => enc == Encoding.Text && dataType == Utf8Type
    case Json(_) => enc == Encoding.Json && dataType == Utf8Type
    case Bytes(_) => enc == Encoding.Bytes && dataType == Binary
    case Timestamp(_, None) => enc == Ts && dataType == TimestampType(Microsecond, None)
    case Timestamp(_, Some(offset)) =>
      && enc == Tsz && dataType.TimestampType? && dataType.unit == Microsecond && dataType.zone.Some?
      && (-86_400 < offset < 86_400 ==> OffsetOf(dataType.zone.value) == Some(offset))
    case Date(_) => enc == Encoding.Date && dataType == Date32
    case Time(_) => enc == Encoding.Time && dataType == Time64(Microsecond)
    case Interval(_) => enc == Encoding.Interval && dataType == IntervalType(MonthDayNano)
    case _ => false
  }

  // ---------------------------------------------------------------- the kind chosen

  lemma KindMeans(v: Value, w: Value)
    requires !v.Null?
    ensures KindOf(v) == TaggedKind <==> Untyped(v)
    ensures KindOf(v) != NullKind
    ensures !w.Null? && !Untyped(v) && !Untyped(w) ==> (KindOf(v) == KindOf(w) <==> Alike(v, w))
  {
  }

  lemma KindTyped(v: Value)
    requires !Untyped(v) && !v.Null?
    ensures KindOf(v).DecKind? ==> KindOf(v).scale <= 38
    ensures TypedAs(v, EncodingOfKind(KindOf(v)), TypeOfKind(KindOf(v)))
  {
    hide OffsetOf, FormatTz;
    if v.Timestamp? && v.offsetSecs.Some? {
      OffsetSurvives(v.offsetSecs.value);
    }
  }

  lemma NullColumnKind(column: seq<Value>, kind: ColumnKind)
    requires Chosen(column, kind)
    ensures AllNull(column) <==> kind == NullKind
  {
  }

  lemma TaggedColumnKind(column: seq<Value>, kind: ColumnKind)
    requires Chosen(column, kind)
    ensures NeedsTags(column) <==> kind == TaggedKind
  {
    hide KindOf, Untyped, Alike;
    if row :| 0 <= row < |column| && !column[row].Null? {
      forall other | 0 <= other < |column| && !column[other].Null?
        ensures KindOf(column[other]) == TaggedKind <==> Untyped(column[other])
        ensures !Untyped(column[row]) && !Untyped(column[other]) ==>
                  (KindOf(column[row]) == KindOf(column[other]) <==> Alike(column[row], column[other]))
      {
        KindMeans(column[row], column[other]);
        KindMeans(column[other], column[row]);
      }
      if !NeedsTags(column) {
        NullIsTyped();
        assert Agree(column, KindOf(column[row]));
      } else {
        TagsAreNeeded(column, kind);
      }
    } else {
      NullIsTyped();
    }
  }

  lemma NullIsTyped()
    ensures !Untyped(Value.Null)
  {
  }

  lemma TagsAreNeeded(column: seq<Value>, kind: ColumnKind)
    requires Chosen(column, kind) && NeedsTags(column)
    ensures kind == TaggedKind
  {
    hide KindOf, Untyped, Alike;
    NullIsTyped();
    if row :| 0 <= row < |column| && Untyped(column[row]) {
      KindMeans(column[row], column[row]);
    } else {
      var row, other :| 0 <= row < |column| && 0 <= other < |column|
                        && !column[row].Null? && !column[other].Null? && !Alike(column[row], column[other]);
      KindMeans(column[row], column[other]);
    }
  }

  // ---------------------------------------------------------------- main result

  /**
   A column of nulls is stored as such; one that needs tags, and no other, as tagged blobs; and any
   other in the encoding and the Arrow type of the cells it holds.
   */
  lemma SealedType(column: seq<Value>, field: Field, arr: ArrowArray, enc: Encoding)
    requires Sealed(column, field, arr, enc)
    ensures field.dataType == arr.dataType
    ensures AllNull(column) <==> enc == Encoding.Null
    ensures AllNull(column) ==> arr.dataType == NullType
    ensures NeedsTags(column) <==> enc == Tagged
    ensures NeedsTags(column) ==> arr.dataType == Binary
    ensures !NeedsTags(column) ==> forall row :: 0 <= row < |column| ==> TypedAs(column[row], enc, arr.dataType)
  {
    hide Chosen, KindOf, NeedsTags, AllNull, TypedAs, SlotOf, EncodingOf, Untyped, OffsetOf, FormatTz;
    var kind :| Chosen(column, kind) && Built(kind, column, arr) && enc == EncodingOfKind(kind)
                && EncodingOf(field) == Ok(enc) && field.dataType == arr.dataType;
    NullColumnKind(column, kind);
    TaggedColumnKind(column, kind);
    if !NeedsTags(column) {
      forall row | 0 <= row < |column|
        ensures TypedAs(column[row], enc, arr.dataType)
      {
        if column[row].Null? {
          NullFitsAnything(enc, arr.dataType);
        } else {
          NotNeeded(column, row);
          KindOfCell(kind, column, row);
          KindTyped(column[row]);
        }
      }
    }
  }

  lemma NullFitsAnything(enc: Encoding, dataType: DataType)
    ensures TypedAs(Value.Null, enc, dataType)
  {
  }

  lemma NotNeeded(column: seq<Value>, row: nat)
    requires !NeedsTags(column) && row < |column|
    ensures !Untyped(column[row])
  {
  }

  /** The plainest case: integers, nulls among them or not, are an `i64` column of Arrow's Int64. */
  lemma IntegersStayIntegers(column: seq<Value>, field: Field, arr: ArrowArray, enc: Encoding)
    requires Sealed(column, field, arr, enc) && !AllNull(column)
    requires forall row :: 0 <= row < |column| ==> column[row].Null? || column[row].Int?
    ensures enc == I64 && arr.dataType == Int64
    ensures forall row :: 0 <= row < |column| ==>
              arr.slots[row] == if column[row].Null? then None else Some(PI64(column[row].signed))
  {
    SealedType(column, field, arr, enc);
    var row :| 0 <= row < |column| && !column[row].Null?;
    assert TypedAs(column[row], enc, arr.dataType);
    var kind :| Chosen(column, kind) && Built(kind, column, arr) && enc == EncodingOfKind(kind);
    forall row | 0 <= row < |column|
      ensures arr.slots[row] == if column[row].Null? then None else Some(PI64(column[row].signed))
    {
      assert SlotOf(kind, column[row]) == Ok(arr.slots[row]);
    }
  }
}
