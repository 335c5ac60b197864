/** Encodings of a column, the Arrow types that carry them, and the field that names both. */
module Encodings {
  import opened Machine
  import opened Wrappers
  import opened TaggedDecoding

  datatype Encoding =
    | Null | Bool | I64 | U64 | F64 | Dec | Date | Time | Ts | Tsz | Interval | Text | Json | Bytes | Tagged

  datatype TimeUnit = Second | Millisecond | Microsecond | Nanosecond

  datatype IntervalUnit = YearMonth | DayTime | MonthDayNano

  /** The Arrow types a sealed chunk may hold, and a name for any other. */
  datatype DataType =
    | NullType
    | Boolean
    | Int64
    | UInt64
    | Float64
    | Decimal128(precision: u8, scale: i8)
    | Date32
    | Time64(unit: TimeUnit)
    | TimestampType(unit: TimeUnit, zone: Option<string>)
    | IntervalType(intervalUnit: IntervalUnit)
    | Utf8Type
    | Binary
    | OtherType(name: string)

  datatype Corruption =
    | BadBlob(damage: Damage)
    | TrailingBytes
    | BadZone(zone: string)
    | IntervalOverflow
    | UnknownZone(name: string)
    | NegativeWidth

  datatype ColumnarError =
    | UnknownEncoding(name: string)
    | MissingEncoding(field: string)
    | Mismatch(encoding: Encoding, dataType: DataType)
    | Corrupt(corruption: Corruption)
    | Width(expected: nat, found: nat)
    | Arrow

  /** A field of a chunk: positional name, type, and metadata. */
  datatype Field = Field(name: string, dataType: DataType, metadata: map<string, string>)

  const ENC_KEY := "qh.enc"

  function AsStr(enc: Encoding): string {
    match enc
    case Null => "null"
    case Bool => "bool"
    case I64 => "i64"
    case U64 => "u64"
    case F64 => "f64"
    case Dec => "dec"
    case Date => "date"
    case Time => "time"
    case Ts => "ts"
    case Tsz => "tsz"
    case Interval => "interval"
    case Text => "text"
    case Json => "json"
    case Bytes => "bytes"
    case Tagged => "tagged"
  }

  /** From a name to its encoding; any other text is refused. */
  function Parse(name: string): (r: Result<Encoding, ColumnarError>)
    ensures forall enc :: r == Ok(enc) <==> name == AsStr(enc)
    ensures r.Err? ==> r.error == UnknownEncoding(name)
  {
    match name
    case "null" => Ok(Null)
    case "bool" => Ok(Bool)
    case "i64" => Ok(I64)
    case "u64" => Ok(U64)
    case "f64" => Ok(F64)
    case "dec" => Ok(Dec)
    case "date" => Ok(Date)
    case "time" => Ok(Time)
    case "ts" => Ok(Ts)
    case "tsz" => Ok(Tsz)
    case "interval" => Ok(Interval)
    case "text" => Ok(Text)
    case "json" => Ok(Json)
    case "bytes" => Ok(Bytes)
    case "tagged" => Ok(Tagged)
    case _ => Err(UnknownEncoding(name))
  }

  function FieldWithEncoding(name: string, dataType: DataType, enc: Encoding): Field {
    var metadata := map[ENC_KEY := AsStr(enc)];
    Field(name, dataType,
          if enc == Json then metadata["ARROW:extension:name" := "arrow.json"] else metadata)
  }

  function EncodingOf(field: Field): Result<Encoding, ColumnarError> {
    if ENC_KEY in field.metadata then Parse(field.metadata[ENC_KEY]) else Err(MissingEncoding(field.name))
  }

  /** The encoding written on a field is the one read from it. */
  lemma FieldKeepsEncoding(name: string, dataType: DataType, enc: Encoding)
    ensures EncodingOf(FieldWithEncoding(name, dataType, enc)) == Ok(enc)
  {
    assert Parse(AsStr(enc)) == Ok(enc);
  }

  /** The marks on a field: its encoding's name, and for JSON, and nothing else, the extension Arrow readers look for. */
  predicate Marked(field: Field, enc: Encoding) {
    && field.metadata.Keys == {"qh.enc"} + (if enc == Json then {"ARROW:extension:name"} else {})
    && field.metadata["qh.enc"] == AsStr(enc)
    && (enc == Json ==> field.metadata["ARROW:extension:name"] == "arrow.json")
  }

  lemma FieldIsMarked(name: string, dataType: DataType, enc: Encoding)
    ensures FieldWithEncoding(name, dataType, enc).name == name
    ensures FieldWithEncoding(name, dataType, enc).dataType == dataType
    ensures Marked(FieldWithEncoding(name, dataType, enc), enc)
  {
  }

  /** The encodings an array of each type can be read under. */
  function Readable(dataType: DataType): set<Encoding> {
    match dataType
    case NullType => {Null}
    case Boolean => {Bool}
    case Int64 => {I64}
    case UInt64 => {U64}
    case Float64 => {F64}
    case Decimal128(38, _) => {Dec}
    case Date32 => {Date}
    case Time64(Microsecond) => {Time}
    case TimestampType(Microsecond, None) => {Ts}
    case TimestampType(Microsecond, Some(_)) => {Tsz}
    case IntervalType(MonthDayNano) => {Interval}
    case Utf8Type => {Text, Json}
    case Binary => {Bytes, Tagged}
    case _ => {}
  }

  /** Whether an array of this type can be read under this encoding. */
  predicate Compatible(enc: Encoding, dataType: DataType) {
    match enc
    case Null => dataType == NullType
    case Bool => dataType == Boolean
    case I64 => dataType == Int64
    case U64 => dataType == UInt64
    case F64 => dataType == Float64
    case Dec => dataType.Decimal128? && dataType.precision == 38
    case Date => dataType == Date32
    case Time => dataType == Time64(Microsecond)
    case Ts => dataType == TimestampType(Microsecond, None)
    case Tsz => dataType.TimestampType? && dataType.unit == Microsecond && dataType.zone.Some?
    case Interval => dataType == IntervalType(MonthDayNano)
    case Text => dataType == Utf8Type
    case Json => dataType == Utf8Type
    case Bytes => dataType == Binary
    case Tagged => dataType == Binary
  }

  /** Seen from the type: no array has two encodings, but for those told apart by metadata alone. */
  lemma CompatibleExact(enc: Encoding, dataType: DataType)
    ensures Compatible(enc, dataType) <==> enc in Readable(dataType)
  {
  }
}
