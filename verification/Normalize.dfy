/** Turning what a MySQL server sent into a value: decimals, dates, times and timestamps. */
module Normalize {
  import opened Machine
  import opened Wrappers
  import opened Values
  import opened NumberText
  import opened TextScan
  import opened Calendar
  import Utf8

  /** A value as the driver library hands it over; a float is already widened to a double. */
  datatype MyValue =
    | MyNull
    | MyBytes(bytes: seq<u8>)
    | MyInt(signed: i64)
    | MyUInt(unsigned: u64)
    | MyFloat(bits: u64)
    | MyDate(year: u16, month: u8, day: u8, hour: u8, minute: u8, second: u8, subMicros: u32)
    | MyTime(negative: bool, days: u32, hours: u8, minutes: u8, seconds: u8, micros: u32)

  // ---------------------------------------------------------------- decimals

  /** The text around an optional exponent. */
  function SplitExponent(digits: string): Option<(string, int)> {
    match SplitOnce(digits, {'e', 'E'})
    case None => Some((digits, 0))
    case Some(parts) =>
      var exponent :- ParseSigned(parts.1, I32_MAX);
      Some((parts.0, exponent))
  }

  function SplitPoint(mantissa: string): (string, string) {
    match SplitOnce(mantissa, {'.'})
    case None => (mantissa, "")
    case Some(parts) => parts
  }

  /** The sign and what follows it. */
  function SplitSign(text: string): (bool, string) {
    if text != "" && text[0] == '-' then (true, text[1..])
    else if text != "" && text[0] == '+' then (false, text[1..])
    else (false, text)
  }

  predicate IsMantissa(whole: string, fraction: string) {
    (whole != "" || fraction != "") && AllDigits(whole) && AllDigits(fraction)
  }

  /** The scale in `i32` release arithmetic: the length is cut to 32 bits and the difference wraps. */
  function ScaleOf(fraction: string, exponent: int): i32 {
    WrapI32(WrapI32(|fraction|) - exponent)
  }

  /** The parts of a decimal text. */
  datatype Parts = Parts(negative: bool, whole: string, fraction: string, exponent: int)

  function PartsOf(text: string): (r: Option<Parts>)
    ensures r.Some? ==> IsMantissa(r.value.whole, r.value.fraction)
  {
    var (negative, digits) := SplitSign(Trim(text));
    var (mantissa, exponent) :- SplitExponent(digits);
    var (whole, fraction) := SplitPoint(mantissa);
    if IsMantissa(whole, fraction) then Some(Parts(negative, whole, fraction, exponent)) else None
  }

  /** The digits run together, with the zeros a negative scale stands for. */
  function DecimalOfParts(p: Parts): Option<(i128, u8)> {
    var scale := ScaleOf(p.fraction, p.exponent);
    if scale < -64 || scale > 38 then None
    else
      var combined := p.whole + p.fraction + if scale < 0 then Zeros(-scale) else "";
      var unscaled :- ParseDigits(combined, I128_MAX);
      var signed: int := unscaled;
      Some((if p.negative then -signed else signed, if scale < 0 then 0 else scale))
  }

  /** An exact decimal: its unscaled integer and its scale. */
  function ParseDecimal(text: string): Option<(i128, u8)> {
    var p :- PartsOf(text);
    DecimalOfParts(p)
  }

  // ---------------------------------------------------------------- dates

  /** `YYYY-MM-DD`; every month is given 31 days. */
  function ParseYmd(text: string): (r: Option<CivilDate>)
    ensures r.Some? ==> InMonthRange(r.value.month, r.value.day)
  {
    var (yearText, rest) :- SplitOnce(Trim(text), {'-'});
    var year :- ParseSigned(yearText, I64_MAX);
    var (monthText, dayText) :- SplitOnce(rest, {'-'});
    var month :- ParseUnsigned(monthText, 255);
    var day :- ParseUnsigned(dayText, 255);
    if InMonthRange(month, day) then Some(CivilDate(year, month, day)) else None
  }

  predicate InMonthRange(month: int, day: int) {
    1 <= month <= 12 && 1 <= day <= 31
  }

  /** The day count in `i64` release arithmetic, if it fits an `i32`. */
  function DateDays(date: CivilDate): Option<i32> {
    var days := WrapI64(DaysFromCivil(date));
    if InI32(days) then Some(days) else None
  }

  function ParseDateDays(text: string): Option<i32> {
    var date :- ParseYmd(text);
    DateDays(date)
  }

  // ---------------------------------------------------------------- timestamps

  function TimestampMicros(date: CivilDate, hour: nat, minute: nat, second: nat): Option<i64> {
    if !InMonthRange(date.month, date.day) || hour > 23 || minute > 59 || second > 60 then None
    else
      var seconds := hour * 3600 + minute * 60 + second;
      Some(WrapI64(DaysFromCivil(date) * 86_400 * 1_000_000 + seconds * 1_000_000))
  }

  /** One to six digits after the point, as microseconds. */
  function ParseFraction(fraction: string): Option<nat> {
    if fraction == "" || |fraction| > 6 || !AllDigits(fraction) then None
    else Some(DigitsValue(fraction) * Pow10(6 - |fraction|))
  }

  /** The first three parts between colons. */
  function SplitClock(text: string): Option<(string, string, string)> {
    var (first, rest) :- SplitOnce(text, {':'});
    var (second, rest2) :- SplitOnce(rest, {':'});
    match SplitOnce(rest2, {':'})
    case None => Some((first, second, rest2))
    case Some(parts) => Some((first, second, parts.0))
  }

  /** The seconds field before its point, and the microseconds after it. */
  function SplitSeconds(field: string): Option<(string, nat)> {
    match SplitOnce(field, {'.'})
    case None => Some((field, 0))
    case Some(parts) =>
      var micros :- ParseFraction(parts.1);
      Some((parts.0, micros))
  }

  datatype Clock = Clock(hour: nat, minute: nat, second: nat, micros: nat)

  function ParseClock(text: string): Option<Clock> {
    var (hourText, minuteText, field) :- SplitClock(text);
    var hour :- ParseUnsigned(hourText, 255);
    var minute :- ParseUnsigned(minuteText, 255);
    var (secondText, micros) :- SplitSeconds(field);
    var second :- ParseUnsigned(secondText, 255);
    Some(Clock(hour, minute, second, micros))
  }

  /** How a server prints the date it does not have. */
  predicate StartsAsZeroDate(text: string) {
    "0000-00-00" <= text
  }

  /** A date and a clock; the zero date is no date. */
  function ParseTimestampNaive(text: string): Option<i64> {
    var trimmed := Trim(text);
    if StartsAsZeroDate(trimmed) then None
    else
      var (datePart, timePart) :- SplitOnce(trimmed, {' ', 'T'});
      var date :- ParseYmd(datePart);
      var clock :- ParseClock(timePart);
      var base :- TimestampMicros(date, clock.hour, clock.minute, clock.second);
      Some(WrapI64(base + clock.micros))
  }

  function DurationMicros(negative: bool, hours: int, minutes: int, seconds: int, micros: nat): i64 {
    var total: int := WrapI64((hours * 3600 + minutes * 60 + seconds) * 1_000_000 + micros);
    if negative then WrapI64(-total) else total
  }

  /** `HH:MM:SS[.ffffff]` of a duration, which may pass a day and may be negative. */
  function ParseTimeMicros(text: string): Option<i64> {
    var trimmed := Trim(text);
    var negative := trimmed != "" && trimmed[0] == '-';
    var (hoursText, minutesText, field) :- SplitClock(if negative then trimmed[1..] else trimmed);
    var hours :- ParseSigned(hoursText, I64_MAX);
    var minutes :- ParseSigned(minutesText, I64_MAX);
    var (secondsText, micros) :- SplitSeconds(field);
    var seconds :- ParseSigned(secondsText, I64_MAX);
    if minutes > 59 || seconds > 60 then None else Some(DurationMicros(negative, hours, minutes, seconds, micros))
  }

  // ---------------------------------------------------------------- values by column type

  function FromBytes(bytes: seq<u8>, convert: string -> Option<Value>): Value {
    match Utf8.Decode(bytes)
    case None => Bytes(bytes)
    case Some(text) =>
      match convert(text)
      case Some(value) => value
      case None => Text(text)
  }

  function DayText(year: nat, month: nat, day: nat): string {
    Padded(year, 4) + "-" + Padded(month, 2) + "-" + Padded(day, 2)
  }

  function ClockPart(hour: nat, minute: nat, second: nat): string {
    Padded(hour, 2) + ":" + Padded(minute, 2) + ":" + Padded(second, 2)
  }

  /** A value in a shape the column type did not expect keeps what it says. */
  function Fallback(value: MyValue): Value {
    match value
    case MyNull => Null
    case MyBytes(bytes) => FromBytes(bytes, _ => None)
    case MyInt(n) => Int(n)
    case MyUInt(n) => UInt(n)
    case MyFloat(bits) => Float(bits)
    case MyDate(year, month, day, hour, minute, second, _) =>
      Text(DayText(year, month, day) + " " + ClockPart(hour, minute, second))
    case MyTime(negative, days, hours, minutes, seconds, _) =>
      Text((if negative then "-" else "") + ClockPart((days * 24 + hours) % U32_MODULUS, minutes, seconds))
  }

  function AsDecimal(value: MyValue): Value {
    match value
    case MyBytes(bytes) =>
      FromBytes(bytes, text => match ParseDecimal(text)
                               case Some(d) => Some(Decimal(d.0, d.1))
                               case None => None)
    case MyInt(n) => Decimal(n, 0)
    case MyUInt(n) => Decimal(n, 0)
    case _ => Fallback(value)
  }

  function AsDate(value: MyValue): Value {
    match value
    case MyDate(year, month, day, _, _, _, _) =>
      (match if InMonthRange(month, day) then DateDays(CivilDate(year, month, day)) else None
       case Some(days) => Date(days)
       case None => Text(DayText(year, month, day)))
    case MyBytes(bytes) =>
      FromBytes(bytes, text => match ParseDateDays(text)
                               case Some(days) => Some(Date(days))
                               case None => None)
    case _ => Fallback(value)
  }

  function AsTimestamp(value: MyValue): Value {
    match value
    case MyDate(year, month, day, hour, minute, second, subMicros) =>
      (match TimestampMicros(CivilDate(year, month, day), hour, minute, second)
       case Some(base) => Timestamp(WrapI64(base + subMicros), None)
       case None => Text(DayText(year, month, day) + " " + ClockPart(hour, minute, second)))
    case MyBytes(bytes) =>
      FromBytes(bytes, text => match ParseTimestampNaive(text)
                               case Some(micros) => Some(Timestamp(micros, None))
                               case None => None)
    case _ => Fallback(value)
  }

  /** A duration within one day is a time of day; any other is an interval. */
  function TimeOrInterval(total: i64): Value {
    if 0 <= total < MICROS_PER_DAY then Time(total) else Interval(IntervalValue(0, 0, total))
  }

  function AsTime(value: MyValue): Value {
    match value
    case MyTime(negative, days, hours, minutes, seconds, micros) =>
      var total := (days * 86_400 + hours * 3600 + minutes * 60 + seconds) * 1_000_000 + micros;
      TimeOrInterval(WrapI64(if negative then -total else total))
    case MyBytes(bytes) =>
      FromBytes(bytes, text => match ParseTimeMicros(text)
                               case Some(total) => Some(TimeOrInterval(total))
                               case None => None)
    case _ => Fallback(value)
  }
}
