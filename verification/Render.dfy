/**
 The canonical text of a value. The text of a float is a parameter: any function from the bits of
 a double to a text.
 */
module Render {
  import opened Machine
  import opened Wrappers
  import opened Values
  import opened NumberText
  import opened Calendar

  type FloatText = u64 -> string

  // ---------------------------------------------------------------- numbers

  /** Every one of the `scale` digits after the point is printed, zeros included. */
  function DecimalText(unscaled: i128, scale: u8): string {
    if scale == 0 then IntText(unscaled)
    else (if unscaled < 0 then "-" else "") + PointText(NatText(Abs(unscaled)), scale)
  }

  /** Digits with a point before the last `scale` of them, led by zeros if there are too few. */
  function PointText(digits: string, scale: nat): string {
    if |digits| <= scale then "0." + Zeros(scale - |digits|) + digits
    else digits[..|digits| - scale] + "." + digits[|digits| - scale..]
  }

  // ---------------------------------------------------------------- dates and times

  function DateText(days: int): string {
    DaysRoundTrip(days);
    var date := CivilFromDays(days);
    PaddedInt(date.year, 4) + "-" + Padded(date.month, 2) + "-" + Padded(date.day, 2)
  }

  function FractionText(fraction: nat): string {
    if fraction != 0 then "." + Padded(fraction, 6) else ""
  }

  function TimeText(micros: i64): string {
    var magnitude := Abs(micros);
    var seconds := magnitude / 1_000_000;
    (if micros < 0 then "-" else "")
    + Padded(seconds / 3600, 2) + ":" + Padded(seconds % 3600 / 60, 2) + ":" + Padded(seconds % 60, 2)
    + FractionText(magnitude % 1_000_000)
  }

  /** The wall clock an instant shows in its zone: release arithmetic, so the sum wraps. */
  function LocalMicros(micros: i64, offset: Option<i32>): i64 {
    match offset
    case Some(secs) => WrapI64(micros + secs * 1_000_000)
    case None => micros
  }

  function TimestampText(micros: i64, offset: Option<i32>): string {
    var local := LocalMicros(micros, offset);
    DateText(WrapI32(local / MICROS_PER_DAY)) + " " + TimeText(local % MICROS_PER_DAY) + ZoneSuffix(offset)
  }

  function ZoneSuffix(offset: Option<i32>): string {
    match offset
    case None => ""
    case Some(secs) =>
      var magnitude := Abs(secs);
      (if secs < 0 then "-" else "+") + Padded(magnitude / 3600, 2) + ":" + Padded(magnitude % 3600 / 60, 2)
  }

  // ---------------------------------------------------------------- intervals

  function Plural(n: int): string {
    if n == 1 || n == -1 then "" else "s"
  }

  /** Two places for the minutes and for the seconds, as many as needed for the hours. */
  function ClockText(magnitude: nat): string {
    var seconds := magnitude / 1_000_000;
    NatText(seconds / 3600) + ":" + Padded(seconds / 60 % 60, 2) + ":" + Padded(seconds % 60, 2)
    + FractionText(magnitude % 1_000_000)
  }

  function Comma(out: string): string {
    if out != "" then out + ", " else out
  }

  /** `3 days`, or nothing for a zero count. */
  function CountText(n: int, noun: string): string {
    IntText(n) + " " + noun + Plural(n)
  }

  function AddDays(out: string, days: int): string {
    if days != 0 then Comma(out) + CountText(days, "day") else out
  }

  function AddClock(out: string, micros: int): string {
    Comma(out) + ((if micros < 0 then "-" else "") + ClockText(Abs(micros)))
  }

  /**
   What a buffer holds after an interval is appended to it. The separators ask whether the whole
   buffer is empty, so the result is not always the buffer followed by the interval's own text.
   */
  function IntervalWritten(out: string, i: IntervalValue): string {
    AddClock(AddDays(if i.months != 0 then out + CountText(i.months, "month") else out, i.days), i.micros)
  }

  // ---------------------------------------------------------------- bytes and strings

  function HexDigit(n: nat): char
    requires n < 16
  {
    if n < 10 then ('0' as int + n) as char else ('a' as int + (n - 10)) as char
  }

  function HexText(bytes: seq<u8>): string {
    if bytes == [] then "" else [HexDigit(bytes[0] / 16), HexDigit(bytes[0] % 16)] + HexText(bytes[1..])
  }

  function EscapeChar(c: char): (s: string)
    ensures s != ""
  {
    if c == '\"' then "\\\""
    else if c == '\\' then "\\\\"
    else if c == '\n' then "\\n"
    else if c == '\r' then "\\r"
    else if c == '\t' then "\\t"
    else if c as int == 0x08 then "\\b"
    else if c as int == 0x0C then "\\f"
    else if c as int < 0x20 then "\\u00" + [HexDigit(c as int / 16), HexDigit(c as int % 16)]
    else [c]
  }

  function Escaped(s: string): string {
    if s == "" then "" else EscapeChar(s[0]) + Escaped(s[1..])
  }

  function JsonString(s: string): string {
    "\"" + Escaped(s) + "\""
  }

  // ---------------------------------------------------------------- values

  /** What a buffer holds after a value is appended to it. */
  function Written(out: string, v: Value, floats: FloatText): string
    decreases v, 2
  {
    match v
    case Interval(i) => IntervalWritten(out, i)
    case _ => out + Body(v, floats)
  }

  /** The canonical text; `None` is a null, which each writer shows in its own way. */
  function ToText(v: Value, floats: FloatText): Option<string> {
    if v.Null? then None else Some(Written("", v, floats))
  }

  function Body(v: Value, floats: FloatText): string
    requires !v.Interval?
    decreases v, 1
  {
    match v
    case Null => ""
    case Bool(flag) => if flag then "true" else "false"
    case Int(n) => IntText(n)
    case UInt(n) => NatText(n)
    case Float(bits) => floats(bits)
    case Decimal(unscaled, scale) => DecimalText(unscaled, scale)
    case Text(text) => text
    case Bytes(bytes) => HexText(bytes)
    case Timestamp(micros, offset) => TimestampText(micros, offset)
    case Date(days) => DateText(days)
    case Time(micros) => TimeText(micros)
    case Json(text) => text
    case Array(items) => JsonArray(items, floats)
    case Row(fields) => JsonArray(fields, floats)
    case Map(entries) => JsonMap(entries, floats)
    case Unknown(_, shown, raw) =>
      match (shown, raw)
      case (Some(text), _) => text
      case (None, Some(bytes)) => HexText(bytes)
      case (None, None) => ""
  }

  /** A value inside a structure, as JSON. */
  function JsonLike(v: Value, floats: FloatText): string
    decreases v, 3
  {
    match v
    case Array(items) => JsonArray(items, floats)
    case Row(fields) => JsonArray(fields, floats)
    case Map(entries) => JsonMap(entries, floats)
    case Null => "null"
    case Bool(flag) => if flag then "true" else "false"
    case Int(n) => IntText(n)
    case UInt(n) => NatText(n)
    case Float(bits) => floats(bits)
    case _ => JsonString(Written("", v, floats))
  }

  function JsonArray(items: seq<Value>, floats: FloatText): string
    decreases items, 1
  {
    "[" + (if items == [] then "" else JsonLike(items[0], floats) + MoreItems(items[1..], floats)) + "]"
  }

  function MoreItems(items: seq<Value>, floats: FloatText): string
    decreases items, 0
  {
    if items == [] then "" else ", " + JsonLike(items[0], floats) + MoreItems(items[1..], floats)
  }

  function JsonMap(entries: seq<Entry>, floats: FloatText): string
    decreases entries, 1
  {
    "{" + (if entries == [] then "" else JsonEntry(entries[0], floats) + MoreEntries(entries[1..], floats)) + "}"
  }

  function MoreEntries(entries: seq<Entry>, floats: FloatText): string
    decreases entries, 0
  {
    if entries == [] then "" else ", " + JsonEntry(entries[0], floats) + MoreEntries(entries[1..], floats)
  }

  function JsonEntry(entry: Entry, floats: FloatText): string
    decreases entry, 0
  {
    JsonString(Written("", entry.key, floats)) + ": " + JsonLike(entry.item, floats)
  }

  // ---------------------------------------------------------------- the append law

  /** The values whose text does not depend on what the buffer held. */
  predicate AppendsCleanly(out: string, v: Value) {
    out == "" || (v.Interval? ==> v.interval.months != 0)
  }

  lemma Regroup(a: string, b: string, c: string)
    ensures a + b + c == a + (b + c)
  {
  }

  lemma AddDaysAppends(a: string, b: string, days: int)
    requires b != ""
    ensures AddDays(a + b, days) == a + AddDays(b, days) && AddDays(b, days) != ""
  {
    hide CountText;
    Regroup(a, b, ", ");
    Regroup(a, b + ", ", CountText(days, "day"));
  }

  lemma AddClockAppends(a: string, b: string, micros: int)
    requires b != ""
    ensures AddClock(a + b, micros) == a + AddClock(b, micros)
  {
    hide ClockText;
    Regroup(a, b, ", ");
    Regroup(a, b + ", ", (if micros < 0 then "-" else "") + ClockText(Abs(micros)));
  }

  lemma IntervalAppends(out: string, i: IntervalValue)
    requires i.months != 0
    ensures IntervalWritten(out, i) == out + IntervalWritten("", i)
  {
    hide AddDays, AddClock;
    var months := CountText(i.months, "month");
    assert "" + months == months;
    AddDaysAppends(out, months, i.days);
    AddClockAppends(out, AddDays(months, i.days), i.micros);
  }

  lemma CommaIsLonger(out: string, i: IntervalValue)
    requires i.months == 0 && out != ""
    ensures |IntervalWritten(out, i)| > |out| + |IntervalWritten("", i)|
  {
    hide CountText, ClockText;
  }

  /**
   Appending leaves the buffer as it was and adds exactly the value's own text, if and only if the
   buffer was empty, or the value is no interval, or the interval starts with months.
   */
  lemma AppendLaw(out: string, v: Value, floats: FloatText)
    ensures Written(out, v, floats) == out + Written("", v, floats) <==> AppendsCleanly(out, v)
  {
    hide Body, IntervalWritten;
    if v.Interval? {
      var i := v.interval;
      var own := IntervalWritten("", i);
      if out == "" {
        assert out + own == own;
      } else if i.months != 0 {
        IntervalAppends(out, i);
      } else {
        CommaIsLonger(out, i);
      }
    } else {
      assert "" + Body(v, floats) == Body(v, floats);
    }
  }

  // ---------------------------------------------------------------- hex

  lemma ByteDigits(x: u8, y: u8)
    ensures HexDigit(x / 16) == HexDigit(y / 16) && HexDigit(x % 16) == HexDigit(y % 16) ==> x == y
  {
    assert x == x / 16 * 16 + x % 16 && y == y / 16 * 16 + y % 16;
  }

  lemma {:induction false} HexLength(bytes: seq<u8>)
    ensures |HexText(bytes)| == 2 * |bytes|
  {
    hide HexDigit;
    if bytes != [] {
      HexLength(bytes[1..]);
    }
  }

  lemma HexSplits(bytes: seq<u8>)
    requires HexText(bytes) != ""
    ensures bytes != [] && |HexText(bytes)| >= 2
    ensures HexText(bytes)[0] == HexDigit(bytes[0] / 16) && HexText(bytes)[1] == HexDigit(bytes[0] % 16)
    ensures HexText(bytes)[2..] == HexText(bytes[1..])
  {
    hide HexDigit;
  }

  /** Two digits a byte, and no two byte strings share a text. */
  lemma {:induction false} HexIsExact(a: seq<u8>, b: seq<u8>)
    ensures |HexText(a)| == 2 * |a|
    ensures HexText(a) == HexText(b) ==> a == b
  {
    hide HexText, HexDigit;
    HexLength(a);
    HexLength(b);
    if a != [] && HexText(a) == HexText(b) {
      HexSplits(a);
      HexSplits(b);
      ByteDigits(a[0], b[0]);
      HexIsExact(a[1..], b[1..]);
      assert a == [a[0]] + a[1..] && b == [b[0]] + b[1..];
    }
  }
}
