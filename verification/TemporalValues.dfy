/** Which value a temporal column becomes, from the parts of one protocol and from the text of the other. */
module TemporalValues {
  import opened Machine
  import opened Wrappers
  import opened Values
  import opened NumberText
  import opened Calendar
  import opened Normalize
  import opened TemporalGrammar
  import Utf8

  // ---------------------------------------------------------------- durations

  /** A length of time from nothing up to a day is a time of day; any other, negative ones included, an interval. */
  predicate IsSpan(v: Value, micros: int) {
    if 0 <= micros < 86_400_000_000 then v.Time? && v.micros == micros
    else v.Interval? && v.interval.months == 0 && v.interval.days == 0 && v.interval.micros == micros
  }

  lemma TimeOfParts(negative: bool, days: u32, hours: u8, minutes: u8, seconds: u8, micros: u32)
    ensures var magnitude := (days * 86_400 + hours * 3600 + minutes * 60 + seconds) * 1_000_000 + micros;
            var total := if negative then -magnitude else magnitude;
            && IsSpan(AsTime(MyTime(negative, days, hours, minutes, seconds, micros)), WrapI64(total))
            && (InI64(total) ==> IsSpan(AsTime(MyTime(negative, days, hours, minutes, seconds, micros)), total))
  {
    hide WrapI64;
  }

  lemma TimeOfText(text: string, c: ClockText, d: Duration)
    requires DurationSays(text, c, d)
    ensures IsSpan(AsTime(MyBytes(Utf8.Encode(text))), WrapI64(Total(d)))
    ensures InI64(Total(d)) ==> IsSpan(AsTime(MyBytes(Utf8.Encode(text))), Total(d))
  {
    hide DurationSays, ParseTimeMicros, WrapI64, Total, Utf8.Encode, Utf8.Decode;
    DurationMeans(text, c, d);
    Utf8.DecodeOfEncode(text);
  }

  // ---------------------------------------------------------------- dates

  lemma DaysAreSmall(year: u16, month: int, day: int)
    requires InMonthRange(month, day)
    ensures -719_528 <= DaysFromCivil(CivilDate(year, month, day)) < 24_000_000
  {
    var date := CivilDate(year, month, day);
    DaysFromCivilIs(date);
    MonthStarts();
  }

  lemma DateOfParts(year: u16, month: u8, day: u8, hour: u8, minute: u8, second: u8, micros: u32)
    ensures AsDate(MyDate(year, month, day, hour, minute, second, micros))
            == if 1 <= month <= 12 && 1 <= day <= 31 then Date(DaysFromCivil(CivilDate(year, month, day)))
               else Text(DayText(year, month, day))
  {
    hide DaysFromCivil, DayText;
    if InMonthRange(month, day) {
      DaysAreSmall(year, month, day);
    }
  }

  lemma DateOfText(text: string, t: DateText, date: CivilDate)
    requires DateSays(text, t, date)
    ensures var days := WrapI64(DaysFromCivil(date));
            AsDate(MyBytes(Utf8.Encode(text))) == if InI32(days) then Date(days) else Text(text)
    ensures InI32(DaysFromCivil(date)) ==> AsDate(MyBytes(Utf8.Encode(text))) == Date(DaysFromCivil(date))
  {
    hide DateSays, ParseYmd, WrapI64, DaysFromCivil, Utf8.Encode, Utf8.Decode;
    DateMeans(text, t, date);
    Utf8.DecodeOfEncode(text);
  }

  // ---------------------------------------------------------------- timestamps

  lemma StampOfParts(year: u16, month: u8, day: u8, hour: u8, minute: u8, second: u8, micros: u32)
    ensures AsTimestamp(MyDate(year, month, day, hour, minute, second, micros))
            == if 1 <= month <= 12 && 1 <= day <= 31 && hour <= 23 && minute <= 59 && second <= 60
               then Timestamp(Instant(CivilDate(year, month, day), Clock(hour, minute, second, micros)), None)
               else Text(DayText(year, month, day) + " " + ClockPart(hour, minute, second))
  {
    hide DaysFromCivil, DayText, ClockPart, TimestampMicros, WrapI64, Instant;
    var date, clock := CivilDate(year, month, day), Clock(hour, minute, second, micros);
    if InMonthRange(month, day) && hour <= 23 && minute <= 59 && second <= 60 {
      InstantIs(date, clock);
      SmallInstant(year, month, day, clock);
    } else {
      NoInstant(date, hour, minute, second);
    }
  }

  lemma NoInstant(date: CivilDate, hour: nat, minute: nat, second: nat)
    requires !(InMonthRange(date.month, date.day) && hour <= 23 && minute <= 59 && second <= 60)
    ensures TimestampMicros(date, hour, minute, second) == None
  {
  }

  lemma SmallInstant(year: u16, month: int, day: int, clock: Clock)
    requires InMonthRange(month, day) && clock.hour <= 23 && clock.minute <= 59 && clock.second <= 60
    requires clock.micros < 0x1_0000_0000
    ensures InI64(Instant(CivilDate(year, month, day), clock))
  {
    hide DaysFromCivil;
    DaysAreSmall(year, month, day);
  }

  lemma StampOfText(text: string, t: StampText, date: CivilDate, clock: Clock)
    requires StampSays(text, t, date, clock)
    ensures AsTimestamp(MyBytes(Utf8.Encode(text))) == Timestamp(WrapI64(Instant(date, clock)), None)
    ensures InI64(Instant(date, clock)) ==> AsTimestamp(MyBytes(Utf8.Encode(text))) == Timestamp(Instant(date, clock), None)
  {
    hide StampSays, ParseTimestampNaive, WrapI64, Instant, Utf8.Encode, Utf8.Decode;
    StampMeans(text, t, date, clock);
    Utf8.DecodeOfEncode(text);
  }

  // ---------------------------------------------------------------- everything else is kept

  /** A text that says nothing of the kind stays that text. */
  lemma OtherTexts(text: string)
    ensures (forall c, d :: !DurationSays(text, c, d)) ==> AsTime(MyBytes(Utf8.Encode(text))) == Text(text)
    ensures (forall t, date :: !DateSays(text, t, date)) ==> AsDate(MyBytes(Utf8.Encode(text))) == Text(text)
    ensures (forall t, date, clock :: !StampSays(text, t, date, clock)) ==> AsTimestamp(MyBytes(Utf8.Encode(text))) == Text(text)
  {
    hide DurationSays, DateSays, StampSays, ParseTimeMicros, ParseYmd, ParseTimestampNaive, Utf8.Encode, Utf8.Decode;
    Utf8.DecodeOfEncode(text);
    if ParseTimeMicros(text).Some? {
      var c, d := DurationOnly(text);
    }
    if ParseYmd(text).Some? {
      var t := DateOnly(text);
    }
    if ParseTimestampNaive(text).Some? {
      var t, date, clock := StampOnly(text);
    }
  }

  /** Bytes that are no text stay those bytes. */
  lemma OtherBytes(bytes: seq<u8>)
    requires Utf8.Decode(bytes) == None
    ensures AsTime(MyBytes(bytes)) == Bytes(bytes)
    ensures AsDate(MyBytes(bytes)) == Bytes(bytes)
    ensures AsTimestamp(MyBytes(bytes)) == Bytes(bytes)
    ensures AsDecimal(MyBytes(bytes)) == Bytes(bytes)
  {
    hide Utf8.Decode;
  }

  /** A null stays null, and a number stays that number, which a decimal column takes at scale zero. */
  lemma NumbersAndNulls(n: i64, u: u64, bits: u64)
    ensures AsTime(MyNull) == AsDate(MyNull) == AsTimestamp(MyNull) == AsDecimal(MyNull) == Null
    ensures AsTime(MyInt(n)) == AsDate(MyInt(n)) == AsTimestamp(MyInt(n)) == Int(n)
    ensures AsTime(MyUInt(u)) == AsDate(MyUInt(u)) == AsTimestamp(MyUInt(u)) == UInt(u)
    ensures AsTime(MyFloat(bits)) == AsDate(MyFloat(bits)) == AsTimestamp(MyFloat(bits)) == AsDecimal(MyFloat(bits)) == Float(bits)
    ensures AsDecimal(MyInt(n)) == Decimal(n, 0) && AsDecimal(MyUInt(u)) == Decimal(u, 0)
  {
  }

  /** Parts in a column of another kind are kept as text, to the second; days become hours, in 32 bits. */
  lemma PartsElsewhere(year: u16, month: u8, day: u8, hour: u8, minute: u8, second: u8, micros: u32, negative: bool, days: u32)
    ensures var stamp := MyDate(year, month, day, hour, minute, second, micros);
            AsTime(stamp) == AsDecimal(stamp) == Text(DayText(year, month, day) + " " + ClockPart(hour, minute, second))
    ensures var span := MyTime(negative, days, hour, minute, second, micros);
            AsDate(span) == AsTimestamp(span) == AsDecimal(span)
            == Text((if negative then "-" else "") + ClockPart((days * 24 + hour) % 0x1_0000_0000, minute, second))
  {
    hide DayText, ClockPart;
  }

  /** The shape of those texts: every part has its full width, and the marks stand between them. */
  lemma TextWidths(year: nat, month: nat, day: nat, hour: nat, minute: nat, second: nat)
    requires year < 10_000 && month < 100 && day < 100 && hour < 100 && minute < 100 && second < 100
    ensures var date := DayText(year, month, day); |date| == 10 && date[4] == '-' && date[7] == '-'
    ensures var clock := ClockPart(hour, minute, second); |clock| == 8 && clock[2] == ':' && clock[5] == ':'
  {
    hide Padded;
    Pow10Values();
    PaddedLength(year, 4);
    PaddedLength(month, 2);
    PaddedLength(day, 2);
    PaddedLength(hour, 2);
    PaddedLength(minute, 2);
    PaddedLength(second, 2);
  }
}
