/** Dates and times: printing then parsing, and the two protocols of one server. */
module TemporalTheorems {
  import opened Machine
  import opened Wrappers
  import opened NumberText
  import opened TextScan
  import opened Calendar
  import opened Normalize
  import Render
  import Utf8

  // ---------------------------------------------------------------- the parts of a text

  lemma DigitsAreFree(s: string, stops: set<char>)
    requires AllDigits(s) && forall c :: c in stops ==> !IsDigit(c)
    ensures Free(s, stops)
  {
  }

  lemma YmdReads(year: nat, month: nat, day: nat)
    requires year <= I64_MAX && month < 256 && day < 256
    ensures ParseYmd(DayText(year, month, day))
            == if InMonthRange(month, day) then Some(CivilDate(year, month, day)) else None
  {
    hide Padded, ParseSigned, ParseUnsigned;
    var y, m, d := Padded(year, 4), Padded(month, 2), Padded(day, 2);
    var text := DayText(year, month, day);
    assert text == y + ['-'] + (m + ['-'] + d);
    assert IsDigit(text[0]) && text[|text| - 1] == d[|d| - 1];
    TrimNothing(text);
    DigitsAreFree(y, {'-'});
    DigitsAreFree(m, {'-'});
    SplitOnceAt(y, '-', m + ['-'] + d, {'-'});
    SplitOnceAt(m, '-', d, {'-'});
    ParsePadded(year, 4, I64_MAX);
    ParsePadded(month, 2, 255);
    ParsePadded(day, 2, 255);
  }

  lemma ClockSplits(hour: nat, minute: nat, field: string)
    requires Free(field, {':'})
    ensures SplitClock(Padded(hour, 2) + ":" + Padded(minute, 2) + ":" + field)
            == Some((Padded(hour, 2), Padded(minute, 2), field))
  {
    hide Padded;
    var h, m := Padded(hour, 2), Padded(minute, 2);
    assert h + ":" + m + ":" + field == h + [':'] + (m + [':'] + field);
    DigitsAreFree(h, {':'});
    DigitsAreFree(m, {':'});
    SplitOnceAt(h, ':', m + [':'] + field, {':'});
    SplitOnceAt(m, ':', field, {':'});
  }

  /** A fraction as it follows the seconds: nothing, or a point and digits worth `micros`. */
  predicate FractionSuffix(suffix: string, micros: nat) {
    if suffix == "" then micros == 0 else suffix[0] == '.' && ParseFraction(suffix[1..]) == Some(micros)
  }

  lemma SecondsSplit(second: nat, suffix: string, micros: nat)
    requires FractionSuffix(suffix, micros)
    ensures var field := Padded(second, 2) + suffix;
            SplitSeconds(field) == Some((Padded(second, 2), micros)) && Free(field, {':'}) && IsDigit(field[|field| - 1])
  {
    hide Padded, DigitsValue;
    var s := Padded(second, 2);
    DigitsAreFree(s, {'.'});
    if suffix == "" {
      assert s + suffix == s;
    } else {
      var digits := suffix[1..];
      assert s + suffix == s + ['.'] + digits;
      SplitOnceAt(s, '.', digits, {'.'});
    }
  }

  lemma PrintedFraction(fraction: nat)
    requires fraction < 1_000_000
    ensures FractionSuffix(Render.FractionText(fraction), fraction)
  {
    Pow10Values();
    if fraction != 0 {
      PaddedLength(fraction, 6);
      PaddedValue(fraction, 6);
      assert Pow10(0) == 1;
      assert ("." + Padded(fraction, 6))[1..] == Padded(fraction, 6);
    }
  }

  // ---------------------------------------------------------------- timestamps

  lemma NotZeroDate(year: nat, month: nat, day: nat, tail: string)
    requires 1 <= month <= 12
    ensures !("0000-00-00" <= DayText(year, month, day) + tail)
  {
    Pow10Values();
    PaddedLength(month, 2);
    PaddedValue(month, 2);
    var y, m := Padded(year, 4), Padded(month, 2);
    var text := DayText(year, month, day) + tail;
    assert DigitsValue("00") == 0 by {
      assert "00"[..1] == "0" && "0"[..0] == "";
    }
    assert m != "00" && m == [m[0], m[1]];
    if |y| > 4 {
      assert text[4] == y[4];
    } else {
      assert text[5] == m[0] && text[6] == m[1];
    }
  }

  lemma ClockReads(hour: nat, minute: nat, second: nat, suffix: string, micros: nat)
    requires hour < 256 && minute < 256 && second < 256 && FractionSuffix(suffix, micros)
    ensures var text := ClockPart(hour, minute, second) + suffix;
            ParseClock(text) == Some(Clock(hour, minute, second, micros)) && text != "" && IsDigit(text[|text| - 1])
  {
    hide Padded, ParseUnsigned, SplitClock, SplitSeconds, FractionSuffix;
    var field := Padded(second, 2) + suffix;
    var text := ClockPart(hour, minute, second) + suffix;
    SecondsSplit(second, suffix, micros);
    assert text == Padded(hour, 2) + ":" + Padded(minute, 2) + ":" + field;
    assert text[|text| - 1] == field[|field| - 1];
    ClockSplits(hour, minute, field);
    ParsePadded(hour, 2, 255);
    ParsePadded(minute, 2, 255);
    ParsePadded(second, 2, 255);
  }

  lemma DayTextIsFree(year: nat, month: nat, day: nat)
    ensures var text := DayText(year, month, day); Free(text, {' ', 'T'}) && text != "" && IsDigit(text[0])
  {
    hide Padded;
  }

  lemma StampSplits(date: string, clock: string)
    requires date != "" && clock != "" && Free(date, {' ', 'T'}) && IsDigit(date[0]) && IsDigit(clock[|clock| - 1])
    ensures var text := date + " " + clock;
            Trim(text) == text && SplitOnce(text, {' ', 'T'}) == Some((date, clock))
  {
    var text := date + " " + clock;
    assert text[|text| - 1] == clock[|clock| - 1];
    TrimNothing(text);
    assert text == date + [' '] + clock;
    SplitOnceAt(date, ' ', clock, {' ', 'T'});
  }

  /** What a timestamp text means, for every year, part and fraction a server or a printer can write. */
  lemma StampReads(year: nat, month: nat, day: nat, hour: nat, minute: nat, second: nat, suffix: string, micros: nat)
    requires year <= I64_MAX && month < 256 && day < 256 && hour < 256 && minute < 256 && second < 256
    requires FractionSuffix(suffix, micros)
    ensures ParseTimestampNaive(DayText(year, month, day) + " " + (ClockPart(hour, minute, second) + suffix))
            == match TimestampMicros(CivilDate(year, month, day), hour, minute, second)
               case Some(base) => Some(WrapI64(base + micros))
               case None => None
  {
    hide DayText, ClockPart, ParseYmd, ParseClock, TimestampMicros, FractionSuffix, InMonthRange, Trim, SplitOnce;
    var date, clock := DayText(year, month, day), ClockPart(hour, minute, second) + suffix;
    DayTextIsFree(year, month, day);
    ClockReads(hour, minute, second, suffix, micros);
    YmdReads(year, month, day);
    StampSplits(date, clock);
    if InMonthRange(month, day) {
      InRangeMonth(month, day);
      NotZeroDate(year, month, day, " " + clock);
      assert date + " " + clock == date + (" " + clock);
    } else {
      TimestampNeedsRange(CivilDate(year, month, day), hour, minute, second);
    }
  }

  lemma InRangeMonth(month: int, day: int)
    requires InMonthRange(month, day)
    ensures 1 <= month <= 12
  {
  }

  lemma TimestampNeedsRange(date: CivilDate, hour: nat, minute: nat, second: nat)
    requires !InMonthRange(date.month, date.day)
    ensures TimestampMicros(date, hour, minute, second) == None
  {
  }

  // ---------------------------------------------------------------- printing then parsing

  /** Midnight of 1 January of year 0, in microseconds. */
  const YEAR_ZERO := -719_528 * 86_400_000_000

  lemma YearZero(days: int)
    ensures CivilFromDays(days).year >= 0 <==> days >= -719_528
  {
    var date := CivilFromDays(days);
    DaysRoundTrip(days);
    DaysFromCivilIs(date);
    MonthStarts();
    MarchYearSign(MarchYear(date));
    assert YearStart(-1) == -366;
  }

  lemma MarchYearSign(year: int)
    ensures year >= 0 ==> YearStart(year) >= 0
    ensures year <= -2 ==> YearStart(year) <= -731
  {
    if year >= 0 {
      assert year / 4 >= year / 100;
    } else {
      assert year / 4 <= year / 100;
    }
  }

  lemma ClockOf(magnitude: nat)
    ensures var seconds := magnitude / 1_000_000;
            && seconds % 3600 / 60 < 60 && seconds % 60 < 60
            && (seconds / 3600 * 3600 + seconds % 3600 / 60 * 60 + seconds % 60) * 1_000_000 + magnitude % 1_000_000 == magnitude
  {
    SixtiesOf(magnitude / 1_000_000);
  }

  lemma SplitOfDay(within: nat)
    requires within < 86_400_000_000
    ensures var seconds := within / 1_000_000;
            && seconds / 3600 < 24 && seconds % 3600 / 60 < 60 && seconds % 60 < 60 && within % 1_000_000 < 1_000_000
            && within == (seconds / 3600 * 3600 + seconds % 3600 / 60 * 60 + seconds % 60) * 1_000_000 + within % 1_000_000
  {
    ClockOf(within);
  }

  /** The instant that parts in range stand for. */
  lemma InstantOfParts(micros: i64, date: CivilDate, days: int, hour: nat, minute: nat, second: nat, fraction: nat)
    requires InMonthRange(date.month, date.day) && DaysFromCivil(date) == days
    requires hour <= 23 && minute <= 59 && second <= 60 && fraction < 1_000_000 && micros >= YEAR_ZERO
    requires micros == days * 86_400_000_000 + (hour * 3600 + minute * 60 + second) * 1_000_000 + fraction
    ensures var base := TimestampMicros(date, hour, minute, second);
            base.Some? && WrapI64(base.value + fraction) == micros
  {
    hide DaysFromCivil, WrapI64;
    assert InI64(days * 86_400 * 1_000_000 + (hour * 3600 + minute * 60 + second) * 1_000_000);
  }

  /** The instant that the printed parts stand for. */
  lemma PartsMakeInstant(micros: i64)
    requires micros >= YEAR_ZERO
    ensures var days, within := micros / MICROS_PER_DAY, micros % MICROS_PER_DAY;
            var seconds := within / 1_000_000;
            var base := TimestampMicros(CivilFromDays(days), seconds / 3600, seconds % 3600 / 60, seconds % 60);
            base.Some? && WrapI64(base.value + within % 1_000_000) == micros
  {
    hide CivilFromDays, DaysFromCivil, TimestampMicros, WrapI64;
    var days, within := micros / MICROS_PER_DAY, micros % MICROS_PER_DAY;
    var seconds := within / 1_000_000;
    SplitOfDay(within);
    DaysRoundTrip(days);
    var date := CivilFromDays(days);
    InRangeMonth(date.month, date.day);
    InstantOfParts(micros, date, days, seconds / 3600, seconds % 3600 / 60, seconds % 60, within % 1_000_000);
  }

  lemma PrintedDate(days: int)
    ensures var date := CivilFromDays(days);
            && 1 <= date.month < 256 && 1 <= date.day < 256 && Render.DateText(days) != ""
            && (date.year >= 0 ==> Render.DateText(days) == DayText(date.year, date.month, date.day))
            && (date.year < 0 ==> Render.DateText(days)[0] == '-')
  {
    hide CivilFromDays, Padded;
    DaysRoundTrip(days);
  }

  lemma PrintedStamp(micros: i64)
    ensures var within := micros % MICROS_PER_DAY; var seconds := within / 1_000_000;
            var clock := ClockPart(seconds / 3600, seconds % 3600 / 60, seconds % 60) + Render.FractionText(within % 1_000_000);
            Render.TimestampText(micros, None) == Render.DateText(micros / MICROS_PER_DAY) + " " + clock
  {
    hide Padded, Render.DateText, Render.FractionText;
    var within := micros % MICROS_PER_DAY;
    var seconds := within / 1_000_000;
    var clock := ClockPart(seconds / 3600, seconds % 3600 / 60, seconds % 60) + Render.FractionText(within % 1_000_000);
    assert Render.TimeText(within) == clock;
    var date := Render.DateText(micros / MICROS_PER_DAY);
    assert date + " " + clock + "" == date + " " + clock;
  }

  /** The parts of a printed instant. */
  ghost predicate Printed(micros: i64, date: CivilDate, clock: Clock) {
    var within := micros % MICROS_PER_DAY;
    var seconds := within / 1_000_000;
    && date == CivilFromDays(micros / MICROS_PER_DAY)
    && clock == Clock(seconds / 3600, seconds % 3600 / 60, seconds % 60, within % 1_000_000)
  }

  lemma PrintedReadsBack(micros: i64, date: CivilDate, clock: Clock)
    requires micros >= YEAR_ZERO && Printed(micros, date, clock)
    ensures ParseTimestampNaive(Render.TimestampText(micros, None)) == Some(micros)
  {
    PrintedDate(micros / MICROS_PER_DAY);
    PrintedStamp(micros);
    YearZero(micros / MICROS_PER_DAY);
    YearIsSmall(micros / MICROS_PER_DAY);
    SplitOfDay(micros % MICROS_PER_DAY);
    PrintedFraction(clock.micros);
    PartsMakeInstant(micros);
    hide *;
    StampReads(date.year, date.month, date.day, clock.hour, clock.minute, clock.second,
               Render.FractionText(clock.micros), clock.micros);
  }

  lemma PrintedIsRefused(micros: i64, date: CivilDate, clock: Clock)
    requires micros < YEAR_ZERO && Printed(micros, date, clock)
    ensures ParseTimestampNaive(Render.TimestampText(micros, None)) == None
  {
    hide CivilFromDays, ParseTimestampNaive, FractionSuffix, ClockPart, DayText, ParseClock,
      Render.FractionText, Render.TimestampText, Render.DateText;
    YearZero(micros / MICROS_PER_DAY);
    PrintedDate(micros / MICROS_PER_DAY);
    PrintedStamp(micros);
    SplitOfDay(micros % MICROS_PER_DAY);
    PrintedFraction(clock.micros);
    var fraction := Render.FractionText(clock.micros);
    ClockReads(clock.hour, clock.minute, clock.second, fraction, clock.micros);
    var day := Render.DateText(micros / MICROS_PER_DAY);
    EndsLike(day, ClockPart(clock.hour, clock.minute, clock.second) + fraction);
    NegativeYearIsRefused(Render.TimestampText(micros, None));
  }

  lemma EndsLike(date: string, clock: string)
    requires date != "" && clock != "" && IsDigit(clock[|clock| - 1])
    ensures var text := date + " " + clock; text[0] == date[0] && !IsWhitespace(text[|text| - 1])
  {
    var text := date + " " + clock;
    assert text[|text| - 1] == clock[|clock| - 1];
  }

  /**
   A zone-less timestamp parses back from its printed text exactly when it is not before year 0:
   instants before 1970 and fractions with leading zeros included.
   */
  lemma TimestampRoundTrip(micros: i64)
    ensures ParseTimestampNaive(Render.TimestampText(micros, None)) == if micros >= YEAR_ZERO then Some(micros) else None
  {
    var within := micros % MICROS_PER_DAY;
    var seconds := within / 1_000_000;
    var date := CivilFromDays(micros / MICROS_PER_DAY);
    var clock := Clock(seconds / 3600, seconds % 3600 / 60, seconds % 60, within % 1_000_000);
    hide ParseTimestampNaive, Render.TimestampText;
    if micros >= YEAR_ZERO {
      PrintedReadsBack(micros, date, clock);
    } else {
      PrintedIsRefused(micros, date, clock);
    }
  }

  lemma YearIsSmall(days: int)
    requires days < 0x8000_0000
    ensures CivilFromDays(days).year <= I64_MAX
  {
    var date := CivilFromDays(days);
    DaysRoundTrip(days);
    DaysFromCivilIs(date);
    MonthStarts();
  }

  lemma NegativeYearIsRefused(text: string)
    requires text != "" && text[0] == '-' && !IsWhitespace(text[|text| - 1])
    ensures ParseTimestampNaive(text) == None
  {
    TrimNothing(text);
    var parts := SplitOnce(text, {' ', 'T'});
    if parts.Some? {
      var date := parts.value.0;
      assert date[0] == '-';
      TrimKeepsStart(date);
      assert SplitOnce(Trim(date), {'-'}).value.0 == "";
    }
  }

  lemma {:induction false} TrimKeepsStart(s: string)
    requires s != "" && !IsWhitespace(s[0])
    ensures Trim(s) != "" && Trim(s)[0] == s[0]
    decreases |s|
  {
    if IsWhitespace(s[|s| - 1]) {
      TrimKeepsStart(s[..|s| - 1]);
    }
  }

  // ---------------------------------------------------------------- the two protocols

  /** The microseconds that one unit in the last printed place is worth. */
  function Unit(width: nat): nat
    requires width <= 6
  {
    match width
    case 0 => 1_000_000
    case 1 => 100_000
    case 2 => 10_000
    case 3 => 1000
    case 4 => 100
    case 5 => 10
    case _ => 1
  }

  /** The fraction a server prints at a width from 0 to 6. */
  function ServerFraction(digits: nat, width: nat): string
    requires width <= 6
  {
    if width == 0 then "" else "." + Padded(digits, width)
  }

  /** The printed digits are all of the fraction. */
  predicate LosesNothing(micros: nat, digits: nat, width: nat)
    requires width <= 6
  {
    digits * Unit(width) == micros < 1_000_000
  }

  lemma ServerFractionReads(micros: nat, digits: nat, width: nat)
    requires width <= 6 && LosesNothing(micros, digits, width)
    ensures FractionSuffix(ServerFraction(digits, width), micros)
  {
    Pow10Values();
    OneIsPow10();
    assert Unit(width) == Pow10(6 - width);
    if width > 0 {
      assert digits < Pow10(width);
      PaddedLength(digits, width);
      PaddedValue(digits, width);
      assert ServerFraction(digits, width)[1..] == Padded(digits, width);
    }
  }

  /** Every date the server can send, the zero date and impossible ones included, is one value by either protocol. */
  lemma DatesAgree(year: u16, month: u8, day: u8)
    ensures AsDate(MyBytes(Utf8.Encode(DayText(year, month, day)))) == AsDate(MyDate(year, month, day, 0, 0, 0, 0))
  {
    hide Utf8.Encode, Utf8.Decode, DayText, ParseYmd;
    Utf8.DecodeOfEncode(DayText(year, month, day));
    YmdReads(year, month, day);
  }

  /** A date and clock the server may store: the zero date and parts out of range are not among them. */
  predicate RealDateTime(month: u8, day: u8, hour: u8, minute: u8, second: u8) {
    InMonthRange(month, day) && hour <= 23 && minute <= 59 && second <= 60
  }

  /**
   A date and time is one value by either protocol, at every fraction width that loses nothing,
   exactly when its parts are in range or no fraction was printed: out of range the text is kept,
   and only the text protocol has the fraction in it.
   */
  lemma DateTimesAgree(year: u16, month: u8, day: u8, hour: u8, minute: u8, second: u8, micros: u32, digits: nat, width: nat)
    requires width <= 6 && LosesNothing(micros, digits, width)
    ensures var text := DayText(year, month, day) + " " + (ClockPart(hour, minute, second) + ServerFraction(digits, width));
            AsTimestamp(MyBytes(Utf8.Encode(text))) == AsTimestamp(MyDate(year, month, day, hour, minute, second, micros))
            <==> RealDateTime(month, day, hour, minute, second) || width == 0
  {
    hide Utf8.Encode, Utf8.Decode, DayText, ParseTimestampNaive, FractionSuffix, ClockPart, LosesNothing, DaysFromCivil, Padded;
    var fraction := ServerFraction(digits, width);
    var text := DayText(year, month, day) + " " + (ClockPart(hour, minute, second) + fraction);
    ServerFractionReads(micros, digits, width);
    Utf8.DecodeOfEncode(text);
    StampReads(year, month, day, hour, minute, second, fraction, micros);
    var plain := DayText(year, month, day) + " " + ClockPart(hour, minute, second);
    assert text == plain + fraction;
    if width == 0 {
      assert plain + "" == plain;
    } else {
      assert |text| > |plain|;
    }
  }

  lemma WrapTwice(total: int)
    ensures var wrapped: int := WrapI64(total); WrapI64(-wrapped) == WrapI64(-total)
  {
    var m := 0x1_0000_0000_0000_0000;
    var low := total % m;
    var q := total / m;
    assert total == q * m + low;
    ShiftByMultiple(-low, m, -q);
    ShiftByMultiple(m - low, m, -1);
  }

  /** The text protocol's form of a duration: one sign, then hours without an upper bound. */
  function DurationText(negative: bool, hours: nat, minutes: nat, seconds: nat, suffix: string): string {
    (if negative then "-" else "") + (ClockPart(hours, minutes, seconds) + suffix)
  }

  lemma DurationReads(negative: bool, hours: nat, minutes: nat, seconds: nat, suffix: string, micros: nat)
    requires hours <= I64_MAX && minutes < 256 && seconds < 256 && FractionSuffix(suffix, micros)
    ensures ParseTimeMicros(DurationText(negative, hours, minutes, seconds, suffix))
            == if minutes > 59 || seconds > 60 then None
               else Some(DurationMicros(negative, hours, minutes, seconds, micros))
  {
    hide Padded, ParseSigned, SplitClock, SplitSeconds, FractionSuffix, DurationMicros;
    var field := Padded(seconds, 2) + suffix;
    var clock := ClockPart(hours, minutes, seconds) + suffix;
    var text := DurationText(negative, hours, minutes, seconds, suffix);
    SecondsSplit(seconds, suffix, micros);
    assert clock == Padded(hours, 2) + ":" + Padded(minutes, 2) + ":" + field;
    assert IsDigit(clock[0]) && clock[|clock| - 1] == field[|field| - 1];
    assert text[|text| - 1] == clock[|clock| - 1];
    assert if negative then text[0] == '-' && text[1..] == clock else text == clock;
    TrimNothing(text);
    ClockSplits(hours, minutes, field);
    ParsePadded(hours, 2, I64_MAX);
    ParsePadded(minutes, 2, I64_MAX);
    ParsePadded(seconds, 2, I64_MAX);
  }

  /**
   A duration is one value by either protocol, time of day or interval, exactly when its minutes
   and seconds are in the range the text parser accepts.
   */
  lemma DurationsAgree(negative: bool, days: u32, hours: u8, minutes: u8, seconds: u8, micros: u32, digits: nat, width: nat)
    requires width <= 6 && LosesNothing(micros, digits, width)
    ensures var text := DurationText(negative, days * 24 + hours, minutes, seconds, ServerFraction(digits, width));
            AsTime(MyBytes(Utf8.Encode(text))) == AsTime(MyTime(negative, days, hours, minutes, seconds, micros))
            <==> minutes <= 59 && seconds <= 60
  {
    hide Utf8.Encode, Utf8.Decode, DurationText, ParseTimeMicros, FractionSuffix, LosesNothing, WrapI64, ServerFraction;
    var fraction := ServerFraction(digits, width);
    var text := DurationText(negative, days * 24 + hours, minutes, seconds, fraction);
    ServerFractionReads(micros, digits, width);
    Utf8.DecodeOfEncode(text);
    DurationReads(negative, days * 24 + hours, minutes, seconds, fraction, micros);
    WrapTwice((days * 86_400 + hours * 3600 + minutes * 60 + seconds) * 1_000_000 + micros);
  }

  // ---------------------------------------------------------------- dates and times on their own

  /** A printed date parses back exactly when its year is not negative. */
  lemma DateTextRoundTrip(days: i32)
    ensures ParseDateDays(Render.DateText(days)) == if CivilFromDays(days).year >= 0 then Some(days) else None
  {
    hide CivilFromDays, DaysFromCivil, DayText, Render.DateText, ParseYmd;
    var date := CivilFromDays(days);
    PrintedDate(days);
    DaysRoundTrip(days);
    if date.year >= 0 {
      YearIsSmall(days);
      YmdReads(date.year, date.month, date.day);
      InRangeMonth(date.month, date.day);
    } else {
      NegativeDateIsRefused(Render.DateText(days));
    }
  }

  lemma NegativeDateIsRefused(text: string)
    requires text != "" && text[0] == '-'
    ensures ParseYmd(text) == None
  {
    TrimKeepsStart(text);
    assert SplitOnce(Trim(text), {'-'}).value.0 == "";
  }

  /** A printed time parses back whatever its sign and however many hours it has: the least `i64` included. */
  lemma TimeTextRoundTrip(micros: i64)
    ensures ParseTimeMicros(Render.TimeText(micros)) == Some(micros)
  {
    hide ParseTimeMicros, Padded, Render.FractionText;
    var magnitude := Abs(micros);
    var seconds, fraction := magnitude / 1_000_000, magnitude % 1_000_000;
    var suffix := Render.FractionText(fraction);
    PrintedFraction(fraction);
    ClockOf(magnitude);
    DurationReads(micros < 0, seconds / 3600, seconds % 3600 / 60, seconds % 60, suffix, fraction);
    assert Render.TimeText(micros) == DurationText(micros < 0, seconds / 3600, seconds % 3600 / 60, seconds % 60, suffix) by {
      Render.Regroup(if micros < 0 then "-" else "", ClockPart(seconds / 3600, seconds % 3600 / 60, seconds % 60), suffix);
      TimeTextIs(micros);
    }
    WrapTwice(magnitude);
  }

  lemma TimeTextIs(micros: i64)
    ensures var seconds := Abs(micros) / 1_000_000;
            Render.TimeText(micros)
            == (if micros < 0 then "-" else "") + ClockPart(seconds / 3600, seconds % 3600 / 60, seconds % 60)
               + Render.FractionText(Abs(micros) % 1_000_000)
  {
    hide Padded, Render.FractionText;
  }
}
