/** Which texts are durations and timestamps, and what every one of them means. */
module TemporalGrammar {
  import opened Machine
  import opened Wrappers
  import opened NumberText
  import opened TextScan
  import opened Calendar
  import opened Normalize
  import TemporalTheorems

  // ---------------------------------------------------------------- numerals

  /** Digits, with a plus sign or without. */
  predicate UnsignedNumeral(s: string, n: int) {
    || (s != "" && AllDigits(s) && n == DigitsValue(s))
    || (|s| > 1 && s[0] == '+' && AllDigits(s[1..]) && n == DigitsValue(s[1..]))
  }

  /** Digits, with a sign or without. */
  predicate SignedNumeral(s: string, n: int) {
    || UnsignedNumeral(s, n)
    || (|s| > 1 && s[0] == '-' && AllDigits(s[1..]) && n + DigitsValue(s[1..]) == 0)
  }

  lemma UnsignedExact(s: string, n: nat, max: nat)
    ensures ParseUnsigned(s, max) == Some(n) <==> UnsignedNumeral(s, n) && n <= max
  {
    if s != "" {
      assert AllDigits(s) ==> IsDigit(s[0]);
    }
  }

  lemma SignedExact(s: string, n: int, max: nat)
    ensures ParseSigned(s, max) == Some(n) <==> SignedNumeral(s, n) && -1 <= n + max && n <= max
  {
    if s != "" {
      assert AllDigits(s) ==> IsDigit(s[0]);
    }
  }

  /** A minus sign before a digit other than zero. */
  predicate BelowZero(s: string) {
    s != "" && s[0] == '-' && exists i :: 1 <= i < |s| && s[i] != '0'
  }

  lemma {:induction false} ZeroDigits(s: string)
    requires AllDigits(s)
    ensures DigitsValue(s) == 0 <==> forall i :: 0 <= i < |s| ==> s[i] == '0'
  {
    if s != "" {
      ZeroDigits(s[..|s| - 1]);
    }
  }

  lemma SignOfNumeral(s: string, n: int)
    requires SignedNumeral(s, n)
    ensures n < 0 <==> BelowZero(s)
  {
    if |s| > 1 && s[0] == '-' {
      ZeroDigits(s[1..]);
      assert forall i :: 1 <= i < |s| ==> s[i] == s[1..][i - 1];
    } else {
      assert s[0] == '+' || IsDigit(s[0]);
    }
  }

  /** One to six digits after the point, as microseconds: `micros / 10^6` is the fraction they spell. */
  predicate FractionNumeral(s: string, micros: nat) {
    1 <= |s| <= 6 && AllDigits(s) && micros * Pow10(|s|) == DigitsValue(s) * 1_000_000
  }

  lemma FractionExact(s: string, micros: nat)
    ensures ParseFraction(s) == Some(micros) <==> FractionNumeral(s, micros)
  {
    if 1 <= |s| <= 6 && AllDigits(s) {
      var low, high, value := Pow10(|s|), Pow10(6 - |s|), DigitsValue(s);
      Pow10Adds(6 - |s|, |s|);
      Pow10Values();
      hide Pow10, DigitsValue;
      assert (value * high) * low == value * 1_000_000;
      SameProduct(micros, value * high, low);
    }
  }

  lemma SameProduct(a: nat, b: nat, c: nat)
    requires c > 0
    ensures a * c == b * c <==> a == b
  {
    if a < b {
      assert (b - a) * c > 0;
    } else if b < a {
      assert (a - b) * c > 0;
    }
  }

  // ---------------------------------------------------------------- clocks

  /** The pieces of a clock; whatever follows a third colon is there but not read. */
  datatype ClockText = ClockText(hour: string, minute: string, second: string, fraction: Option<string>, tail: string)

  function FractionPart(fraction: Option<string>): string {
    match fraction
    case None => ""
    case Some(digits) => "." + digits
  }

  function Spelled(c: ClockText): string {
    c.hour + [':'] + (c.minute + [':'] + (c.second + FractionPart(c.fraction) + c.tail))
  }

  predicate ClockForm(c: ClockText) {
    && Free(c.hour, {':'}) && Free(c.minute, {':'}) && Free(c.second, {':', '.'})
    && (c.fraction.Some? ==> Free(c.fraction.value, {':'}))
    && (c.tail == "" || c.tail[0] == ':')
  }

  /** The field of the seconds, and what the third colon starts. */
  function SecondsAndTail(text: string): (string, string) {
    match SplitOnce(text, {':'})
    case None => (text, "")
    case Some(parts) => (parts.0, text[|parts.0|..])
  }

  /** The field of the seconds around its point. */
  function AroundPoint(field: string): (string, Option<string>) {
    match SplitOnce(field, {'.'})
    case None => (field, None)
    case Some(parts) => (parts.0, Some(parts.1))
  }

  function ClockTextOf(text: string): Option<ClockText> {
    var (hour, rest) :- SplitOnce(text, {':'});
    var (minute, rest2) :- SplitOnce(rest, {':'});
    var (field, tail) := SecondsAndTail(rest2);
    var (second, fraction) := AroundPoint(field);
    Some(ClockText(hour, minute, second, fraction, tail))
  }

  lemma SplitJoins(s: string, stop: char)
    requires SplitOnce(s, {stop}).Some?
    ensures var (a, b) := SplitOnce(s, {stop}).value; s == a + [stop] + b
  {
    var (a, b) := SplitOnce(s, {stop}).value;
    assert s == s[..|a|] + [s[|a|]] + s[|a| + 1..];
  }

  lemma TailExact(text: string, field: string, tail: string)
    ensures SecondsAndTail(text) == (field, tail)
            <==> text == field + tail && Free(field, {':'}) && (tail == "" || tail[0] == ':')
  {
    if text == field + tail && Free(field, {':'}) && (tail == "" || tail[0] == ':') {
      if tail == "" {
        assert text == field;
      } else {
        assert text == field + [':'] + tail[1..];
        SplitOnceAt(field, ':', tail[1..], {':'});
      }
    }
  }

  lemma PointExact(field: string, second: string, fraction: Option<string>)
    ensures AroundPoint(field) == (second, fraction) <==> field == second + FractionPart(fraction) && Free(second, {'.'})
  {
    if AroundPoint(field) == (second, fraction) && fraction.Some? {
      SplitJoins(field, '.');
    }
    if field == second + FractionPart(fraction) && Free(second, {'.'}) {
      if fraction.Some? {
        assert field == second + ['.'] + fraction.value;
        SplitOnceAt(second, '.', fraction.value, {'.'});
      } else {
        assert field == second;
      }
    }
  }

  lemma FieldIsFree(second: string, fraction: Option<string>)
    ensures Free(second + FractionPart(fraction), {':'}) && Free(second, {'.'})
            <==> Free(second, {':', '.'}) && (fraction.Some? ==> Free(fraction.value, {':'}))
  {
    var field := second + FractionPart(fraction);
    assert forall i :: 0 <= i < |second| ==> field[i] == second[i];
    if fraction.Some? {
      assert forall i :: 0 <= i < |fraction.value| ==> field[|second| + 1 + i] == fraction.value[i];
    }
  }

  /** A text has at most one reading as a clock, and it is the one that spells it. */
  lemma ClockTextExact(text: string, c: ClockText)
    ensures ClockTextOf(text) == Some(c) <==> ClockForm(c) && text == Spelled(c)
  {
    var field := c.second + FractionPart(c.fraction);
    FieldIsFree(c.second, c.fraction);
    TailExact(field + c.tail, field, c.tail);
    PointExact(field, c.second, c.fraction);
    if ClockForm(c) && text == Spelled(c) {
      hide Free, SecondsAndTail, AroundPoint;
      SplitOnceAt(c.hour, ':', c.minute + [':'] + (field + c.tail), {':'});
      SplitOnceAt(c.minute, ':', field + c.tail, {':'});
    }
    if ClockTextOf(text) == Some(c) {
      SplitJoins(text, ':');
      var rest := SplitOnce(text, {':'}).value.1;
      SplitJoins(rest, ':');
      var rest2 := SplitOnce(rest, {':'}).value.1;
      var (secondsField, tail) := SecondsAndTail(rest2);
      TailExact(rest2, secondsField, tail);
      PointExact(secondsField, c.second, c.fraction);
    }
  }

  /** The fraction, or none, in microseconds. */
  predicate FractionSays(fraction: Option<string>, micros: nat) {
    match fraction
    case None => micros == 0
    case Some(digits) => FractionNumeral(digits, micros)
  }

  /** The parser sees the same pieces. */
  lemma SplitClockIs(text: string)
    ensures match ClockTextOf(text)
            case None => SplitClock(text) == None
            case Some(c) => SplitClock(text) == Some((c.hour, c.minute, c.second + FractionPart(c.fraction)))
  {
    var first := SplitOnce(text, {':'});
    if first.Some? {
      var second := SplitOnce(first.value.1, {':'});
      if second.Some? {
        var (field, tail) := SecondsAndTail(second.value.1);
        var (seconds, fraction) := AroundPoint(field);
        PointExact(field, seconds, fraction);
      }
    }
  }

  lemma SplitSecondsIs(second: string, fraction: Option<string>, micros: nat)
    requires Free(second, {'.'})
    ensures SplitSeconds(second + FractionPart(fraction)) == Some((second, micros)) <==> FractionSays(fraction, micros)
    ensures SplitSeconds(second + FractionPart(fraction)).Some? ==> SplitSeconds(second + FractionPart(fraction)).value.0 == second
  {
    hide ParseFraction, FractionNumeral;
    PointExact(second + FractionPart(fraction), second, fraction);
    if fraction.Some? {
      FractionExact(fraction.value, micros);
    }
  }

  // ---------------------------------------------------------------- durations

  datatype Duration = Duration(negative: bool, hours: i64, minutes: i64, seconds: i64, micros: nat)

  /** In microseconds, however large. */
  function Total(d: Duration): int {
    var magnitude := (d.hours * 3600 + d.minutes * 60 + d.seconds) * 1_000_000 + d.micros;
    if d.negative then -magnitude else magnitude
  }

  predicate NumbersSay(c: ClockText, d: Duration) {
    && SignedNumeral(c.hour, d.hours) && SignedNumeral(c.minute, d.minutes) && SignedNumeral(c.second, d.seconds)
    && FractionSays(c.fraction, d.micros)
    && d.minutes <= 59 && d.seconds <= 60
  }

  /** The text, trimmed and without a leading minus, is this clock, and the clock says this duration. */
  predicate DurationSays(text: string, c: ClockText, d: Duration) {
    var trimmed := Trim(text);
    && d.negative == (trimmed != "" && trimmed[0] == '-')
    && ClockForm(c) && (if d.negative then trimmed[1..] else trimmed) == Spelled(c)
    && NumbersSay(c, d)
  }

  /** The clock part of the duration parser, given the pieces. */
  lemma NumbersRead(c: ClockText, d: Duration)
    ensures NumbersSay(c, d) <==>
            && ParseSigned(c.hour, I64_MAX) == Some(d.hours) && ParseSigned(c.minute, I64_MAX) == Some(d.minutes)
            && ParseSigned(c.second, I64_MAX) == Some(d.seconds) && FractionSays(c.fraction, d.micros)
            && d.minutes <= 59 && d.seconds <= 60
  {
    hide SignedNumeral, ParseSigned;
    SignedExact(c.hour, d.hours, I64_MAX);
    SignedExact(c.minute, d.minutes, I64_MAX);
    SignedExact(c.second, d.seconds, I64_MAX);
  }

  lemma WrappedTotal(d: Duration)
    ensures DurationMicros(d.negative, d.hours, d.minutes, d.seconds, d.micros) == WrapI64(Total(d))
    ensures WrapI64(Total(d)) == Total(d) <==> InI64(Total(d))
  {
    hide WrapI64;
    TemporalTheorems.WrapTwice((d.hours * 3600 + d.minutes * 60 + d.seconds) * 1_000_000 + d.micros);
  }

  /** The parser's view of the field of the seconds. */
  lemma SecondsRead(c: ClockText, micros: nat)
    requires ClockForm(c)
    ensures SplitSeconds(c.second + FractionPart(c.fraction)) == Some((c.second, micros)) <==> FractionSays(c.fraction, micros)
    ensures SplitSeconds(c.second + FractionPart(c.fraction)).Some? ==>
              SplitSeconds(c.second + FractionPart(c.fraction)).value.0 == c.second
  {
    hide FractionSays, SplitSeconds;
    FieldIsFree(c.second, c.fraction);
    SplitSecondsIs(c.second, c.fraction, micros);
  }

  /** A text that says a duration is read as it, and exactly so if and only if the microseconds fit an `i64`. */
  lemma DurationMeans(text: string, c: ClockText, d: Duration)
    requires DurationSays(text, c, d)
    ensures ParseTimeMicros(text) == Some(WrapI64(Total(d)))
    ensures ParseTimeMicros(text) == Some(Total(d)) <==> InI64(Total(d))
  {
    hide Free, SplitClock, SplitSeconds, ParseSigned, Trim, Spelled, ClockForm, ClockTextOf, DurationMicros, WrapI64, Total,
      SignedNumeral, FractionSays, FractionPart;
    var rest := Spelled(c);
    ClockTextExact(rest, c);
    SplitClockIs(rest);
    SecondsRead(c, d.micros);
    NumbersRead(c, d);
    WrappedTotal(d);
  }

  /** And no other text is read. */
  lemma DurationOnly(text: string) returns (c: ClockText, d: Duration)
    requires ParseTimeMicros(text).Some?
    ensures DurationSays(text, c, d)
  {
    hide Free, SplitClock, SplitSeconds, ParseSigned, Trim, Spelled, ClockForm, ClockTextOf, DurationMicros, NumbersSay,
      SignedNumeral, FractionSays, FractionPart;
    var trimmed := Trim(text);
    var negative := trimmed != "" && trimmed[0] == '-';
    var rest := if negative then trimmed[1..] else trimmed;
    SplitClockIs(rest);
    c := ClockTextOf(rest).value;
    ClockTextExact(rest, c);
    var micros := SplitSeconds(c.second + FractionPart(c.fraction)).value.1;
    SecondsRead(c, micros);
    var hours, minutes, seconds := ParseSigned(c.hour, I64_MAX).value, ParseSigned(c.minute, I64_MAX).value,
                                   ParseSigned(c.second, I64_MAX).value;
    SignedExact(c.hour, hours, I64_MAX);
    SignedExact(c.minute, minutes, I64_MAX);
    SignedExact(c.second, seconds, I64_MAX);
    d := Duration(negative, hours, minutes, seconds, micros);
    NumbersRead(c, d);
  }

  /**
   Only upper bounds are checked: minutes are from 0 to 59 and seconds from 0 to 60 exactly when
   neither field has a minus sign before a digit other than zero.
   */
  lemma DurationRanges(text: string, c: ClockText, d: Duration)
    requires DurationSays(text, c, d)
    ensures 0 <= d.minutes <= 59 && 0 <= d.seconds <= 60 <==> !BelowZero(c.minute) && !BelowZero(c.second)
  {
    hide SignedNumeral, BelowZero, Trim, Spelled, ClockForm;
    SignOfNumeral(c.minute, d.minutes);
    SignOfNumeral(c.second, d.seconds);
  }

  lemma TwoDigits(s: string)
    requires |s| == 2 && AllDigits(s)
    ensures DigitsValue(s) == DigitOf(s[0]) * 10 + DigitOf(s[1])
  {
    assert s[..|s| - 1] == [s[0]] && [s[0]][..0] == "";
    assert DigitsValue([s[0]]) == DigitOf(s[0]);
  }

  lemma TwoDigitNumeral(s: string, n: int)
    requires |s| == 2 && AllDigits(s) && n == DigitOf(s[0]) * 10 + DigitOf(s[1])
    ensures SignedNumeral(s, n) && SignedNumeral("-" + s, -n)
  {
    TwoDigits(s);
    assert ("-" + s)[1..] == s;
  }

  /** Half an hour taken off ten. */
  lemma NegativeMinutes()
    ensures ParseTimeMicros("10:-30:00") == Some(34_200_000_000)
  {
    hide ParseTimeMicros, SignedNumeral, Trim, Free, WrapI64;
    var c := ClockText("10", "-30", "00", None, "");
    var d := Duration(false, 10, -30, 0, 0);
    var text := "10:-30:00";
    TwoDigitNumeral("10", 10);
    TwoDigitNumeral("30", 30);
    TwoDigitNumeral("00", 0);
    assert "-" + "30" == "-30";
    assert Spelled(c) == text;
    NoColons();
    TrimNothing(text);
    DurationMeans(text, c, d);
  }

  lemma NoColons()
    ensures Free("10", {':'}) && Free("-30", {':'}) && Free("00", {':', '.'})
  {
  }

  // ---------------------------------------------------------------- timestamps

  datatype DateText = DateText(year: string, month: string, day: string)

  /** Three numerals between hyphens, each month given 31 days. */
  predicate DateSays(text: string, t: DateText, date: CivilDate) {
    && Trim(text) == t.year + ['-'] + (t.month + ['-'] + t.day) && Free(t.year, {'-'}) && Free(t.month, {'-'})
    && SignedNumeral(t.year, date.year) && InI64(date.year)
    && UnsignedNumeral(t.month, date.month) && UnsignedNumeral(t.day, date.day)
    && InMonthRange(date.month, date.day)
  }

  lemma DateMeans(text: string, t: DateText, date: CivilDate)
    requires DateSays(text, t, date)
    ensures ParseYmd(text) == Some(date)
  {
    hide Trim, SignedNumeral, UnsignedNumeral, ParseSigned, ParseUnsigned;
    SplitOnceAt(t.year, '-', t.month + ['-'] + t.day, {'-'});
    SplitOnceAt(t.month, '-', t.day, {'-'});
    SignedExact(t.year, date.year, I64_MAX);
    UnsignedExact(t.month, date.month, 255);
    UnsignedExact(t.day, date.day, 255);
  }

  lemma DateOnly(text: string) returns (t: DateText)
    requires ParseYmd(text).Some?
    ensures DateSays(text, t, ParseYmd(text).value)
  {
    hide Trim, SignedNumeral, UnsignedNumeral, ParseSigned, ParseUnsigned;
    var date := ParseYmd(text).value;
    var trimmed := Trim(text);
    SplitJoins(trimmed, '-');
    var (year, rest) := SplitOnce(trimmed, {'-'}).value;
    SplitJoins(rest, '-');
    var (month, day) := SplitOnce(rest, {'-'}).value;
    SignedExact(year, date.year, I64_MAX);
    UnsignedExact(month, date.month, 255);
    UnsignedExact(day, date.day, 255);
    t := DateText(year, month, day);
  }

  predicate ClockSays(c: ClockText, clock: Clock) {
    && UnsignedNumeral(c.hour, clock.hour) && UnsignedNumeral(c.minute, clock.minute)
    && UnsignedNumeral(c.second, clock.second) && FractionSays(c.fraction, clock.micros)
  }

  lemma ClockExact(text: string, clock: Clock)
    ensures ParseClock(text) == Some(clock)
            <==> ClockTextOf(text).Some? && ClockSays(ClockTextOf(text).value, clock)
                 && clock.hour <= 255 && clock.minute <= 255 && clock.second <= 255
  {
    SplitClockIs(text);
    if ClockTextOf(text).Some? {
      var c := ClockTextOf(text).value;
      ClockTextExact(text, c);
      hide Free, SplitClock, SplitSeconds, ParseUnsigned, UnsignedNumeral, ClockTextOf, Spelled, FractionSays, ClockForm;
      SecondsRead(c, clock.micros);
      UnsignedExact(c.hour, clock.hour, 255);
      UnsignedExact(c.minute, clock.minute, 255);
      UnsignedExact(c.second, clock.second, 255);
    }
  }

  /** A date part, a space or a `T`, and a clock. */
  datatype StampText = StampText(datePart: string, separator: char, date: DateText, clock: ClockText)

  predicate StampSays(text: string, t: StampText, date: CivilDate, clock: Clock) {
    var trimmed := Trim(text);
    && !StartsAsZeroDate(trimmed)
    && trimmed == t.datePart + [t.separator] + Spelled(t.clock)
    && Free(t.datePart, {' ', 'T'}) && t.separator in {' ', 'T'}
    && DateSays(t.datePart, t.date, date)
    && ClockForm(t.clock) && ClockSays(t.clock, clock)
    && clock.hour <= 23 && clock.minute <= 59 && clock.second <= 60
  }

  /** Microseconds since the epoch, however far. */
  function Instant(date: CivilDate, clock: Clock): int {
    DaysFromCivil(date) * 86_400_000_000 + (clock.hour * 3600 + clock.minute * 60 + clock.second) * 1_000_000 + clock.micros
  }

  lemma WrapThenAdd(base: int, micros: nat)
    ensures WrapI64(WrapI64(base) + micros) == WrapI64(base + micros)
  {
    var m := 0x1_0000_0000_0000_0000;
    var q := base / m;
    assert base == q * m + base % m;
    var wrapped: int := WrapI64(base);
    ShiftByMultiple(base + micros, m, -q);
    ShiftByMultiple(base + micros, m, -q - 1);
    assert wrapped + micros == base + micros - q * m || wrapped + micros == base + micros - (q + 1) * m;
  }

  lemma InstantIs(date: CivilDate, clock: Clock)
    requires InMonthRange(date.month, date.day) && clock.hour <= 23 && clock.minute <= 59 && clock.second <= 60
    ensures var base := TimestampMicros(date, clock.hour, clock.minute, clock.second);
            base.Some? && WrapI64(base.value + clock.micros) == WrapI64(Instant(date, clock))
  {
    hide WrapI64, DaysFromCivil;
    var seconds := clock.hour * 3600 + clock.minute * 60 + clock.second;
    WrapThenAdd(DaysFromCivil(date) * 86_400 * 1_000_000 + seconds * 1_000_000, clock.micros);
  }

  /** A text that says a date and a clock is read as that instant, exactly so if and only if it fits an `i64`. */
  lemma StampMeans(text: string, t: StampText, date: CivilDate, clock: Clock)
    requires StampSays(text, t, date, clock)
    ensures ParseTimestampNaive(text) == Some(WrapI64(Instant(date, clock)))
    ensures ParseTimestampNaive(text) == Some(Instant(date, clock)) <==> InI64(Instant(date, clock))
  {
    hide Trim, Spelled, ParseYmd, ParseClock, TimestampMicros, DateSays, ClockForm, ClockSays, Instant, WrapI64, ClockTextOf, Free,
      SplitOnce, StartsAsZeroDate;
    SplitOnceAt(t.datePart, t.separator, Spelled(t.clock), {' ', 'T'});
    ClockTextExact(Spelled(t.clock), t.clock);
    DateMeans(t.datePart, t.date, date);
    ClockExact(Spelled(t.clock), clock);
    DateInRange(t.datePart, t.date, date);
    InstantIs(date, clock);
    WrapIsExact(Instant(date, clock));
  }

  lemma WrapIsExact(x: int)
    ensures WrapI64(x) == x <==> InI64(x)
  {
  }

  lemma DateInRange(text: string, t: DateText, date: CivilDate)
    requires DateSays(text, t, date)
    ensures InMonthRange(date.month, date.day)
  {
  }

  lemma SplitJoinsAt(s: string, stops: set<char>)
    requires SplitOnce(s, stops).Some?
    ensures var (a, b) := SplitOnce(s, stops).value;
            |a| < |s| && s[|a|] in stops && Free(a, stops) && s == a + [s[|a|]] + b
  {
    var (a, b) := SplitOnce(s, stops).value;
    assert s == s[..|a|] + [s[|a|]] + s[|a| + 1..];
  }

  /** And no other text is read. */
  lemma StampOnly(text: string) returns (t: StampText, date: CivilDate, clock: Clock)
    requires ParseTimestampNaive(text).Some?
    ensures StampSays(text, t, date, clock)
  {
    hide Trim, Spelled, ParseYmd, ParseClock, DateSays, ClockForm, ClockSays, ClockTextOf, Free, WrapI64, DaysFromCivil, SplitOnce,
      StartsAsZeroDate;
    var trimmed := Trim(text);
    SplitJoinsAt(trimmed, {' ', 'T'});
    var (datePart, timePart) := SplitOnce(trimmed, {' ', 'T'}).value;
    date, clock := ParseYmd(datePart).value, ParseClock(timePart).value;
    var dateText := DateOnly(datePart);
    ClockExact(timePart, clock);
    ClockTextExact(timePart, ClockTextOf(timePart).value);
    t := StampText(datePart, trimmed[|datePart|], dateText, ClockTextOf(timePart).value);
  }
}
