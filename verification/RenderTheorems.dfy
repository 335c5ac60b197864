/** What printed timestamps, intervals, bytes and small values say, read back by other means. */
module RenderTheorems {
  import opened Machine
  import opened Wrappers
  import opened Values
  import opened NumberText
  import opened TextScan
  import opened Calendar
  import opened Zones
  import opened Render
  import Normalize
  import TemporalGrammar
  import TemporalTheorems

  // ---------------------------------------------------------------- timestamps in a zone

  lemma ZoneSuffixIs(secs: i32)
    ensures ZoneSuffix(Some(secs)) == FormatTz(secs)
  {
  }

  /** A zoned text is the wall clock printed without a zone, and the zone. */
  lemma ZonedParts(micros: i64, secs: i32)
    ensures TimestampText(micros, Some(secs)) == TimestampText(WrapI64(micros + secs * 1_000_000), None) + FormatTz(secs)
  {
    hide DateText, TimeText, FormatTz, ZoneSuffix;
    ZoneSuffixIs(secs);
    NoSuffix();
    var local := WrapI64(micros + secs * 1_000_000);
    var clock := DateText(WrapI32(local / MICROS_PER_DAY)) + " " + TimeText(local % MICROS_PER_DAY);
    assert clock + "" == clock;
  }

  lemma NoSuffix()
    ensures ZoneSuffix(None) == ""
  {
  }

  lemma SuffixLength(secs: i32)
    requires -86_400 < secs < 86_400
    ensures |FormatTz(secs)| == 6
  {
    var magnitude := Abs(secs);
    MinutesOf(magnitude);
    Pow10Values();
    PaddedLength(magnitude / 3600, 2);
    PaddedLength(magnitude % 3600 / 60, 2);
    hide Padded;
  }

  /**
   A zone-less timestamp and six characters of offset. The first part is the wall clock, refused
   only before year 0; and taking the offset off it gives the instant if and only if the offset has
   no seconds, which the suffix drops.
   */
  predicate NamesInstant(text: string, micros: i64, secs: i32) {
    |text| >= 6 &&
    var clock := Normalize.ParseTimestampNaive(text[..|text| - 6]);
    var offset := OffsetOf(text[|text| - 6..]);
    && offset == Some(Quot(secs, 60) * 60)
    && (clock.Some? <==> micros + secs * 1_000_000 >= -719_528 * 86_400_000_000)
    && (clock.Some? ==> clock.value == micros + secs * 1_000_000
                        && (clock.value - 1_000_000 * offset.value == micros <==> secs % 60 == 0))
  }

  /** The text of a timestamp in a zone under a day from UTC names its instant. */
  lemma ZonedTextNames(micros: i64, secs: i32)
    requires -86_400 < secs < 86_400 && InI64(micros + secs * 1_000_000)
    ensures NamesInstant(TimestampText(micros, Some(secs)), micros, secs)
  {
    hide TimestampText, FormatTz, OffsetOf, Normalize.ParseTimestampNaive;
    ZonedParts(micros, secs);
    SuffixLength(secs);
    OffsetTextReads(secs);
    TemporalTheorems.TimestampRoundTrip(micros + secs * 1_000_000);
    var text, clock := TimestampText(micros, Some(secs)), TimestampText(micros + secs * 1_000_000, None);
    assert text[..|text| - 6] == clock && text[|text| - 6..] == FormatTz(secs);
    WholeMinuteOffset(secs);
  }

  lemma WholeMinuteOffset(secs: int)
    ensures Quot(secs, 60) * 60 == secs <==> secs % 60 == 0
  {
    if secs < 0 {
      var m := -secs;
      assert m == m / 60 * 60 + m % 60;
      assert secs == -(m / 60) * 60 - m % 60;
    }
  }

  // ---------------------------------------------------------------- intervals, read back

  /** A count other than zero and its noun: singular after 1 and -1 only. */
  function ReadCount(part: string, noun: string): (r: Option<int>)
    ensures r.Some? ==> InI32(r.value)
  {
    var (count, word) :- SplitOnce(part, {' '});
    var n :- ParseSigned(count, I32_MAX);
    if InI32(n) && n != 0 && word == noun + (if n == 1 || n == -1 then "" else "s") then Some(n) else None
  }

  /** What follows a comma and a space. */
  function AfterComma(tail: string): Option<string> {
    if tail != "" && tail[0] == ' ' then Some(tail[1..]) else None
  }

  function ReadDays(text: string): Option<(i32, i64)> {
    match SplitOnce(text, {','})
    case None =>
      var micros :- Normalize.ParseTimeMicros(text);
      Some((0, micros))
    case Some(parts) =>
      var days :- ReadCount(parts.0, "day");
      var rest :- AfterComma(parts.1);
      var micros :- Normalize.ParseTimeMicros(rest);
      Some((days, micros))
  }

  /** Months, days and a clock, the first two only where they are not zero, between commas. */
  function ReadInterval(text: string): Option<IntervalValue> {
    match SplitOnce(text, {','})
    case None =>
      var (days, micros) :- ReadDays(text);
      Some(IntervalValue(0, days, micros))
    case Some(parts) =>
      match ReadCount(parts.0, "month")
      case Some(months) =>
        var rest :- AfterComma(parts.1);
        var (days, micros) :- ReadDays(rest);
        Some(IntervalValue(months, days, micros))
      case None =>
        var (days, micros) :- ReadDays(text);
        Some(IntervalValue(0, days, micros))
  }

  lemma NatTextReads(n: nat)
    ensures TemporalGrammar.SignedNumeral(NatText(n), n)
    ensures TemporalGrammar.UnsignedNumeral(NatText(n), n)
  {
    NatTextValue(n);
  }

  lemma DigitsAreFree(s: string)
    requires AllDigits(s)
    ensures Free(s, {' '}) && Free(s, {','}) && Free("-" + s, {' '}) && Free("-" + s, {','})
  {
  }

  lemma IntTextReads(n: i32)
    ensures ParseSigned(IntText(n), I32_MAX) == Some(n)
    ensures Free(IntText(n), {' '}) && Free(IntText(n), {','})
  {
    hide NatText, DigitsValue, Free;
    var digits := NatText(Abs(n));
    NatTextValue(Abs(n));
    DigitsAreFree(digits);
    assert IsDigit(digits[0]);
    if n < 0 {
      assert IntText(n)[1..] == digits;
    }
  }

  predicate Noun(noun: string) {
    noun == "month" || noun == "day"
  }

  lemma CountReads(n: i32, noun: string)
    requires n != 0 && Noun(noun)
    ensures ReadCount(CountText(n, noun), noun) == Some(n) && Free(CountText(n, noun), {','})
    ensures noun == "day" ==> ReadCount(CountText(n, noun), "month") == None
  {
    hide IntText, ParseSigned;
    IntTextReads(n);
    var word := noun + Plural(n);
    assert Free(word, {','});
    assert CountText(n, noun) == IntText(n) + [' '] + word;
    SplitOnceAt(IntText(n), ' ', word, {' '});
    assert |"month"| == 5 && |"day"| == 3;
  }

  lemma MinutesAndSeconds(seconds: nat)
    ensures seconds / 60 % 60 < 60 && seconds / 3600 * 3600 + seconds / 60 % 60 * 60 + seconds % 60 == seconds
  {
    var minutes, last := seconds / 60, seconds % 60;
    var hours, rest := minutes / 60, minutes % 60;
    assert seconds == minutes * 60 + last && minutes == hours * 60 + rest;
    DivIs(seconds, 3600, hours);
  }

  /** The pieces of the clock of an interval. */
  function PiecesOf(magnitude: nat): TemporalGrammar.ClockText {
    var seconds, fraction := magnitude / 1_000_000, magnitude % 1_000_000;
    TemporalGrammar.ClockText(NatText(seconds / 3600), Padded(seconds / 60 % 60, 2), Padded(seconds % 60, 2),
                              if fraction == 0 then None else Some(Padded(fraction, 6)), "")
  }

  lemma ClockIsSpelled(magnitude: nat)
    ensures ClockText(magnitude) == TemporalGrammar.Spelled(PiecesOf(magnitude))
    ensures TemporalGrammar.ClockForm(PiecesOf(magnitude))
    ensures Free(ClockText(magnitude), {',', ' '})
    ensures var text := ClockText(magnitude); text != "" && IsDigit(text[0]) && IsDigit(text[|text| - 1])
  {
    hide NatText, Padded;
    var c := PiecesOf(magnitude);
    var tail := c.second + TemporalGrammar.FractionPart(c.fraction);
    assert tail + "" == tail;
    assert IsDigit(tail[|tail| - 1]);
    var text := ClockText(magnitude);
    assert text == c.hour + [':'] + (c.minute + [':'] + tail);
    assert text[|text| - 1] == tail[|tail| - 1];
  }

  lemma FractionReads(fraction: nat)
    requires 0 < fraction < 1_000_000
    ensures TemporalGrammar.FractionNumeral(Padded(fraction, 6), fraction)
  {
    Pow10Values();
    PaddedLength(fraction, 6);
    PaddedValue(fraction, 6);
  }

  lemma PiecesSay(magnitude: nat, negative: bool)
    requires magnitude <= 0x8000_0000_0000_0000
    ensures var seconds := magnitude / 1_000_000;
            TemporalGrammar.NumbersSay(PiecesOf(magnitude),
              TemporalGrammar.Duration(negative, seconds / 3600, seconds / 60 % 60, seconds % 60, magnitude % 1_000_000))
  {
    hide NatText, Padded, TemporalGrammar.SignedNumeral, TemporalGrammar.FractionNumeral;
    var seconds, fraction := magnitude / 1_000_000, magnitude % 1_000_000;
    NatTextReads(seconds / 3600);
    PaddedReads(seconds / 60 % 60);
    PaddedReads(seconds % 60);
    if fraction != 0 {
      FractionReads(fraction);
    }
  }

  lemma PaddedReads(n: nat)
    ensures TemporalGrammar.SignedNumeral(Padded(n, 2), n)
  {
    PaddedValue(n, 2);
  }

  lemma IntervalClockReads(micros: i64)
    ensures var text := (if micros < 0 then "-" else "") + ClockText(Abs(micros));
            Normalize.ParseTimeMicros(text) == Some(micros) && Free(text, {','})
  {
    hide ClockText, Normalize.ParseTimeMicros, Trim, PiecesOf, TemporalGrammar.NumbersSay, TemporalGrammar.Spelled,
      TemporalGrammar.ClockForm, WrapI64;
    var magnitude := Abs(micros);
    var seconds := magnitude / 1_000_000;
    var body := ClockText(magnitude);
    var text := (if micros < 0 then "-" else "") + body;
    ClockIsSpelled(magnitude);
    PiecesSay(magnitude, micros < 0);
    MinutesAndSeconds(seconds);
    assert text[|text| - 1] == body[|body| - 1];
    assert if micros < 0 then text[1..] == body && text[0] == '-' else text == body;
    TrimNothing(text);
    var d := TemporalGrammar.Duration(micros < 0, seconds / 3600, seconds / 60 % 60, seconds % 60, magnitude % 1_000_000);
    assert TemporalGrammar.Total(d) == micros;
    TemporalGrammar.DurationMeans(text, PiecesOf(magnitude), d);
  }

  /** The clock as it is added to a text. */
  function SignedClock(micros: int): string {
    (if micros < 0 then "-" else "") + ClockText(Abs(micros))
  }

  lemma AddedClock(out: string, micros: int)
    ensures AddClock(out, micros) == if out == "" then SignedClock(micros) else out + [','] + (" " + SignedClock(micros))
  {
    hide ClockText;
    var clock := SignedClock(micros);
    assert "" + clock == clock;
    assert out + ", " + clock == out + [','] + (" " + clock);
  }

  lemma AddedDays(out: string, days: int)
    ensures AddDays(out, days) ==
            if days == 0 then out
            else if out == "" then CountText(days, "day")
            else out + [','] + (" " + CountText(days, "day"))
    ensures CountText(days, "day") != ""
  {
    var count := CountText(days, "day");
    hide IntText;
    assert count != "";
    assert "" + count == count;
    assert out + ", " + count == out + [','] + (" " + count);
  }

  lemma DaysRead(days: i32, micros: i64)
    ensures ReadDays(AddClock(AddDays("", days), micros)) == Some((days, micros))
    ensures days != 0 ==> var text := AddClock(AddDays("", days), micros);
              SplitOnce(text, {','}).Some? && ReadCount(SplitOnce(text, {','}).value.0, "month") == None
    ensures days == 0 ==> SplitOnce(AddClock(AddDays("", days), micros), {','}) == None
  {
    hide ClockText, Normalize.ParseTimeMicros, CountText, ReadCount, SplitOnce, AddDays, AddClock;
    IntervalClockReads(micros);
    AddedDays("", days);
    AddedClock(AddDays("", days), micros);
    if days != 0 {
      CountReads(days, "day");
      SplitOnceAt(CountText(days, "day"), ',', " " + SignedClock(micros), {','});
      assert (" " + SignedClock(micros))[1..] == SignedClock(micros);
    }
  }

  /** The text of an interval says its months, its days and its clock, signs and plurals included. */
  lemma IntervalReads(i: IntervalValue)
    ensures ReadInterval(IntervalWritten("", i)) == Some(i)
  {
    hide ClockText, CountText, ReadCount, ReadDays, SplitOnce, AddDays, AddClock;
    DaysRead(i.days, i.micros);
    if i.months != 0 {
      var count := CountText(i.months, "month");
      var rest := AddClock(AddDays("", i.days), i.micros);
      CountReads(i.months, "month");
      CountIsText(i.months);
      assert "" + count == count;
      MonthsFirst(count, i.days, i.micros);
      SplitOnceAt(count, ',', " " + rest, {','});
      assert (" " + rest)[1..] == rest;
    }
  }

  lemma MonthsFirst(count: string, days: i32, micros: i64)
    requires count != ""
    ensures AddClock(AddDays(count, days), micros) == count + [','] + (" " + AddClock(AddDays("", days), micros))
  {
    hide SignedClock, CountText, AddDays, AddClock;
    AddedDays(count, days);
    AddedDays("", days);
    AddedClock(AddDays(count, days), micros);
    AddedClock(AddDays("", days), micros);
    if days != 0 {
      Regrouped(count, CountText(days, "day"), SignedClock(micros));
    }
  }

  lemma Regrouped(a: string, b: string, c: string)
    ensures a + [','] + (" " + b) + [','] + (" " + c) == a + [','] + (" " + (b + [','] + (" " + c)))
  {
  }

  lemma CountIsText(months: i32)
    ensures CountText(months, "month") != ""
  {
    hide IntText;
  }

  // ---------------------------------------------------------------- small texts

  lemma OwnText(v: Value, floats: FloatText)
    requires !v.Null? && !v.Interval?
    ensures ToText(v, floats) == Some(Body(v, floats))
  {
    hide Body;
    assert "" + Body(v, floats) == Body(v, floats);
  }

  /** The texts of the values that have a word of their own, or are text already. */
  lemma PlainTexts(text: string, floats: FloatText)
    ensures ToText(Null, floats) == None
    ensures ToText(Bool(true), floats) == Some("true") && ToText(Bool(false), floats) == Some("false")
    ensures ToText(Text(text), floats) == Some(text) && ToText(Json(text), floats) == Some(text)
  {
    OwnText(Bool(true), floats);
    OwnText(Bool(false), floats);
    OwnText(Text(text), floats);
    OwnText(Json(text), floats);
  }

  /** An unknown value shows its text if it has one, else its bytes in hex, else nothing. */
  lemma UnknownTexts(name: string, shown: string, raw: seq<u8>, floats: FloatText)
    ensures ToText(Unknown(name, Some(shown), Some(raw)), floats) == Some(shown)
    ensures ToText(Unknown(name, Some(shown), None), floats) == Some(shown)
    ensures ToText(Unknown(name, None, Some(raw)), floats) == ToText(Bytes(raw), floats)
    ensures ToText(Unknown(name, None, None), floats) == Some("")
  {
    OwnText(Unknown(name, Some(shown), Some(raw)), floats);
    OwnText(Unknown(name, Some(shown), None), floats);
    OwnText(Unknown(name, None, Some(raw)), floats);
    OwnText(Unknown(name, None, None), floats);
    OwnText(Bytes(raw), floats);
  }

  /** Every byte is two lower-case digits, the high one first. */
  lemma {:induction false} HexDigitsAre(bytes: seq<u8>, k: nat)
    requires k < |bytes|
    ensures |HexText(bytes)| == 2 * |bytes|
    ensures HexText(bytes)[2 * k] == "0123456789abcdef"[bytes[k] / 16]
    ensures HexText(bytes)[2 * k + 1] == "0123456789abcdef"[bytes[k] % 16]
  {
    HexLength(bytes);
    HexDigitIs(bytes[k] / 16);
    HexDigitIs(bytes[k] % 16);
    hide HexDigit;
    if k > 0 {
      HexDigitsAre(bytes[1..], k - 1);
    }
  }

  lemma HexDigitIs(n: nat)
    requires n < 16
    ensures HexDigit(n) == "0123456789abcdef"[n]
  {
  }

  /** The short escapes, and the form of the others: nothing else is escaped. */
  lemma EscapesAre(c: char)
    ensures JsonString([c]) ==
            if c == '\"' then "\"\\\"\""
            else if c == '\\' then "\"\\\\\""
            else if c == '\n' then "\"\\n\""
            else if c == '\r' then "\"\\r\""
            else if c == '\t' then "\"\\t\""
            else if c as int == 8 then "\"\\b\""
            else if c as int == 12 then "\"\\f\""
            else if c as int < 32 then "\"\\u00" + ["0123456789abcdef"[c as int / 16], "0123456789abcdef"[c as int % 16]] + "\""
            else "\"" + [c] + "\""
  {
    assert [c][1..] == "";
    assert Escaped([c]) == EscapeChar(c) + "" == EscapeChar(c);
    if c as int < 32 {
      HexDigitIs(c as int / 16);
      HexDigitIs(c as int % 16);
    }
  }
}
