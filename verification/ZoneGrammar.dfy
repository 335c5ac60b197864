/** Which texts are offsets from UTC, and what each of them means. */
module ZoneGrammar {
  import opened Machine
  import opened Wrappers
  import opened NumberText
  import opened Zones
  import opened TemporalGrammar

  /** A sign, then hours and minutes of two characters each, the minutes left out or set off by a colon. */
  predicate OffsetSays(zone: string, hours: int, minutes: int) {
    && (|zone| == 3 || |zone| == 5 || |zone| == 6)
    && (zone[0] == '+' || zone[0] == '-')
    && (forall i :: 1 <= i < |zone| ==> zone[i] as int < 0x80)
    && SignedNumeral(zone[1..3], hours) && hours <= 23 && minutes <= 59
    && (|zone| == 3 ==> minutes == 0)
    && (|zone| == 5 ==> SignedNumeral(zone[3..5], minutes))
    && (|zone| == 6 ==> zone[3] == ':' && SignedNumeral(zone[4..6], minutes))
  }

  lemma {:induction false} DigitsFit(s: string)
    requires AllDigits(s)
    ensures DigitsValue(s) < Pow10(|s|)
  {
    if s != "" {
      DigitsFit(s[..|s| - 1]);
    }
  }

  /** Two characters never spell a number out of range. */
  lemma ShortNumeral(s: string, n: int)
    requires |s| == 2
    ensures ParseSigned(s, I32_MAX) == Some(n) <==> SignedNumeral(s, n)
  {
    SignedExact(s, n, I32_MAX);
    Pow10Values();
    if SignedNumeral(s, n) {
      if AllDigits(s) {
        DigitsFit(s);
      } else {
        DigitsFit(s[1..]);
      }
    }
  }

  lemma Slices(zone: string)
    requires zone != ""
    ensures |zone| >= 3 ==> zone[1..][..2] == zone[1..3]
    ensures |zone| == 3 ==> zone[1..] == zone[1..3]
    ensures |zone| == 5 ==> zone[1..][2..] == zone[3..5]
    ensures |zone| == 6 ==> zone[1..][3..] == zone[4..6] && zone[1..][2] == zone[3]
    ensures Ascii(zone[1..]) <==> forall i :: 1 <= i < |zone| ==> zone[i] as int < 0x80
  {
    assert forall i :: 1 <= i < |zone| ==> zone[i] == zone[1..][i - 1];
  }

  /** A text that says an offset is read as it. */
  lemma OffsetMeans(zone: string, hours: int, minutes: int)
    requires OffsetSays(zone, hours, minutes)
    ensures var seconds := hours * 3600 + minutes * 60; OffsetOf(zone) == Some(if zone[0] == '+' then seconds else -seconds)
  {
    hide SignedNumeral, ParseSigned, Ascii;
    Slices(zone);
    ShortNumeral(zone[1..3], hours);
    if |zone| == 5 {
      ShortNumeral(zone[3..5], minutes);
    } else if |zone| == 6 {
      ShortNumeral(zone[4..6], minutes);
    }
  }

  /** And no other text is read. */
  lemma OffsetOnly(zone: string) returns (hours: int, minutes: int)
    requires OffsetOf(zone).Some?
    ensures OffsetSays(zone, hours, minutes)
  {
    hide SignedNumeral, ParseSigned, Ascii;
    Slices(zone);
    hours, minutes := Fields(zone[1..]).value.0, Fields(zone[1..]).value.1;
    ShortNumeral(zone[1..3], hours);
    if |zone| == 5 {
      ShortNumeral(zone[3..5], minutes);
    } else if |zone| == 6 {
      ShortNumeral(zone[4..6], minutes);
    }
  }
}
