/** The time zone an Arrow column carries: printed from an offset, and read back to one. */
module Zones {
  import opened Machine
  import opened Wrappers
  import opened NumberText

  /** Sign, hours and minutes; seconds are dropped. */
  function FormatTz(offset: i32): string {
    var magnitude := Abs(offset);
    [if offset < 0 then '-' else '+'] + Padded(magnitude / 3600, 2) + ":" + Padded(magnitude % 3600 / 60, 2)
  }

  predicate Ascii(s: string) {
    forall i :: 0 <= i < |s| ==> s[i] as int < 0x80
  }

  /** The hours and minutes of `HH`, `HHMM` or `HH:MM`, before their range is checked. */
  function Fields(digits: string): Option<(int, int)> {
    if !Ascii(digits) then None
    else if |digits| == 2 then
      var hours :- ParseSigned(digits, I32_MAX);
      Some((hours, 0))
    else if |digits| == 4 then
      var hours :- ParseSigned(digits[..2], I32_MAX);
      var minutes :- ParseSigned(digits[2..], I32_MAX);
      Some((hours, minutes))
    else if |digits| == 5 && digits[2] == ':' then
      var hours :- ParseSigned(digits[..2], I32_MAX);
      var minutes :- ParseSigned(digits[3..], I32_MAX);
      Some((hours, minutes))
    else None
  }

  /** The offset a zone text stands for, in seconds; a day or more, or an hour of minutes, is refused. */
  function OffsetOf(zone: string): Option<int> {
    if zone == "" || (zone[0] != '+' && zone[0] != '-') then None
    else
      var (hours, minutes) :- Fields(zone[1..]);
      if hours > 23 || minutes > 59 then None
      else
        var seconds := hours * 3600 + minutes * 60;
        Some(if zone[0] == '+' then seconds else -seconds)
  }

  lemma {:induction false} LongNumber(n: nat, k: nat)
    requires n >= Pow10(k)
    ensures |NatText(n)| > k
  {
    if k > 0 {
      LongNumber(n / 10, k - 1);
    }
  }

  lemma FieldsOfDigits(hours: nat, minutes: nat)
    requires minutes < 60
    ensures var r := Fields(Padded(hours, 2) + ":" + Padded(minutes, 2));
            if hours < 100 then r == Some((hours, minutes)) else r == None
  {
    Pow10Values();
    PaddedLength(minutes, 2);
    var h, m := Padded(hours, 2), Padded(minutes, 2);
    var digits := h + ":" + m;
    if hours < 100 {
      PaddedLength(hours, 2);
      assert digits[..2] == h && digits[3..] == m && digits[2] == ':';
      ParsePadded(hours, 2, I32_MAX);
      ParsePadded(minutes, 2, I32_MAX);
    } else {
      LongNumber(hours, 2);
    }
  }

  /** An offset cut to whole minutes, towards zero. */
  function InMinutes(offset: int): int {
    Quot(offset, 60) * 60
  }

  lemma MinutesOf(magnitude: nat)
    ensures magnitude / 3600 * 3600 + magnitude % 3600 / 60 * 60 == magnitude / 60 * 60 && magnitude % 3600 / 60 < 60
    ensures magnitude / 3600 < 24 <==> magnitude < 86_400
  {
    SixtiesOf(magnitude);
  }

  /** The zone text of an offset is read as the offset in whole minutes exactly when it is under a day. */
  lemma OffsetTextReads(offset: i32)
    ensures OffsetOf(FormatTz(offset)) == if -86_400 < offset < 86_400 then Some(InMinutes(offset)) else None
  {
    hide Padded, Fields;
    var magnitude := Abs(offset);
    MinutesOf(magnitude);
    var hours, minutes := magnitude / 3600, magnitude % 3600 / 60;
    FieldsOfDigits(hours, minutes);
    assert FormatTz(offset)[1..] == Padded(hours, 2) + ":" + Padded(minutes, 2);
  }

  /** A whole-minute offset survives the trip through the zone text exactly when it is under a day. */
  lemma OffsetSurvives(offset: i32)
    requires offset % 60 == 0
    ensures OffsetOf(FormatTz(offset)) == if -86_400 < offset < 86_400 then Some(offset) else None
  {
    hide FormatTz, OffsetOf;
    OffsetTextReads(offset);
    assert offset >= 0 ==> offset / 60 * 60 == offset;
    assert offset < 0 ==> -offset / 60 * 60 == -offset;
  }
}
