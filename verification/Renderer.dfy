/** The writers as they run: every one of them appends to a buffer it is given. */
module Renderer {
  import opened Machine
  import opened Wrappers
  import opened Values
  import opened NumberText
  import opened Calendar
  import opened Render

  class TextBuffer {
    var text: string

    constructor ()
      ensures text == ""
    {
      text := "";
    }

    method Push(c: char)
      modifies this
      ensures text == old(text) + [c]
    {
      text := text + [c];
    }

    method PushStr(s: string)
      modifies this
      ensures text == old(text) + s
    {
      text := text + s;
    }
  }

  method RenderText(value: Value, floats: FloatText) returns (r: Option<string>)
    ensures r == ToText(value, floats)
  {
    if value.Null? {
      return None;
    }
    var out := new TextBuffer();
    WriteText(value, out, floats);
    r := Some(out.text);
  }

  method WriteText(value: Value, out: TextBuffer, floats: FloatText)
    modifies out
    ensures out.text == Written(old(out.text), value, floats)
    decreases value, 2
  {
    hide DecimalText, HexText, TimestampText, DateText, TimeText, IntervalWritten;
    match value {
      case Null =>
      case Bool(flag) => out.PushStr(if flag then "true" else "false");
      case Int(n) => out.PushStr(IntText(n));
      case UInt(n) => out.PushStr(NatText(n));
      case Float(bits) => out.PushStr(floats(bits));
      case Decimal(unscaled, scale) => WriteDecimal(unscaled, scale, out);
      case Text(text) => out.PushStr(text);
      case Bytes(bytes) => WriteHex(bytes, out);
      case Timestamp(micros, offset) => WriteTimestamp(micros, offset, out);
      case Date(days) => WriteDate(days, out);
      case Time(micros) => WriteTime(micros, out);
      case Interval(i) => WriteInterval(i, out);
      case Json(text) => out.PushStr(text);
      case Array(items) => WriteJsonArray(items, out, floats);
      case Row(fields) => WriteJsonArray(fields, out, floats);
      case Map(entries) => WriteJsonMap(entries, out, floats);
      case Unknown(_, shown, raw) =>
        if shown.Some? {
          out.PushStr(shown.value);
        } else if raw.Some? {
          WriteHex(raw.value, out);
        }
    }
  }

  method WriteDecimal(unscaled: i128, scale: u8, out: TextBuffer)
    modifies out
    ensures out.text == old(out.text) + DecimalText(unscaled, scale)
  {
    if scale == 0 {
      out.PushStr(IntText(unscaled));
      return;
    }
    hide PointText;
    var digits := NatText(Abs(unscaled));
    if unscaled < 0 {
      out.Push('-');
    }
    WritePoint(digits, scale, out);
    Regroup(old(out.text), if unscaled < 0 then "-" else "", PointText(digits, scale));
  }

  method WritePoint(digits: string, scale: nat, out: TextBuffer)
    modifies out
    ensures out.text == old(out.text) + PointText(digits, scale)
  {
    ghost var start := out.text;
    if |digits| <= scale {
      out.Push('0');
      out.Push('.');
      var missing := scale - |digits|;
      for i := 0 to missing
        invariant out.text == start + ("0." + Zeros(i))
      {
        out.Push('0');
        assert Zeros(i + 1) == Zeros(i) + "0";
      }
      out.PushStr(digits);
      Regroup(start, "0." + Zeros(missing), digits);
    } else {
      var split := |digits| - scale;
      out.PushStr(digits[..split]);
      out.Push('.');
      out.PushStr(digits[split..]);
      Regroup(start, digits[..split], ".");
      Regroup(start, digits[..split] + ".", digits[split..]);
    }
  }

  method WriteDate(days: i32, out: TextBuffer)
    modifies out
    ensures out.text == old(out.text) + DateText(days)
  {
    DaysRoundTrip(days);
    var date := CivilFromDays(days);
    out.PushStr(PaddedInt(date.year, 4) + "-" + Padded(date.month, 2) + "-" + Padded(date.day, 2));
  }

  method WriteTime(micros: i64, out: TextBuffer)
    modifies out
    ensures out.text == old(out.text) + TimeText(micros)
  {
    var magnitude := Abs(micros);
    var seconds := magnitude / 1_000_000;
    var fraction := magnitude % 1_000_000;
    var sign := if micros < 0 then "-" else "";
    var clock := sign + Padded(seconds / 3600, 2) + ":" + Padded(seconds % 3600 / 60, 2) + ":" + Padded(seconds % 60, 2);
    out.PushStr(clock);
    if fraction != 0 {
      out.PushStr("." + Padded(fraction, 6));
    }
    Regroup(old(out.text), clock, FractionText(fraction));
  }

  method WriteTimestamp(micros: i64, offset: Option<i32>, out: TextBuffer)
    modifies out
    ensures out.text == old(out.text) + TimestampText(micros, offset)
  {
    hide DateText, TimeText, LocalMicros;
    var local := LocalMicros(micros, offset);
    var days := WrapI32(local / MICROS_PER_DAY);
    var withinDay := local % MICROS_PER_DAY;
    WriteDate(days, out);
    out.Push(' ');
    WriteTime(withinDay, out);
    if offset.Some? {
      out.PushStr(ZoneSuffix(offset));
    }
    Regroup(old(out.text), DateText(days), " ");
    Regroup(old(out.text), DateText(days) + " ", TimeText(withinDay));
    Regroup(old(out.text), DateText(days) + " " + TimeText(withinDay), ZoneSuffix(offset));
  }

  method WriteInterval(i: IntervalValue, out: TextBuffer)
    modifies out
    ensures out.text == IntervalWritten(old(out.text), i)
  {
    if i.months != 0 {
      out.PushStr(CountText(i.months, "month"));
    }
    if i.days != 0 {
      if out.text != "" {
        out.PushStr(", ");
      }
      out.PushStr(CountText(i.days, "day"));
    }
    var clock := (if i.micros < 0 then "-" else "") + ClockText(Abs(i.micros));
    if out.text != "" {
      out.PushStr(", ");
    }
    out.PushStr(clock);
  }

  method WriteHex(bytes: seq<u8>, out: TextBuffer)
    modifies out
    ensures out.text == old(out.text) + HexText(bytes)
  {
    for k := 0 to |bytes|
      invariant out.text + HexText(bytes[k..]) == old(out.text) + HexText(bytes)
    {
      ghost var before := out.text;
      out.Push(HexDigit(bytes[k] / 16));
      out.Push(HexDigit(bytes[k] % 16));
      assert bytes[k..][1..] == bytes[k + 1..];
      assert out.text == before + [HexDigit(bytes[k] / 16), HexDigit(bytes[k] % 16)];
    }
    assert out.text + "" == out.text;
  }

  method WriteJsonString(s: string, out: TextBuffer)
    modifies out
    ensures out.text == old(out.text) + JsonString(s)
  {
    hide EscapeChar;
    out.Push('\"');
    ghost var start := out.text;
    for k := 0 to |s|
      invariant out.text + Escaped(s[k..]) == start + Escaped(s)
    {
      ghost var before := out.text;
      out.PushStr(EscapeChar(s[k]));
      assert s[k..][1..] == s[k + 1..];
      Regroup(before, EscapeChar(s[k]), Escaped(s[k + 1..]));
    }
    assert out.text + "" == out.text;
    out.Push('\"');
    Regroup(old(out.text), "\"", Escaped(s));
    Regroup(old(out.text), "\"" + Escaped(s), "\"");
  }

  method WriteJsonLike(value: Value, out: TextBuffer, floats: FloatText)
    modifies out
    ensures out.text == old(out.text) + JsonLike(value, floats)
    decreases value, 3
  {
    hide JsonString, DecimalText, HexText, TimestampText, DateText, TimeText, IntervalWritten;
    match value {
      case Array(items) => WriteJsonArray(items, out, floats);
      case Row(fields) => WriteJsonArray(fields, out, floats);
      case Map(entries) => WriteJsonMap(entries, out, floats);
      case Null => out.PushStr("null");
      case Bool(flag) => out.PushStr(if flag then "true" else "false");
      case Int(n) => out.PushStr(IntText(n));
      case UInt(n) => out.PushStr(NatText(n));
      case Float(bits) => out.PushStr(floats(bits));
      case _ =>
        var own := new TextBuffer();
        WriteText(value, own, floats);
        WriteJsonString(own.text, out);
    }
  }

  method WriteJsonArray(items: seq<Value>, out: TextBuffer, floats: FloatText)
    modifies out
    ensures out.text == old(out.text) + JsonArray(items, floats)
    decreases items, 0
  {
    out.Push('[');
    ghost var start := out.text;
    ghost var all := if items == [] then "" else JsonLike(items[0], floats) + MoreItems(items[1..], floats);
    for index := 0 to |items|
      invariant index == 0 ==> out.text == start
      invariant index > 0 ==> out.text + MoreItems(items[index..], floats) == start + all
    {
      ghost var before := out.text;
      assert items[index..][1..] == items[index + 1..];
      if index > 0 {
        out.PushStr(", ");
      }
      ghost var between := out.text;
      WriteJsonLike(items[index], out, floats);
      Regroup(between, JsonLike(items[index], floats), MoreItems(items[index + 1..], floats));
      Regroup(before, ", ", JsonLike(items[index], floats) + MoreItems(items[index + 1..], floats));
      Regroup(", ", JsonLike(items[index], floats), MoreItems(items[index + 1..], floats));
    }
    assert out.text == start + all by {
      assert out.text + "" == out.text;
    }
    out.Push(']');
    Regroup(old(out.text), "[", all);
    Regroup(old(out.text), "[" + all, "]");
  }

  method WriteJsonMap(entries: seq<Entry>, out: TextBuffer, floats: FloatText)
    modifies out
    ensures out.text == old(out.text) + JsonMap(entries, floats)
    decreases entries, 0
  {
    out.Push('{');
    ghost var start := out.text;
    ghost var all := if entries == [] then "" else JsonEntry(entries[0], floats) + MoreEntries(entries[1..], floats);
    for index := 0 to |entries|
      invariant index == 0 ==> out.text == start
      invariant index > 0 ==> out.text + MoreEntries(entries[index..], floats) == start + all
    {
      ghost var before := out.text;
      assert entries[index..][1..] == entries[index + 1..];
      if index > 0 {
        out.PushStr(", ");
      }
      ghost var between := out.text;
      WriteJsonEntry(entries[index], out, floats);
      Regroup(between, JsonEntry(entries[index], floats), MoreEntries(entries[index + 1..], floats));
      Regroup(before, ", ", JsonEntry(entries[index], floats) + MoreEntries(entries[index + 1..], floats));
      Regroup(", ", JsonEntry(entries[index], floats), MoreEntries(entries[index + 1..], floats));
    }
    assert out.text == start + all by {
      assert out.text + "" == out.text;
    }
    out.Push('}');
    Regroup(old(out.text), "{", all);
    Regroup(old(out.text), "{" + all, "}");
  }

  method WriteJsonEntry(entry: Entry, out: TextBuffer, floats: FloatText)
    modifies out
    ensures out.text == old(out.text) + JsonEntry(entry, floats)
    decreases entry, 0
  {
    hide JsonString;
    // A null key is the empty text.
    var key := new TextBuffer();
    WriteText(entry.key, key, floats);
    var keyText := key.text;
    WriteJsonString(keyText, out);
    out.PushStr(": ");
    WriteJsonLike(entry.item, out, floats);
    Regroup(old(out.text), JsonString(keyText), ": ");
    Regroup(old(out.text), JsonString(keyText) + ": ", JsonLike(entry.item, floats));
  }
}
