/** The printed text of a structure is JSON, and reads back as the same tree. */
module JsonTheorems {
  import opened Machine
  import opened Wrappers
  import opened Values
  import opened NumberText
  import opened TextScan
  import opened Render
  import opened JsonGrammar

  // ---------------------------------------------------------------- floats

  predicate IsFinite(bits: u64) {
    bits / 0x10_0000_0000_0000 % 0x800 != 0x7FF
  }

  predicate IsNan(bits: u64) {
    !IsFinite(bits) && bits % 0x10_0000_0000_0000 != 0
  }

  /**
   What is assumed of the float printer: a JSON number for a finite float; otherwise the three
   words the source writes.
   */
  ghost predicate PrintsFloats(floats: FloatText) {
    forall bits ::
      if IsFinite(bits) then IsNumber(floats(bits))
      else if IsNan(bits) then floats(bits) == "nan"
      else floats(bits) == "inf" || floats(bits) == "-inf"
  }

  /** No infinity and no NaN as an element; a map key is quoted, so it may be anything. */
  predicate AllFinite(v: Value)
  {
    match v
    case Float(bits) => IsFinite(bits)
    case Array(items) => ItemsFinite(items)
    case Row(fields) => ItemsFinite(fields)
    case Map(entries) => EntriesFinite(entries)
    case _ => true
  }

  predicate ItemsFinite(items: seq<Value>) {
    items == [] || (AllFinite(items[0]) && ItemsFinite(items[1..]))
  }

  predicate EntryFinite(entry: Entry) {
    AllFinite(entry.item)
  }

  predicate EntriesFinite(entries: seq<Entry>) {
    entries == [] || (EntryFinite(entries[0]) && EntriesFinite(entries[1..]))
  }

  // ---------------------------------------------------------------- the tree a value means

  function Tree(v: Value, floats: FloatText): Json {
    match v
    case Null => JNull
    case Bool(flag) => JBool(flag)
    case Int(n) => JNumber(IntText(n))
    case UInt(n) => JNumber(NatText(n))
    case Float(bits) => JNumber(floats(bits))
    case Array(items) => JArray(Trees(items, floats))
    case Row(fields) => JArray(Trees(fields, floats))
    case Map(entries) => JObject(Members(entries, floats))
    case _ => JString(Written("", v, floats))
  }

  function Trees(items: seq<Value>, floats: FloatText): seq<Json> {
    if items == [] then [] else [Tree(items[0], floats)] + Trees(items[1..], floats)
  }

  function MemberOf(entry: Entry, floats: FloatText): Member {
    Member(Written("", entry.key, floats), Tree(entry.item, floats))
  }

  function Members(entries: seq<Entry>, floats: FloatText): seq<Member> {
    if entries == [] then [] else [MemberOf(entries[0], floats)] + Members(entries[1..], floats)
  }

  // ---------------------------------------------------------------- strings

  lemma HexDigitReads(n: nat)
    requires n < 16
    ensures HexValue(HexDigit(n)) == Some(n)
  {
  }

  /** A control character without a short form: four hex digits, the first two of them zero. */
  lemma CodeReads(n: nat, rest: string)
    requires n < 0x20
    ensures UnicodeEscape("00" + [HexDigit(n / 16), HexDigit(n % 16)] + rest) == Some((n as char, rest))
  {
    hide HexDigit, HexValue;
    var code := "00" + [HexDigit(n / 16), HexDigit(n % 16)] + rest;
    HexDigitReads(0);
    HexDigitReads(n / 16);
    HexDigitReads(n % 16);
    assert code[0] == HexDigit(0) && code[1] == HexDigit(0) by {
      HexDigitIsZero();
    }
    assert code[4..] == rest;
  }

  lemma HexDigitIsZero()
    ensures HexDigit(0) == '0'
  {
  }

  /** Whatever a character is escaped as is read as that character. */
  lemma EscapeReads(c: char, rest: string)
    requires |EscapeChar(c)| > 1
    ensures EscapeChar(c)[0] == '\\' && Escape(EscapeChar(c)[1..] + rest) == Some((c, rest))
  {
    hide UnicodeEscape, HexDigit;
    var s := EscapeChar(c)[1..] + rest;
    if |EscapeChar(c)| == 2 {
      assert s[1..] == rest;
    } else {
      CodeReads(c as int, rest);
      assert s[1..] == "00" + [HexDigit(c as int / 16), HexDigit(c as int % 16)] + rest;
    }
  }

  lemma EscapedCharReads(c: char, rest: string)
    ensures ParseString(EscapeChar(c) + rest) ==
            match ParseString(rest) case None => None case Some(parts) => Some(([c] + parts.0, parts.1))
  {
    var s := EscapeChar(c) + rest;
    if |EscapeChar(c)| == 1 {
      assert s[1..] == rest;
    } else {
      hide EscapeChar, Escape;
      EscapeReads(c, rest);
      assert s[1..] == EscapeChar(c)[1..] + rest;
    }
  }

  lemma {:induction false} EscapedReads(s: string, rest: string)
    ensures ParseString(Escaped(s) + "\"" + rest) == Some((s, rest))
  {
    if s == "" {
      assert (Escaped(s) + "\"" + rest)[1..] == rest;
    } else {
      EscapedReads(s[1..], rest);
      EscapedCharReads(s[0], Escaped(s[1..]) + "\"" + rest);
      assert Escaped(s) + "\"" + rest == EscapeChar(s[0]) + (Escaped(s[1..]) + "\"" + rest);
      assert [s[0]] + s[1..] == s;
    }
  }

  lemma StringReads(s: string, rest: string)
    ensures ParseValue(JsonString(s) + rest) == Some((JString(s), rest))
  {
    EscapedReads(s, rest);
    assert (JsonString(s) + rest)[1..] == Escaped(s) + "\"" + rest;
  }

  // ---------------------------------------------------------------- scalars

  /** What may follow a value: the end, or the mark that closes or continues a structure. */
  predicate Delimited(rest: string) {
    rest == "" || rest[0] == ',' || rest[0] == ']' || rest[0] == '}'
  }

  lemma {:induction false} NumberRunStops(s: string, rest: string)
    requires (forall i :: 0 <= i < |s| ==> IsNumberChar(s[i])) && Delimited(rest)
    ensures NumberRun(s + rest) == |s|
  {
    if s == "" {
      assert s + rest == rest;
    } else {
      assert (s + rest)[1..] == s[1..] + rest;
      NumberRunStops(s[1..], rest);
    }
  }

  lemma FixedChars(s: string)
    requires IsFixed(s)
    ensures s != "" && IsDigit(s[0]) && forall i :: 0 <= i < |s| ==> IsDigit(s[i]) || s[i] == '.'
  {
    var parts := SplitOnce(s, {'.'});
    if parts.Some? {
      var (a, b) := parts.value;
      assert s == a + [s[|a|]] + b;
    }
  }

  lemma ExponentChars(s: string)
    requires IsExponent(s)
    ensures forall i :: 0 <= i < |s| ==> IsNumberChar(s[i])
  {
    if !IsDigit(s[0]) {
      assert forall i :: 0 < i < |s| ==> s[i] == s[1..][i - 1];
    }
  }

  lemma UnsignedChars(s: string)
    requires IsUnsigned(s)
    ensures s != "" && IsDigit(s[0]) && forall i :: 0 <= i < |s| ==> IsNumberChar(s[i])
  {
    hide IsFixed, IsExponent;
    var parts := SplitOnce(s, {'e', 'E'});
    if parts.None? {
      FixedChars(s);
    } else {
      var a, b := parts.value.0, parts.value.1;
      FixedChars(a);
      ExponentChars(b);
      assert s[0] == a[0];
      forall i | 0 <= i < |s|
        ensures IsNumberChar(s[i])
      {
        if i < |a| {
          assert s[i] == a[i];
        } else if i > |a| {
          assert s[i] == b[i - |a| - 1];
        }
      }
    }
  }

  lemma NumberChars(s: string)
    requires IsNumber(s)
    ensures s != "" && (IsDigit(s[0]) || s[0] == '-') && forall i :: 0 <= i < |s| ==> IsNumberChar(s[i])
  {
    if s != "" && s[0] == '-' {
      UnsignedChars(s[1..]);
      assert s == ['-'] + s[1..];
    } else {
      UnsignedChars(s);
    }
  }

  lemma NumberReads(s: string, rest: string)
    requires IsNumber(s) && Delimited(rest)
    ensures ParseValue(s + rest) == Some((JNumber(s), rest))
  {
    hide IsNumber, ParseArray, ParseObject, ParseString;
    NumberChars(s);
    NumberRunStops(s, rest);
    var t := s + rest;
    assert t[0] == s[0] && SkipSpace(t) == t;
    assert t[..|s|] == s && t[|s|..] == rest;
    assert ParseScalar(t) == Some((JNumber(s), rest));
  }

  lemma {:induction false} NatTextStart(n: nat)
    ensures NatText(n)[0] == '0' ==> n == 0
  {
    if n >= 10 {
      NatTextStart(n / 10);
    }
  }

  lemma DigitsAreNumber(digits: string)
    requires IsIntPart(digits)
    ensures IsNumber(digits) && IsNumber("-" + digits)
  {
    assert ("-" + digits)[1..] == digits;
    assert Free(digits, {'e', 'E'}) && Free(digits, {'.'});
  }

  lemma IntTextIsNumber(n: int)
    ensures IsNumber(IntText(n))
  {
    NatTextStart(Abs(n));
    DigitsAreNumber(NatText(Abs(n)));
  }

  lemma WordReads(rest: string)
    ensures ParseValue("null" + rest) == Some((JNull, rest))
    ensures ParseValue("true" + rest) == Some((JBool(true), rest))
    ensures ParseValue("false" + rest) == Some((JBool(false), rest))
  {
    assert ("null" + rest)[4..] == rest && ("true" + rest)[4..] == rest && ("false" + rest)[5..] == rest;
  }

  lemma NonFiniteIsRefused(rest: string)
    requires Delimited(rest)
    ensures ParseValue("nan" + rest) == None && ParseValue("inf" + rest) == None && ParseValue("-inf" + rest) == None
  {
    var t := "-inf" + rest;
    assert t[1..] == "inf" + rest;
    assert NumberRun(t) == 1 && t[..1] == "-";
    assert !IsNumber("-") by {
      assert "-"[1..] == "";
    }
    assert ("nan" + rest)[1] == 'a';
  }

  lemma FloatReads(bits: u64, rest: string, floats: FloatText)
    requires PrintsFloats(floats) && Delimited(rest)
    ensures ParseValue(floats(bits) + rest) == if IsFinite(bits) then Some((JNumber(floats(bits)), rest)) else None
  {
    if IsFinite(bits) {
      NumberReads(floats(bits), rest);
    } else {
      NonFiniteIsRefused(rest);
    }
  }

  // ---------------------------------------------------------------- structures

  lemma LikeStart(v: Value, floats: FloatText)
    requires PrintsFloats(floats)
    ensures var s := JsonLike(v, floats); s != "" && !IsSpace(s[0]) && s[0] != ']' && s[0] != '}'
  {
    match v {
      case Float(bits) =>
        if IsFinite(bits) {
          NumberChars(floats(bits));
        }
      case _ =>
    }
  }

  lemma SpaceBefore(s: string)
    ensures ParseValue(" " + s) == ParseValue(s)
    ensures ParseMember(" " + s) == ParseMember(s)
    ensures ParseItems(" " + s) == ParseItems(s)
    ensures ParseMembers(" " + s) == ParseMembers(s)
  {
    assert (" " + s)[1..] == s;
    assert SkipSpace(" " + s) == SkipSpace(s);
  }

  function ItemsText(items: seq<Value>, rest: string, floats: FloatText): string
    requires items != []
  {
    JsonLike(items[0], floats) + (MoreItems(items[1..], floats) + ("]" + rest))
  }

  function EntriesText(entries: seq<Entry>, rest: string, floats: FloatText): string
    requires entries != []
  {
    JsonEntry(entries[0], floats) + (MoreEntries(entries[1..], floats) + ("}" + rest))
  }

  lemma ArrayTextIs(items: seq<Value>, rest: string, floats: FloatText)
    requires items != []
    ensures JsonArray(items, floats) + rest == "[" + ItemsText(items, rest, floats)
  {
  }

  lemma MapTextIs(entries: seq<Entry>, rest: string, floats: FloatText)
    requires entries != []
    ensures JsonMap(entries, floats) + rest == "{" + EntriesText(entries, rest, floats)
  {
  }

  lemma CommaFirst(a: string, b: string, c: string)
    ensures ", " + a + b + c == "," + (" " + (a + (b + c)))
  {
  }

  lemma MoreItemsIs(items: seq<Value>, rest: string, floats: FloatText)
    ensures var after := MoreItems(items, floats) + ("]" + rest);
            after == if items == [] then "]" + rest else "," + (" " + ItemsText(items, rest, floats))
  {
    hide JsonLike;
    if items != [] {
      CommaFirst(JsonLike(items[0], floats), MoreItems(items[1..], floats), "]" + rest);
    }
  }

  lemma MoreEntriesIs(entries: seq<Entry>, rest: string, floats: FloatText)
    ensures var after := MoreEntries(entries, floats) + ("}" + rest);
            after == if entries == [] then "}" + rest else "," + (" " + EntriesText(entries, rest, floats))
  {
    hide JsonEntry;
    if entries != [] {
      CommaFirst(JsonEntry(entries[0], floats), MoreEntries(entries[1..], floats), "}" + rest);
    }
  }

  /** A value inside a structure reads back as its tree, unless a float in it is not finite. */
  lemma {:induction false} LikeReads(v: Value, rest: string, floats: FloatText)
    requires PrintsFloats(floats) && Delimited(rest)
    ensures ParseValue(JsonLike(v, floats) + rest) == if AllFinite(v) then Some((Tree(v, floats), rest)) else None
    decreases v, 1
  {
    hide ParseValue, JsonString, IsNumber, PrintsFloats, IsFinite;
    match v {
      case Null => WordReads(rest);
      case Bool(flag) => WordReads(rest);
      case Int(n) =>
        IntTextIsNumber(n);
        NumberReads(IntText(n), rest);
      case UInt(n) =>
        IntTextIsNumber(n);
        NumberReads(NatText(n), rest);
      case Float(bits) => FloatReads(bits, rest, floats);
      case Array(items) => ArrayReads(items, rest, floats);
      case Row(fields) => ArrayReads(fields, rest, floats);
      case Map(entries) => MapReads(entries, rest, floats);
      case _ => StringReads(Written("", v, floats), rest);
    }
  }

  lemma {:induction false} ArrayReads(items: seq<Value>, rest: string, floats: FloatText)
    requires PrintsFloats(floats) && Delimited(rest)
    ensures ParseValue(JsonArray(items, floats) + rest)
            == if ItemsFinite(items) then Some((JArray(Trees(items, floats)), rest)) else None
    decreases items, 1
  {
    if items == [] {
      assert (JsonArray(items, floats) + rest)[1..] == "]" + rest;
      assert ("]" + rest)[1..] == rest;
    } else {
      hide ParseItems, JsonLike, MoreItems, PrintsFloats;
      var inner := ItemsText(items, rest, floats);
      ArrayTextIs(items, rest, floats);
      assert ("[" + inner)[1..] == inner;
      LikeStart(items[0], floats);
      assert inner[0] == JsonLike(items[0], floats)[0];
      ItemsRead(items, rest, floats);
    }
  }

  lemma {:induction false} ItemsRead(items: seq<Value>, rest: string, floats: FloatText)
    requires PrintsFloats(floats) && Delimited(rest) && items != []
    ensures ParseItems(ItemsText(items, rest, floats))
            == if ItemsFinite(items) then Some((Trees(items, floats), rest)) else None
    decreases items, 0
  {
    hide ParseValue, JsonLike, MoreItems, PrintsFloats;
    var after := MoreItems(items[1..], floats) + ("]" + rest);
    MoreItemsIs(items[1..], rest, floats);
    LikeReads(items[0], after, floats);
    if items[1..] == [] {
      assert after[1..] == rest;
      assert Trees(items, floats) == [Tree(items[0], floats)];
    } else {
      var inner := ItemsText(items[1..], rest, floats);
      assert after[1..] == " " + inner;
      SpaceBefore(inner);
      ItemsRead(items[1..], rest, floats);
    }
  }

  lemma {:induction false} MapReads(entries: seq<Entry>, rest: string, floats: FloatText)
    requires PrintsFloats(floats) && Delimited(rest)
    ensures ParseValue(JsonMap(entries, floats) + rest)
            == if EntriesFinite(entries) then Some((JObject(Members(entries, floats)), rest)) else None
    decreases entries, 1
  {
    if entries == [] {
      assert (JsonMap(entries, floats) + rest)[1..] == "}" + rest;
      assert ("}" + rest)[1..] == rest;
    } else {
      hide ParseMembers, JsonLike, MoreEntries, PrintsFloats;
      var inner := EntriesText(entries, rest, floats);
      MapTextIs(entries, rest, floats);
      assert ("{" + inner)[1..] == inner;
      assert inner[0] == '\"';
      EntriesRead(entries, rest, floats);
    }
  }

  lemma EntryTextIs(key: string, value: string, rest: string)
    ensures JsonString(key) + ": " + value + rest == "\"" + (Escaped(key) + "\"" + (":" + (" " + (value + rest))))
  {
    hide Escaped;
  }

  lemma MemberReads(key: string, tail: string, value: string)
    requires tail == ":" + (" " + value)
    ensures ParseMember("\"" + (Escaped(key) + "\"" + tail)) ==
            match ParseValue(value) case None => None case Some(parts) => Some((Member(key, parts.0), parts.1))
  {
    hide ParseValue, Escaped;
    var inner := Escaped(key) + "\"" + tail;
    EscapedReads(key, tail);
    assert ("\"" + inner)[1..] == inner;
    assert tail[1..] == " " + value;
    SpaceBefore(value);
  }

  lemma {:induction false} EntryReads(entry: Entry, rest: string, floats: FloatText)
    requires PrintsFloats(floats) && Delimited(rest)
    ensures ParseMember(JsonEntry(entry, floats) + rest)
            == if EntryFinite(entry) then Some((MemberOf(entry, floats), rest)) else None
    decreases entry, 0
  {
    hide ParseValue, ParseMember, JsonLike, JsonString, PrintsFloats;
    var key := Written("", entry.key, floats);
    var value := JsonLike(entry.item, floats);
    EntryTextIs(key, value, rest);
    MemberReads(key, ":" + (" " + (value + rest)), value + rest);
    LikeReads(entry.item, rest, floats);
  }

  lemma {:induction false} EntriesRead(entries: seq<Entry>, rest: string, floats: FloatText)
    requires PrintsFloats(floats) && Delimited(rest) && entries != []
    ensures ParseMembers(EntriesText(entries, rest, floats))
            == if EntriesFinite(entries) then Some((Members(entries, floats), rest)) else None
    decreases entries, 0
  {
    hide ParseMember, JsonEntry, MoreEntries, PrintsFloats, EntryFinite, MemberOf;
    var after := MoreEntries(entries[1..], floats) + ("}" + rest);
    MoreEntriesIs(entries[1..], rest, floats);
    EntryReads(entries[0], after, floats);
    if entries[1..] == [] {
      assert after[1..] == rest;
      assert Members(entries, floats) == [MemberOf(entries[0], floats)];
    } else {
      var inner := EntriesText(entries[1..], rest, floats);
      assert after[1..] == " " + inner;
      SpaceBefore(inner);
      EntriesRead(entries[1..], rest, floats);
    }
  }

  /**
   The text of an array, a row or a map is JSON if and only if no float in it is infinite or NaN
   (map keys aside, which are quoted); it then reads as the same tree, members in the same order
   and duplicate keys kept.
   */
  lemma StructuresPrintJson(v: Value, floats: FloatText)
    requires PrintsFloats(floats) && Composite(v)
    ensures ParseJson(Written("", v, floats)) == if AllFinite(v) then Some(Tree(v, floats)) else None
  {
    hide PrintsFloats, JsonArray, JsonMap;
    LikeReads(v, "", floats);
    var text := JsonLike(v, floats);
    assert text + "" == text && "" + text == text;
  }
}
