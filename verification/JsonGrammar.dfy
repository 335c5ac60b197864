/** JSON texts by RFC 8259: a reader that accepts exactly one value and says which tree it is. */
module JsonGrammar {
  import opened Wrappers
  import opened NumberText
  import opened TextScan

  /** A number keeps its text; an object keeps its members in order, duplicates included. */
  datatype Json =
    | JNull
    | JBool(flag: bool)
    | JNumber(text: string)
    | JString(s: string)
    | JArray(items: seq<Json>)
    | JObject(members: seq<Member>)

  datatype Member = Member(name: string, value: Json)

  // ---------------------------------------------------------------- section 6: numbers

  predicate IsIntPart(s: string) {
    s != "" && AllDigits(s) && (s[0] == '0' ==> |s| == 1)
  }

  predicate IsFixed(s: string) {
    match SplitOnce(s, {'.'})
    case None => IsIntPart(s)
    case Some(parts) => IsIntPart(parts.0) && parts.1 != "" && AllDigits(parts.1)
  }

  predicate IsExponent(s: string) {
    var digits := if s != "" && (s[0] == '+' || s[0] == '-') then s[1..] else s;
    digits != "" && AllDigits(digits)
  }

  predicate IsNumber(s: string) {
    IsUnsigned(if s != "" && s[0] == '-' then s[1..] else s)
  }

  predicate IsUnsigned(s: string) {
    match SplitOnce(s, {'e', 'E'})
    case None => IsFixed(s)
    case Some(parts) => IsFixed(parts.0) && IsExponent(parts.1)
  }

  predicate IsNumberChar(c: char) {
    IsDigit(c) || c == '+' || c == '-' || c == '.' || c == 'e' || c == 'E'
  }

  /** The longest start of the text made of characters a number may hold. */
  function NumberRun(s: string): (n: nat)
    ensures n <= |s|
  {
    if s != "" && IsNumberChar(s[0]) then 1 + NumberRun(s[1..]) else 0
  }

  // ---------------------------------------------------------------- section 7: strings

  function HexValue(c: char): (r: Option<nat>)
    ensures r.Some? ==> r.value < 16
  {
    if '0' <= c <= '9' then Some(c as int - '0' as int)
    else if 'a' <= c <= 'f' then Some(c as int - 'a' as int + 10)
    else if 'A' <= c <= 'F' then Some(c as int - 'A' as int + 10)
    else None
  }

  function Hex4(s: string): (r: Option<nat>)
    ensures r.Some? ==> |s| >= 4 && r.value < 0x1_0000
  {
    if |s| < 4 then None
    else
      var a :- HexValue(s[0]);
      var b :- HexValue(s[1]);
      var c :- HexValue(s[2]);
      var d :- HexValue(s[3]);
      Some(((a * 16 + b) * 16 + c) * 16 + d)
  }

  /** After a backslash and `u`: a scalar, or a pair of surrogates that makes one. */
  function UnicodeEscape(s: string): (r: Option<(char, string)>)
    ensures r.Some? ==> |r.value.1| < |s|
  {
    var code :- Hex4(s);
    if code < 0xD800 || 0xE000 <= code then Some((code as char, s[4..]))
    else if code < 0xDC00 && |s| >= 10 && s[4] == '\\' && s[5] == 'u' then
      var low :- Hex4(s[6..]);
      if 0xDC00 <= low < 0xE000 then
        Some(((0x1_0000 + (code - 0xD800) * 0x400 + (low - 0xDC00)) as char, s[10..]))
      else None
    else None
  }

  /** After a backslash. */
  function Escape(s: string): (r: Option<(char, string)>)
    ensures r.Some? ==> |r.value.1| < |s|
  {
    if s == "" then None
    else
      match s[0]
      case '\"' => Some(('\"', s[1..]))
      case '\\' => Some(('\\', s[1..]))
      case '/' => Some(('/', s[1..]))
      case 'b' => Some((8 as char, s[1..]))
      case 'f' => Some((12 as char, s[1..]))
      case 'n' => Some(('\n', s[1..]))
      case 'r' => Some(('\r', s[1..]))
      case 't' => Some(('\t', s[1..]))
      case 'u' => UnicodeEscape(s[1..])
      case _ => None
  }

  /** After the opening quote, up to and with the closing one. Control characters must be escaped. */
  function ParseString(s: string): (r: Option<(string, string)>)
    ensures r.Some? ==> |r.value.1| < |s|
    decreases |s|
  {
    if s == "" then None
    else if s[0] == '\"' then Some(("", s[1..]))
    else if s[0] == '\\' then
      var (c, after) :- Escape(s[1..]);
      var (rest, end) :- ParseString(after);
      Some(([c] + rest, end))
    else if s[0] as int < 0x20 then None
    else
      var (rest, end) :- ParseString(s[1..]);
      Some(([s[0]] + rest, end))
  }

  // ---------------------------------------------------------------- sections 2 to 5: values

  predicate IsSpace(c: char) {
    c == ' ' || c == '\t' || c == '\n' || c == '\r'
  }

  function SkipSpace(s: string): (t: string)
    ensures |t| <= |s|
  {
    if s != "" && IsSpace(s[0]) then SkipSpace(s[1..]) else s
  }

  function ParseValue(s: string): (r: Option<(Json, string)>)
    ensures r.Some? ==> |r.value.1| < |s|
    decreases |s|, 1
  {
    var t := SkipSpace(s);
    if t == "" then None
    else if t[0] == '[' then ParseArray(t[1..])
    else if t[0] == '{' then ParseObject(t[1..])
    else if t[0] == '\"' then
      var (text, rest) :- ParseString(t[1..]);
      Some((JString(text), rest))
    else ParseScalar(t)
  }

  function ParseScalar(t: string): (r: Option<(Json, string)>)
    ensures r.Some? ==> |r.value.1| < |t|
  {
    if "null" <= t then Some((JNull, t[4..]))
    else if "true" <= t then Some((JBool(true), t[4..]))
    else if "false" <= t then Some((JBool(false), t[5..]))
    else
      var n := NumberRun(t);
      if n > 0 && IsNumber(t[..n]) then Some((JNumber(t[..n]), t[n..])) else None
  }

  function ParseArray(s: string): (r: Option<(Json, string)>)
    ensures r.Some? ==> |r.value.1| <= |s|
    decreases |s|, 3
  {
    var t := SkipSpace(s);
    if t != "" && t[0] == ']' then Some((JArray([]), t[1..]))
    else
      var (items, rest) :- ParseItems(s);
      Some((JArray(items), rest))
  }

  /** One value or more, with commas between, up to and with the closing bracket. */
  function ParseItems(s: string): (r: Option<(seq<Json>, string)>)
    ensures r.Some? ==> |r.value.1| < |s|
    decreases |s|, 2
  {
    var (item, after) :- ParseValue(s);
    var t := SkipSpace(after);
    if t == "" then None
    else if t[0] == ']' then Some(([item], t[1..]))
    else if t[0] == ',' then
      var (items, rest) :- ParseItems(t[1..]);
      Some(([item] + items, rest))
    else None
  }

  function ParseObject(s: string): (r: Option<(Json, string)>)
    ensures r.Some? ==> |r.value.1| <= |s|
    decreases |s|, 4
  {
    var t := SkipSpace(s);
    if t != "" && t[0] == '}' then Some((JObject([]), t[1..]))
    else
      var (members, rest) :- ParseMembers(s);
      Some((JObject(members), rest))
  }

  function ParseMember(s: string): (r: Option<(Member, string)>)
    ensures r.Some? ==> |r.value.1| < |s|
    decreases |s|, 2
  {
    var t := SkipSpace(s);
    if t == "" || t[0] != '\"' then None
    else
      var (name, after) :- ParseString(t[1..]);
      var u := SkipSpace(after);
      if u == "" || u[0] != ':' then None
      else
        var (value, rest) :- ParseValue(u[1..]);
        Some((Member(name, value), rest))
  }

  function ParseMembers(s: string): (r: Option<(seq<Member>, string)>)
    ensures r.Some? ==> |r.value.1| < |s|
    decreases |s|, 3
  {
    var (member, after) :- ParseMember(s);
    var t := SkipSpace(after);
    if t == "" then None
    else if t[0] == '}' then Some(([member], t[1..]))
    else if t[0] == ',' then
      var (members, rest) :- ParseMembers(t[1..]);
      Some(([member] + members, rest))
    else None
  }

  /** A whole text: one value, and nothing but white space after it. */
  function ParseJson(text: string): Option<Json> {
    var (value, rest) :- ParseValue(text);
    if SkipSpace(rest) == "" then Some(value) else None
  }
}
