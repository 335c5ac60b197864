/** The `str` operations the parsers are made of. */
module TextScan {
  import opened Wrappers

  predicate Free(s: string, stops: set<char>) {
    forall i :: 0 <= i < |s| ==> s[i] !in stops
  }

  /** The parts before and after the first character in `stops`. */
  function SplitOnce(s: string, stops: set<char>): (r: Option<(string, string)>)
    ensures r.None? <==> Free(s, stops)
    ensures r.Some? ==>
              var (a, b) := r.value;
              Free(a, stops) && |a| < |s| && s[|a|] in stops && s[..|a|] == a && s[|a| + 1..] == b
  {
    if s == "" then None
    else if s[0] in stops then Some(("", s[1..]))
    else
      match SplitOnce(s[1..], stops)
      case None => None
      case Some(parts) => Some(([s[0]] + parts.0, parts.1))
  }

  lemma JoinedAt(a: string, stop: char, b: string)
    ensures var s := a + [stop] + b;
            s[|a|] == stop && s[..|a|] == a && s[|a| + 1..] == b && forall i :: 0 <= i < |a| ==> s[i] == a[i]
  {
  }

  lemma {:induction false} SplitOnceAt(a: string, stop: char, b: string, stops: set<char>)
    requires Free(a, stops) && stop in stops
    ensures SplitOnce(a + [stop] + b, stops) == Some((a, b))
  {
    hide SplitOnce;
    var s := a + [stop] + b;
    JoinedAt(a, stop, b);
    var x := SplitOnce(s, stops).value.0;
    assert x == s[..|x|];
    assert forall i :: 0 <= i < |x| ==> x[i] == s[i];
  }

  /** Unicode White_Space, which is what `trim` removes. */
  predicate IsWhitespace(c: char) {
    var n := c as int;
    9 <= n <= 13 || n == 0x20 || n == 0x85 || n == 0xA0 || n == 0x1680 || 0x2000 <= n <= 0x200A
    || n == 0x2028 || n == 0x2029 || n == 0x202F || n == 0x205F || n == 0x3000
  }

  function TrimStart(s: string): string {
    if s != "" && IsWhitespace(s[0]) then TrimStart(s[1..]) else s
  }

  function TrimEnd(s: string): string {
    if s != "" && IsWhitespace(s[|s| - 1]) then TrimEnd(s[..|s| - 1]) else s
  }

  function Trim(s: string): string {
    TrimEnd(TrimStart(s))
  }

  lemma TrimNothing(s: string)
    requires s != "" ==> !IsWhitespace(s[0]) && !IsWhitespace(s[|s| - 1])
    ensures Trim(s) == s
  {
  }

  /** The scalars with Unicode's White_Space property, and no others. */
  lemma WhitespaceIs(c: char)
    ensures IsWhitespace(c) <==>
            c as int in {9, 10, 11, 12, 13, 32, 0x85, 0xA0, 0x1680,
                         0x2000, 0x2001, 0x2002, 0x2003, 0x2004, 0x2005, 0x2006, 0x2007, 0x2008, 0x2009, 0x200A,
                         0x2028, 0x2029, 0x202F, 0x205F, 0x3000}
  {
  }

  lemma {:induction false} TrimStartMeans(s: string) returns (from: nat)
    ensures from <= |s| && TrimStart(s) == s[from..] && forall i :: 0 <= i < from ==> IsWhitespace(s[i])
    ensures TrimStart(s) != "" ==> !IsWhitespace(TrimStart(s)[0])
  {
    hide IsWhitespace;
    from := 0;
    if s != "" && IsWhitespace(s[0]) {
      var rest := TrimStartMeans(s[1..]);
      from := rest + 1;
      assert forall i :: 1 <= i < from ==> s[i] == s[1..][i - 1];
    }
  }

  lemma {:induction false} TrimEndMeans(s: string) returns (to: nat)
    ensures to <= |s| && TrimEnd(s) == s[..to] && forall i :: to <= i < |s| ==> IsWhitespace(s[i])
    ensures TrimEnd(s) != "" ==> !IsWhitespace(TrimEnd(s)[|TrimEnd(s)| - 1])
  {
    hide IsWhitespace;
    to := |s|;
    if s != "" && IsWhitespace(s[|s| - 1]) {
      to := TrimEndMeans(s[..|s| - 1]);
    }
  }

  /** What is left is the text between its first and last scalars that are not whitespace. */
  lemma TrimMeans(s: string) returns (from: nat, to: nat)
    ensures from <= to <= |s| && Trim(s) == s[from..to]
    ensures forall i :: 0 <= i < from || to <= i < |s| ==> IsWhitespace(s[i])
    ensures Trim(s) != "" ==> !IsWhitespace(s[from]) && !IsWhitespace(s[to - 1])
  {
    hide IsWhitespace, TrimStart, TrimEnd;
    from := TrimStartMeans(s);
    var length := TrimEndMeans(TrimStart(s));
    to := from + length;
    assert forall i :: to <= i < |s| ==> s[i] == s[from..][i - from];
  }
}
