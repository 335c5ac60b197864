/** Decimal text of integers: Rust's `{}` and `{:0w}`, and the parsers of its integer types. */
module NumberText {
  import opened Wrappers

  function Pow10(n: nat): (r: nat)
    ensures r > 0
  {
    if n == 0 then 1 else 10 * Pow10(n - 1)
  }

  lemma OneIsPow10()
    ensures Pow10(0) == 1
  {
  }

  lemma Pow10Values()
    ensures Pow10(1) == 10 && Pow10(2) == 100 && Pow10(3) == 1000 && Pow10(4) == 10_000
    ensures Pow10(5) == 100_000 && Pow10(6) == 1_000_000
  {
    assert Pow10(2) == 100 && Pow10(4) == 10_000;
  }

  lemma {:induction false} Pow10Adds(a: nat, b: nat)
    ensures Pow10(a + b) == Pow10(a) * Pow10(b)
  {
    if a > 0 {
      Pow10Adds(a - 1, b);
    }
  }

  // ---------------------------------------------------------------- printing

  function DigitChar(d: nat): (c: char)
    requires d < 10
    ensures IsDigit(c) && DigitOf(c) == d
  {
    ('0' as int + d) as char
  }

  predicate IsDigit(c: char) {
    '0' <= c <= '9'
  }

  function DigitOf(c: char): nat
    requires IsDigit(c)
  {
    c as int - '0' as int
  }

  predicate AllDigits(s: string) {
    forall i :: 0 <= i < |s| ==> IsDigit(s[i])
  }

  function NatText(n: nat): (s: string)
    ensures s != "" && AllDigits(s)
  {
    if n < 10 then [DigitChar(n)] else NatText(n / 10) + [DigitChar(n % 10)]
  }

  function IntText(n: int): string {
    if n < 0 then "-" + NatText(-n) else NatText(n)
  }

  function Zeros(count: nat): (s: string)
    ensures |s| == count && AllDigits(s)
  {
    seq(count, _ => '0')
  }

  /** `{n:0width}` of an unsigned number. */
  function Padded(n: nat, width: nat): (s: string)
    ensures s != "" && AllDigits(s) && |s| >= width
  {
    var text := NatText(n);
    if |text| < width then Zeros(width - |text|) + text else text
  }

  /** `{n:0width}` of a signed number: the sign counts towards the width. */
  function PaddedInt(n: int, width: nat): string {
    if n >= 0 then Padded(n, width)
    else "-" + Padded(-n, if width > 0 then width - 1 else 0)
  }

  // ---------------------------------------------------------------- the number a text spells

  function DigitsValue(s: string): nat
    requires AllDigits(s)
  {
    if s == "" then 0 else DigitsValue(s[..|s| - 1]) * 10 + DigitOf(s[|s| - 1])
  }

  lemma {:induction false} NatTextValue(n: nat)
    ensures DigitsValue(NatText(n)) == n
  {
    if n >= 10 {
      NatTextValue(n / 10);
      var s := NatText(n);
      assert s[..|s| - 1] == NatText(n / 10);
    } else {
      assert NatText(n)[..0] == "";
    }
  }

  lemma {:induction false} DigitsValueOfAppend(a: string, b: string)
    requires AllDigits(a) && AllDigits(b)
    ensures AllDigits(a + b) && DigitsValue(a + b) == DigitsValue(a) * Pow10(|b|) + DigitsValue(b)
  {
    if b == "" {
      assert a + b == a;
    } else {
      var front := b[..|b| - 1];
      DigitsValueOfAppend(a, front);
      assert (a + b)[..|a + b| - 1] == a + front;
      ShiftOne(DigitsValue(a), Pow10(|front|), DigitsValue(front));
    }
  }

  lemma ShiftOne(x: nat, p: nat, y: nat)
    ensures (x * p + y) * 10 == x * (10 * p) + y * 10
  {
  }

  lemma {:induction false} ZerosValue(count: nat)
    ensures DigitsValue(Zeros(count)) == 0
  {
    if count > 0 {
      assert Zeros(count)[..count - 1] == Zeros(count - 1);
      ZerosValue(count - 1);
    }
  }

  lemma PaddedValue(n: nat, width: nat)
    ensures DigitsValue(Padded(n, width)) == n
  {
    var text := NatText(n);
    NatTextValue(n);
    if |text| < width {
      var zeros := Zeros(width - |text|);
      ZerosValue(width - |text|);
      DigitsValueOfAppend(zeros, text);
      assert DigitsValue(zeros) * Pow10(|text|) == 0;
      assert Padded(n, width) == zeros + text;
    }
  }

  lemma {:induction false} NatTextLength(n: nat, width: nat)
    requires 0 < width && n < Pow10(width)
    ensures |NatText(n)| <= width
  {
    if n >= 10 {
      NatTextLength(n / 10, width - 1);
    }
  }

  lemma PaddedLength(n: nat, width: nat)
    requires 0 < width && n < Pow10(width)
    ensures |Padded(n, width)| == width
  {
    NatTextLength(n, width);
  }

  // ---------------------------------------------------------------- parsing

  /** Digits up to `max`; anything else, the empty text included, is refused. */
  function ParseDigits(s: string, max: nat): Option<nat> {
    if s == "" || !AllDigits(s) || DigitsValue(s) > max then None else Some(DigitsValue(s))
  }

  /** `parse` of an unsigned type: a leading `+` is allowed, a `-` is not. */
  function ParseUnsigned(s: string, max: nat): Option<nat> {
    if s != "" && s[0] == '+' then ParseDigits(s[1..], max) else ParseDigits(s, max)
  }

  /** `parse` of a signed type whose least value is `-max - 1`. */
  function ParseSigned(s: string, max: nat): Option<int> {
    if s != "" && s[0] == '-' then
      match ParseDigits(s[1..], max + 1)
      case Some(n) => var m: int := n; Some(-m)
      case None => None
    else if s != "" && s[0] == '+' then ParseDigits(s[1..], max)
    else ParseDigits(s, max)
  }

  lemma ParsePadded(n: nat, width: nat, max: nat)
    requires n <= max
    ensures ParseUnsigned(Padded(n, width), max) == Some(n) && ParseSigned(Padded(n, width), max) == Some(n)
    ensures ParseDigits(Padded(n, width), max) == Some(n)
  {
    PaddedValue(n, width);
    assert IsDigit(Padded(n, width)[0]);
  }
}
