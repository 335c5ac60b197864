/** Exact decimals: what a parsed text means, and which printed decimals parse back. */
module DecimalTheorems {
  import opened Machine
  import opened Wrappers
  import opened NumberText
  import opened TextScan
  import opened Render
  import opened Normalize
  import Utf8
  import Values

  // ---------------------------------------------------------------- the number a text denotes

  /** The digits after a point: each one a tenth of what stands before it. */
  function FractionValue(s: string): real
    requires AllDigits(s)
  {
    if s == "" then 0.0 else (DigitOf(s[0]) as real + FractionValue(s[1..])) / 10.0
  }

  function Pow10Real(n: int): real {
    if n >= 0 then Pow10(n) as real else 1.0 / Pow10(-n) as real
  }

  /** The real number written as sign, digits, point, digits and exponent. */
  function Denoted(negative: bool, whole: string, fraction: string, exponent: int): real
    requires AllDigits(whole) && AllDigits(fraction)
  {
    var magnitude := (DigitsValue(whole) as real + FractionValue(fraction)) * Pow10Real(exponent);
    if negative then -magnitude else magnitude
  }

  lemma RealProduct(a: int, b: int)
    ensures (a * b) as real == a as real * b as real
  {
  }

  lemma Associate(x: real, y: real, z: real)
    ensures x * y * z == x * (y * z)
  {
  }

  lemma OneDigitMore(x: real, d: nat, f: real, power: nat, p: nat, digits: nat, rest: nat)
    requires f * p as real == rest as real
    requires x == (d as real + f) / 10.0 && power == 10 * p && digits == d * p + rest
    ensures x * power as real == digits as real
  {
    var y := p as real;
    RealProduct(10, p);
    RealProduct(d, p);
    Associate(x, 10.0, y);
    assert x * 10.0 == d as real + f;
    assert (d as real + f) * y == d as real * y + f * y;
  }

  lemma OneDigit(c: char)
    requires IsDigit(c)
    ensures AllDigits([c]) && DigitsValue([c]) == DigitOf(c)
  {
    assert [c][..0] == "";
  }

  lemma FractionStep(s: string)
    requires s != "" && AllDigits(s)
    ensures AllDigits(s[1..]) && Pow10(|s|) == 10 * Pow10(|s[1..]|)
    ensures FractionValue(s) == (DigitOf(s[0]) as real + FractionValue(s[1..])) / 10.0
    ensures DigitsValue(s) == DigitOf(s[0]) * Pow10(|s[1..]|) + DigitsValue(s[1..])
  {
    OneDigit(s[0]);
    DigitsValueOfAppend([s[0]], s[1..]);
    assert s == [s[0]] + s[1..];
  }

  lemma NoFraction()
    ensures FractionValue("") * Pow10(0) as real == DigitsValue("") as real
  {
  }

  lemma {:induction false} FractionIsDigits(s: string)
    requires AllDigits(s)
    ensures FractionValue(s) * Pow10(|s|) as real == DigitsValue(s) as real
  {
    hide DigitsValue, FractionValue, Pow10;
    if s == "" {
      NoFraction();
    } else {
      FractionStep(s);
      FractionIsDigits(s[1..]);
      OneDigitMore(FractionValue(s), DigitOf(s[0]), FractionValue(s[1..]), Pow10(|s|), Pow10(|s[1..]|),
                   DigitsValue(s), DigitsValue(s[1..]));
    }
  }

  lemma ScaleUp(w: nat, f: real, p: nat, rest: nat)
    requires f * p as real == rest as real
    ensures (w as real + f) * p as real == (w * p + rest) as real
  {
    RealProduct(w, p);
    var x, y := w as real, p as real;
    assert (x + f) * y == x * y + f * y;
  }

  /** Whole and fraction together, scaled up by the length of the fraction, are the digits run together. */
  lemma MantissaIsDigits(whole: string, fraction: string)
    requires AllDigits(whole) && AllDigits(fraction)
    ensures AllDigits(whole + fraction)
    ensures (DigitsValue(whole) as real + FractionValue(fraction)) * Pow10(|fraction|) as real
            == DigitsValue(whole + fraction) as real
  {
    hide DigitsValue, FractionValue, Pow10;
    FractionIsDigits(fraction);
    DigitsValueOfAppend(whole, fraction);
    ScaleUp(DigitsValue(whole), FractionValue(fraction), Pow10(|fraction|), DigitsValue(fraction));
  }

  lemma ProductOfPowers(a: nat, b: nat)
    ensures Pow10(a) as real * Pow10(b) as real == Pow10(a + b) as real
  {
    hide Pow10;
    Pow10Adds(a, b);
    RealProduct(Pow10(a), Pow10(b));
  }

  lemma Cancel(x: real, y: real, z: real, v: real)
    requires x * y == z && v * y == 1.0
    ensures z * v == x
  {
    Associate(x, y, v);
  }

  lemma Reciprocal(x: real)
    requires x > 0.0
    ensures 1.0 / x * x == 1.0
  {
  }

  /** With `z` ten to the sum: what dividing by one factor leaves. */
  lemma DivideOut(x: real, y: real, z: real)
    requires x > 0.0 && y > 0.0 && z > 0.0 && x * y == z
    ensures z * (1.0 / y) == x
  {
    Reciprocal(y);
    Cancel(x, y, z, 1.0 / y);
  }

  lemma DivideInto(x: real, y: real, z: real)
    requires x > 0.0 && y > 0.0 && z > 0.0 && x * y == z
    ensures x * (1.0 / z) == 1.0 / y
  {
    var v, w := 1.0 / y, 1.0 / z;
    Reciprocal(y);
    Reciprocal(z);
    Associate(w, x, y);
    Associate(w * x, y, v);
  }

  lemma DivideTwice(x: real, y: real, z: real)
    requires x > 0.0 && y > 0.0 && z > 0.0 && x * y == z
    ensures 1.0 / x * (1.0 / y) == 1.0 / z
  {
    var u := 1.0 / x;
    DivideInto(x, y, z);
    Reciprocal(x);
    Associate(u, x, 1.0 / z);
  }

  /** Powers of ten multiply, whatever the signs of their exponents. */
  lemma Pow10RealAdds(a: int, b: int)
    ensures Pow10Real(a) * Pow10Real(b) == Pow10Real(a + b)
  {
    hide Pow10;
    if a >= 0 && b >= 0 {
      ProductOfPowers(a, b);
    } else if a < 0 && b < 0 {
      ProductOfPowers(-a, -b);
      DivideTwice(Pow10(-a) as real, Pow10(-b) as real, Pow10(-a + -b) as real);
    } else if a < 0 {
      MixedPowers(b, -a);
    } else {
      MixedPowers(a, -b);
    }
  }

  lemma MixedPowers(up: nat, down: nat)
    requires down > 0
    ensures Pow10(up) as real * (1.0 / Pow10(down) as real) == Pow10Real(up - down)
  {
    hide Pow10;
    if up >= down {
      PowersUp(up, down, up - down);
    } else {
      PowersDown(up, down, down - up);
    }
  }

  lemma PowersUp(up: nat, down: nat, rest: nat)
    requires up == rest + down
    ensures Pow10(up) as real * (1.0 / Pow10(down) as real) == Pow10(rest) as real
  {
    hide Pow10;
    ProductOfPowers(rest, down);
    DivideOut(Pow10(rest) as real, Pow10(down) as real, Pow10(up) as real);
  }

  lemma PowersDown(up: nat, down: nat, rest: nat)
    requires down == up + rest
    ensures Pow10(up) as real * (1.0 / Pow10(down) as real) == 1.0 / Pow10(rest) as real
  {
    hide Pow10;
    ProductOfPowers(up, rest);
    DivideInto(Pow10(up) as real, Pow10(rest) as real, Pow10(down) as real);
  }

  // ---------------------------------------------------------------- exactness

  /** The scale is an `i32`, so computing it in 32 bits is computing it. */
  predicate ScaleInRange(parts: Parts) {
    InI32(|parts.fraction| - parts.exponent)
  }

  lemma ScaleWrapsOnce(length: nat, exponent: int)
    ensures WrapI32(WrapI32(length) - exponent) == WrapI32(length - exponent)
  {
    var m := 0x1_0000_0000;
    var q := length / m;
    assert length == q * m + length % m;
    var wrapped: int := WrapI32(length);
    ShiftByMultiple(length - exponent, m, -q);
    ShiftByMultiple(length - exponent, m, -q - 1);
    assert wrapped - exponent == length - exponent - q * m || wrapped - exponent == length - exponent - (q + 1) * m;
  }

  lemma PowerIsNotOne(n: int)
    requires n != 0
    ensures Pow10Real(n) != 1.0
  {
    if n < 0 {
      Reciprocal(Pow10(-n) as real);
    }
  }

  /** Different exponents, different powers. */
  lemma PowersDiffer(a: int, b: int)
    requires a != b
    ensures Pow10Real(a) != Pow10Real(b)
  {
    PowerIsNotOne(a - b);
    hide Pow10;
    Pow10RealAdds(a - b, b);
    assert Pow10Real(b) > 0.0;
    hide *;
    NotTheUnit(Pow10Real(a - b), Pow10Real(b));
  }

  lemma NotTheUnit(x: real, y: real)
    requires x != 1.0 && y > 0.0
    ensures x * y != y
  {
    assert x * y - y == (x - 1.0) * y;
  }

  /** With `both` for the product of the other two: what remains when a common factor is taken off. */
  lemma CommonFactor(d: real, up: real, power: real, down: real, both: real)
    requires power * down == both
    ensures d * up == d * power * down <==> d == 0.0 || up == both
  {
    Associate(d, power, down);
    assert d * up - d * both == d * (up - both);
  }

  lemma RealPower(n: nat)
    ensures Pow10Real(n) == Pow10(n) as real
  {
  }

  /** Digits scaled up are the digits times two powers exactly when the exponents agree. */
  lemma ExactAt(digits: nat, power: int, up: nat, down: nat)
    ensures digits as real * Pow10Real(up) == digits as real * Pow10Real(power) * Pow10Real(down)
            <==> digits == 0 || up == power + down
  {
    hide *;
    Pow10RealAdds(power, down);
    if up != power + down {
      PowersDiffer(up, power + down);
    }
    CommonFactor(digits as real, Pow10Real(up), Pow10Real(power), Pow10Real(down), Pow10Real(power + down));
  }

  /** The number denoted is the digits run together, times a power of ten. */
  lemma DenotedIsDigits(whole: string, fraction: string, exponent: int)
    requires AllDigits(whole) && AllDigits(fraction)
    ensures AllDigits(whole + fraction)
    ensures Denoted(false, whole, fraction, exponent)
            == DigitsValue(whole + fraction) as real * Pow10Real(exponent - |fraction|)
  {
    hide DigitsValue, FractionValue, Pow10;
    var length := |fraction|;
    var mantissa := DigitsValue(whole) as real + FractionValue(fraction);
    MantissaIsDigits(whole, fraction);
    assert Pow10Real(length) == Pow10(length) as real;
    hide Pow10Real;
    Pow10RealAdds(length, exponent - length);
    Associate(mantissa, Pow10Real(length), Pow10Real(exponent - length));
  }

  /** The digits kept, with the zeros a negative scale stands for. */
  lemma CombinedValue(digits: string, scale: int)
    requires AllDigits(digits)
    ensures var combined := digits + if scale < 0 then Zeros(-scale) else "";
            AllDigits(combined) && DigitsValue(combined) == DigitsValue(digits) * Pow10(if scale < 0 then -scale else 0)
  {
    hide DigitsValue, Pow10;
    if scale < 0 {
      ZerosValue(-scale);
      DigitsValueOfAppend(digits, Zeros(-scale));
    } else {
      OneIsPow10();
      assert digits + "" == digits;
    }
  }

  /**
   Whatever text is accepted is given a scale from 0 to 38, and `unscaled / 10^scale` is the number
   the text denotes if and only if the scale did not wrap or every digit is zero.
   */
  lemma ParsedIsExact(text: string)
    requires ParseDecimal(text).Some?
    ensures PartsOf(text).Some?
    ensures var (unscaled, scale) := ParseDecimal(text).value; var p := PartsOf(text).value;
            && 0 <= scale <= 38 && AllDigits(p.whole + p.fraction)
            && (unscaled as real == Denoted(p.negative, p.whole, p.fraction, p.exponent) * Pow10(scale) as real
                <==> ScaleInRange(p) || DigitsValue(p.whole + p.fraction) == 0)
  {
    hide PartsOf, DecimalOfParts, DigitsValue, Denoted, Pow10;
    PartsAreExact(PartsOf(text).value);
  }

  lemma PartsAreExact(p: Parts)
    requires IsMantissa(p.whole, p.fraction) && DecimalOfParts(p).Some?
    ensures var (unscaled, scale) := DecimalOfParts(p).value;
            && 0 <= scale <= 38 && AllDigits(p.whole + p.fraction)
            && (unscaled as real == Denoted(p.negative, p.whole, p.fraction, p.exponent) * Pow10(scale) as real
                <==> ScaleInRange(p) || DigitsValue(p.whole + p.fraction) == 0)
  {
    hide DigitsValue, FractionValue, Pow10, Denoted, ScaleOf, ScaleInRange, Zeros;
    var scale: int := ScaleOf(p.fraction, p.exponent);
    MagnitudeIsExact(p, scale);
    SignOfDenoted(p, Pow10(if scale < 0 then 0 else scale) as real);
  }

  /** The magnitude a text is given at the scale it is given. */
  lemma MagnitudeIsExact(p: Parts, scale: int)
    requires IsMantissa(p.whole, p.fraction) && scale == ScaleOf(p.fraction, p.exponent)
    ensures var combined := p.whole + p.fraction + if scale < 0 then Zeros(-scale) else "";
            && AllDigits(combined) && AllDigits(p.whole + p.fraction)
            && (DigitsValue(combined) as real
                == Denoted(false, p.whole, p.fraction, p.exponent) * Pow10(if scale < 0 then 0 else scale) as real
                <==> ScaleInRange(p) || DigitsValue(p.whole + p.fraction) == 0)
  {
    hide DigitsValue, FractionValue, Pow10, Denoted, WrapI32, Pow10Real, Zeros;
    ScaleWrapsOnce(|p.fraction|, p.exponent);
    DenotedIsDigits(p.whole, p.fraction, p.exponent);
    CombinedValue(p.whole + p.fraction, scale);
    var up, down := if scale < 0 then -scale else 0, if scale < 0 then 0 else scale;
    RealPower(up);
    RealPower(down);
    RealProduct(DigitsValue(p.whole + p.fraction), Pow10(up));
    ExactAt(DigitsValue(p.whole + p.fraction), p.exponent - |p.fraction|, up, down);
  }

  lemma SignOfDenoted(p: Parts, power: real)
    requires AllDigits(p.whole) && AllDigits(p.fraction)
    ensures var magnitude := Denoted(false, p.whole, p.fraction, p.exponent);
            Denoted(p.negative, p.whole, p.fraction, p.exponent) * power == if p.negative then -(magnitude * power) else magnitude * power
  {
  }

  lemma {:induction false} TrimIsNoLonger(s: string)
    ensures |Trim(s)| <= |s|
  {
    TrimStartIsNoLonger(s);
    TrimEndIsNoLonger(TrimStart(s));
  }

  lemma {:induction false} TrimStartIsNoLonger(s: string)
    ensures |TrimStart(s)| <= |s|
  {
    if s != "" {
      TrimStartIsNoLonger(s[1..]);
    }
  }

  lemma {:induction false} TrimEndIsNoLonger(s: string)
    ensures |TrimEnd(s)| <= |s|
  {
    if s != "" {
      TrimEndIsNoLonger(s[..|s| - 1]);
    }
  }

  /** Text that fits in memory a server could send: 64 scalars short of 2^31. */
  const SHORT_TEXT := 0x7FFF_FFC0

  /** The parts of a text are no longer than it, and its exponent is an `i32`. */
  lemma PartsAreBounded(text: string)
    requires PartsOf(text).Some?
    ensures |PartsOf(text).value.fraction| <= |text| && InI32(PartsOf(text).value.exponent)
  {
    hide Trim, ParseSigned, AllDigits;
    TrimIsNoLonger(text);
    ExponentIsI32(SplitSign(Trim(text)).1);
  }

  /** On such a text a scale that would wrap is always refused. */
  lemma ShortTextsDoNotWrap(text: string)
    requires |text| < SHORT_TEXT && ParseDecimal(text).Some?
    ensures PartsOf(text).Some? && ScaleInRange(PartsOf(text).value)
  {
    hide PartsOf, DecimalOfParts;
    PartsAreBounded(text);
    var p := PartsOf(text).value;
    if !ScaleInRange(p) {
      WrappedScaleIsRefused(|p.fraction|, p.exponent);
      RefusedBelow(p);
    }
  }

  lemma RefusedBelow(p: Parts)
    requires ScaleOf(p.fraction, p.exponent) < -64
    ensures DecimalOfParts(p) == None
  {
  }

  lemma ExponentIsI32(digits: string)
    requires SplitExponent(digits).Some?
    ensures InI32(SplitExponent(digits).value.1)
  {
  }

  lemma WrappedScaleIsRefused(length: nat, exponent: int)
    requires length < SHORT_TEXT && InI32(exponent) && !InI32(length - exponent)
    ensures WrapI32(WrapI32(length) - exponent) < -64
  {
  }

  /** Past 2^32 digits the length is cut, and a text far below one tenth is read as five tenths. */
  lemma LongTextIsMisread(text: string)
    requires text == "0." + (Zeros(0x1_0000_0000) + "5")
    ensures ParseDecimal(text) == Some((5, 1))
    ensures PartsOf(text) == Some(Parts(false, "0", Zeros(0x1_0000_0000) + "5", 0))
    ensures Denoted(false, "0", Zeros(0x1_0000_0000) + "5", 0) < 0.1
  {
    hide DecimalOfParts, PartsOf, Denoted, DigitsValue, FractionValue;
    var fraction := Zeros(0x1_0000_0000) + "5";
    assert "" + ("0" + ("." + fraction)) == text;
    PlainTextParts(false, "0", true, fraction);
    LongFraction(fraction);
  }

  lemma LongFraction(fraction: string)
    requires fraction == Zeros(0x1_0000_0000) + "5"
    ensures DecimalOfParts(Parts(false, "0", fraction, 0)) == Some((5, 1))
    ensures Denoted(false, "0", fraction, 0) < 0.1
  {
    LeadingZeros(0x1_0000_0000, "5");
    OneDigit('5');
    OneDigit('0');
    hide DigitsValue;
    assert "0" + fraction + "" == "0" + fraction;
    FractionIsSmall(fraction[1..]);
  }

  lemma {:induction false} FractionIsSmall(s: string)
    requires AllDigits(s)
    ensures 0.0 <= FractionValue(s) < 1.0
  {
    if s != "" {
      FractionIsSmall(s[1..]);
    }
  }

  // ---------------------------------------------------------------- printed decimals

  /** The parts of a plain text of digits, with or without a point. */
  /** A body that starts and ends with a digit is kept as it is, and its sign taken off. */
  lemma SignedBody(negative: bool, body: string)
    requires body != "" && IsDigit(body[0]) && IsDigit(body[|body| - 1])
    ensures var text := (if negative then "-" else "") + body; Trim(text) == text && SplitSign(text) == (negative, body)
  {
    hide Trim;
    var text := (if negative then "-" else "") + body;
    TrimNothing(text);
    if negative {
      assert text[1..] == body;
    } else {
      assert text == body;
    }
  }

  lemma PlainTextParts(negative: bool, whole: string, point: bool, fraction: string)
    requires IsMantissa(whole, fraction) && whole != "" && point == (fraction != "")
    ensures PartsOf((if negative then "-" else "") + (whole + if point then "." + fraction else ""))
            == Some(Parts(negative, whole, fraction, 0))
  {
    var body := whole + if point then "." + fraction else "";
    assert IsDigit(body[0]) && IsDigit(body[|body| - 1]);
    hide Trim, SplitSign, SplitExponent, SplitPoint, AllDigits, IsDigit;
    SignedBody(negative, body);
    BodySplits(whole, point, fraction);
  }

  lemma BodySplits(whole: string, point: bool, fraction: string)
    requires IsMantissa(whole, fraction) && whole != "" && point == (fraction != "")
    ensures var body := whole + if point then "." + fraction else "";
            SplitExponent(body) == Some((body, 0)) && SplitPoint(body) == (whole, fraction)
  {
    var body := whole + if point then "." + fraction else "";
    assert Free(body, {'e', 'E'});
    if point {
      assert body == whole + ['.'] + fraction;
      SplitOnceAt(whole, '.', fraction, {'.'});
    } else {
      assert body == whole && Free(whole, {'.'});
    }
  }

  lemma PlainPartsParse(negative: bool, whole: string, fraction: string)
    requires IsMantissa(whole, fraction) && |fraction| < 0x100
    ensures AllDigits(whole + fraction)
    ensures var n := DigitsValue(whole + fraction);
            DecimalOfParts(Parts(negative, whole, fraction, 0)) ==
            if |fraction| <= 38 && n <= I128_MAX then Some((if negative then -(n as int) else n, |fraction|)) else None
  {
    hide DigitsValue;
    assert whole + fraction + "" == whole + fraction;
  }

  /**
   A printed decimal parses back to the same unscaled integer and the same scale exactly when the
   scale is at most 38 and the integer is not the least `i128`; otherwise it is refused.
   */
  lemma DecimalRoundTrip(unscaled: i128, scale: u8)
    ensures ParseDecimal(DecimalText(unscaled, scale))
            == if scale <= 38 && unscaled != I128_MIN then Some((unscaled, scale)) else None
  {
    hide DigitsValue, DecimalOfParts, PartsOf, NatText, Zeros;
    var digits := NatText(Abs(unscaled));
    NatTextValue(Abs(unscaled));
    if scale == 0 {
      assert digits + "" == digits;
      PlainTextParts(unscaled < 0, digits, false, "");
      PlainPartsParse(unscaled < 0, digits, "");
      assert (if unscaled < 0 then "-" else "") + digits == DecimalText(unscaled, scale);
    } else if |digits| <= scale {
      var zeros := Zeros(scale - |digits|);
      LeadingZeros(scale - |digits|, digits);
      assert "0" + ("." + (zeros + digits)) == "0." + zeros + digits;
      PlainTextParts(unscaled < 0, "0", true, zeros + digits);
      PlainPartsParse(unscaled < 0, "0", zeros + digits);
    } else {
      var split := |digits| - scale;
      assert digits[..split] + digits[split..] == digits;
      assert digits[..split] + ("." + digits[split..]) == digits[..split] + "." + digits[split..];
      PlainTextParts(unscaled < 0, digits[..split], true, digits[split..]);
      PlainPartsParse(unscaled < 0, digits[..split], digits[split..]);
    }
  }

  lemma LeadingZeros(count: nat, digits: string)
    requires AllDigits(digits)
    ensures AllDigits("0" + (Zeros(count) + digits))
    ensures DigitsValue("0" + (Zeros(count) + digits)) == DigitsValue(digits)
  {
    ZerosValue(count + 1);
    DigitsValueOfAppend(Zeros(count + 1), digits);
    assert "0" + (Zeros(count) + digits) == Zeros(count + 1) + digits;
  }

  // ---------------------------------------------------------------- decimal columns

  /** The text of a decimal, sent for a decimal column, is that decimal; where it cannot be, it stays the text. */
  lemma DecimalColumnKeeps(unscaled: i128, scale: u8)
    ensures AsDecimal(MyBytes(Utf8.Encode(DecimalText(unscaled, scale))))
            == if scale <= 38 && unscaled != I128_MIN then Values.Decimal(unscaled, scale) else Values.Text(DecimalText(unscaled, scale))
  {
    hide DecimalText, ParseDecimal, Utf8.Decode, Utf8.Encode;
    Utf8.DecodeOfEncode(DecimalText(unscaled, scale));
    DecimalRoundTrip(unscaled, scale);
  }

  /** An integer is one decimal whether it is sent as a number or as its text. */
  lemma IntegersAgree(n: i128)
    ensures InI64(n) ==> AsDecimal(MyInt(n)) == AsDecimal(MyBytes(Utf8.Encode(IntText(n))))
    ensures 0 <= n <= U64_MAX ==> AsDecimal(MyUInt(n)) == AsDecimal(MyBytes(Utf8.Encode(IntText(n))))
  {
    hide IntText, ParseDecimal, Utf8.Decode, Utf8.Encode;
    assert DecimalText(n, 0) == IntText(n);
    DecimalColumnKeeps(n, 0);
  }

  /**
   Nothing sent for a decimal column is lost: bytes that are no text stay bytes, text that is no
   decimal stays text, and a decimal is the number denoted, under the condition on its scale.
   */
  lemma DecimalColumnLosesNothing(bytes: seq<u8>)
    ensures match AsDecimal(MyBytes(bytes))
            case Bytes(kept) => kept == bytes && Utf8.Decode(bytes) == None
            case Text(text) => Utf8.Encode(text) == bytes && ParseDecimal(text) == None
            case Decimal(unscaled, scale) =>
              && Utf8.Decode(bytes).Some? && PartsOf(Utf8.Decode(bytes).value).Some?
              && var p := PartsOf(Utf8.Decode(bytes).value).value;
                 AllDigits(p.whole + p.fraction)
                 && (unscaled as real == Denoted(p.negative, p.whole, p.fraction, p.exponent) * Pow10(scale) as real
                     <==> ScaleInRange(p) || DigitsValue(p.whole + p.fraction) == 0)
            case _ => false
  {
    hide Utf8.Decode, Utf8.Encode, DigitsValue, Denoted, Pow10, ScaleInRange, PartsOf, ParseDecimal;
    var text := Utf8.Decode(bytes);
    if text.Some? {
      Utf8.EncodeOfDecode(bytes);
      if ParseDecimal(text.value).Some? {
        ParsedIsExact(text.value);
      }
    }
  }

  /** The parser as it runs: the scale and the digits change in place. */
  method RunParseDecimal(text: string) returns (r: Option<(i128, u8)>)
    ensures r == ParseDecimal(text)
  {
    hide DigitsValue, Trim, SplitSign, SplitExponent, SplitPoint, ScaleOf, IsMantissa, Zeros;
    var (negative, digits) := SplitSign(Trim(text));
    var split := SplitExponent(digits);
    if split.None? {
      return None;
    }
    var (whole, fraction) := SplitPoint(split.value.0);
    if !IsMantissa(whole, fraction) {
      return None;
    }
    var scale := ScaleOf(fraction, split.value.1);
    var combined := whole;
    combined := combined + fraction;
    if scale < 0 {
      // Negating the least scale wraps to itself; as an unsigned count it is past any limit.
      if -scale > 64 {
        return None;
      }
      combined := combined + Zeros(-scale);
      scale := 0;
    } else {
      assert combined + "" == combined;
    }
    if scale > 38 {
      return None;
    }
    var unscaled := ParseDigits(combined, I128_MAX);
    if unscaled.None? {
      return None;
    }
    var signed: int := unscaled.value;
    r := Some((if negative then -signed else signed, scale));
  }
}
