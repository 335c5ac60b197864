/** Machine integers: their ranges, the casts between them, and their little-endian bytes. */
module Machine {
  type u8 = x: int | 0 <= x < 0x100
  type u16 = x: int | 0 <= x < 0x1_0000
  type u32 = x: int | 0 <= x < 0x1_0000_0000
  type u64 = x: int | 0 <= x < 0x1_0000_0000_0000_0000
  type i8 = x: int | -0x80 <= x < 0x80
  type i32 = x: int | -0x8000_0000 <= x < 0x8000_0000
  type i64 = x: int | -0x8000_0000_0000_0000 <= x < 0x8000_0000_0000_0000
  type i128 = x: int | -0x8000_0000_0000_0000_0000_0000_0000_0000 <= x < 0x8000_0000_0000_0000_0000_0000_0000_0000

  const U32_MODULUS := 0x1_0000_0000
  const I32_MAX := 0x7FFF_FFFF
  const I64_MAX := 0x7FFF_FFFF_FFFF_FFFF
  const I128_MAX := 0x7FFF_FFFF_FFFF_FFFF_FFFF_FFFF_FFFF_FFFF
  const U32_MAX := 0xFFFF_FFFF
  const U64_MAX := 0xFFFF_FFFF_FFFF_FFFF
  const USIZE_MAX := 0xFFFF_FFFF_FFFF_FFFF
  const ISIZE_MAX := 0x7FFF_FFFF_FFFF_FFFF
  const I128_MIN := -0x8000_0000_0000_0000_0000_0000_0000_0000

  /** The bytes of a slice: Rust never holds more than `isize::MAX` of them. */
  type Slice = s: seq<u8> | |s| <= ISIZE_MAX witness []

  predicate InI32(x: int) {
    -0x8000_0000 <= x < 0x8000_0000
  }

  predicate InI64(x: int) {
    -0x8000_0000_0000_0000 <= x < 0x8000_0000_0000_0000
  }

  predicate InI128(x: int) {
    I128_MIN <= x < -I128_MIN
  }

  /** Two's complement reading of the low bits of `x`: an `as` cast, or arithmetic in a release build. */
  function WrapI32(x: int): (r: i32)
    ensures InI32(x) ==> r == x
  {
    var low := x % 0x1_0000_0000;
    if low < 0x8000_0000 then low else low - 0x1_0000_0000
  }

  function WrapI64(x: int): (r: i64)
    ensures InI64(x) ==> r == x
  {
    var low := x % 0x1_0000_0000_0000_0000;
    if low < 0x8000_0000_0000_0000 then low else low - 0x1_0000_0000_0000_0000
  }

  function Abs(x: int): nat {
    if x < 0 then -x else x
  }

  /** Division as the Rust `/` does it: the quotient is truncated towards zero. */
  function Quot(a: int, b: int): int
    requires b > 0
  {
    if a >= 0 then a / b else -(-a / b)
  }

  // ---------------------------------------------------------------- division

  lemma DivIs(a: int, b: int, q: int)
    requires b > 0 && q * b <= a < q * b + b
    ensures a / b == q
  {
    var d := a / b;
    assert d * b <= a < d * b + b;
    if d < q {
      Multiples(d + 1, q, b);
    } else if d > q {
      Multiples(q + 1, d, b);
    }
  }

  lemma Multiples(x: int, y: int, b: int)
    requires b > 0 && x <= y
    ensures x * b <= y * b
  {
  }

  lemma ShiftByMultiple(a: int, b: int, k: int)
    requires b > 0
    ensures (k * b + a) / b == k + a / b && (k * b + a) % b == a % b
  {
    var q := a / b;
    assert q * b <= a < q * b + b;
    assert (k + q) * b == k * b + q * b;
    DivIs(k * b + a, b, k + q);
  }

  /** Seconds as hours, minutes and seconds. */
  lemma SixtiesOf(seconds: nat)
    ensures seconds % 3600 / 60 < 60
    ensures seconds / 3600 * 3600 + seconds % 3600 / 60 * 60 + seconds % 60 == seconds
  {
    var hours := seconds / 3600;
    var rest := seconds - hours * 3600;
    DivIs(seconds, 3600, hours);
    ShiftByMultiple(rest, 3600, hours);
    var minutes := rest / 60;
    var last := rest - minutes * 60;
    DivIs(rest, 60, minutes);
    LastSixty(hours, minutes, last);
  }

  lemma LastSixty(hours: nat, minutes: nat, last: nat)
    requires last < 60
    ensures (hours * 3600 + minutes * 60 + last) % 60 == last
  {
    var k := hours * 60 + minutes;
    assert hours * 3600 + minutes * 60 + last == k * 60 + last;
    ShiftByMultiple(last, 60, k);
  }

  // ---------------------------------------------------------------- bytes

  function Pow256(width: nat): (r: nat)
    ensures r > 0
  {
    if width == 0 then 1 else 256 * Pow256(width - 1)
  }

  lemma Pow256Values()
    ensures Pow256(1) == 0x100
    ensures Pow256(4) == 0x1_0000_0000
    ensures Pow256(8) == 0x1_0000_0000_0000_0000
    ensures Pow256(16) == 0x1_0000_0000_0000_0000_0000_0000_0000_0000
  {
    assert Pow256(2) == 0x1_0000 && Pow256(3) == 0x100_0000;
    assert Pow256(4) == 0x1_0000_0000;
    assert Pow256(6) == 0x1_0000_0000_0000;
    assert Pow256(8) == 0x1_0000_0000_0000_0000;
    assert Pow256(10) == 0x1_0000_0000_0000_0000_0000;
    assert Pow256(12) == 0x1_0000_0000_0000_0000_0000_0000;
    assert Pow256(14) == 0x1_0000_0000_0000_0000_0000_0000_0000;
  }

  /** The low `width` bytes of `n`, least significant first (`to_le_bytes`). */
  function LittleEndian(n: nat, width: nat): (b: seq<u8>)
    ensures |b| == width
  {
    if width == 0 then [] else [n % 256] + LittleEndian(n / 256, width - 1)
  }

  /** The number those bytes spell (`from_le_bytes` of an unsigned type). */
  function FromLittleEndian(b: seq<u8>): nat {
    if b == [] then 0 else b[0] + 256 * FromLittleEndian(b[1..])
  }

  lemma {:induction false} LittleEndianRoundTrip(n: nat, width: nat)
    requires n < Pow256(width)
    ensures FromLittleEndian(LittleEndian(n, width)) == n
  {
    if width > 0 {
      LittleEndianRoundTrip(n / 256, width - 1);
      assert LittleEndian(n, width)[1..] == LittleEndian(n / 256, width - 1);
    }
  }

  lemma LowByte(low: u8, high: nat)
    ensures (low + 256 * high) % 256 == low && (low + 256 * high) / 256 == high
  {
    ShiftByMultiple(low, 256, high);
    assert low + 256 * high == high * 256 + low;
  }

  lemma {:induction false} FromLittleEndianRoundTrip(b: seq<u8>)
    ensures FromLittleEndian(b) < Pow256(|b|)
    ensures LittleEndian(FromLittleEndian(b), |b|) == b
  {
    if b != [] {
      FromLittleEndianRoundTrip(b[1..]);
      LowByte(b[0], FromLittleEndian(b[1..]));
      assert b == [b[0]] + b[1..];
    }
  }

  /** The two's complement bytes of a signed number. */
  function SignedBytes(n: int, width: nat): (b: seq<u8>)
    ensures |b| == width
  {
    LittleEndian(n % Pow256(width), width)
  }

  /** An unsigned number reread as a signed one of the same width (`as i32`, `as i64`, ...). */
  function AsSigned(n: nat, width: nat): int {
    if 2 * n < Pow256(width) then n else n - Pow256(width)
  }

  predicate FitsSigned(n: int, width: nat) {
    var m: int := Pow256(width);
    -m <= 2 * n < m
  }

  lemma SignedRoundTrip(n: int, width: nat)
    requires FitsSigned(n, width)
    ensures AsSigned(FromLittleEndian(SignedBytes(n, width)), width) == n
  {
    var m := Pow256(width);
    assert n % m == if n < 0 then n + m else n by {
      ModOfShifted(n, m);
    }
    LittleEndianRoundTrip(n % m, width);
  }

  lemma ModOfShifted(n: int, m: int)
    requires m > 0 && -m <= n < m
    ensures n % m == if n < 0 then n + m else n
  {
  }

  lemma FromSignedRoundTrip(b: seq<u8>)
    ensures FitsSigned(AsSigned(FromLittleEndian(b), |b|), |b|)
    ensures SignedBytes(AsSigned(FromLittleEndian(b), |b|), |b|) == b
  {
    FromLittleEndianRoundTrip(b);
    var n: int, m: int := FromLittleEndian(b), Pow256(|b|);
    var s := AsSigned(n, |b|);
    assert s % m == n by {
      ModOfShifted(s, m);
    }
  }
}
