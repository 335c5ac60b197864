/**
 UTF-8, as Rust's `str` keeps it. A text is a sequence of Unicode scalar values; its bytes are
 `Encode`, and `Decode` is `std::str::from_utf8`: it refuses overlong forms, surrogates and
 numbers past U+10FFFF.
 */
module Utf8 {
  import opened Machine
  import opened Wrappers

  function EncodeScalar(c: char): (b: seq<u8>)
    ensures 1 <= |b| <= 4
  {
    var n := c as int;
    if n < 0x80 then
      [n]
    else if n < 0x800 then
      [0xC0 + n / 0x40, 0x80 + n % 0x40]
    else if n < 0x1_0000 then
      [0xE0 + n / 0x40 / 0x40, 0x80 + n / 0x40 % 0x40, 0x80 + n % 0x40]
    else
      [0xF0 + n / 0x40 / 0x40 / 0x40, 0x80 + n / 0x40 / 0x40 % 0x40, 0x80 + n / 0x40 % 0x40, 0x80 + n % 0x40]
  }

  function Encode(s: string): seq<u8> {
    if s == "" then [] else EncodeScalar(s[0]) + Encode(s[1..])
  }

  predicate IsContinuation(b: seq<u8>, k: nat) {
    k < |b| && 0x80 <= b[k] < 0xC0
  }

  predicate IsScalar(n: int) {
    0 <= n < 0xD800 || 0xE000 <= n < 0x11_0000
  }

  function Number2(x: int, y: int): int {
    (x - 0xC0) * 0x40 + (y - 0x80)
  }

  function Number3(x: int, y: int, z: int): int {
    ((x - 0xE0) * 0x40 + (y - 0x80)) * 0x40 + (z - 0x80)
  }

  function Number4(x: int, y: int, z: int, w: int): int {
    (((x - 0xF0) * 0x40 + (y - 0x80)) * 0x40 + (z - 0x80)) * 0x40 + (w - 0x80)
  }

  /** The scalar a byte string starts with, and the bytes it takes. */
  function DecodeScalar(b: seq<u8>): (r: Option<(char, nat)>)
    ensures r.Some? ==> 1 <= r.value.1 <= |b|
  {
    if b == [] then
      None
    else if b[0] < 0x80 then
      Some((b[0] as char, 1))
    else if b[0] < 0xC2 then
      None
    else if b[0] < 0xE0 then
      if IsContinuation(b, 1) then Some((Number2(b[0], b[1]) as char, 2)) else None
    else if b[0] < 0xF0 then
      if IsContinuation(b, 1) && IsContinuation(b, 2) then
        var n := Number3(b[0], b[1], b[2]);
        if 0x800 <= n && IsScalar(n) then Some((n as char, 3)) else None
      else
        None
    else if b[0] < 0xF5 then
      if IsContinuation(b, 1) && IsContinuation(b, 2) && IsContinuation(b, 3) then
        var n := Number4(b[0], b[1], b[2], b[3]);
        if 0x1_0000 <= n && IsScalar(n) then Some((n as char, 4)) else None
      else
        None
    else
      None
  }

  function Decode(b: seq<u8>): Option<string> {
    if b == [] then Some("")
    else
      var (c, width) :- DecodeScalar(b);
      var rest :- Decode(b[width..]);
      Some([c] + rest)
  }

  lemma Split64(high: int, low: int)
    requires 0 <= low < 0x40
    ensures (high * 0x40 + low) / 0x40 == high && (high * 0x40 + low) % 0x40 == low
  {
  }

  lemma DecodeScalarOfEncode(c: char, rest: seq<u8>)
    ensures DecodeScalar(EncodeScalar(c) + rest) == Some((c, |EncodeScalar(c)|))
  {
    var b := EncodeScalar(c) + rest;
    var n := c as int;
    if n < 0x80 {
      assert b[0] == n;
    } else if n < 0x800 {
      assert b[0] == 0xC0 + n / 0x40 && b[1] == 0x80 + n % 0x40;
      assert Number2(b[0], b[1]) == n;
    } else if n < 0x1_0000 {
      assert b[0] == 0xE0 + n / 0x40 / 0x40 && b[1] == 0x80 + n / 0x40 % 0x40 && b[2] == 0x80 + n % 0x40;
      assert Number3(b[0], b[1], b[2]) == n;
    } else {
      assert b[0] == 0xF0 + n / 0x40 / 0x40 / 0x40 && b[1] == 0x80 + n / 0x40 / 0x40 % 0x40;
      assert b[2] == 0x80 + n / 0x40 % 0x40 && b[3] == 0x80 + n % 0x40;
      assert Number4(b[0], b[1], b[2], b[3]) == n;
    }
  }

  lemma Digits2(x: int, y: int)
    requires 0xC2 <= x < 0xE0 && 0x80 <= y < 0xC0
    ensures 0x80 <= Number2(x, y) < 0x800
    ensures var n := Number2(x, y); 0xC0 + n / 0x40 == x && 0x80 + n % 0x40 == y
  {
    Split64(x - 0xC0, y - 0x80);
  }

  lemma Digits3(x: int, y: int, z: int)
    requires 0xE0 <= x < 0xF0 && 0x80 <= y < 0xC0 && 0x80 <= z < 0xC0
    ensures var n := Number3(x, y, z);
            n < 0x1_0000 && 0xE0 + n / 0x40 / 0x40 == x && 0x80 + n / 0x40 % 0x40 == y && 0x80 + n % 0x40 == z
  {
    var high := (x - 0xE0) * 0x40 + (y - 0x80);
    Split64(x - 0xE0, y - 0x80);
    Split64(high, z - 0x80);
  }

  lemma Digits4(x: int, y: int, z: int, w: int)
    requires 0xF0 <= x < 0xF5 && 0x80 <= y < 0xC0 && 0x80 <= z < 0xC0 && 0x80 <= w < 0xC0
    ensures var n := Number4(x, y, z, w);
            && 0xF0 + n / 0x40 / 0x40 / 0x40 == x && 0x80 + n / 0x40 / 0x40 % 0x40 == y
            && 0x80 + n / 0x40 % 0x40 == z && 0x80 + n % 0x40 == w
  {
    var high := (x - 0xF0) * 0x40 + (y - 0x80);
    Split64(x - 0xF0, y - 0x80);
    Split64(high, z - 0x80);
    Split64(high * 0x40 + (z - 0x80), w - 0x80);
  }

  lemma EncodeScalarOfDecode(b: seq<u8>)
    requires DecodeScalar(b).Some?
    ensures EncodeScalar(DecodeScalar(b).value.0) == b[..DecodeScalar(b).value.1]
  {
    hide Number2, Number3, Number4;
    var (c, width) := DecodeScalar(b).value;
    if width == 2 {
      Digits2(b[0], b[1]);
    } else if width == 3 {
      Digits3(b[0], b[1], b[2]);
    } else if width == 4 {
      Digits4(b[0], b[1], b[2], b[3]);
    }
  }

  /** Reading back the bytes of a text gives the text: `from_utf8(s.as_bytes()) == Ok(s)`. */
  lemma {:induction false} DecodeOfEncode(s: string)
    ensures Decode(Encode(s)) == Some(s)
  {
    if s != "" {
      DecodeScalarOfEncode(s[0], Encode(s[1..]));
      assert Encode(s)[|EncodeScalar(s[0])|..] == Encode(s[1..]);
      DecodeOfEncode(s[1..]);
      assert s == [s[0]] + s[1..];
    }
  }

  lemma EncodeCons(c: char, s: string, b: seq<u8>, width: nat)
    requires width <= |b| && EncodeScalar(c) == b[..width] && Encode(s) == b[width..]
    ensures Encode([c] + s) == b
  {
    assert ([c] + s)[1..] == s;
    assert b == b[..width] + b[width..];
  }

  lemma DecodeStep(b: seq<u8>) returns (c: char, width: nat, s: string)
    requires b != [] && Decode(b).Some?
    ensures 1 <= width <= |b| && DecodeScalar(b) == Some((c, width)) && Decode(b[width..]) == Some(s)
    ensures Decode(b).value == [c] + s
  {
    var r := DecodeScalar(b).value;
    c, width := r.0, r.1;
    s := Decode(b[width..]).value;
  }

  /** Only the bytes of a text decode to it, so no two byte strings read as the same text. */
  lemma {:induction false} EncodeOfDecode(b: seq<u8>)
    requires Decode(b).Some?
    ensures Encode(Decode(b).value) == b
    decreases |b|
  {
    if b != [] {
      var c, width, s := DecodeStep(b);
      EncodeScalarOfDecode(b);
      EncodeOfDecode(b[width..]);
      EncodeCons(c, s, b, width);
    }
  }
}
