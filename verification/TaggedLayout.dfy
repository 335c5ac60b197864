/** The tagged blob in actual bytes and actual numbers, as it lies on disk. */
module TaggedLayout {
  import opened Machine
  import opened Wrappers
  import opened Values
  import opened TaggedFormat
  import opened TaggedTheorems
  import Utf8

  // ---------------------------------------------------------------- small numbers

  lemma {:induction false} NothingLeft(width: nat)
    ensures LittleEndian(0, width) == seq(width, _ => 0)
  {
    if width > 0 {
      NothingLeft(width - 1);
    }
  }

  lemma SmallNumber(n: nat, width: nat)
    requires n < 256 && width > 0
    ensures LittleEndian(n, width) == [n] + seq(width - 1, _ => 0)
  {
    NothingLeft(width - 1);
    assert n % 256 == n && n / 256 == 0;
  }

  lemma SmallSigned(n: nat, width: nat)
    requires n < 128 && width > 0
    ensures SignedBytes(n, width) == [n] + seq(width - 1, _ => 0)
  {
    SmallNumber(n, width);
    assert Pow256(width) == 256 * Pow256(width - 1) >= 256;
    ModOfShifted(n, Pow256(width));
  }

  lemma OneByte(n: u8)
    requires n < 128
    ensures Utf8.Encode([n as char]) == [n]
  {
    assert [n as char][1..] == [];
  }

  // ---------------------------------------------------------------- layout

  /** Tags and fixed-width fields. */
  lemma ScalarBytes(n: u8, k: u8)
    requires n < 128
    ensures Blob(Null) == [0]
    ensures Blob(Bool(false)) == [1, 0] && Blob(Bool(true)) == [1, 1]
    ensures Blob(Int(n)) == [2, n, 0, 0, 0, 0, 0, 0, 0]
    ensures Blob(UInt(n)) == [3, n, 0, 0, 0, 0, 0, 0, 0]
    ensures Blob(Float(n)) == [4, n, 0, 0, 0, 0, 0, 0, 0]
    ensures Blob(Decimal(n, k)) == [5, n, 0, 0, 0, 0, 0, 0, 0, 0, 0, 0, 0, 0, 0, 0, 0, k]
    ensures Blob(Date(n)) == [9, n, 0, 0, 0]
    ensures Blob(Time(n)) == [10, n, 0, 0, 0, 0, 0, 0, 0]
  {
    hide LittleEndian, SignedBytes;
    SmallSigned(n, 8);
    SmallNumber(n, 8);
    SmallSigned(n, 16);
    SmallSigned(n, 4);
  }

  /** A zone adds a flag and four bytes; an interval is three numbers in a row. */
  lemma InstantBytes(n: u8, a: u8, b: u8)
    requires n < 128 && a < 128 && b < 128
    ensures Blob(Timestamp(n, None)) == [8, n, 0, 0, 0, 0, 0, 0, 0, 0]
    ensures Blob(Timestamp(n, Some(a))) == [8, n, 0, 0, 0, 0, 0, 0, 0, 1, a, 0, 0, 0]
    ensures Blob(Interval(IntervalValue(a, b, n))) == [11, a, 0, 0, 0, b, 0, 0, 0, n, 0, 0, 0, 0, 0, 0, 0]
  {
    hide LittleEndian, SignedBytes;
    SmallSigned(n, 8);
    SmallSigned(a, 4);
    SmallSigned(b, 4);
  }

  lemma PrefixedByte(n: u8)
    ensures Prefixed([n]) == [1, 0, 0, 0, n]
  {
    hide LittleEndian;
    SmallNumber(1, 4);
  }

  /** Strings carry a four-byte length. */
  lemma StringBytes(n: u8)
    requires n < 128
    ensures Blob(Text([n as char])) == [6, 1, 0, 0, 0, n]
    ensures Blob(Bytes([n])) == [7, 1, 0, 0, 0, n]
    ensures Blob(Json([n as char])) == [12, 1, 0, 0, 0, n]
  {
    OneByte(n);
    PrefixedByte(n);
    hide Prefixed, Utf8.Encode;
  }

  lemma DetailsBytes(n: u8)
    requires n < 128
    ensures Details(None, None) == [0]
    ensures Details(Some([n as char]), None) == [1, 1, 0, 0, 0, n]
    ensures Details(None, Some([n])) == [2, 1, 0, 0, 0, n]
  {
    OneByte(n);
    PrefixedByte(n);
    hide Prefixed, Utf8.Encode;
  }

  lemma BothDetails(n: u8)
    requires n < 128
    ensures Details(Some([n as char]), Some([n])) == [3, 1, 0, 0, 0, n, 1, 0, 0, 0, n]
  {
    OneByte(n);
    PrefixedByte(n);
    hide Prefixed, Utf8.Encode;
  }

  lemma UnknownIs(n: u8, shown: Option<string>, raw: Option<seq<u8>>)
    requires n < 128
    ensures Blob(Unknown([n as char], shown, raw)) == [16, 1, 0, 0, 0, n] + Details(shown, raw)
  {
    hide Prefixed, Utf8.Encode, Details, LittleEndian, SignedBytes;
    OneByte(n);
    PrefixedByte(n);
    assert [16] + ([1, 0, 0, 0, n] + Details(shown, raw)) == [16, 1, 0, 0, 0, n] + Details(shown, raw);
  }

  /** An unknown value says which of its two parts follow. */
  lemma UnknownBytes(n: u8)
    requires n < 128
    ensures Blob(Unknown([n as char], None, None)) == [16, 1, 0, 0, 0, n, 0]
    ensures Blob(Unknown([n as char], Some([n as char]), None)) == [16, 1, 0, 0, 0, n, 1, 1, 0, 0, 0, n]
    ensures Blob(Unknown([n as char], None, Some([n]))) == [16, 1, 0, 0, 0, n, 2, 1, 0, 0, 0, n]
    ensures Blob(Unknown([n as char], Some([n as char]), Some([n]))) == [16, 1, 0, 0, 0, n, 3, 1, 0, 0, 0, n, 1, 0, 0, 0, n]
  {
    hide Blob, Details;
    DetailsBytes(n);
    BothDetails(n);
    UnknownIs(n, None, None);
    UnknownIs(n, Some([n as char]), None);
    UnknownIs(n, None, Some([n]));
    UnknownIs(n, Some([n as char]), Some([n]));
  }

  /** Lists carry a four-byte count. */
  lemma ListBytes()
    ensures Blob(Array([])) == [13, 0, 0, 0, 0]
    ensures Blob(Array([Null])) == [13, 1, 0, 0, 0, 0]
    ensures Blob(Row([Null])) == [14, 1, 0, 0, 0, 0]
  {
    hide LittleEndian;
    SmallNumber(0, 4);
    SmallNumber(1, 4);
    assert [Null][1..] == [];
    assert BlobOfAll([Null]) == Blob(Null) + BlobOfAll([]) == [0];
  }

  /** So do maps, and each key comes before its item. */
  lemma MapBytes()
    ensures Blob(Map([Entry(Null, Bool(true))])) == [15, 1, 0, 0, 0, 0, 1, 1]
  {
    hide LittleEndian;
    SmallNumber(1, 4);
    var one := [Entry(Null, Bool(true))];
    assert one[1..] == [];
    assert BlobOfEntries(one) == BlobOfEntry(one[0]) + BlobOfEntries([]) == [0, 1, 1];
  }

  // ---------------------------------------------------------------- limits

  /** A null in so many arrays, one inside the other. */
  function Nested(levels: nat): Value {
    if levels == 0 then Null else Array([Nested(levels - 1)])
  }

  lemma {:induction false} NestedMeasures(levels: nat)
    ensures Nesting(Nested(levels)) == levels && Fits(Nested(levels))
  {
    if levels > 0 {
      NestedMeasures(levels - 1);
      var items := [Nested(levels - 1)];
      assert items[1..] == [];
      assert NestingOfAll(items) == Max(1 + Nesting(items[0]), NestingOfAll([])) == levels;
      assert AllFit(items) == (Fits(items[0]) && AllFit([]));
    }
  }

  /** 64 levels come back and 65 do not. */
  lemma DepthLimit(levels: nat)
    ensures Storable(Nested(levels)) <==> levels <= 64
  {
    NestedMeasures(levels);
  }

  /** 256 MiB of bytes come back and one more does not; so it is for the UTF-8 of a text. */
  lemma LengthLimit(bytes: seq<u8>, text: string)
    ensures Storable(Bytes(bytes)) <==> |bytes| <= 268_435_456
    ensures Storable(Text(text)) <==> |Utf8.Encode(text)| <= 268_435_456
    ensures Storable(Json(text)) <==> |Utf8.Encode(text)| <= 268_435_456
    ensures Storable(Unknown(text, None, None)) <==> |Utf8.Encode(text)| <= 268_435_456
    ensures Storable(Unknown("", Some(text), Some(bytes))) <==> |Utf8.Encode(text)| <= 268_435_456 && |bytes| <= 268_435_456
  {
  }
}
