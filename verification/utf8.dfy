/**
  UTF-8 as `String::from_utf8` accepts it: a byte sequence is turned into a
  string exactly when it is well-formed UTF-8 in the sense of Table 3-7 of
  the Unicode Standard (no overlong forms, no surrogates, nothing above
  U+10FFFF, no truncated sequence). Dafny's `char` is a Unicode scalar value,
  like Rust's.
 */
module Utf8 {
  import opened Wrappers

  newtype byte = x: int | 0 <= x < 256

  predicate IsContinuation(b: byte) {
    0x80 <= b <= 0xBF
  }

  /** The bounds the second byte of a three- or four-byte sequence must lie in. */
  function SecondByteLow(lead: byte): byte {
    if lead == 0xE0 then 0xA0 else if lead == 0xF0 then 0x90 else 0x80
  }

  function SecondByteHigh(lead: byte): byte {
    if lead == 0xED then 0x9F else if lead == 0xF4 then 0x8F else 0xBF
  }

  /**
    The length of the well-formed sequence that starts `bs`, or 0 when `bs`
    does not start with one.
   */
  function SequenceLength(bs: seq<byte>): (n: nat)
    requires |bs| > 0
    ensures n <= 4 && n <= |bs|
    ensures n == 1 <==> bs[0] < 0x80
  {
    var b0 := bs[0];
    if b0 < 0x80 then 1
    else if 0xC2 <= b0 <= 0xDF then
      if |bs| >= 2 && IsContinuation(bs[1]) then 2 else 0
    else if 0xE0 <= b0 <= 0xEF then
      if |bs| >= 3 && SecondByteLow(b0) <= bs[1] <= SecondByteHigh(b0) && IsContinuation(bs[2])
      then 3 else 0
    else if 0xF0 <= b0 <= 0xF4 then
      if |bs| >= 4 && SecondByteLow(b0) <= bs[1] <= SecondByteHigh(b0)
         && IsContinuation(bs[2]) && IsContinuation(bs[3])
      then 4 else 0
    else 0
  }

  /** The scalar value encoded by the well-formed sequence that starts `bs`. */
  function ScalarAt(bs: seq<byte>): char
    requires |bs| > 0 && SequenceLength(bs) > 0
  {
    var n := SequenceLength(bs);
    var b0 := bs[0] as int;
    if n == 1 then
      b0 as char
    else if n == 2 then
      ((b0 - 0xC0) * 64 + (bs[1] as int - 0x80)) as char
    else if n == 3 then
      (((b0 - 0xE0) * 64 + (bs[1] as int - 0x80)) * 64 + (bs[2] as int - 0x80)) as char
    else
      ((((b0 - 0xF0) * 64 + (bs[1] as int - 0x80)) * 64 + (bs[2] as int - 0x80)) * 64
       + (bs[3] as int - 0x80)) as char
  }

  /** The shortest UTF-8 encoding of one scalar value. */
  function EncodeChar(c: char): (bs: seq<byte>)
    ensures 1 <= |bs| <= 4
  {
    var cp := c as int;
    if cp < 0x80 then
      [cp as byte]
    else if cp < 0x800 then
      [(0xC0 + cp / 64) as byte, (0x80 + cp % 64) as byte]
    else if cp < 0x10000 then
      [(0xE0 + cp / 64 / 64) as byte, (0x80 + cp / 64 % 64) as byte, (0x80 + cp % 64) as byte]
    else
      [(0xF0 + cp / 64 / 64 / 64) as byte, (0x80 + cp / 64 / 64 % 64) as byte,
       (0x80 + cp / 64 % 64) as byte, (0x80 + cp % 64) as byte]
  }

  function Encode(s: string): (bs: seq<byte>)
    ensures |s| <= |bs| <= 4 * |s|
  {
    if s == [] then [] else EncodeChar(s[0]) + Encode(s[1..])
  }

  /**
    `String::from_utf8`: `None` when the bytes are not well-formed UTF-8.
    Whatever it decodes encodes back to the very same bytes.
   */
  function Decode(bs: seq<byte>): (r: Option<string>)
    ensures r.Some? ==> Encode(r.value) == bs
    decreases |bs|
  {
    if bs == [] then Some([])
    else
      var n := SequenceLength(bs);
      if n == 0 then None
      else
        match Decode(bs[n..])
        case None => None
        case Some(rest) =>
          EncodeScalarAt(bs);
          Some([ScalarAt(bs)] + rest)
  }

  /** Encoding the scalar read from a well-formed sequence gives that sequence back. */
  lemma EncodeScalarAt(bs: seq<byte>)
    requires |bs| > 0 && SequenceLength(bs) > 0
    ensures EncodeChar(ScalarAt(bs)) == bs[..SequenceLength(bs)]
  {
    var n := SequenceLength(bs);
    if n == 2 {
      EncodeTwoByteScalar(bs);
    } else if n == 3 {
      EncodeThreeByteScalar(bs);
    } else if n == 4 {
      EncodeFourByteScalar(bs);
    }
  }

  lemma EncodeTwoByteScalar(bs: seq<byte>)
    requires |bs| > 0 && SequenceLength(bs) == 2
    ensures EncodeChar(ScalarAt(bs)) == bs[..2]
  {
    var cp := ScalarAt(bs) as int;
    var lo := bs[1] as int - 0x80;
    assert cp == (bs[0] as int - 0xC0) * 64 + lo;
    assert cp / 64 == bs[0] as int - 0xC0 && cp % 64 == lo;
  }

  lemma EncodeThreeByteScalar(bs: seq<byte>)
    requires |bs| > 0 && SequenceLength(bs) == 3
    ensures EncodeChar(ScalarAt(bs)) == bs[..3]
  {
    var cp := ScalarAt(bs) as int;
    var mid, lo := bs[1] as int - 0x80, bs[2] as int - 0x80;
    var hi := (bs[0] as int - 0xE0) * 64 + mid;
    assert cp == hi * 64 + lo;
    assert cp / 64 == hi && cp % 64 == lo;
    assert hi / 64 == bs[0] as int - 0xE0 && hi % 64 == mid;
  }

  lemma EncodeFourByteScalar(bs: seq<byte>)
    requires |bs| > 0 && SequenceLength(bs) == 4
    ensures EncodeChar(ScalarAt(bs)) == bs[..4]
  {
    var cp := ScalarAt(bs) as int;
    var b1, b2, b3 := bs[1] as int - 0x80, bs[2] as int - 0x80, bs[3] as int - 0x80;
    var top := (bs[0] as int - 0xF0) * 64 + b1;
    var hi := top * 64 + b2;
    assert cp == hi * 64 + b3;
    assert cp / 64 == hi && cp % 64 == b3;
    assert hi / 64 == top && hi % 64 == b2;
    assert top / 64 == bs[0] as int - 0xF0 && top % 64 == b1;
  }

  /** The encoding of a scalar is one well-formed sequence that reads back as that scalar. */
  lemma ScalarAtEncodeChar(c: char, rest: seq<byte>)
    ensures SequenceLength(EncodeChar(c) + rest) == |EncodeChar(c)|
    ensures ScalarAt(EncodeChar(c) + rest) == c
  {
    var cp := c as int;
    if cp < 0x80 {
    } else if cp < 0x800 {
      ScalarAtTwoBytes(c, rest);
    } else if cp < 0x10000 {
      ScalarAtThreeBytes(c, rest);
    } else {
      ScalarAtFourBytes(c, rest);
    }
  }

  lemma ScalarAtTwoBytes(c: char, rest: seq<byte>)
    requires 0x80 <= c as int < 0x800
    ensures SequenceLength(EncodeChar(c) + rest) == 2
    ensures ScalarAt(EncodeChar(c) + rest) == c
  {
    var cp := c as int;
    assert cp == (cp / 64) * 64 + cp % 64;
  }

  lemma ScalarAtThreeBytes(c: char, rest: seq<byte>)
    requires 0x800 <= c as int < 0x10000
    ensures SequenceLength(EncodeChar(c) + rest) == 3
    ensures ScalarAt(EncodeChar(c) + rest) == c
  {
    var cp := c as int;
    assert cp == (cp / 64) * 64 + cp % 64;
    assert cp / 64 == (cp / 64 / 64) * 64 + cp / 64 % 64;
  }

  lemma ScalarAtFourBytes(c: char, rest: seq<byte>)
    requires 0x10000 <= c as int
    ensures SequenceLength(EncodeChar(c) + rest) == 4
    ensures ScalarAt(EncodeChar(c) + rest) == c
  {
    var cp := c as int;
    assert cp == (cp / 64) * 64 + cp % 64;
    assert cp / 64 == (cp / 64 / 64) * 64 + cp / 64 % 64;
    assert cp / 64 / 64 == (cp / 64 / 64 / 64) * 64 + cp / 64 / 64 % 64;
  }

  /** Every string survives encoding and decoding unchanged. */
  lemma {:induction false} DecodeEncode(s: string)
    ensures Decode(Encode(s)) == Some(s)
  {
    if s != [] {
      var head := EncodeChar(s[0]);
      var bs := Encode(s);
      ScalarAtEncodeChar(s[0], Encode(s[1..]));
      assert bs[|head|..] == Encode(s[1..]);
      DecodeEncode(s[1..]);
      assert [s[0]] + s[1..] == s;
    }
  }

  /** Decoding succeeds on exactly the byte sequences that are encodings of some string. */
  lemma DecodeSucceedsExactlyOnEncodings(bs: seq<byte>)
    ensures Decode(bs).Some? <==> exists s :: Encode(s) == bs
  {
    if exists s :: Encode(s) == bs {
      var s :| Encode(s) == bs;
      DecodeEncode(s);
    }
  }

  /** ASCII bytes decode one for one into the characters with the same code. */
  lemma {:induction false} DecodeAscii(bs: seq<byte>)
    requires forall k | 0 <= k < |bs| :: bs[k] < 0x80
    ensures Decode(bs).Some? && |Decode(bs).value| == |bs|
    ensures forall k | 0 <= k < |bs| :: Decode(bs).value[k] as int == bs[k] as int
  {
    if bs != [] {
      DecodeAscii(bs[1..]);
    }
  }
}
