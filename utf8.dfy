/** UTF-8 as section 3 of RFC 3629 defines it, for the code point append of
    the buffer: a Unicode scalar value becomes one to four bytes, and the
    surrogate range U+D800..U+DFFF and everything above U+10FFFF have no
    encoding. */
module Utf8 {
  import opened Memory

  /** The values UTF-8 can encode. */
  predicate IsScalar(cp: int) {
    0 <= cp <= 0x10FFFF && !(0xD800 <= cp <= 0xDFFF)
  }

  /** The byte count the table in section 3 of RFC 3629 gives a scalar. */
  function EncodedLength(cp: int): nat {
    if cp < 0x80 then 1 else if cp < 0x800 then 2 else if cp < 0x10000 then 3 else 4
  }

  /** The bytes of cp: a lead byte whose high bits give the count, then
      continuation bytes 10xxxxxx, six bits each, most significant first.
      None for a value that is not a scalar. */
  function Encode(cp: uint32): (r: Option<seq<byte>>)
    ensures r.Some? <==> IsScalar(cp as int)
    ensures r.Some? ==> |r.value| == EncodedLength(cp as int)
    ensures r.Some? ==> forall k :: 1 <= k < |r.value| ==> 0x80 <= r.value[k] < 0xC0
  {
    var c := cp as int;
    if c < 0x80 then
      Some([c as byte])
    else if c < 0x800 then
      Some([(0xC0 + c / 0x40) as byte, (0x80 + c % 0x40) as byte])
    else if 0xD800 <= c <= 0xDFFF then
      None
    else if c < 0x10000 then
      Some([(0xE0 + c / 0x1000) as byte, (0x80 + c / 0x40 % 0x40) as byte, (0x80 + c % 0x40) as byte])
    else if c <= 0x10FFFF then
      Some([(0xF0 + c / 0x40000) as byte, (0x80 + c / 0x1000 % 0x40) as byte,
            (0x80 + c / 0x40 % 0x40) as byte, (0x80 + c % 0x40) as byte])
    else
      None
  }

  predicate IsContinuation(b: byte) {
    0x80 <= b < 0xC0
  }

  /** Decodes one character that takes up all of b, accepting only the
      well-formed sequences of the syntax in section 4 of RFC 3629: no
      overlong form, no surrogate, nothing above U+10FFFF. */
  function Decode(b: seq<byte>): Option<int> {
    if |b| == 1 && b[0] < 0x80 then
      Some(b[0] as int)
    else if |b| == 2 && 0xC2 <= b[0] <= 0xDF && IsContinuation(b[1]) then
      Some((b[0] as int - 0xC0) * 0x40 + (b[1] as int - 0x80))
    else if |b| == 3 && 0xE0 <= b[0] <= 0xEF && IsContinuation(b[1]) && IsContinuation(b[2])
            && (b[0] == 0xE0 ==> b[1] >= 0xA0) && (b[0] == 0xED ==> b[1] < 0xA0) then
      Some((b[0] as int - 0xE0) * 0x1000 + (b[1] as int - 0x80) * 0x40 + (b[2] as int - 0x80))
    else if |b| == 4 && 0xF0 <= b[0] <= 0xF4 && IsContinuation(b[1]) && IsContinuation(b[2])
            && IsContinuation(b[3]) && (b[0] == 0xF0 ==> b[1] >= 0x90) && (b[0] == 0xF4 ==> b[1] < 0x90) then
      Some((b[0] as int - 0xF0) * 0x40000 + (b[1] as int - 0x80) * 0x1000
           + (b[2] as int - 0x80) * 0x40 + (b[3] as int - 0x80))
    else
      None
  }

  /** Splitting a number into a quotient and a six-bit remainder. */
  lemma Split64(hi: int, lo: int)
    requires 0 <= lo < 0x40
    ensures (hi * 0x40 + lo) / 0x40 == hi && (hi * 0x40 + lo) % 0x40 == lo
  {
  }

  /** The six-bit groups of c, least significant first, put back together. */
  lemma Digits(c: int)
    requires 0 <= c
    ensures c / 0x1000 == c / 0x40 / 0x40
    ensures c / 0x40000 == c / 0x40 / 0x40 / 0x40
    ensures c == ((c / 0x40000 * 0x40 + c / 0x1000 % 0x40) * 0x40 + c / 0x40 % 0x40) * 0x40 + c % 0x40
  {
    var c1 := c / 0x40;
    var c2 := c1 / 0x40;
    var c3 := c2 / 0x40;
    assert c == c1 * 0x40 + c % 0x40;
    assert c1 == c2 * 0x40 + c1 % 0x40;
    assert c2 == c3 * 0x40 + c2 % 0x40;
  }

  /** Decoding undoes encoding. */
  lemma DecodeEncode(cp: uint32)
    requires IsScalar(cp as int)
    ensures Encode(cp).Some? && Decode(Encode(cp).value) == Some(cp as int)
  {
    var c := cp as int;
    if c < 0x80 {
    } else if c < 0x800 {
      DecodeEncodeTwo(cp);
    } else if c < 0x10000 {
      DecodeEncodeThree(cp);
    } else {
      DecodeEncodeFour(cp);
    }
  }

  lemma DecodeEncodeTwo(cp: uint32)
    requires 0x80 <= cp < 0x800
    ensures Encode(cp).Some? && Decode(Encode(cp).value) == Some(cp as int)
  {
    var c := cp as int;
    assert c == c / 0x40 * 0x40 + c % 0x40;
    assert Encode(cp).value == [(0xC0 + c / 0x40) as byte, (0x80 + c % 0x40) as byte];
  }

  lemma DecodeEncodeThree(cp: uint32)
    requires 0x800 <= cp < 0x10000 && IsScalar(cp as int)
    ensures Encode(cp).Some? && Decode(Encode(cp).value) == Some(cp as int)
  {
    var c := cp as int;
    Digits(c);
    assert Encode(cp).value == [(0xE0 + c / 0x1000) as byte, (0x80 + c / 0x40 % 0x40) as byte, (0x80 + c % 0x40) as byte];
  }

  lemma DecodeEncodeFour(cp: uint32)
    requires 0x10000 <= cp <= 0x10FFFF
    ensures Encode(cp).Some? && Decode(Encode(cp).value) == Some(cp as int)
  {
    var c := cp as int;
    Digits(c);
    assert Encode(cp).value == [(0xF0 + c / 0x40000) as byte, (0x80 + c / 0x1000 % 0x40) as byte,
                                (0x80 + c / 0x40 % 0x40) as byte, (0x80 + c % 0x40) as byte];
  }

  /** Encoding undoes decoding: every well-formed sequence is the encoding
      of the scalar it decodes to, so the two directions pair exactly. */
  lemma EncodeDecode(b: seq<byte>)
    requires Decode(b).Some?
    ensures IsScalar(Decode(b).value)
    ensures Encode(Decode(b).value as uint32) == Some(b)
  {
    if |b| == 1 {
      assert b == [b[0]];
    } else if |b| == 2 {
      EncodeDecodeTwo(b);
    } else if |b| == 3 {
      EncodeDecodeThree(b);
    } else {
      EncodeDecodeFour(b);
    }
  }

  lemma EncodeDecodeTwo(b: seq<byte>)
    requires |b| == 2 && Decode(b).Some?
    ensures IsScalar(Decode(b).value)
    ensures Encode(Decode(b).value as uint32) == Some(b)
  {
    Split64(b[0] as int - 0xC0, b[1] as int - 0x80);
    assert b == [b[0], b[1]];
  }

  lemma EncodeDecodeThree(b: seq<byte>)
    requires |b| == 3 && Decode(b).Some?
    ensures IsScalar(Decode(b).value)
    ensures Encode(Decode(b).value as uint32) == Some(b)
  {
    var c := Decode(b).value;
    var hi := (b[0] as int - 0xE0) * 0x40 + (b[1] as int - 0x80);
    Split64(hi, b[2] as int - 0x80);
    Split64(b[0] as int - 0xE0, b[1] as int - 0x80);
    Digits(c);
    assert b == [b[0], b[1], b[2]];
  }

  lemma EncodeDecodeFour(b: seq<byte>)
    requires |b| == 4 && Decode(b).Some?
    ensures IsScalar(Decode(b).value)
    ensures Encode(Decode(b).value as uint32) == Some(b)
  {
    var c := Decode(b).value;
    var top := (b[0] as int - 0xF0) * 0x40 + (b[1] as int - 0x80);
    var hi := top * 0x40 + (b[2] as int - 0x80);
    Split64(hi, b[3] as int - 0x80);
    Split64(top, b[2] as int - 0x80);
    Split64(b[0] as int - 0xF0, b[1] as int - 0x80);
    Digits(c);
    assert b == [b[0], b[1], b[2], b[3]];
  }
}
