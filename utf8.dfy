/** UTF-8 (section 3 of RFC 3629): the bytes of a Rust `String`. */
module Utf8 {
  import opened Wrappers
  import opened Bytes

  /** Whether `b` is a continuation byte, 10xxxxxx. */
  predicate IsContinuation(b: byte)
  {
    0x80 <= b < 0xC0
  }

  /** One to four bytes per scalar value; only ASCII takes a single byte. */
  function EncodeChar(c: char): (bs: seq<byte>)
    ensures 1 <= |bs| <= 4
    ensures |bs| == 1 <==> c as int < 0x80
    ensures |bs| > 1 ==> forall i :: 0 <= i < |bs| ==> bs[i] >= 0x80
  {
    var cp := c as int;
    if cp < 0x80 then [cp]
    else if cp < 0x800 then [0xC0 + cp / 64, 0x80 + cp % 64]
    else if cp < 0x1_0000 then [0xE0 + cp / 4096, 0x80 + cp / 64 % 64, 0x80 + cp % 64]
    else [0xF0 + cp / 262144, 0x80 + cp / 4096 % 64, 0x80 + cp / 64 % 64, 0x80 + cp % 64]
  }

  /** The UTF-8 bytes of a string: one to four per character. */
  function Encode(s: string): (bs: seq<byte>)
    ensures |s| <= |bs| <= 4 * |s|
    decreases |s|
  {
    if s == [] then [] else EncodeChar(s[0]) + Encode(s[1..])
  }

  /**
    The first scalar value of `bs` and the number of bytes it takes;
    None for a malformed, overlong or surrogate sequence.
  */
  function DecodeChar(bs: seq<byte>): (r: Option<(char, nat)>)
    requires |bs| > 0
    ensures r.Some? ==> 1 <= r.value.1 <= |bs|
  {
    var b0: int := bs[0];
    if b0 < 0x80 then Some((b0 as char, 1))
    else if 0xC0 <= b0 < 0xE0 && |bs| >= 2 && IsContinuation(bs[1]) then
      var cp := (b0 - 0xC0) * 64 + (bs[1] as int - 0x80);
      if 0x80 <= cp then Some((cp as char, 2)) else None
    else if 0xE0 <= b0 < 0xF0 && |bs| >= 3 && IsContinuation(bs[1]) && IsContinuation(bs[2]) then
      var cp := (b0 - 0xE0) * 4096 + (bs[1] as int - 0x80) * 64 + (bs[2] as int - 0x80);
      if 0x800 <= cp && !(0xD800 <= cp < 0xE000) then Some((cp as char, 3)) else None
    else if 0xF0 <= b0 < 0xF8 && |bs| >= 4 && IsContinuation(bs[1]) && IsContinuation(bs[2]) && IsContinuation(bs[3]) then
      var cp := (b0 - 0xF0) * 262144 + (bs[1] as int - 0x80) * 4096 + (bs[2] as int - 0x80) * 64 + (bs[3] as int - 0x80);
      if 0x1_0000 <= cp < 0x11_0000 then Some((cp as char, 4)) else None
    else None
  }

  /** The string `bs` encodes; None unless it is well-formed UTF-8 throughout. */
  function Decode(bs: seq<byte>): (r: Option<string>)
    ensures r.Some? ==> |r.value| <= |bs|
    ensures bs != [] && r.Some? ==> DecodeChar(bs).Some? && r.value != [] && r.value[0] == DecodeChar(bs).value.0
    decreases |bs|
  {
    if bs == [] then Some("")
    else match DecodeChar(bs)
      case None => None
      case Some((c, n)) =>
        match Decode(bs[n..])
        case None => None
        case Some(rest) => Some([c] + rest)
  }

  /** The decoder reads back one encoded scalar value, whatever follows it. */
  lemma {:induction false} DecodeCharEncodeChar(c: char, bs: seq<byte>)
    requires |bs| >= |EncodeChar(c)| && bs[..|EncodeChar(c)|] == EncodeChar(c)
    ensures DecodeChar(bs) == Some((c, |EncodeChar(c)|))
  {
    var cp := c as int;
    var e := EncodeChar(c);
    assert forall i :: 0 <= i < |e| ==> bs[i] == e[i];
    if cp < 0x80 {
    } else if cp < 0x800 {
      TwoByteArithmetic(cp);
    } else if cp < 0x1_0000 {
      ThreeByteArithmetic(cp);
    } else {
      FourByteArithmetic(cp);
    }
  }

  /** A two-byte encoding gives back the scalar value and leads with a two-byte lead byte. */
  lemma TwoByteArithmetic(cp: int)
    requires 0x80 <= cp < 0x800
    ensures (0xC0 + cp / 64 - 0xC0) * 64 + (0x80 + cp % 64 - 0x80) == cp
    ensures 0xC0 <= 0xC0 + cp / 64 < 0xE0
  {
  }

  /** A three-byte encoding gives back the scalar value and leads with a three-byte lead byte. */
  lemma ThreeByteArithmetic(cp: int)
    requires 0x800 <= cp < 0x1_0000
    ensures (0xE0 + cp / 4096 - 0xE0) * 4096 + (0x80 + cp / 64 % 64 - 0x80) * 64 + (0x80 + cp % 64 - 0x80) == cp
    ensures 0xE0 <= 0xE0 + cp / 4096 < 0xF0
  {
  }

  /** A four-byte encoding gives back the scalar value and leads with a four-byte lead byte. */
  lemma FourByteArithmetic(cp: int)
    requires 0x1_0000 <= cp < 0x11_0000
    ensures (0xF0 + cp / 262144 - 0xF0) * 262144 + (0x80 + cp / 4096 % 64 - 0x80) * 4096
      + (0x80 + cp / 64 % 64 - 0x80) * 64 + (0x80 + cp % 64 - 0x80) == cp
    ensures 0xF0 <= 0xF0 + cp / 262144 < 0xF8
  {
  }

  /** Decoding an encoding gives back the string. */
  lemma {:induction false} DecodeEncode(s: string)
    ensures Decode(Encode(s)) == Some(s)
    decreases |s|
  {
    if s != [] {
      var head := EncodeChar(s[0]);
      var bs := Encode(s);
      assert bs == head + Encode(s[1..]);
      DecodeCharEncodeChar(s[0], bs);
      assert bs[|head|..] == Encode(s[1..]);
      DecodeEncode(s[1..]);
      assert [s[0]] + s[1..] == s;
    }
  }

  /** The scalar value of a two-byte sequence re-encodes to those two bytes. */
  lemma TwoByteInverse(b0: int, b1: int)
    requires 0xC0 <= b0 < 0xE0 && 0x80 <= b1 < 0xC0
    ensures var cp := (b0 - 0xC0) * 64 + (b1 - 0x80);
            cp < 0x800 && 0xC0 + cp / 64 == b0 && 0x80 + cp % 64 == b1
  {
  }

  /** The scalar value of a three-byte sequence re-encodes to those three bytes. */
  lemma ThreeByteInverse(b0: int, b1: int, b2: int)
    requires 0xE0 <= b0 < 0xF0 && 0x80 <= b1 < 0xC0 && 0x80 <= b2 < 0xC0
    ensures var cp := (b0 - 0xE0) * 4096 + (b1 - 0x80) * 64 + (b2 - 0x80);
            cp < 0x1_0000 && 0xE0 + cp / 4096 == b0 && 0x80 + cp / 64 % 64 == b1 && 0x80 + cp % 64 == b2
  {
  }

  /** Splitting q * 64 + r at 64 gives back q and the 6-bit r. */
  lemma DivMod64(q: int, r: int)
    requires 0 <= q && 0 <= r < 64
    ensures (q * 64 + r) / 64 == q && (q * 64 + r) % 64 == r
  {
  }

  /** The scalar value of a four-byte sequence re-encodes to those four bytes. */
  lemma FourByteInverse(b0: int, b1: int, b2: int, b3: int)
    requires 0xF0 <= b0 < 0xF8 && 0x80 <= b1 < 0xC0 && 0x80 <= b2 < 0xC0 && 0x80 <= b3 < 0xC0
    ensures var cp := (b0 - 0xF0) * 262144 + (b1 - 0x80) * 4096 + (b2 - 0x80) * 64 + (b3 - 0x80);
            0xF0 + cp / 262144 == b0 && 0x80 + cp / 4096 % 64 == b1 && 0x80 + cp / 64 % 64 == b2 && 0x80 + cp % 64 == b3
  {
    var q2 := (b0 - 0xF0) * 64 + (b1 - 0x80);
    var q1 := q2 * 64 + (b2 - 0x80);
    var cp := q1 * 64 + (b3 - 0x80);
    assert cp == (b0 - 0xF0) * 262144 + (b1 - 0x80) * 4096 + (b2 - 0x80) * 64 + (b3 - 0x80);
    DivMod64(q1, b3 - 0x80);
    DivMod64(q2, b2 - 0x80);
    DivMod64(b0 - 0xF0, b1 - 0x80);
    assert cp / 4096 == q2 && cp / 262144 == b0 - 0xF0;
  }

  /** The bytes a scalar value is decoded from are exactly its encoding. */
  lemma EncodeCharDecodeChar(bs: seq<byte>)
    requires |bs| > 0 && DecodeChar(bs).Some?
    ensures bs[..DecodeChar(bs).value.1] == EncodeChar(DecodeChar(bs).value.0)
  {
    var b0: int := bs[0];
    if b0 < 0x80 {
      assert bs[..1] == [bs[0]];
    } else if b0 < 0xE0 {
      TwoByteInverse(b0, bs[1]);
      assert bs[..2] == [bs[0], bs[1]];
    } else if b0 < 0xF0 {
      ThreeByteInverse(b0, bs[1], bs[2]);
      assert bs[..3] == [bs[0], bs[1], bs[2]];
    } else {
      FourByteInverse(b0, bs[1], bs[2], bs[3]);
      assert bs[..4] == [bs[0], bs[1], bs[2], bs[3]];
    }
  }

  /**
    The decoder accepts only encoder output: well-formed bytes are the
    encoding of the string they decode to, so no two byte strings decode to the same string.
  */
  lemma {:induction false} EncodeDecode(bs: seq<byte>)
    requires Decode(bs).Some?
    ensures Encode(Decode(bs).value) == bs
    decreases |bs|
  {
    if bs != [] {
      var s := Decode(bs).value;
      var n := DecodeChar(bs).value.1;
      EncodeCharDecodeChar(bs);
      EncodeDecode(bs[n..]);
      assert s[1..] == Decode(bs[n..]).value;
      assert Encode(s) == EncodeChar(s[0]) + Encode(s[1..]);
      assert bs == bs[..n] + bs[n..];
    }
  }
}
