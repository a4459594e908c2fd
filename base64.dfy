/** Base64 with the standard alphabet and '=' padding (section 4 of RFC 4648). */
module Base64 {
  import opened Wrappers
  import opened Bytes

  /** The alphabet character for a 6-bit value. */
  function Sextet(v: int): (c: char)
    requires 0 <= v < 64
  {
    if v < 26 then (65 + v) as char        // 'A'..'Z'
    else if v < 52 then (97 + v - 26) as char   // 'a'..'z'
    else if v < 62 then (48 + v - 52) as char   // '0'..'9'
    else if v == 62 then '+'
    else '/'
  }

  /** The 6-bit value of an alphabet character; None for any other character. */
  function SextetValue(c: char): (v: Option<int>)
    ensures v.Some? ==> 0 <= v.value < 64 && Sextet(v.value) == c
  {
    if 'A' <= c <= 'Z' then Some(c as int - 65)
    else if 'a' <= c <= 'z' then Some(c as int - 97 + 26)
    else if '0' <= c <= '9' then Some(c as int - 48 + 52)
    else if c == '+' then Some(62)
    else if c == '/' then Some(63)
    else None
  }

  /** Every 6-bit value reads back from its alphabet character. */
  lemma SextetRoundTrip(v: int)
    requires 0 <= v < 64
    ensures SextetValue(Sextet(v)) == Some(v)
  {
  }

  /** Three bytes per four characters; a final group of one or two bytes is padded with '='. */
  function Encode(b: seq<byte>): (s: string)
    ensures |s| == (|b| + 2) / 3 * 4
    decreases |b|
  {
    if |b| == 0 then []
    else if |b| == 1 then
      [Sextet(b[0] / 4), Sextet(b[0] % 4 * 16), '=', '=']
    else if |b| == 2 then
      [Sextet(b[0] / 4), Sextet(b[0] % 4 * 16 + b[1] / 16), Sextet(b[1] % 16 * 4), '=']
    else
      [Sextet(b[0] / 4), Sextet(b[0] % 4 * 16 + b[1] / 16), Sextet(b[1] % 16 * 4 + b[2] / 64), Sextet(b[2] % 64)]
        + Encode(b[3..])
  }

  /**
    Four characters per group; padding may only close the last group, and
    the bits the padding leaves unused must be zero (section 3.5 of RFC 4648).
  */
  function Decode(s: string): (r: Option<seq<byte>>)
    ensures r.Some? ==> |s| % 4 == 0 && 3 * |s| / 4 - 2 <= |r.value| <= 3 * |s| / 4
    decreases |s|
  {
    if s == [] then Some([])
    else if |s| < 4 then None
    else
      var v0, v1 := SextetValue(s[0]), SextetValue(s[1]);
      if v0.None? || v1.None? then None
      else if s[2] == '=' then
        if s[3] == '=' && |s| == 4 && v1.value % 16 == 0 then Some([v0.value * 4 + v1.value / 16]) else None
      else
        var v2 := SextetValue(s[2]);
        if v2.None? then None
        else if s[3] == '=' then
          if |s| == 4 && v2.value % 4 == 0 then Some([v0.value * 4 + v1.value / 16, v1.value % 16 * 16 + v2.value / 4]) else None
        else
          var v3 := SextetValue(s[3]);
          if v3.None? then None
          else match Decode(s[4..])
            case None => None
            case Some(rest) =>
              Some([v0.value * 4 + v1.value / 16, v1.value % 16 * 16 + v2.value / 4, v2.value % 4 * 64 + v3.value] + rest)
  }

  /** The sextets of a full group give back its three bytes. */
  lemma GroupArithmetic(b0: byte, b1: byte, b2: byte)
    ensures var c1 := b0 % 4 * 16 + b1 / 16;
            var c2 := b1 % 16 * 4 + b2 / 64;
            b0 / 4 * 4 + c1 / 16 == b0 && c1 % 16 * 16 + c2 / 4 == b1 && c2 % 4 * 64 + b2 % 64 == b2
  {
  }

  /** A final group of one byte, padded with "==", decodes back. */
  lemma DecodeOneByte(b0: byte)
    ensures Decode(Encode([b0])) == Some([b0])
  {
    GroupArithmetic(b0, 0, 0);
    SextetRoundTrip(b0 / 4);
    SextetRoundTrip(b0 % 4 * 16);
  }

  /** A final group of two bytes, padded with "=", decodes back. */
  lemma DecodeTwoBytes(b0: byte, b1: byte)
    ensures Decode(Encode([b0, b1])) == Some([b0, b1])
  {
    var c0, c1, c2 := b0 / 4, b0 % 4 * 16 + b1 / 16, b1 % 16 * 4;
    GroupArithmetic(b0, b1, 0);
    SextetRoundTrip(c0);
    SextetRoundTrip(c1);
    SextetRoundTrip(c2);
    var s := Encode([b0, b1]);
    assert s == [Sextet(c0), Sextet(c1), Sextet(c2), '='];
    assert s[2] != '=';
  }

  /** Decoding a group of four alphabet characters. */
  lemma {:induction false} DecodeStep(s: string, v0: int, v1: int, v2: int, v3: int)
    requires |s| >= 4
    requires SextetValue(s[0]) == Some(v0) && SextetValue(s[1]) == Some(v1)
    requires SextetValue(s[2]) == Some(v2) && SextetValue(s[3]) == Some(v3)
    ensures Decode(s) ==
      match Decode(s[4..])
      case None => None
      case Some(rest) => Some([v0 * 4 + v1 / 16, v1 % 16 * 16 + v2 / 4, v2 % 4 * 64 + v3] + rest)
  {
    assert s[2] != '=' && s[3] != '=';
  }

  /** A full group of the encoding followed by a decodable rest decodes to the whole input. */
  lemma {:induction false} DecodeFullGroup(b: seq<byte>, s: string)
    requires |b| >= 3 && s == Encode(b)
    requires Decode(Encode(b[3..])) == Some(b[3..])
    ensures Decode(s) == Some(b[..3] + b[3..])
  {
    var c0, c1, c2, c3 := b[0] / 4, b[0] % 4 * 16 + b[1] / 16, b[1] % 16 * 4 + b[2] / 64, b[2] % 64;
    assert s == [Sextet(c0), Sextet(c1), Sextet(c2), Sextet(c3)] + Encode(b[3..]);
    assert s[4..] == Encode(b[3..]);
    SextetRoundTrip(c0);
    SextetRoundTrip(c1);
    SextetRoundTrip(c2);
    SextetRoundTrip(c3);
    DecodeStep(s, c0, c1, c2, c3);
    assert [c0 * 4 + c1 / 16, c1 % 16 * 16 + c2 / 4, c2 % 4 * 64 + c3] == b[..3] by {
      GroupArithmetic(b[0], b[1], b[2]);
    }
  }

  /** Decoding an encoding gives back the bytes. */
  lemma {:induction false} DecodeEncode(b: seq<byte>)
    ensures Decode(Encode(b)) == Some(b)
    decreases |b|
  {
    if |b| == 1 {
      DecodeOneByte(b[0]);
      assert [b[0]] == b;
    } else if |b| == 2 {
      DecodeTwoBytes(b[0], b[1]);
      assert [b[0], b[1]] == b;
    } else if |b| >= 3 {
      DecodeEncode(b[3..]);
      DecodeFullGroup(b, Encode(b));
      assert b[..3] + b[3..] == b;
    }
  }

  /** The bytes a group of four sextets decodes to give back those sextets. */
  lemma SextetArithmetic(v0: int, v1: int, v2: int, v3: int)
    requires 0 <= v0 < 64 && 0 <= v1 < 64 && 0 <= v2 < 64 && 0 <= v3 < 64
    ensures var b0 := v0 * 4 + v1 / 16;
            var b1 := v1 % 16 * 16 + v2 / 4;
            var b2 := v2 % 4 * 64 + v3;
            0 <= b0 < 256 && 0 <= b1 < 256 && 0 <= b2 < 256 &&
            b0 / 4 == v0 && b0 % 4 * 16 + b1 / 16 == v1 &&
            b1 % 16 * 4 + b2 / 64 == v2 && b2 % 64 == v3
  {
  }

  /** A final group padded with "==" is the encoding of the byte it decodes to. */
  lemma EncodeDecodeOneByte(s: string)
    requires |s| == 4 && s[2] == '=' && Decode(s).Some?
    ensures Encode(Decode(s).value) == s
  {
    var v0, v1 := SextetValue(s[0]).value, SextetValue(s[1]).value;
    SextetArithmetic(v0, v1, 0, 0);
    var b0: byte := v0 * 4 + v1 / 16;
    assert Decode(s).value == [b0];
    assert Encode([b0]) == [Sextet(v0), Sextet(v1), '=', '='];
  }

  /** A final group padded with "=" is the encoding of the two bytes it decodes to. */
  lemma EncodeDecodeTwoBytes(s: string)
    requires |s| == 4 && s[2] != '=' && s[3] == '=' && Decode(s).Some?
    ensures Encode(Decode(s).value) == s
  {
    var v0, v1, v2 := SextetValue(s[0]).value, SextetValue(s[1]).value, SextetValue(s[2]).value;
    SextetArithmetic(v0, v1, v2, 0);
    var b0: byte, b1: byte := v0 * 4 + v1 / 16, v1 % 16 * 16 + v2 / 4;
    assert Decode(s).value == [b0, b1];
    assert Encode([b0, b1]) == [Sextet(v0), Sextet(v1), Sextet(v2), '='];
  }

  /** A full group followed by the encoding of the rest is the encoding of all it decodes to. */
  lemma {:induction false} EncodeDecodeFullGroup(s: string)
    requires |s| >= 4 && s[2] != '=' && s[3] != '=' && Decode(s).Some?
    requires Encode(Decode(s[4..]).value) == s[4..]
    ensures Encode(Decode(s).value) == s
  {
    var v0, v1 := SextetValue(s[0]).value, SextetValue(s[1]).value;
    var v2, v3 := SextetValue(s[2]).value, SextetValue(s[3]).value;
    SextetArithmetic(v0, v1, v2, v3);
    var b0: byte, b1: byte, b2: byte := v0 * 4 + v1 / 16, v1 % 16 * 16 + v2 / 4, v2 % 4 * 64 + v3;
    DecodeStep(s, v0, v1, v2, v3);
    var rest := Decode(s[4..]).value;
    var b := [b0, b1, b2] + rest;
    assert Decode(s).value == b;
    assert b[..3] == [b0, b1, b2] && b[3..] == rest;
    assert Encode(b) == [Sextet(v0), Sextet(v1), Sextet(v2), Sextet(v3)] + Encode(rest) by {
      assert b0 / 4 == v0 && b0 % 4 * 16 + b1 / 16 == v1;
      assert b1 % 16 * 4 + b2 / 64 == v2 && b2 % 64 == v3;
    }
    assert s == [s[0], s[1], s[2], s[3]] + s[4..];
  }

  /**
    The decoder accepts only encoder output: a decodable string is the
    encoding of what it decodes to, so no two strings decode to the same bytes.
  */
  lemma {:induction false} EncodeDecode(s: string)
    requires Decode(s).Some?
    ensures Encode(Decode(s).value) == s
    decreases |s|
  {
    if s == [] {
    } else if s[2] == '=' {
      EncodeDecodeOneByte(s);
    } else if s[3] == '=' {
      EncodeDecodeTwoBytes(s);
    } else {
      EncodeDecode(s[4..]);
      EncodeDecodeFullGroup(s);
    }
  }

  /** The test vectors of section 10 of RFC 4648 for "f", "fo" and "foo". */
  lemma KnownAnswers()
    ensures Encode([102]) == "Zg=="
    ensures Encode([102, 111]) == "Zm8="
    ensures Encode([102, 111, 111]) == "Zm9v"
  {
  }

  /** A final group whose unused padding bits are not zero is rejected. */
  lemma NonZeroPadBitsRejected()
    ensures Decode("Oh==") == None
    ensures Decode("Zm9=") == None
  {
  }
}
