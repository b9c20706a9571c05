/** Base 64 encoding as in section 4 of RFC 4648 (the standard alphabet, with
    `=` padding), which `Buffer.toString('base64')` produces, together with the
    decoder that undoes it. */
module Base64 {
  import opened Types

  /** The character for a 6-bit value (Table 1 of RFC 4648). */
  function DigitChar(v: int): (c: char)
    requires 0 <= v < 64
    ensures DigitValue(c) == Some(v)
  {
    if v < 26 then ('A' as int + v) as char
    else if v < 52 then ('a' as int + (v - 26)) as char
    else if v < 62 then ('0' as int + (v - 52)) as char
    else if v == 62 then '+'
    else '/'
  }

  /** The 6-bit value of an alphabet character; `None` for anything else,
      the pad character `=` included. */
  function DigitValue(c: char): (v: Option<int>)
    ensures v.Some? ==> 0 <= v.value < 64
    ensures c == '=' ==> v.None?
  {
    if 'A' <= c <= 'Z' then Some(c as int - 'A' as int)
    else if 'a' <= c <= 'z' then Some(c as int - 'a' as int + 26)
    else if '0' <= c <= '9' then Some(c as int - '0' as int + 52)
    else if c == '+' then Some(62)
    else if c == '/' then Some(63)
    else None
  }

  /** A character that can occur in an encoding: an alphabet character or `=`. */
  predicate IsEncodingChar(c: char)
  {
    c == '=' || DigitValue(c).Some?
  }

  /** Three bytes (24 bits) as four characters. */
  function EncodeGroup(b0: byte, b1: byte, b2: byte): string
  {
    [DigitChar(b0 / 4), DigitChar(b0 % 4 * 16 + b1 / 16), DigitChar(b1 % 16 * 4 + b2 / 64), DigitChar(b2 % 64)]
  }

  /** The encoding of `bytes`: four characters per started group of three bytes,
      drawn from the alphabet and the pad character only. */
  function Encode(bytes: seq<byte>): (s: string)
    ensures |s| == 4 * ((|bytes| + 2) / 3)
    ensures forall i :: 0 <= i < |s| ==> IsEncodingChar(s[i])
    decreases |bytes|
  {
    if |bytes| == 0 then ""
    else if |bytes| == 1 then
      [DigitChar(bytes[0] / 4), DigitChar(bytes[0] % 4 * 16), '=', '=']
    else if |bytes| == 2 then
      [DigitChar(bytes[0] / 4), DigitChar(bytes[0] % 4 * 16 + bytes[1] / 16), DigitChar(bytes[1] % 16 * 4), '=']
    else
      EncodeGroup(bytes[0], bytes[1], bytes[2]) + Encode(bytes[3..])
  }

  /** One group of four characters: with two pad characters it holds one byte,
      with one it holds two, with none three. */
  function DecodeGroup(q: string): (r: Option<seq<byte>>)
    requires |q| == 4
    ensures r.Some? ==> 1 <= |r.value| <= 3
  {
    var d0, d1, d2, d3 := DigitValue(q[0]), DigitValue(q[1]), DigitValue(q[2]), DigitValue(q[3]);
    if d0.None? || d1.None? then None
    else if q[2] == '=' && q[3] == '=' then
      Some([d0.value * 4 + d1.value / 16])
    else if q[3] == '=' then
      if d2.None? then None
      else Some([d0.value * 4 + d1.value / 16, d1.value % 16 * 16 + d2.value / 4])
    else if d2.None? || d3.None? then None
    else Some([d0.value * 4 + d1.value / 16, d1.value % 16 * 16 + d2.value / 4, d2.value % 4 * 64 + d3.value])
  }

  /** Decoding: `None` unless the string is a sequence of four-character groups
      of which only the last may be padded. */
  function Decode(s: string): (r: Option<seq<byte>>)
    decreases |s|
  {
    if |s| == 0 then Some([])
    else if |s| < 4 then None
    else
      match DecodeGroup(s[..4])
      case None => None
      case Some(group) =>
        if |s| > 4 && |group| < 3 then None
        else
          match Decode(s[4..])
          case None => None
          case Some(rest) => Some(group + rest)
  }

  lemma GroupRoundTrip(b0: byte, b1: byte, b2: byte)
    ensures DecodeGroup(EncodeGroup(b0, b1, b2)) == Some([b0, b1, b2])
  {
    var v1, v2 := b0 % 4 * 16 + b1 / 16, b1 % 16 * 4 + b2 / 64;
    assert v1 / 16 == b0 % 4 && v1 % 16 == b1 / 16;
    assert v2 / 4 == b1 % 16 && v2 % 4 == b2 / 64;
  }

  lemma OneByteRoundTrip(b0: byte)
    ensures Decode(Encode([b0])) == Some([b0])
  {
    var s := Encode([b0]);
    assert (b0 % 4 * 16) / 16 == b0 % 4;
    assert s[..4] == s && s[4..] == [];
    assert DecodeGroup(s) == Some([b0]);
    assert Decode(s[4..]) == Some([]);
    assert [b0] + [] == [b0];
  }

  lemma TwoBytesRoundTrip(b0: byte, b1: byte)
    ensures Decode(Encode([b0, b1])) == Some([b0, b1])
  {
    var s := Encode([b0, b1]);
    var v1, v2 := b0 % 4 * 16 + b1 / 16, b1 % 16 * 4;
    assert v1 / 16 == b0 % 4 && v1 % 16 == b1 / 16;
    assert v2 / 4 == b1 % 16;
    assert s[..4] == s && s[4..] == [];
    assert DecodeGroup(s) == Some([b0, b1]);
    assert Decode(s[4..]) == Some([]);
    assert [b0, b1] + [] == [b0, b1];
  }

  /** Decoding undoes encoding, for every byte sequence. */
  lemma {:induction false} DecodeEncode(bytes: seq<byte>)
    ensures Decode(Encode(bytes)) == Some(bytes)
    decreases |bytes|
  {
    if |bytes| == 1 {
      assert bytes == [bytes[0]];
      OneByteRoundTrip(bytes[0]);
    } else if |bytes| == 2 {
      assert bytes == [bytes[0], bytes[1]];
      TwoBytesRoundTrip(bytes[0], bytes[1]);
    } else if |bytes| >= 3 {
      var group, rest := EncodeGroup(bytes[0], bytes[1], bytes[2]), Encode(bytes[3..]);
      var s := group + rest;
      assert s[..4] == group && s[4..] == rest;
      GroupRoundTrip(bytes[0], bytes[1], bytes[2]);
      DecodeEncode(bytes[3..]);
      assert bytes == [bytes[0], bytes[1], bytes[2]] + bytes[3..];
    }
  }
}
