/**
 * Node.js hex codec: `buffer.toString('hex')` (lower-case, two digits per
 * byte) and `Buffer.from(str, 'hex')`, which decodes pairs of digits of either
 * case and stops at the first pair that is not two hex digits, dropping an odd
 * trailing character. The server stores every IV and digest in this form.
 */
module Hex {
  import opened Types

  predicate IsLowerHexDigit(c: char) {
    ('0' <= c <= '9') || ('a' <= c <= 'f')
  }

  /** A string `toString('hex')` can produce. */
  predicate IsLowerHex(s: string) {
    |s| % 2 == 0 && forall i :: 0 <= i < |s| ==> IsLowerHexDigit(s[i])
  }

  function DigitChar(d: nat): (c: char)
    requires d < 16
    ensures IsLowerHexDigit(c)
  {
    if d < 10 then ('0' as int + d) as char else ('a' as int + d - 10) as char
  }

  /** The value of one hex digit, either case; `None` for any other character. */
  function DigitValue(c: char): (r: Option<nat>)
    ensures r.Some? ==> r.value < 16
  {
    if '0' <= c <= '9' then Some(c as int - '0' as int)
    else if 'a' <= c <= 'f' then Some(c as int - 'a' as int + 10)
    else if 'A' <= c <= 'F' then Some(c as int - 'A' as int + 10)
    else None
  }

  function EncodeByte(b: Byte): string {
    [DigitChar(b / 16), DigitChar(b % 16)]
  }

  /** `buffer.toString('hex')`. */
  function Encode(bs: Bytes): (s: string)
    ensures IsLowerHex(s)
    ensures |s| == 2 * |bs|
  {
    if bs == [] then "" else EncodeByte(bs[0]) + Encode(bs[1..])
  }

  /** `Buffer.from(s, 'hex')`. */
  function Decode(s: string): (r: Bytes)
    ensures |r| <= |s| / 2
  {
    if |s| < 2 then []
    else
      match (DigitValue(s[0]), DigitValue(s[1]))
      case (Some(hi), Some(lo)) => [hi * 16 + lo] + Decode(s[2..])
      case _ => []
  }

  /** Decoding inverts encoding, so a stored hex IV yields the IV bytes again. */
  lemma {:induction false} DecodeEncode(bs: Bytes)
    ensures Decode(Encode(bs)) == bs
  {
    if bs != [] {
      var s := Encode(bs);
      var b := bs[0];
      assert s[0] == DigitChar(b / 16) && s[1] == DigitChar(b % 16);
      assert DigitValue(s[0]) == Some(b / 16);
      assert DigitValue(s[1]) == Some(b % 16);
      assert s[2..] == Encode(bs[1..]);
      DecodeEncode(bs[1..]);
    }
  }

  /** Encoding inverts decoding on exactly the strings `toString('hex')` can produce. */
  lemma {:induction false} EncodeDecode(s: string)
    requires IsLowerHex(s)
    ensures Encode(Decode(s)) == s
  {
    if s != [] {
      var hi := DigitValue(s[0]).value;
      var lo := DigitValue(s[1]).value;
      var b: Byte := hi * 16 + lo;
      assert b / 16 == hi && b % 16 == lo;
      assert DigitChar(hi) == s[0];
      assert DigitChar(lo) == s[1];
      assert IsLowerHex(s[2..]);
      EncodeDecode(s[2..]);
      assert s == s[..2] + s[2..];
    }
  }
}
