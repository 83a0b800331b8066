/** Go's `encoding/hex`: lower-case encoding and case-insensitive decoding. */
module Hex {
  import opened Wrappers

  type byte = x: int | 0 <= x < 256

  predicate IsHexChar(c: char) {
    ('0' <= c <= '9') || ('a' <= c <= 'f') || ('A' <= c <= 'F')
  }

  predicate IsLowerHexChar(c: char) {
    ('0' <= c <= '9') || ('a' <= c <= 'f')
  }

  function HexValue(c: char): (d: nat)
    requires IsHexChar(c)
    ensures d < 16
  {
    if '0' <= c <= '9' then (c as int) - ('0' as int)
    else if 'a' <= c <= 'f' then (c as int) - ('a' as int) + 10
    else (c as int) - ('A' as int) + 10
  }

  /** The lower-case digit `hex.EncodeToString` writes for a nibble. */
  function HexChar(d: nat): (c: char)
    requires d < 16
    ensures IsLowerHexChar(c) && HexValue(c) == d
  {
    if d < 10 then ('0' as int + d) as char else ('a' as int + d - 10) as char
  }

  /** The digit a case-insensitive reader would write back: upper case folded to lower. */
  function ToLower(c: char): char {
    if 'A' <= c <= 'F' then (c as int - 'A' as int + 'a' as int) as char else c
  }

  /** `hex.EncodeToString`: two lower-case digits per byte, high nibble first. */
  function Encode(bs: seq<byte>): (s: string)
    ensures |s| == 2 * |bs|
    ensures forall i :: 0 <= i < |s| ==> IsLowerHexChar(s[i])
  {
    if bs == [] then "" else [HexChar(bs[0] / 16), HexChar(bs[0] % 16)] + Encode(bs[1..])
  }

  /** `hex.InvalidByteError` and `hex.ErrLength`. */
  datatype DecodeError = InvalidByte(c: char) | ErrLength

  /**
   * `hex.DecodeString`: pairs of digits left to right; the first non-digit
   * is reported, and an odd length is reported only when every character
   * is a digit.
   */
  function Decode(s: string): (r: Result<seq<byte>, DecodeError>)
    ensures r.Ok? <==> |s| % 2 == 0 && forall i :: 0 <= i < |s| ==> IsHexChar(s[i])
    ensures r.Ok? ==> 2 * |r.value| == |s|
    ensures r == Err(ErrLength) <==> |s| % 2 == 1 && forall i :: 0 <= i < |s| ==> IsHexChar(s[i])
    ensures r.Err? && r.error.InvalidByte? ==>
      exists k :: 0 <= k < |s| && s[k] == r.error.c && !IsHexChar(s[k]) && forall i :: 0 <= i < k ==> IsHexChar(s[i])
  {
    if s == [] then Ok([])
    else if !IsHexChar(s[0]) then Err(InvalidByte(s[0]))
    else if |s| == 1 then Err(ErrLength)
    else if !IsHexChar(s[1]) then Err(InvalidByte(s[1]))
    else
      match Decode(s[2..])
      case Err(e) =>
        assert forall i :: 2 <= i < |s| ==> s[i] == s[2..][i - 2];
        Err(e)
      case Ok(rest) =>
        assert forall i :: 2 <= i < |s| ==> s[i] == s[2..][i - 2];
        Ok([HexValue(s[0]) * 16 + HexValue(s[1])] + rest)
  }

  /** Decoding what `Encode` wrote gives back the bytes. */
  lemma {:induction false} DecodeEncode(bs: seq<byte>)
    ensures Decode(Encode(bs)) == Ok(bs)
  {
    if bs != [] {
      var s := Encode(bs);
      assert s[2..] == Encode(bs[1..]);
      DecodeEncode(bs[1..]);
      assert HexValue(s[0]) * 16 + HexValue(s[1]) == bs[0];
      assert bs == [bs[0]] + bs[1..];
    }
  }

  /** Encoding what `Decode` accepted gives back its input in lower case. */
  lemma {:induction false} EncodeDecode(s: string)
    requires Decode(s).Ok?
    ensures Encode(Decode(s).value) == seq(|s|, i requires 0 <= i < |s| => ToLower(s[i]))
  {
    if s != [] {
      var bs := Decode(s).value;
      assert bs[1..] == Decode(s[2..]).value;
      EncodeDecode(s[2..]);
      var b := bs[0];
      assert b == HexValue(s[0]) * 16 + HexValue(s[1]);
      assert b / 16 == HexValue(s[0]) && b % 16 == HexValue(s[1]);
    }
  }
}
