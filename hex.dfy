/** Go's `encoding/hex`: the info hash is kept as hex text and the peer id
    of a handshake reply is returned as hex text. */
module Hex {
  import opened Base

  /** The lower-case hex digit for d. */
  function HexDigit(d: nat): (c: byte)
    requires d < 16
  {
    if d < 10 then 48 + d else 87 + d
  }

  /** The value of a hex digit of either case, or -1 for any other byte. */
  function DigitValue(c: byte): (d: int)
    ensures -1 <= d < 16
  {
    if 48 <= c <= 57 then c - 48
    else if 97 <= c <= 102 then c - 87
    else if 65 <= c <= 70 then c - 55
    else -1
  }

  /** `hex.EncodeToString`: two lower-case digits per byte, high nibble first. */
  function EncodeToString(b: seq<byte>): (s: seq<byte>)
    ensures |s| == 2 * |b|
  {
    if |b| == 0 then [] else [HexDigit(b[0] / 16), HexDigit(b[0] % 16)] + EncodeToString(b[1..])
  }

  /** `hex.DecodeString`: fails on an odd length or a byte that is not a
      hex digit; otherwise one byte per pair of digits. */
  function DecodeString(s: seq<byte>): (r: Result<seq<byte>>)
    ensures r.Ok? ==> |s| == 2 * |r.value|
    ensures |s| % 2 == 1 ==> r == Err(InvalidHex)
    ensures r.Err? ==> r.error == InvalidHex
  {
    if |s| == 0 then Ok([])
    else if |s| == 1 then Err(InvalidHex)
    else
      var hi, lo := DigitValue(s[0]), DigitValue(s[1]);
      if hi < 0 || lo < 0 then Err(InvalidHex)
      else
        match DecodeString(s[2..])
        case Ok(rest) => Ok([hi * 16 + lo] + rest)
        case Err(e) => Err(e)
  }

  /** Every byte of an encoding is a lower-case hex digit. */
  lemma {:induction false} EncodeIsLowerHex(b: seq<byte>)
    ensures forall i :: 0 <= i < |EncodeToString(b)| ==>
      var c := EncodeToString(b)[i]; 48 <= c <= 57 || 97 <= c <= 102
  {
    if |b| > 0 {
      EncodeIsLowerHex(b[1..]);
      var s := EncodeToString(b);
      assert s[2..] == EncodeToString(b[1..]);
    }
  }

  /** Decoding an encoding gives back the bytes. */
  lemma {:induction false} DecodeEncode(b: seq<byte>)
    ensures DecodeString(EncodeToString(b)) == Ok(b)
  {
    if |b| > 0 {
      var s := EncodeToString(b);
      assert s[2..] == EncodeToString(b[1..]);
      DecodeEncode(b[1..]);
      assert [b[0]] + b[1..] == b;
    }
  }
}
