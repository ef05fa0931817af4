/**
  Lowercase hexadecimal rendering of a byte string: each byte becomes two characters
  of 0-9a-f, high nibble first (`String(format: "%02x", byte)`, joined with no separator).
  `Decode` is the decoder that reads such a string back.
 */
module Hex {
  import opened Wrappers
  import opened Bytes

  predicate IsLowerHexDigit(c: char) {
    '0' <= c <= '9' || 'a' <= c <= 'f'
  }

  predicate IsLowerHex(s: string) {
    forall k :: 0 <= k < |s| ==> IsLowerHexDigit(s[k])
  }

  function NibbleChar(v: int): (c: char)
    requires 0 <= v < 16
    ensures IsLowerHexDigit(c) && NibbleValue(c) == v
  {
    if v < 10 then ('0' as int + v) as char else ('a' as int + (v - 10)) as char
  }

  function NibbleValue(c: char): (v: int)
    requires IsLowerHexDigit(c)
    ensures 0 <= v < 16
  {
    if c <= '9' then c as int - '0' as int else c as int - 'a' as int + 10
  }

  /** `String(format: "%02x", b)`: always two digits, zero-padded. */
  function ByteToHex(b: uint8): (s: string)
    ensures |s| == 2 && IsLowerHex(s)
    ensures NibbleValue(s[0]) * 16 + NibbleValue(s[1]) == b
  {
    [NibbleChar(b / 16), NibbleChar(b % 16)]
  }

  /** The digit at position `k` of the rendering: the high nibble of a byte, then its low nibble. */
  function DigitAt(bytes: seq<uint8>, k: nat): char
    requires k < 2 * |bytes|
  {
    var b := bytes[k / 2];
    NibbleChar(if k % 2 == 0 then b / 16 else b % 16)
  }

  /** The digest rendered as `digest.map { String(format: "%02x", $0) }.joined()`. */
  function Encode(bytes: seq<uint8>): (s: string)
    ensures |s| == 2 * |bytes|
  {
    seq(2 * |bytes|, (k: int) requires 0 <= k < 2 * |bytes| => DigitAt(bytes, k))
  }

  /** The rendering is the per-byte two-digit renderings joined in order, all lowercase hex. */
  lemma EncodeJoinsBytes(bytes: seq<uint8>)
    ensures IsLowerHex(Encode(bytes))
    ensures |bytes| > 0 ==> Encode(bytes) == ByteToHex(bytes[0]) + Encode(bytes[1..])
  {
  }

  /** Reads an even-length lowercase hex string back into bytes. */
  function Decode(s: string): Option<seq<uint8>>
    decreases |s|
  {
    if |s| == 0 then Some([])
    else if |s| < 2 || !IsLowerHexDigit(s[0]) || !IsLowerHexDigit(s[1]) then None
    else
      match Decode(s[2..])
      case None => None
      case Some(rest) => Some([NibbleValue(s[0]) * 16 + NibbleValue(s[1])] + rest)
  }

  /** Decoding the rendering gives the bytes back. */
  lemma {:induction false} DecodeEncode(bytes: seq<uint8>)
    ensures Decode(Encode(bytes)) == Some(bytes)
  {
    if |bytes| > 0 {
      var s := Encode(bytes);
      EncodeJoinsBytes(bytes);
      EncodeJoinsBytes(bytes[1..]);
      assert s[2..] == Encode(bytes[1..]);
      DecodeEncode(bytes[1..]);
      assert bytes == [bytes[0]] + bytes[1..];
    }
  }

  /** Distinct byte strings render as distinct hex strings. */
  lemma EncodeInjective(a: seq<uint8>, b: seq<uint8>)
    requires a != b
    ensures Encode(a) != Encode(b)
  {
    DecodeEncode(a);
    DecodeEncode(b);
  }
}
