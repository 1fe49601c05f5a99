/** Lowercase hexadecimal text for single bytes, as `hex.EncodeToString` produces it for a
    one-byte slice, together with its inverse. */
module Hex {
  import opened Bytes

  /** The characters `hex.EncodeToString` emits: `0`-`9` and lowercase `a`-`f`. */
  predicate IsHexDigit(c: char) {
    '0' <= c <= '9' || 'a' <= c <= 'f'
  }

  /** The value 0..15 that a lowercase hex digit stands for. */
  function DigitValue(c: char): (n: int)
    requires IsHexDigit(c)
    ensures 0 <= n < 16
    ensures c <= '9' <==> n < 10
  {
    if c <= '9' then c as int - '0' as int else c as int - 'a' as int + 10
  }

  /** The lowercase hex digit for a value 0..15. */
  function Digit(n: int): (c: char)
    requires 0 <= n < 16
    ensures IsHexDigit(c) && DigitValue(c) == n
  {
    if n < 10 then ('0' as int + n) as char else ('a' as int + n - 10) as char
  }

  /** `hex.EncodeToString([]byte{b})`: the high nibble's digit, then the low nibble's. */
  function EncodeByte(b: byte): (s: string)
    ensures |s| == 2 && IsHexDigit(s[0]) && IsHexDigit(s[1])
    ensures 16 * DigitValue(s[0]) + DigitValue(s[1]) == b as int
  {
    [Digit((b / 16) as int), Digit((b % 16) as int)]
  }

  /** Reads back a two-character lowercase hex pair; anything else is refused. */
  function DecodeByte(s: string): (r: Option<byte>)
    ensures r.Some? <==> |s| == 2 && IsHexDigit(s[0]) && IsHexDigit(s[1])
  {
    if |s| == 2 && IsHexDigit(s[0]) && IsHexDigit(s[1]) then
      Some((16 * DigitValue(s[0]) + DigitValue(s[1])) as byte)
    else
      None
  }

  /** A digit is determined by its value. */
  lemma DigitOfValue(c: char)
    requires IsHexDigit(c)
    ensures Digit(DigitValue(c)) == c
  {
  }

  /** Decoding undoes encoding. */
  lemma DecodeEncode(b: byte)
    ensures DecodeByte(EncodeByte(b)) == Some(b)
  {
  }

  /** Encoding undoes decoding: each byte has exactly one lowercase pair. */
  lemma EncodeDecode(s: string, b: byte)
    requires DecodeByte(s) == Some(b)
    ensures EncodeByte(b) == s
  {
    var hi, lo := DigitValue(s[0]), DigitValue(s[1]);
    assert b as int == 16 * hi + lo;
    assert (b / 16) as int == hi && (b % 16) as int == lo;
    DigitOfValue(s[0]);
    DigitOfValue(s[1]);
  }

  /** Two bytes with the same encoding are the same byte. */
  lemma EncodeInjective(a: byte, b: byte)
    requires EncodeByte(a) == EncodeByte(b)
    ensures a == b
  {
    DecodeEncode(a);
    DecodeEncode(b);
  }
}
