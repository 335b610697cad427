/** `Buffer.prototype.toString('hex')`: Base16 encoding (section 8 of RFC 4648)
    with lower-case digits, and its decoder. */
module Hex {
  import opened Wrappers

  type byte = x: int | 0 <= x < 256

  /** The lower-case digit for a nibble: `0`-`9`, then `a`-`f`. */
  function Digit(n: nat): char
    requires n < 16
  {
    if n < 10 then ('0' as int + n) as char else ('a' as int + n - 10) as char
  }

  predicate IsDigit(c: char)
  {
    '0' <= c <= '9' || 'a' <= c <= 'f'
  }

  /** The value of one lower-case hex digit. */
  function DigitValue(c: char): (v: Option<nat>)
    ensures v.Some? <==> IsDigit(c)
    ensures v.Some? ==> v.value < 16 && Digit(v.value) == c
  {
    if '0' <= c <= '9' then Some(c as int - '0' as int)
    else if 'a' <= c <= 'f' then Some(c as int - 'a' as int + 10)
    else None
  }

  /** Two digits per byte, high nibble first. */
  function Encode(bytes: seq<byte>): (r: string)
    ensures |r| == 2 * |bytes|
    ensures forall i :: 0 <= i < |r| ==> IsDigit(r[i])
  {
    if bytes == [] then ""
    else [Digit(bytes[0] / 16), Digit(bytes[0] % 16)] + Encode(bytes[1..])
  }

  /** Reads pairs of digits back into bytes; `None` on an odd length or a non-digit. */
  function Decode(s: string): Option<seq<byte>>
    decreases |s|
  {
    if s == [] then Some([])
    else if |s| == 1 then None
    else
      var hi := DigitValue(s[0]);
      var lo := DigitValue(s[1]);
      var rest := Decode(s[2..]);
      if hi.Some? && lo.Some? && rest.Some? then Some([hi.value * 16 + lo.value] + rest.value)
      else None
  }

  /** Reading back a digit gives the nibble it was written from. */
  lemma DigitRoundTrip(n: nat)
    requires n < 16
    ensures DigitValue(Digit(n)) == Some(n)
  {
  }

  /** Decoding two digits in front of any text. */
  lemma DecodeDigits(hi: nat, lo: nat, t: string)
    requires hi < 16 && lo < 16
    ensures Decode([Digit(hi), Digit(lo)] + t)
            == if Decode(t).Some? then Some([hi * 16 + lo] + Decode(t).value) else None
  {
    var s := [Digit(hi), Digit(lo)] + t;
    assert s[0] == Digit(hi) && s[1] == Digit(lo) && s[2..] == t;
    DigitRoundTrip(hi);
    DigitRoundTrip(lo);
  }

  /** Decoding one encoded byte in front of any text. */
  lemma DecodeByte(b: byte, t: string)
    ensures Decode([Digit(b / 16), Digit(b % 16)] + t)
            == if Decode(t).Some? then Some([b] + Decode(t).value) else None
  {
    DecodeDigits(b / 16, b % 16, t);
    assert (b / 16) * 16 + b % 16 == b;
  }

  /** Decoding inverts encoding. */
  lemma {:induction false} DecodeEncode(bytes: seq<byte>)
    ensures Decode(Encode(bytes)) == Some(bytes)
  {
    if bytes != [] {
      DecodeEncode(bytes[1..]);
      DecodeByte(bytes[0], Encode(bytes[1..]));
      assert bytes == [bytes[0]] + bytes[1..];
    }
  }

  /** Two byte strings have the same hex text exactly when they are equal. */
  lemma EncodeInjective(a: seq<byte>, b: seq<byte>)
    ensures Encode(a) == Encode(b) <==> a == b
  {
    if Encode(a) == Encode(b) {
      DecodeEncode(a);
      DecodeEncode(b);
    }
  }
}
