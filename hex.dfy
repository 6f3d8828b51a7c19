/**
 * Hexadecimal digest strings: Python's `int(s, 16)` on the digest, the
 * "0x" + 64 lower-case digits form in which the digest arrives, and the
 * four-bits-per-digit reading of a hex numeral.
 */
module Hex {
  import opened Binary
  import opened Results

  /** Number of hex digits in a 256-bit digest. */
  const DigestDigits: nat := 64

  predicate IsHexDigit(c: char)
  {
    '0' <= c <= '9' || 'a' <= c <= 'f' || 'A' <= c <= 'F'
  }

  function HexDigitValue(c: char): (d: nat)
    requires IsHexDigit(c)
    ensures d < 16
  {
    if '0' <= c <= '9' then c as nat - '0' as nat
    else if 'a' <= c <= 'f' then c as nat - 'a' as nat + 10
    else c as nat - 'A' as nat + 10
  }

  predicate IsHexString(s: string)
  {
    forall i :: 0 <= i < |s| ==> IsHexDigit(s[i])
  }

  /** The value of a hex numeral; index 0 is the most significant digit. */
  function HexValue(s: string): nat
    requires IsHexString(s)
  {
    if s == [] then 0 else 16 * HexValue(s[..|s| - 1]) + HexDigitValue(s[|s| - 1])
  }

  /** The digits of s after an optional "0x" or "0X" base prefix. */
  function DigitsOf(s: string): string
  {
    if |s| >= 2 && s[0] == '0' && (s[1] == 'x' || s[1] == 'X') then s[2..] else s
  }

  /**
   * `int(s, 16)`: an optional base prefix followed by at least one hex digit in
   * either case; anything else raises `ValueError`. The value fits in four
   * bits per digit.
   */
  function ParseHex(s: string): (r: Result<nat>)
    ensures r.Ok? ==> r.value < Pow2(4 * |DigitsOf(s)|)
  {
    var digits := DigitsOf(s);
    if digits != [] && IsHexString(digits) then
      HexValueBound(digits);
      Ok(HexValue(digits))
    else
      Err(InvalidLiteral)
  }

  lemma Pow2Nibble(k: nat)
    ensures Pow2(k + 4) == 16 * Pow2(k)
  {
    assert Pow2(k + 4) == 2 * Pow2(k + 3) == 4 * Pow2(k + 2) == 8 * Pow2(k + 1);
  }

  /** A hex numeral of k digits denotes less than 2^(4k). */
  lemma {:induction false} HexValueBound(s: string)
    requires IsHexString(s)
    ensures HexValue(s) < Pow2(4 * |s|)
  {
    if s != [] {
      var s' := s[..|s| - 1];
      HexValueBound(s');
      Pow2Nibble(4 * |s'|);
    }
  }

  /** The lower-case digit character of a hex digit value. */
  function HexChar(d: nat): char
    requires d < 16
  {
    if d < 10 then ('0' as nat + d) as char else ('a' as nat + d - 10) as char
  }

  /** The w-digit lower-case hex numeral of n; it denotes n when n fits in 4w bits. */
  function FixedHex(n: nat, w: nat): (s: string)
    ensures |s| == w && IsHexString(s)
    ensures forall i :: 0 <= i < |s| ==> !('A' <= s[i] <= 'F') && s[i] != 'x' && s[i] != 'X'
    ensures n < Pow2(4 * w) ==> HexValue(s) == n
  {
    if w == 0 then []
    else
      var high := FixedHex(n / 16, w - 1);
      var s := high + [HexChar(n % 16)];
      assert s[..|s| - 1] == high;
      Pow2Nibble(4 * (w - 1));
      s
  }

  /** A 256-bit digest as `.hex()` renders it: "0x" and 64 lower-case hex digits. */
  function DigestHex(v: nat): (s: string)
    requires v < Pow2(4 * DigestDigits)
    ensures |s| == 2 + DigestDigits && s[..2] == "0x"
    ensures IsHexString(s[2..]) && forall i :: 2 <= i < |s| ==> !('A' <= s[i] <= 'F')
    ensures HexValue(s[2..]) == v
  {
    "0x" + FixedHex(v, DigestDigits)
  }

  /** Parsing a rendered digest, with or without its prefix, gives back the digest value. */
  lemma DigestHexRoundTrip(v: nat)
    requires v < Pow2(4 * DigestDigits)
    ensures ParseHex(DigestHex(v)) == Ok(v)
    ensures ParseHex(FixedHex(v, DigestDigits)) == Ok(v)
  {
    var h := FixedHex(v, DigestDigits);
    assert DigitsOf("0x" + h) == h;
    assert DigitsOf(h) == h;
  }

  /** Each hex digit of s written out as four bits, most significant first. */
  function NibbleBits(s: string): (b: string)
    requires IsHexString(s)
    ensures |b| == 4 * |s| && IsBitString(b)
  {
    if s == [] then [] else NibbleBits(s[..|s| - 1]) + FixedBinary(HexDigitValue(s[|s| - 1]), 4)
  }

  /** Reading the nibbles as one binary numeral gives the value of the hex numeral. */
  lemma {:induction false} NibbleBitsValue(s: string)
    requires IsHexString(s)
    ensures BinaryValue(NibbleBits(s)) == HexValue(s)
  {
    if s != [] {
      var s' := s[..|s| - 1];
      var d := HexDigitValue(s[|s| - 1]);
      var high, low := NibbleBits(s'), FixedBinary(d, 4);
      NibbleBitsValue(s');
      BinaryValueConcat(high, low);
      var x, p := BinaryValue(high), Pow2(4);
      assert p == 16 && x == HexValue(s');
      assert BinaryValue(low) == d;
      assert x * p == 16 * x;
    }
  }

  /** Bits 4i to 4i+3 of NibbleBits(s) are the four bits of hex digit i. */
  lemma {:induction false} NibbleBitsAt(s: string, i: nat)
    requires IsHexString(s) && i < |s|
    ensures NibbleBits(s)[4 * i .. 4 * i + 4] == FixedBinary(HexDigitValue(s[i]), 4)
  {
    var s' := s[..|s| - 1];
    var high := NibbleBits(s');
    var low := FixedBinary(HexDigitValue(s[|s| - 1]), 4);
    assert NibbleBits(s) == high + low;
    assert |high| == 4 * (|s| - 1) && |low| == 4;
    if i < |s| - 1 {
      NibbleBitsAt(s', i);
      assert (high + low)[4 * i .. 4 * i + 4] == high[4 * i .. 4 * i + 4];
    } else {
      assert (high + low)[4 * i .. 4 * i + 4] == low;
    }
  }
}
