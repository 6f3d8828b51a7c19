/**
 * The bit extractor of the numerical study: a Keccak-256 digest, given as a hex
 * string, becomes a string of 256 binary digits (most significant first) and
 * then a list of 256 integers, each 0 or 1.
 */
module BitExtractor {
  import opened Binary
  import opened Hex
  import opened Results

  /** Width of a digest in bits. */
  const Width: nat := 256

  /**
   * hashToBinary: parse the digest as an unsigned integer, render it in binary
   * and left-pad it with '0' to `Width` characters. A value of more than `Width`
   * bits gets no padding (Python's `'0' * n` is empty for negative n).
   */
  function HashToBinary(hashValue: string): (r: Result<string>)
    ensures r.Ok? <==> ParseHex(hashValue).Ok?
    ensures r.Err? ==> r.failure == ParseHex(hashValue).failure
    ensures r.Ok? ==> IsBitString(r.value) && BinaryValue(r.value) == ParseHex(hashValue).value
  {
    match ParseHex(hashValue)
    case Err(f) => Err(f)
    case Ok(n) => Ok(ZeroPadded(n, Width))
  }

  predicate IsDecimalDigit(c: char)
  {
    '0' <= c <= '9'
  }

  /** `int(c)` on a single decimal digit. */
  function DigitValue(c: char): nat
    requires IsDecimalDigit(c)
  {
    c as nat - '0' as nat
  }

  /**
   * split: `int(char)` for every character, in order. The first character that
   * is not a decimal digit raises `ValueError`, reported here with that character.
   */
  function Split(binaryArray: string): (r: Result<seq<nat>>)
    ensures r.Ok? <==> forall i :: 0 <= i < |binaryArray| ==> IsDecimalDigit(binaryArray[i])
    ensures r.Ok? ==> |r.value| == |binaryArray|
    ensures r.Ok? ==> forall i :: 0 <= i < |binaryArray| ==> r.value[i] == binaryArray[i] as int - '0' as int
    ensures r.Err? ==> exists k :: 0 <= k < |binaryArray| && r.failure == InvalidDigit(binaryArray[k])
                                   && !IsDecimalDigit(binaryArray[k])
                                   && forall j :: 0 <= j < k ==> IsDecimalDigit(binaryArray[j])
  {
    if binaryArray == [] then Ok([])
    else if !IsDecimalDigit(binaryArray[0]) then
      Err(InvalidDigit(binaryArray[0]))
    else
      match Split(binaryArray[1..])
      case Err(f) =>
        ghost var k :| 0 <= k < |binaryArray[1..]| && f == InvalidDigit(binaryArray[1..][k])
                       && !IsDecimalDigit(binaryArray[1..][k])
                       && forall j :: 0 <= j < k ==> IsDecimalDigit(binaryArray[1..][j]);
        assert forall j :: 0 <= j < k + 1 ==> IsDecimalDigit(binaryArray[j]) by {
          forall j | 0 <= j < k + 1 ensures IsDecimalDigit(binaryArray[j]) {
            if j > 0 { assert binaryArray[j] == binaryArray[1..][j - 1]; }
          }
        }
        Err(f)
      case Ok(rest) =>
        Ok([DigitValue(binaryArray[0])] + rest)
  }

  /**
   * helper, from the digest on: the digest's bits as a list of integers. It fails
   * exactly when `int(s, 16)` does, since split never rejects what hashToBinary
   * produces.
   */
  function DigestBits(hashValue: string): (r: Result<seq<nat>>)
    ensures r.Ok? <==> ParseHex(hashValue).Ok?
  {
    match HashToBinary(hashValue)
    case Err(f) => Err(f)
    case Ok(binaryVal) =>
      SplitBitString(binaryVal);
      Split(binaryVal)
  }

  /**
   * The output of hashToBinary has at least `Width` characters, and exactly
   * `Width` if and only if the digest value is below 2^256.
   */
  lemma HashToBinaryWidth(hashValue: string)
    ensures HashToBinary(hashValue).Ok? ==>
              var out := HashToBinary(hashValue).value;
              |out| >= Width && (|out| == Width <==> ParseHex(hashValue).value < Pow2(Width))
  {
    if ParseHex(hashValue).Ok? {
      ToBinaryFits(ParseHex(hashValue).value, Width);
    }
  }

  /**
   * For a digest value v below 2^256, hashToBinary yields the 256-bit numeral of v
   * (whose bits FixedBinaryBits describes: index 0 is the most significant bit, and
   * a zero digest yields 256 zeros).
   */
  lemma HashToBinaryFixedWidth(hashValue: string, v: nat)
    requires ParseHex(hashValue) == Ok(v) && v < Pow2(Width)
    ensures HashToBinary(hashValue) == Ok(FixedBinary(v, Width))
  {
    PaddedBinary(v, Width);
  }

  /**
   * When the digest has exactly 64 hex digits (after an optional "0x"), every
   * group of four output bits is the binary form of the matching hex digit.
   */
  lemma HashToBinaryNibbles(hashValue: string)
    requires IsHexString(DigitsOf(hashValue)) && |DigitsOf(hashValue)| == DigestDigits
    ensures HashToBinary(hashValue) == Ok(NibbleBits(DigitsOf(hashValue)))
    ensures forall i :: 0 <= i < DigestDigits ==>
              HashToBinary(hashValue).value[4 * i .. 4 * i + 4]
              == FixedBinary(HexDigitValue(DigitsOf(hashValue)[i]), 4)
  {
    var digits := DigitsOf(hashValue);
    var v := HexValue(digits);
    assert ParseHex(hashValue) == Ok(v);
    HexValueBound(digits);
    HashToBinaryFixedWidth(hashValue, v);
    NibbleBitsValue(digits);
    BinaryValueInjective(FixedBinary(v, Width), NibbleBits(digits));
    forall i | 0 <= i < DigestDigits
      ensures NibbleBits(digits)[4 * i .. 4 * i + 4] == FixedBinary(HexDigitValue(digits[i]), 4)
    {
      NibbleBitsAt(digits, i);
    }
  }

  /**
   * helper without the hash call, for a digest value v below 2^256: a list of
   * exactly 256 integers where position i is bit 255 - i of v (so every entry
   * is 0 or 1).
   */
  lemma DigestBitsSpec(hashValue: string, v: nat)
    requires ParseHex(hashValue) == Ok(v) && v < Pow2(Width)
    ensures DigestBits(hashValue).Ok? && |DigestBits(hashValue).value| == Width
    ensures forall i :: 0 <= i < Width ==> DigestBits(hashValue).value[i] == BitAt(v, Width - 1 - i)
  {
    SplitPadded(v, Width);
  }

  /** split of `bin(n)[2:]` left-padded to w digits lists the w bits of n, most significant first. */
  lemma SplitPadded(n: nat, w: nat)
    requires 1 <= w && n < Pow2(w)
    ensures var r := Split(ZeroPadded(n, w));
            r.Ok? && |r.value| == w && forall i :: 0 <= i < w ==> r.value[i] == BitAt(n, w - 1 - i)
  {
    PaddedBinary(n, w);
    SplitFixedBinary(n, w);
  }

  /** split of the w-bit numeral of n lists the bits of n, most significant first. */
  lemma SplitFixedBinary(n: nat, w: nat)
    ensures Split(FixedBinary(n, w)).Ok? && |Split(FixedBinary(n, w)).value| == w
    ensures forall i :: 0 <= i < w ==> Split(FixedBinary(n, w)).value[i] == BitAt(n, w - 1 - i)
  {
    SplitBitString(FixedBinary(n, w));
    FixedBinaryBits(n, w);
  }

  /** split of a bit string never fails and turns '0' into 0 and '1' into 1. */
  lemma SplitBitString(s: string)
    requires IsBitString(s)
    ensures Split(s).Ok? && |Split(s).value| == |s|
    ensures forall i :: 0 <= i < |s| ==> Split(s).value[i] == BitValue(s[i])
  {
    assert forall i :: 0 <= i < |s| ==> IsDecimalDigit(s[i]);
  }

  /** The whole pipeline from a rendered digest: `split(hashToBinary(d.hex()))` lists the bits of d. */
  lemma DigestHexBits(v: nat)
    requires v < Pow2(Width)
    ensures DigestBits(DigestHex(v)).Ok?
    ensures |DigestBits(DigestHex(v)).value| == Width
    ensures forall i :: 0 <= i < Width ==> DigestBits(DigestHex(v)).value[i] == BitAt(v, Width - 1 - i)
  {
    DigestHexRoundTrip(v);
    DigestBitsSpec(DigestHex(v), v);
  }
}
