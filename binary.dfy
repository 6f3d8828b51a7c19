/**
 * Binary numerals as Python's `bin` renders them (without the "0b"), fixed-width
 * bit strings, and the value of a bit string read most significant bit first.
 */
module Binary {

  /** 2 to the power k. */
  function Pow2(k: nat): (p: nat)
    ensures p >= 1
  {
    if k == 0 then 1 else 2 * Pow2(k - 1)
  }

  lemma {:induction false} Pow2Monotone(j: nat, k: nat)
    requires j <= k
    ensures Pow2(j) <= Pow2(k)
  {
    if j < k {
      Pow2Monotone(j, k - 1);
    }
  }

  /** Bit k of n, counting from the least significant bit (bit 0). */
  function BitAt(n: nat, k: nat): (b: nat)
    ensures b <= 1
  {
    if k == 0 then n % 2 else BitAt(n / 2, k - 1)
  }

  /** The digit character of a bit. */
  function BitChar(b: nat): char
    requires b <= 1
  {
    if b == 0 then '0' else '1'
  }

  /** The bit a character stands for: '1' is one, every other character zero. */
  function BitValue(c: char): nat
  {
    if c == '1' then 1 else 0
  }

  predicate IsBitString(s: string)
  {
    forall i :: 0 <= i < |s| ==> s[i] == '0' || s[i] == '1'
  }

  /** The value of s read as a binary numeral; index 0 is the most significant bit. */
  function BinaryValue(s: string): nat
  {
    if s == [] then 0 else 2 * BinaryValue(s[..|s| - 1]) + BitValue(s[|s| - 1])
  }

  /** Python's `'0' * n`: n zeros, and the empty string when n is not positive. */
  function Zeros(n: int): (z: string)
    ensures |z| == if n > 0 then n else 0
    ensures forall i :: 0 <= i < |z| ==> z[i] == '0'
  {
    if n <= 0 then [] else Zeros(n - 1) + ['0']
  }

  /**
   * `bin(n)[2:]`: the shortest binary numeral of n. It denotes n, and it starts
   * with '1' unless n is zero, whose numeral is "0".
   */
  function ToBinary(n: nat): (s: string)
    ensures IsBitString(s) && BinaryValue(s) == n
    ensures |s| >= 1 && (s[0] == '1' <==> n > 0)
    ensures n < 2 ==> |s| == 1
  {
    if n < 2 then [BitChar(n)]
    else
      var high := ToBinary(n / 2);
      var s := high + [BitChar(n % 2)];
      assert s[..|s| - 1] == high;
      s
  }

  /**
   * `bin(n)[2:]` left-padded with '0' to w characters, and left as it is when it
   * is already longer: a bit string of at least w characters that still denotes n.
   */
  function ZeroPadded(n: nat, w: nat): (z: string)
    ensures |z| == if |ToBinary(n)| < w then w else |ToBinary(n)|
    ensures IsBitString(z) && BinaryValue(z) == n
  {
    var tmp := ToBinary(n);
    PaddedBitString(w - |tmp|, tmp);
    ZeroPaddingKeepsValue(w - |tmp|, tmp);
    Zeros(w - |tmp|) + tmp
  }

  /** The w-bit numeral of n, most significant bit first; it denotes n when n fits in w bits. */
  function FixedBinary(n: nat, w: nat): (s: string)
    ensures |s| == w && IsBitString(s)
    ensures n < Pow2(w) ==> BinaryValue(s) == n
  {
    if w == 0 then []
    else
      var high := FixedBinary(n / 2, w - 1);
      var s := high + [BitChar(n % 2)];
      assert s[..|s| - 1] == high;
      s
  }

  /** Position i of the w-bit numeral of n holds bit w - 1 - i of n. */
  lemma {:induction false} FixedBinaryAt(n: nat, w: nat, i: nat)
    requires i < w
    ensures FixedBinary(n, w)[i] == BitChar(BitAt(n, w - 1 - i))
  {
    if i < w - 1 {
      FixedBinaryAt(n / 2, w - 1, i);
    }
  }

  /** Position i of the w-bit numeral of n holds bit w - 1 - i of n; for zero, every position holds '0'. */
  lemma FixedBinaryBits(n: nat, w: nat)
    ensures forall i :: 0 <= i < w ==> FixedBinary(n, w)[i] == BitChar(BitAt(n, w - 1 - i))
    ensures n == 0 ==> forall i :: 0 <= i < w ==> FixedBinary(n, w)[i] == '0'
  {
    forall i | 0 <= i < w ensures FixedBinary(n, w)[i] == BitChar(BitAt(n, w - 1 - i)) {
      FixedBinaryAt(n, w, i);
      if n == 0 {
        BitAtZero(w - 1 - i);
      }
    }
  }

  /** Every bit of zero is 0. */
  lemma {:induction false} BitAtZero(k: nat)
    ensures BitAt(0, k) == 0
  {
    if k > 0 {
      BitAtZero(k - 1);
    }
  }

  /** A numeral of k digits denotes less than 2^k. */
  lemma {:induction false} BinaryValueBelowPow2(s: string)
    ensures BinaryValue(s) < Pow2(|s|)
  {
    if s != [] {
      BinaryValueBelowPow2(s[..|s| - 1]);
    }
  }

  /** A numeral of k digits whose first digit is '1' denotes at least 2^(k-1). */
  lemma {:induction false} BinaryValueLeadingOne(s: string)
    requires |s| >= 1 && s[0] == '1'
    ensures BinaryValue(s) >= Pow2(|s| - 1)
  {
    if |s| > 1 {
      BinaryValueLeadingOne(s[..|s| - 1]);
    }
  }

  /** `bin(n)[2:]` has at most k digits exactly when n is below 2^k. */
  lemma ToBinaryFits(n: nat, k: nat)
    requires k >= 1
    ensures |ToBinary(n)| <= k <==> n < Pow2(k)
  {
    var s := ToBinary(n);
    BinaryValueBelowPow2(s);
    if |s| <= k {
      Pow2Monotone(|s|, k);
    } else {
      BinaryValueLeadingOne(s);
      Pow2Monotone(k, |s| - 1);
    }
  }

  lemma {:induction false} AllZerosValue(z: string)
    requires forall i :: 0 <= i < |z| ==> z[i] == '0'
    ensures BinaryValue(z) == 0
  {
    if z != [] {
      AllZerosValue(z[..|z| - 1]);
    }
  }

  /** Leading zeros do not change the value of a numeral. */
  lemma {:induction false} ZeroPaddingKeepsValue(n: int, s: string)
    ensures BinaryValue(Zeros(n) + s) == BinaryValue(s)
  {
    if s == [] {
      assert Zeros(n) + s == Zeros(n);
      AllZerosValue(Zeros(n));
    } else {
      var t := Zeros(n) + s;
      assert t[..|t| - 1] == Zeros(n) + s[..|s| - 1];
      ZeroPaddingKeepsValue(n, s[..|s| - 1]);
    }
  }

  /** Appending b to a numeral shifts it left by |b| digits and adds b. */
  lemma {:induction false} BinaryValueConcat(a: string, b: string)
    ensures BinaryValue(a + b) == BinaryValue(a) * Pow2(|b|) + BinaryValue(b)
  {
    if b == [] {
      assert a + b == a;
    } else {
      var b' := b[..|b| - 1];
      var t := a + b;
      assert t[..|t| - 1] == a + b';
      BinaryValueConcat(a, b');
      var x, p, y := BinaryValue(a), Pow2(|b'|), BinaryValue(b');
      assert BinaryValue(t) == 2 * (x * p + y) + BitValue(b[|b| - 1]);
      assert Pow2(|b|) == 2 * p;
      assert 2 * (x * p) == x * (2 * p);
    }
  }

  /**
   * Left-padding `bin(n)[2:]` with zeros to w characters gives the w-bit numeral
   * of n whenever n fits in w bits.
   */
  lemma PaddedBinary(n: nat, w: nat)
    requires 1 <= w && n < Pow2(w)
    ensures ZeroPadded(n, w) == FixedBinary(n, w)
  {
    ToBinaryFits(n, w);
    BinaryValueInjective(ZeroPadded(n, w), FixedBinary(n, w));
  }

  /** Zero padding keeps a bit string a bit string. */
  lemma PaddedBitString(k: int, t: string)
    requires IsBitString(t)
    ensures IsBitString(Zeros(k) + t)
  {
    var z := Zeros(k);
    forall i | 0 <= i < |z + t| ensures (z + t)[i] == '0' || (z + t)[i] == '1' {
      if i >= |z| {
        assert (z + t)[i] == t[i - |z|];
      }
    }
  }

  /** Two bit strings of the same width that denote the same value are the same string. */
  lemma {:induction false} BinaryValueInjective(a: string, b: string)
    requires IsBitString(a) && IsBitString(b) && |a| == |b|
    requires BinaryValue(a) == BinaryValue(b)
    ensures a == b
  {
    if a != [] {
      var a', b' := a[..|a| - 1], b[..|b| - 1];
      assert BitValue(a[|a| - 1]) == BitValue(b[|b| - 1]);
      BinaryValueInjective(a', b');
      assert a == a' + [a[|a| - 1]];
      assert b == b' + [b[|b| - 1]];
    }
  }
}
