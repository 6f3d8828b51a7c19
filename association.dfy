/**
 * Pairwise association coefficients between two bit columns of the sample
 * matrix: Rogers-Tanimoto, Sokal-Michener and the integer part of the
 * phi-style Correlation (the four contingency counts and the numerator).
 * Vectors hold 0/1 integers, as `split` produces them; numpy's elementwise
 * `^`, `&` and the script's `0 if x else 1` become BitXor, BitAnd and BitNot.
 */
module Association {
  import opened Results

  type Bit = b: nat | b <= 1

  function BitXor(a: Bit, b: Bit): Bit
  {
    if a == b then 0 else 1
  }

  function BitAnd(a: Bit, b: Bit): Bit
  {
    if a == 1 && b == 1 then 1 else 0
  }

  /** The script's `lambda x: 0 if x else 1`. */
  function BitNot(a: Bit): Bit
  {
    if a == 1 then 0 else 1
  }

  /** Elementwise `x1 ^ x2`: 1 exactly where the two vectors differ. */
  function Xor(x1: seq<Bit>, x2: seq<Bit>): (x3: seq<Bit>)
    requires |x1| == |x2|
    ensures |x3| == |x1|
    ensures forall i :: 0 <= i < |x1| ==> (x3[i] == 1 <==> x1[i] != x2[i])
  {
    seq(|x1|, i requires 0 <= i < |x1| => BitXor(x1[i], x2[i]))
  }

  /** Elementwise `x1 & x2`: 1 exactly where both vectors hold 1. */
  function And(x1: seq<Bit>, x2: seq<Bit>): (y: seq<Bit>)
    requires |x1| == |x2|
    ensures |y| == |x1|
    ensures forall i :: 0 <= i < |x1| ==> (y[i] == 1 <==> x1[i] == 1 && x2[i] == 1)
  {
    seq(|x1|, i requires 0 <= i < |x1| => BitAnd(x1[i], x2[i]))
  }

  /** `map(lambda x: 0 if x else 1, x)`: the complement of a vector. */
  function Not(x: seq<Bit>): (y: seq<Bit>)
    ensures |y| == |x|
    ensures forall i :: 0 <= i < |x| ==> y[i] as int + x[i] == 1
  {
    seq(|x|, i requires 0 <= i < |x| => BitNot(x[i]))
  }

  /** `np.sum` of a 0/1 vector: the number of ones, so never more than the length. */
  function Sum(x: seq<Bit>): (n: nat)
    ensures n <= |x|
  {
    if x == [] then 0 else Sum(x[..|x| - 1]) + x[|x| - 1]
  }

  predicate Uniform(x: seq<Bit>, b: Bit)
  {
    forall i :: 0 <= i < |x| ==> x[i] == b
  }

  /** Summing two vectors position by position sums their counts. */
  lemma {:induction false} SumPointwise(a: seq<Bit>, b: seq<Bit>, c: seq<Bit>)
    requires |a| == |b| == |c|
    requires forall i :: 0 <= i < |c| ==> a[i] as int + b[i] == c[i]
    ensures Sum(a) + Sum(b) == Sum(c)
  {
    if c != [] {
      SumPointwise(a[..|a| - 1], b[..|b| - 1], c[..|c| - 1]);
    }
  }

  /** Two vectors with exactly one 1 at each position have counts summing to the length. */
  lemma {:induction false} SumComplementary(a: seq<Bit>, b: seq<Bit>)
    requires |a| == |b|
    requires forall i :: 0 <= i < |a| ==> a[i] as int + b[i] == 1
    ensures Sum(a) + Sum(b) == |a|
  {
    if a != [] {
      SumComplementary(a[..|a| - 1], b[..|b| - 1]);
    }
  }

  /** The count is zero exactly when every entry is zero. */
  lemma {:induction false} SumZero(a: seq<Bit>)
    ensures Sum(a) == 0 <==> Uniform(a, 0)
  {
    if a != [] {
      SumZero(a[..|a| - 1]);
    }
  }

  /** The count equals the length exactly when every entry is one. */
  lemma SumFull(a: seq<Bit>)
    ensures Sum(a) == |a| <==> Uniform(a, 1)
  {
    SumComplementary(a, Not(a));
    SumZero(Not(a));
    if Uniform(Not(a), 0) {
      forall i | 0 <= i < |a| ensures a[i] == 1 {
        assert Not(a)[i] == 0;
      }
    }
  }

  /**
   * The exact quotient num / den; the script's float64 value is its correctly
   * rounded form, which keeps the bounds and the exact 0 and 1 cases below.
   * den == 0 is numpy's 0/0, a NaN.
   */
  datatype Ratio = Ratio(num: nat, den: nat) {
    predicate Defined()
    {
      den > 0
    }

    function Value(): (v: real)
      requires Defined()
      ensures 0.0 <= v
      ensures num <= den ==> v <= 1.0
      ensures v == 1.0 <==> num == den
      ensures v == 0.0 <==> num == 0
    {
      num as real / den as real
    }
  }

  /**
   * RogersTanmoto: the number of agreeing positions over the length plus the
   * number of disagreeing positions. Agreements and disagreements make up the
   * length; the quotient is defined (not NaN) exactly for non-empty vectors.
   */
  function RogersTanmoto(x1: seq<Bit>, x2: seq<Bit>): (r: Ratio)
    requires |x1| == |x2|
    ensures r.num <= |x1| && r.den == |x1| + (|x1| - r.num)
    ensures r.num <= r.den
    ensures r.Defined() <==> |x1| > 0
  {
    var x3 := Xor(x1, x2);
    SumComplementary(Not(x3), x3);
    Ratio(Sum(Not(x3)), |x1| + Sum(x3))
  }

  /**
   * SokalMichener: (S11 + S00) / length, where S11 counts positions where both
   * vectors hold 1 and S00 positions where both hold 0. On empty vectors the
   * complement `f(x)` is `np.array([])`, a float64 array, and `&` raises a
   * TypeError before any division; otherwise the quotient is defined.
   */
  function SokalMichener(x1: seq<Bit>, x2: seq<Bit>): (r: Result<Ratio>)
    requires |x1| == |x2|
    ensures r.Err? <==> |x1| == 0
    ensures r.Err? ==> r.failure == UnsupportedOperand
    ensures r.Ok? ==> r.value.den == |x1| && r.value.num <= r.value.den && r.value.Defined()
  {
    if |x1| == 0 then Err(UnsupportedOperand)
    else
      var s11 := Sum(And(x1, x2));
      var s00 := Sum(And(Not(x1), Not(x2)));
      Agreements(x1, x2);
      Ok(Ratio(s11 + s00, |x1|))
  }

  /** S11 + S00 is the number of positions where the complement of `x1 ^ x2` is 1. */
  lemma Agreements(x1: seq<Bit>, x2: seq<Bit>)
    requires |x1| == |x2|
    ensures Sum(And(x1, x2)) + Sum(And(Not(x1), Not(x2))) == Sum(Not(Xor(x1, x2)))
    ensures Sum(Not(Xor(x1, x2))) <= |x1|
  {
    SumPointwise(And(x1, x2), And(Not(x1), Not(x2)), Not(Xor(x1, x2)));
    SumComplementary(Not(Xor(x1, x2)), Xor(x1, x2));
  }

  /**
   * The 2x2 contingency table of Correlation: S11, S00, S10 and S01, with the
   * numerator `S11*S00 - S10*S01` and the square of sigma.
   */
  datatype Contingency = Contingency(s11: nat, s00: nat, s10: nat, s01: nat) {
    function Numerator(): int
    {
      s11 * s00 - s10 * s01
    }

    /**
     * sigma is `sqrt((S10+S11)*(S01+S00)) * sqrt((S11+S01)*(S00+S10))`, the square
     * root of this product.
     */
    function SigmaSquared(): nat
    {
      ((s10 + s11) * (s01 + s00)) * ((s11 + s01) * (s00 + s10))
    }

    /** Correlation divides by sigma, which is zero exactly when this fails. */
    predicate Defined()
    {
      SigmaSquared() > 0
    }

    /** The square of `num / sigma` in exact arithmetic; it lies in [0, 1]. */
    function CoefficientSquared(): (q: real)
      requires Defined()
      ensures 0.0 <= q <= 1.0
    {
      NumeratorBound(this);
      var n, d := Numerator() * Numerator(), SigmaSquared();
      assert 0 <= n <= d;
      n as real / d as real
    }
  }

  /** Multiplication of naturals is monotone in both factors. */
  lemma MulMonotone(x: nat, y: nat, x': nat, y': nat)
    requires x <= x' && y <= y'
    ensures x * y <= x' * y'
  {
    assert x * y <= x' * y by {
      assert (x' - x) * y >= 0;
    }
    assert x' * y <= x' * y' by {
      assert x' * (y' - y) >= 0;
    }
  }

  lemma NegatedSquare(x: int)
    ensures (-x) * (-x) == x * x
  {
  }

  /**
   * The numerator never exceeds sigma in absolute value, so in exact arithmetic
   * the coefficient lies in [-1, 1]. When num >= 0 it is at most S11*S00, and each factor of sigma^2
   * is at least S11*S00; when num < 0 the same holds with S10*S01.
   */
  lemma NumeratorBound(c: Contingency)
    ensures c.Numerator() * c.Numerator() <= c.SigmaSquared()
  {
    var num := c.Numerator();
    var p := (c.s10 + c.s11) * (c.s01 + c.s00);
    var q := (c.s11 + c.s01) * (c.s00 + c.s10);
    assert c.SigmaSquared() == p * q;
    var both: nat, cross: nat := c.s11 * c.s00, c.s10 * c.s01;
    assert num == both - cross;
    if num >= 0 {
      MulMonotone(c.s11, c.s00, c.s10 + c.s11, c.s01 + c.s00);
      MulMonotone(c.s11, c.s00, c.s11 + c.s01, c.s00 + c.s10);
      MulMonotone(num, num, both, both);
      MulMonotone(both, both, p, q);
    } else {
      MulMonotone(c.s10, c.s01, c.s10 + c.s11, c.s01 + c.s00);
      MulMonotone(c.s01, c.s10, c.s11 + c.s01, c.s00 + c.s10);
      MulMonotone(-num, -num, cross, cross);
      NegatedSquare(num);
      MulMonotone(cross, cross, p, q);
    }
  }

  /**
   * Correlation's counts: S11, S00, S10, S01 partition the positions, and the
   * row and column totals are the numbers of ones in x1 and in x2. On empty
   * vectors `f(x)` is the float64 array `np.array([])` and `&` raises a TypeError.
   */
  function Correlation(x1: seq<Bit>, x2: seq<Bit>): (r: Result<Contingency>)
    requires |x1| == |x2|
    ensures r.Err? <==> |x1| == 0
    ensures r.Err? ==> r.failure == UnsupportedOperand
    ensures r.Ok? ==> var c := r.value;
              && c.s11 + c.s00 + c.s10 + c.s01 == |x1|
              && c.s11 + c.s10 == Sum(x1) && c.s01 + c.s00 == |x1| - Sum(x1)
              && c.s11 + c.s01 == Sum(x2) && c.s10 + c.s00 == |x2| - Sum(x2)
  {
    if |x1| == 0 then Err(UnsupportedOperand)
    else
      var f1, f2 := Not(x1), Not(x2);
      Marginals(x1, x2);
      Marginals(f1, x2);
      Marginals(x2, x1);
      Marginals(f2, x1);
      SumComplementary(x1, f1);
      SumComplementary(x2, f2);
      Ok(Contingency(Sum(And(x1, x2)), Sum(And(f1, f2)), Sum(And(x1, f2)), Sum(And(f1, x2))))
  }

  /** Splitting the ones of x by the value of y at the same position. */
  lemma Marginals(x: seq<Bit>, y: seq<Bit>)
    requires |x| == |y|
    ensures Sum(And(x, y)) + Sum(And(x, Not(y))) == Sum(x)
    ensures Sum(And(y, x)) == Sum(And(x, y))
  {
    SumPointwise(And(x, y), And(x, Not(y)), x);
    assert And(y, x) == And(x, y);
  }

  /** RogersTanmoto gives the same value with its arguments swapped. */
  lemma RogersTanmotoSymmetric(x1: seq<Bit>, x2: seq<Bit>)
    requires |x1| == |x2|
    ensures RogersTanmoto(x1, x2) == RogersTanmoto(x2, x1)
  {
    assert Xor(x1, x2) == Xor(x2, x1);
  }

  /** A vector compared with itself: every position agrees, so the value is 1 when defined. */
  lemma RogersTanmotoIdentical(x: seq<Bit>)
    ensures RogersTanmoto(x, x).num == RogersTanmoto(x, x).den == |x|
    ensures |x| > 0 ==> RogersTanmoto(x, x).Value() == 1.0
  {
    SumZero(Xor(x, x));
  }

  /** A vector compared with its complement: no position agrees, so the value is 0 when defined. */
  lemma RogersTanmotoComplement(x: seq<Bit>)
    ensures RogersTanmoto(x, Not(x)).num == 0 && RogersTanmoto(x, Not(x)).den == 2 * |x|
    ensures |x| > 0 ==> RogersTanmoto(x, Not(x)).Value() == 0.0
  {
    var x3 := Xor(x, Not(x));
    SumZero(Not(x3));
    SumComplementary(Not(x3), x3);
  }

  /** SokalMichener gives the same result with its arguments swapped (the same TypeError when empty). */
  lemma SokalMichenerSymmetric(x1: seq<Bit>, x2: seq<Bit>)
    requires |x1| == |x2|
    ensures SokalMichener(x1, x2) == SokalMichener(x2, x1)
  {
    assert And(x1, x2) == And(x2, x1);
    assert And(Not(x1), Not(x2)) == And(Not(x2), Not(x1));
  }

  /** SokalMichener of a non-empty vector with itself is exactly 1. */
  lemma SokalMichenerIdentical(x: seq<Bit>)
    ensures SokalMichener(x, x).Ok? ==>
              SokalMichener(x, x).value.num == SokalMichener(x, x).value.den
              && SokalMichener(x, x).value.Value() == 1.0
  {
    SumComplementary(And(x, x), And(Not(x), Not(x)));
  }

  /** SokalMichener of a non-empty vector with its complement is exactly 0. */
  lemma SokalMichenerComplement(x: seq<Bit>)
    ensures SokalMichener(x, Not(x)).Ok? ==>
              SokalMichener(x, Not(x)).value.num == 0 && SokalMichener(x, Not(x)).value.Value() == 0.0
  {
    SumZero(And(x, Not(x)));
    SumZero(And(Not(x), Not(Not(x))));
  }

  /**
   * On non-empty vectors both coefficients count the same agreements m over a
   * length n: Sokal-Michener is m/n, Rogers-Tanimoto m/(2n - m), never larger
   * than Sokal-Michener; and the agreements are S11 + S00 of Correlation's table.
   */
  lemma RogersTanmotoVersusSokalMichener(x1: seq<Bit>, x2: seq<Bit>)
    requires |x1| == |x2|
    ensures |x1| > 0 ==>
              var rt, sm, c := RogersTanmoto(x1, x2), SokalMichener(x1, x2).value, Correlation(x1, x2).value;
              && rt.num == sm.num && sm.num == c.s11 + c.s00
              && rt.den == 2 * sm.den - sm.num
              && rt.num * sm.den <= sm.num * rt.den
  {
    if |x1| > 0 {
      Agreements(x1, x2);
      var m, n := SokalMichener(x1, x2).value.num, |x1|;
      assert RogersTanmoto(x1, x2).den == 2 * n - m;
      MulMonotone(m, n, m, 2 * n - m);
    }
  }

  /**
   * Swapping the vectors exchanges S10 and S01 and keeps the numerator and sigma
   * (and empty vectors fail either way).
   */
  lemma CorrelationSymmetric(x1: seq<Bit>, x2: seq<Bit>)
    requires |x1| == |x2|
    ensures Correlation(x2, x1).Ok? <==> Correlation(x1, x2).Ok?
    ensures Correlation(x1, x2).Ok? ==>
              var c, c' := Correlation(x1, x2).value, Correlation(x2, x1).value;
              && c' == Contingency(c.s11, c.s00, c.s01, c.s10)
              && c'.Numerator() == c.Numerator()
              && c'.SigmaSquared() == c.SigmaSquared()
  {
    if |x1| > 0 {
      assert And(x1, x2) == And(x2, x1);
      assert And(Not(x1), Not(x2)) == And(Not(x2), Not(x1));
      var c, c' := Correlation(x1, x2).value, Correlation(x2, x1).value;
      var p := (c.s10 + c.s11) * (c.s01 + c.s00);
      var q := (c.s11 + c.s01) * (c.s00 + c.s10);
      assert c.SigmaSquared() == p * q;
      assert c'.SigmaSquared() == q * p;
    }
  }

  /** A product of naturals is zero exactly when a factor is. */
  lemma ProductZero(x: nat, y: nat)
    ensures x * y == 0 <==> x == 0 || y == 0
  {
    if x > 0 && y > 0 {
      MulMonotone(1, 1, x, y);
    }
  }

  /**
   * sigma^2 is zero exactly when one of the four row and column totals is; the
   * numerator is then zero too, so `num / sigma` is 0/0 (NaN) and never +-inf.
   */
  lemma SigmaSquaredZero(c: Contingency)
    ensures c.SigmaSquared() == 0 <==>
              c.s10 + c.s11 == 0 || c.s01 + c.s00 == 0 || c.s11 + c.s01 == 0 || c.s00 + c.s10 == 0
    ensures c.SigmaSquared() == 0 ==> c.Numerator() == 0
  {
    var p, q, r, s := c.s10 + c.s11, c.s01 + c.s00, c.s11 + c.s01, c.s00 + c.s10;
    assert c.SigmaSquared() == (p * q) * (r * s);
    ProductZero(p * q, r * s);
    ProductZero(p, q);
    ProductZero(r, s);
  }

  /**
   * On non-empty vectors, sigma is zero exactly when one of the two vectors is
   * constant (all zeros or all ones); the numerator is then zero as well, so
   * Correlation yields 0/0, a NaN.
   */
  lemma CorrelationDegenerate(x1: seq<Bit>, x2: seq<Bit>)
    requires |x1| == |x2|
    ensures Correlation(x1, x2).Ok? ==>
              (!Correlation(x1, x2).value.Defined() <==>
                 Uniform(x1, 0) || Uniform(x1, 1) || Uniform(x2, 0) || Uniform(x2, 1))
    ensures Correlation(x1, x2).Ok? && !Correlation(x1, x2).value.Defined() ==>
              Correlation(x1, x2).value.Numerator() == 0
  {
    if |x1| > 0 {
      var c := Correlation(x1, x2).value;
      SumZero(x1);
      SumFull(x1);
      SumZero(x2);
      SumFull(x2);
      SigmaSquaredZero(c);
    }
  }

  /** No position holds 1 in both of two complementary vectors. */
  lemma {:induction false} DisjointAnd(a: seq<Bit>, b: seq<Bit>)
    requires |a| == |b|
    requires forall i :: 0 <= i < |a| ==> a[i] as int + b[i] == 1
    ensures Sum(And(a, b)) == 0
  {
    SumZero(And(a, b));
  }

  /** A table with S10 = S01 = 0 has num >= 0 and num^2 == sigma^2. */
  lemma DiagonalTable(c: Contingency)
    requires c.s10 == 0 && c.s01 == 0
    ensures c.Numerator() >= 0 && c.Numerator() * c.Numerator() == c.SigmaSquared()
  {
    var a, e := c.s11, c.s00;
    assert c.SigmaSquared() == (a * e) * (a * e);
  }

  /** A table with S11 = S00 = 0 has num <= 0 and num^2 == sigma^2. */
  lemma AntiDiagonalTable(c: Contingency)
    requires c.s11 == 0 && c.s00 == 0
    ensures c.Numerator() <= 0 && c.Numerator() * c.Numerator() == c.SigmaSquared()
  {
    var m: int := c.s10 * c.s01;
    assert c.Numerator() == -m;
    assert c.SigmaSquared() == m * m;
    NegatedSquare(m);
  }

  /**
   * A non-empty vector with itself: S10 = S01 = 0 and num^2 == sigma^2 with num >= 0, so
   * in exact arithmetic the coefficient is 1 whenever it is defined.
   */
  lemma CorrelationIdentical(x: seq<Bit>)
    ensures Correlation(x, x).Ok? ==>
              var c := Correlation(x, x).value;
              && c.s10 == 0 && c.s01 == 0
              && c.Numerator() >= 0 && c.Numerator() * c.Numerator() == c.SigmaSquared()
  {
    if |x| > 0 {
      DisjointAnd(x, Not(x));
      DisjointAnd(Not(x), x);
      DiagonalTable(Correlation(x, x).value);
    }
  }

  /**
   * A non-empty vector with its complement: S11 = S00 = 0 and num^2 == sigma^2 with
   * num <= 0, so in exact arithmetic the coefficient is -1 whenever it is defined.
   */
  lemma CorrelationComplement(x: seq<Bit>)
    ensures Correlation(x, Not(x)).Ok? ==>
              var c := Correlation(x, Not(x)).value;
              && c.s11 == 0 && c.s00 == 0
              && c.Numerator() <= 0 && c.Numerator() * c.Numerator() == c.SigmaSquared()
  {
    if |x| > 0 {
      DisjointAnd(x, Not(x));
      DisjointAnd(Not(x), Not(Not(x)));
      AntiDiagonalTable(Correlation(x, Not(x)).value);
    }
  }
}
