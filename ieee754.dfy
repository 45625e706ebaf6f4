/**
  Decomposition of a non-zero real into the three fields of an IEEE 754
  binary64 number: a sign flag, an exponent stored with a bias of 1023,
  and a mantissa in [0, 1) from which the implicit leading 1 is dropped.
  Zero is the all-zero triple. The fields are kept as numbers: nothing
  here packs them into a 64-bit word.
 */
module Ieee754 {
  import opened Powers

  /** The binary64 exponent bias. */
  const Bias: int := 1023

  function Abs(v: real): real
  {
    if v < 0.0 then -v else v
  }

  /** (-1)^s for a sign flag s in {0, 1}. */
  function SignFactor(s: int): real
  {
    if s == 1 then -1.0 else 1.0
  }

  /**
    The value a triple stands for: 0 for the all-zero triple, otherwise
    (-1)^s * (1 + m) * 2^(e - Bias).
   */
  function Recompose(s: int, e: int, m: real): real
  {
    if s == 0 && e == 0 && m == 0.0 then 0.0
    else SignFactor(s) * ((1.0 + m) * Pow2(e - Bias))
  }

  /**
    (s, e, m) is a decomposition of v: the all-zero triple when v is zero;
    otherwise a sign flag that is 1 exactly for negative v, a mantissa in
    [0, 1), and v == (-1)^s * (1 + m) * 2^(e - Bias) exactly.
   */
  ghost predicate IsDecomposition(v: real, s: int, e: int, m: real)
  {
    if v == 0.0 then s == 0 && e == 0 && m == 0.0
    else
      && (s == 0 || s == 1)
      && (s == 1 <==> v < 0.0)
      && 0.0 <= m < 1.0
      && v == SignFactor(s) * ((1.0 + m) * Pow2(e - Bias))
  }

  /**
    Splits value into sign, biased exponent and mantissa, written to three
    out-parameters. The exponent is first the unbiased floor(log2 |value|),
    the mantissa is computed from it, and only then is the bias added.
   */
  method Double2Ieee(value: real) returns (sign: int, exponent: int, mantissa: real)
    ensures IsDecomposition(value, sign, exponent, mantissa)
    ensures value != 0.0 ==> IsFloorLog2(Abs(value), exponent - Bias)
  {
    if value == 0.0 {
      sign, exponent, mantissa := 0, 0, 0.0;
    } else {
      var v := value;
      if v < 0.0 {
        v := -v;
        sign := 1;
      } else {
        sign := 0;
      }
      exponent := FloorLog2(v);
      mantissa := v / Pow2(exponent) - 1.0;
      MantissaOfBracket(v, Pow2(exponent));
      Pow2Succ(exponent);
      exponent := exponent + Bias;
    }
  }

  /** Dividing a bracketed magnitude by its power of two leaves a mantissa in [0, 1). */
  lemma MantissaOfBracket(v: real, p: real)
    requires 0.0 < p <= v < 2.0 * p
    ensures 0.0 <= v / p - 1.0 < 1.0
    ensures v == (1.0 + (v / p - 1.0)) * p
  {
    DivideLess(v, 2.0 * p, p);
    assert (2.0 * p) / p == 2.0;
    if p < v {
      DivideLess(p, v, p);
    }
    assert p / p == 1.0;
  }

  /** The magnitude of a decomposed non-zero value is (1 + m) * 2^(e - Bias). */
  lemma MagnitudeOfDecomposition(v: real, s: int, e: int, m: real)
    requires v != 0.0 && IsDecomposition(v, s, e, m)
    ensures Abs(v) == (1.0 + m) * Pow2(e - Bias)
  {
  }

  /**
    The exponent field of a decomposition is floor(log2 |v|) + Bias: the
    unbiased exponent is the one integer k with 2^k <= |v| < 2^(k+1).
   */
  lemma DecompositionExponent(v: real, s: int, e: int, m: real)
    requires v != 0.0 && IsDecomposition(v, s, e, m)
    ensures IsFloorLog2(Abs(v), e - Bias)
  {
    MagnitudeOfDecomposition(v, s, e, m);
    BracketOfScaled(Pow2(e - Bias), 1.0 + m, Abs(v));
    Pow2Succ(e - Bias);
  }

  /** Two products with the same positive factor are equal only with equal cofactors. */
  lemma CancelFactor(a: real, b: real, p: real)
    requires p > 0.0 && a * p == b * p
    ensures a == b
  {
  }

  /** Every value has at most one decomposition. */
  lemma DecompositionUnique(v: real, s1: int, e1: int, m1: real, s2: int, e2: int, m2: real)
    requires IsDecomposition(v, s1, e1, m1) && IsDecomposition(v, s2, e2, m2)
    ensures s1 == s2 && e1 == e2 && m1 == m2
  {
    if v != 0.0 {
      DecompositionExponent(v, s1, e1, m1);
      DecompositionExponent(v, s2, e2, m2);
      FloorLog2Unique(Abs(v), e1 - Bias, e2 - Bias);
      MagnitudeOfDecomposition(v, s1, e1, m1);
      MagnitudeOfDecomposition(v, s2, e2, m2);
      CancelFactor(1.0 + m1, 1.0 + m2, Pow2(e1 - Bias));
    }
  }

  /** Negating a value flips its sign flag and keeps exponent and mantissa. */
  lemma NegationDecomposition(v: real, s: int, e: int, m: real)
    requires IsDecomposition(v, s, e, m)
    ensures IsDecomposition(-v, if v == 0.0 then 0 else 1 - s, e, m)
  {
  }

  /**
    v and -v decompose to the same exponent and mantissa, and for non-zero
    v to opposite sign flags.
   */
  lemma NegationKeepsMagnitudeFields(v: real, s: int, e: int, m: real, s': int, e': int, m': real)
    requires IsDecomposition(v, s, e, m) && IsDecomposition(-v, s', e', m')
    ensures e' == e && m' == m
    ensures v != 0.0 ==> s' == 1 - s
    ensures v == 0.0 ==> s' == s == 0
  {
    NegationDecomposition(v, s, e, m);
    DecompositionUnique(-v, s', e', m', if v == 0.0 then 0 else 1 - s, e, m);
  }

  /**
    An exact power of two 2^k decomposes to sign 0, mantissa 0 and exponent
    k + Bias, and to nothing else.
   */
  lemma PowerOfTwoDecomposition(k: int, s: int, e: int, m: real)
    ensures IsDecomposition(Pow2(k), s, e, m) <==> s == 0 && e == k + Bias && m == 0.0
  {
    assert IsDecomposition(Pow2(k), 0, k + Bias, 0.0);
    if IsDecomposition(Pow2(k), s, e, m) {
      DecompositionUnique(Pow2(k), s, e, m, 0, k + Bias, 0.0);
    }
  }

  /**
    Recompose undoes a decomposition for every value except 2^-Bias, whose
    decomposition (0, 0, 0) is the one reserved for zero.
   */
  lemma RecomposeRoundTrip(v: real, s: int, e: int, m: real)
    requires IsDecomposition(v, s, e, m)
    ensures Recompose(s, e, m) == v <==> v != Pow2(-Bias)
  {
    if v == Pow2(-Bias) {
      PowerOfTwoDecomposition(-Bias, s, e, m);
    }
  }

  /** The demonstration value -9.5 = -(1 + 0.1875) * 2^3 decomposes to (1, 1026, 0.1875). */
  lemma DemoDecomposition(s: int, e: int, m: real)
    ensures IsDecomposition(-9.5, s, e, m) <==> s == 1 && e == 1026 && m == 0.1875
  {
    assert Pow2(3) == 8.0;
    assert IsDecomposition(-9.5, 1, 1026, 0.1875);
    if IsDecomposition(-9.5, s, e, m) {
      DecompositionUnique(-9.5, s, e, m, 1, 1026, 0.1875);
    }
  }
}
