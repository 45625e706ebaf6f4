/**
  Integer powers of two over exact reals, for every integer exponent
  (negative ones included), and the exponent search that stands in for
  `floor(log2(x))`.
 */
module Powers {

  /** 2^k as an exact real; the stand-in for `pow(2, k)`. */
  function Pow2(k: int): (r: real)
    ensures r > 0.0
    decreases if k < 0 then -k else k
  {
    if k == 0 then 1.0
    else if k > 0 then 2.0 * Pow2(k - 1)
    else Pow2(k + 1) / 2.0
  }

  /** Consecutive powers differ by a factor of two, on both sides of zero. */
  lemma Pow2Succ(k: int)
    ensures Pow2(k + 1) == 2.0 * Pow2(k)
  {
  }

  /** Pow2 is strictly increasing. */
  lemma {:induction false} Pow2Less(a: int, b: int)
    requires a < b
    ensures Pow2(a) < Pow2(b)
    decreases b - a
  {
    Pow2Succ(b - 1);
    if a < b - 1 {
      Pow2Less(a, b - 1);
    }
  }

  /** Comparing powers of two is comparing their exponents. */
  lemma Pow2StrictlyIncreasing(a: int, b: int)
    ensures a < b <==> Pow2(a) < Pow2(b)
  {
    if a < b {
      Pow2Less(a, b);
    } else if b < a {
      Pow2Less(b, a);
    }
  }

  /** k is the exponent of the largest power of two not above x: k == floor(log2(x)). */
  ghost predicate IsFloorLog2(x: real, k: int)
  {
    Pow2(k) <= x < Pow2(k + 1)
  }

  /** floor(log2(x)) is well defined: at most one integer brackets x. */
  lemma FloorLog2Unique(x: real, k1: int, k2: int)
    requires IsFloorLog2(x, k1) && IsFloorLog2(x, k2)
    ensures k1 == k2
  {
    if k1 < k2 {
      Pow2StrictlyIncreasing(k1 + 1, k2);
    } else if k2 < k1 {
      Pow2StrictlyIncreasing(k2 + 1, k1);
    }
  }

  /** The exact power 2^k has floor(log2) equal to k. */
  lemma FloorLog2OfPow2(k: int)
    ensures IsFloorLog2(Pow2(k), k)
  {
  }

  /** 2^n outgrows n, which bounds the halving search. */
  lemma {:induction false} Pow2AboveExponent(n: nat)
    ensures Pow2(n) >= n as real + 1.0
  {
    if n > 0 {
      Pow2AboveExponent(n - 1);
    }
  }

  // Steps of real arithmetic the exponent search needs, each kept to one
  // product so that the solver treats it in isolation.

  lemma DivideLess(a: real, c: real, x: real)
    requires x > 0.0 && a < c
    ensures a / x < c / x
  {
  }

  lemma BelowReciprocal(x: real, q: real, b: real)
    requires x > 0.0 && b == 1.0 / x && x * q < 1.0
    ensures q < b
  {
    DivideLess(x * q, 1.0, x);
    assert (x * q) / x == q;
  }

  lemma TradeFactorOfTwo(p: real, p2: real, y: real, x: real)
    requires p2 == 2.0 * p && p2 * y == x
    ensures p * (2.0 * y) == x
  {
  }

  lemma DoubleBoth(y: real, x: real, q: real)
    requires y == x * q
    ensures 2.0 * y == x * (2.0 * q)
  {
  }

  lemma BracketOfScaled(p: real, y: real, x: real)
    requires p > 0.0 && p * y == x && 1.0 <= y < 2.0
    ensures p <= x < 2.0 * p
  {
  }

  /** One step of the downward search keeps its invariants and its bound. */
  lemma DownStep(x: real, b: real, bound: int, k: int, y: real, q: real)
    requires x > 0.0 && b == 1.0 / x && bound == b.Floor
    requires k <= 0 && 0.0 < y < 1.0
    requires Pow2(k) * y == x && q == Pow2(-k) && y == x * q
    ensures 0 <= bound + (k - 1) < bound + k
    ensures Pow2(k - 1) * (2.0 * y) == x
    ensures 2.0 * q == Pow2(-(k - 1)) && 2.0 * y == x * (2.0 * q)
  {
    BelowReciprocal(x, q, b);
    Pow2AboveExponent(-k);
    DoubleBoth(y, x, q);
    Pow2Succ(k - 1);
    Pow2Succ(-k);
    TradeFactorOfTwo(Pow2(k - 1), Pow2(k), y, x);
  }

  /**
    The exponent search replacing `floor(log2(x))`: upward from 2^0 when
    x >= 1, downward when x < 1.
   */
  method FloorLog2(x: real) returns (k: int)
    requires x > 0.0
    ensures IsFloorLog2(x, k)
  {
    if x >= 1.0 {
      k := SearchUp(x);
    } else {
      k := SearchDown(x);
    }
  }

  /** Doubles 2^k while it stays at most x. */
  method SearchUp(x: real) returns (k: int)
    requires x >= 1.0
    ensures k >= 0 && IsFloorLog2(x, k)
  {
    k := 0;
    var p: int := 1;
    while (2 * p) as real <= x
      invariant k >= 0 && p >= 1
      invariant p as real == Pow2(k) && p as real <= x
      decreases x.Floor - p
    {
      p, k := 2 * p, k + 1;
    }
    Pow2Succ(k);
  }

  /** Doubles a scaled copy y = x / 2^k of x until it reaches 1, lowering k each time. */
  method SearchDown(x: real) returns (k: int)
    requires 0.0 < x < 1.0
    ensures k < 0 && IsFloorLog2(x, k)
  {
    k := 0;
    // q = 2^-k stays below 1 / x, so -k stays below floor(1 / x).
    ghost var b := 1.0 / x;
    ghost var bound := b.Floor;
    var y := x;
    ghost var q := 1.0;
    while y < 1.0
      invariant k <= 0 && 0.0 < y < 2.0
      invariant Pow2(k) * y == x
      invariant q == Pow2(-k) && y == x * q
      decreases bound + k
    {
      DownStep(x, b, bound, k, y, q);
      y, q, k := 2.0 * y, 2.0 * q, k - 1;
    }
    BracketOfScaled(Pow2(k), y, x);
    Pow2Succ(k);
  }
}
