// The similarity measures of `Similarity` and the Java `double` arithmetic
// they are written in.
//
// `compute(a, b, both, neither)` receives the number of bits set only in the
// first fingerprint (a), only in the second (b), in both, and in neither.
// `bound(q, t)` is an upper limit on `compute` for any pair of fingerprints
// with popcounts q and t; the index search prunes buckets with it.

module Similarity {

  /**
   * A Java `double` produced by dividing two integers: an exact real, or one
   * of the values IEEE 754 gives a division by zero. Rounding is not modelled.
   */
  datatype Double = Num(r: real) | PosInf | NegInf | NaN

  /** Java's `n / (double) d` for integers n and d. */
  function Div(n: int, d: int): (x: Double)
    ensures d != 0 <==> x.Num?
    ensures x == NaN <==> n == 0 && d == 0
  {
    if d != 0 then Num(n as real / d as real)
    else if n > 0 then PosInf
    else if n < 0 then NegInf
    else NaN
  }

  /**
   * Java's `x < y` on doubles: false whenever either side is NaN; negative
   * infinity lies below, and positive infinity above, every number.
   */
  predicate Less(x: Double, y: Double)
  {
    if x.Num? && y.Num? then x.r < y.r
    else (x.NegInf? && (y.Num? || y.PosInf?)) || (y.PosInf? && x.Num?)
  }

  /** Java's `x > y`. */
  predicate Greater(x: Double, y: Double)
  {
    Less(y, x)
  }

  /** Java's `x >= y`: false whenever either side is NaN. */
  predicate AtLeast(x: Double, y: Double)
  {
    x != NaN && y != NaN && !Less(x, y)
  }

  lemma LessNaN(x: Double)
    ensures !Less(x, NaN) && !Less(NaN, x) && !AtLeast(x, NaN) && !AtLeast(NaN, x)
  {}

  lemma LessNum(u: real, v: real)
    ensures Less(Num(u), Num(v)) <==> u < v
    ensures AtLeast(Num(u), Num(v)) <==> u >= v
  {}

  /** The measures the index supports (`Cosine`, which takes a square root, is not modelled). */
  datatype Measure = Tanimoto | Manhatten | Dice

  /** `Measure.compute(a, b, both, neither)`. */
  function Compute(m: Measure, a: int, b: int, both: int, neither: int): Double
  {
    match m
    case Tanimoto => Div(both, a + b + both)
    case Manhatten => Div(a + b, a + b + both + neither)
    case Dice => Div(2 * both, a + b + 2 * both)
  }

  /** `Measure.bound(q, t)` for query popcount q and target popcount t. */
  function Bound(m: Measure, q: int, t: int): Double
  {
    match m
    case Tanimoto => if q < t then Div(q, t) else Div(t, q)
    case Manhatten => Num(1.0)
    case Dice => Num(1.0)
  }

  /** n / d lies in [0, 1] for 0 <= n <= d, and is 1 exactly when n = d. */
  lemma Ratio(n: int, d: int)
    requires 0 <= n <= d && d > 0
    ensures 0.0 <= Div(n, d).r <= 1.0 && (Div(n, d).r == 1.0 <==> n == d)
  {
    var x := Div(n, d).r;
    assert x == n as real / d as real;
  }

  /** n1 / d1 <= n2 / d2 whenever n1 * d2 <= n2 * d1 (positive denominators). */
  lemma RatioLe(n1: int, d1: int, n2: int, d2: int)
    requires d1 > 0 && d2 > 0 && n1 * d2 <= n2 * d1
    ensures Div(n1, d1).r <= Div(n2, d2).r
  {
    var x1, x2 := n1 as real / d1 as real, n2 as real / d2 as real;
    assert x1 * d1 as real == n1 as real;
    assert x2 * d2 as real == n2 as real;
    assert (n1 * d2) as real == n1 as real * d2 as real;
    assert (n2 * d1) as real == n2 as real * d1 as real;
    assert x1 * (d1 as real * d2 as real) <= x2 * (d1 as real * d2 as real);
  }

  /** A Tanimoto score is NaN only for two empty fingerprints, otherwise in [0, 1], and 1 exactly when nothing is unshared. */
  lemma TanimotoRange(a: nat, b: nat, both: nat, neither: int)
    ensures Compute(Tanimoto, a, b, both, neither) == NaN <==> a + b + both == 0
    ensures a + b + both > 0 ==>
      var s := Compute(Tanimoto, a, b, both, neither);
      s.Num? && 0.0 <= s.r <= 1.0 && (s.r == 1.0 <==> a == 0 && b == 0)
  {
    if a + b + both > 0 {
      Ratio(both, a + b + both);
    }
  }

  /** A Dice score is NaN only for two empty fingerprints, otherwise in [0, 1], and 1 exactly when nothing is unshared. */
  lemma DiceRange(a: nat, b: nat, both: nat, neither: int)
    ensures Compute(Dice, a, b, both, neither) == NaN <==> a + b + both == 0
    ensures a + b + both > 0 ==>
      var s := Compute(Dice, a, b, both, neither);
      s.Num? && 0.0 <= s.r <= 1.0 && (s.r == 1.0 <==> a == 0 && b == 0)
  {
    if a + b + both > 0 {
      Ratio(2 * both, a + b + 2 * both);
    }
  }

  /** A Manhattan distance over counts that sum to the length lies in [0, 1], and is 0 exactly when nothing is unshared. */
  lemma ManhattenRange(a: nat, b: nat, both: nat, neither: nat)
    requires a + b + both + neither > 0
    ensures var s := Compute(Manhatten, a, b, both, neither);
      s.Num? && 0.0 <= s.r <= 1.0 && (s.r == 0.0 <==> a == 0 && b == 0)
  {
    Ratio(a + b, a + b + both + neither);
  }

  /** Every measure treats the two fingerprints alike. */
  lemma ComputeSymmetric(m: Measure, a: int, b: int, both: int, neither: int)
    ensures Compute(m, a, b, both, neither) == Compute(m, b, a, both, neither)
  {
    assert a + b == b + a;
  }

  /** The Tanimoto bound is min(q, t) / max(q, t): symmetric, and NaN only for q = t = 0. */
  lemma TanimotoBoundShape(q: nat, t: nat)
    ensures Bound(Tanimoto, q, t) == Bound(Tanimoto, t, q)
    ensures Bound(Tanimoto, q, t) == NaN <==> q == 0 && t == 0
    ensures q + t > 0 ==> Bound(Tanimoto, q, t) == Div(Min(q, t), Max(q, t))
  {}

  function Min(x: int, y: int): int { if x < y then x else y }
  function Max(x: int, y: int): int { if x < y then y else x }

  /**
   * Soundness of the Tanimoto pruning: two fingerprints with popcounts
   * q = a + both and t = b + both never score above `bound(q, t)`.
   */
  lemma TanimotoBoundSound(a: nat, b: nat, both: nat, neither: int)
    requires a + b + both > 0
    ensures var s := Compute(Tanimoto, a, b, both, neither);
      var u := Bound(Tanimoto, a + both, b + both);
      s.Num? && u.Num? && s.r <= u.r
  {
    var q, t := a + both, b + both;
    var lo, hi := Min(q, t), Max(q, t);
    // both <= lo and hi <= a + b + both
    assert both * hi <= lo * (a + b + both) by {
      MulMono(both, hi, lo, a + b + both);
    }
    RatioLe(both, a + b + both, lo, hi);
  }

  lemma MulMono(x: nat, y: nat, u: nat, v: nat)
    requires x <= u && y <= v
    ensures x * y <= u * v
  {
    assert x * y <= u * y;
    assert u * y <= u * v;
  }

  /** The Tanimoto bound is tight: some pair with popcounts q and t scores exactly `bound(q, t)`. */
  lemma TanimotoBoundAttained(q: nat, t: nat)
    requires q + t > 0
    ensures var both := Min(q, t);
      Compute(Tanimoto, q - both, t - both, both, 0) == Bound(Tanimoto, q, t)
  {
    var both := Min(q, t);
    assert (q - both) + (t - both) + both == Max(q, t);
  }

  /**
   * For a fixed query popcount q the Tanimoto bound never increases as the
   * target popcount moves away from q, on either side.
   */
  lemma TanimotoBoundMonotone(q: nat, t1: nat, t2: nat)
    requires q > 0
    ensures t1 <= t2 <= q ==> Bound(Tanimoto, q, t1).r <= Bound(Tanimoto, q, t2).r
    ensures q <= t1 <= t2 ==> Bound(Tanimoto, q, t2).r <= Bound(Tanimoto, q, t1).r
  {
    if t1 <= t2 <= q {
      if t1 == q {
      } else if t2 == q {
        Ratio(t1, q);
      } else {
        RatioLe(t1, q, t2, q);
      }
    }
    if q <= t1 <= t2 {
      if t2 == q {
      } else if t1 == q {
        Ratio(q, t2);
      } else {
        MulMono(q, t1, q, t2);
        RatioLe(q, t2, q, t1);
      }
    }
  }

  /** The Dice and Manhattan bounds are the constant 1, which every score of theirs respects. */
  lemma ConstantBoundsSound(m: Measure, a: nat, b: nat, both: nat, neither: nat)
    requires m != Tanimoto
    requires a + b + both > 0
    ensures Bound(m, a + both, b + both) == Num(1.0)
    ensures Compute(m, a, b, both, neither).Num? && Compute(m, a, b, both, neither).r <= 1.0
  {
    if m == Dice {
      DiceRange(a, b, both, neither);
    } else {
      ManhattenRange(a, b, both, neither);
    }
  }
}
