/**
 * Scores as exact ratios: the Dice coefficient, the fixed 0.55 threshold
 * and math.Round(sim*100)/100, without float64 rounding error.
 */
module Similarity {

  /** A similarity num/den; den == 0 stands for Go's 0/0 (NaN). */
  datatype Ratio = Ratio(num: nat, den: nat)

  /** The Dice coefficient 2|A∩B| / (|A|+|B|). */
  function Dice<T>(a: set<T>, b: set<T>): Ratio
  {
    Ratio(2 * |a * b|, |a| + |b|)
  }

  /** `similarity > 0.55`; a NaN score (0/0) never passes. */
  predicate Passes(r: Ratio)
  {
    100 * r.num > 55 * r.den
  }

  /** math.Round(sim * 100) for sim = num/den >= 0: the nearest integer, halves rounded up. */
  function Hundredths(r: Ratio): (h: nat)
    requires r.den > 0
    ensures 2 * h * r.den <= 200 * r.num + r.den < 2 * h * r.den + 2 * r.den
  {
    (200 * r.num + r.den) / (2 * r.den)
  }

  /** The stored confidence, math.Round(sim*100)/100. */
  function Confidence(r: Ratio): real
    requires r.den > 0
  {
    Hundredths(r) as real / 100.0
  }

  lemma IntersectionSmaller<T>(a: set<T>, b: set<T>)
    ensures |a * b| <= |a| && |a * b| <= |b|
  {
    assert a == (a * b) + (a - b);
    assert b == (a * b) + (b - a);
  }

  /** A Dice score lies in [0, 1]. */
  lemma DiceBounded<T>(a: set<T>, b: set<T>)
    ensures Dice(a, b).num <= Dice(a, b).den
  {
    IntersectionSmaller(a, b);
  }

  /** The Dice score is symmetric in query and question. */
  lemma DiceSymmetric<T>(a: set<T>, b: set<T>)
    ensures Dice(a, b) == Dice(b, a)
  {
    assert a * b == b * a;
  }

  /** Two empty token sets score 0/0, which never passes the threshold. */
  lemma EmptySetsNeverPass<T>(a: set<T>, b: set<T>)
    requires a == {} && b == {}
    ensures Dice(a, b) == Ratio(0, 0) && !Passes(Dice(a, b))
  {
  }

  lemma CancelFactor(a: int, b: int, d: nat)
    requires d > 0 && a * d < b * d
    ensures a < b
  {
  }

  /** A passing score in [0, 1] has a confidence between 0.55 and 1. */
  lemma PassingConfidence(r: Ratio)
    requires r.num <= r.den
    requires Passes(r)
    ensures r.den > 0
    ensures 55 <= Hundredths(r) <= 100
    ensures 0.55 <= Confidence(r) <= 1.0
  {
    var n, d := r.num, r.den;
    var h := Hundredths(r);
    assert 2 * h * d == (2 * h) * d;
    assert 2 * h * d + 2 * d == (2 * h + 2) * d;
    assert 111 * d < 200 * n + d;
    CancelFactor(111, 2 * h + 2, d);
    assert 200 * n + d <= 201 * d;
    CancelFactor(2 * h, 202, d);
  }

  /** Any passing score with a non-zero denominator rounds to a confidence of at least 0.55. */
  lemma PassingConfidenceFloor(r: Ratio)
    requires r.den > 0
    requires Passes(r)
    ensures 55 <= Hundredths(r)
    ensures 0.55 <= Confidence(r)
  {
    var n, d := r.num, r.den;
    var h := Hundredths(r);
    assert 2 * h * d + 2 * d == (2 * h + 2) * d;
    assert 111 * d < 200 * n + d;
    CancelFactor(111, 2 * h + 2, d);
  }

  /** A ratio as the float64 quotient it stands for (den > 0). */
  function Value(r: Ratio): real
    requires r.den > 0
  {
    r.num as real / r.den as real
  }

  /** Multiplying by a positive number keeps the sign. */
  lemma SignOfProduct(a: real, d: real)
    requires d > 0.0
    ensures a > 0.0 <==> a * d > 0.0
    ensures a >= 0.0 <==> a * d >= 0.0
  {
  }

  /** The integer test is `num/den > 0.55`, and a zero numerator (0/0 included) never passes. */
  lemma PassesAboveThreshold(r: Ratio)
    ensures r.den > 0 ==> (Passes(r) <==> Value(r) > 0.55)
    ensures r.num == 0 ==> !Passes(r)
  {
    if r.den > 0 {
      var n, d := r.num as real, r.den as real;
      var v := Value(r);
      assert v * d == n;
      assert (100 * r.num - 55 * r.den) as real == 100.0 * n - 55.0 * d;
      assert 100.0 * n - 55.0 * d == (100.0 * v - 55.0) * d;
      SignOfProduct(100.0 * v - 55.0, d);
      assert Passes(r) <==> 100.0 * v - 55.0 > 0.0;
    }
  }

  /** Casting to real commutes with multiplication. */
  lemma {:induction false} CastProduct(a: nat, b: nat)
    ensures (a * b) as real == a as real * b as real
    decreases a
  {
    if a > 0 {
      CastProduct(a - 1, b);
      assert a * b == (a - 1) * b + b;
    }
  }

  /** Bounds on x * (1/d) from bounds on x, for d > 0. */
  lemma QuotientBounds(x: real, d: real, lo: real, hi: real)
    requires d > 0.0 && lo * d <= x < hi * d
    ensures lo <= x / d < hi
  {
    var q := x / d;
    assert q * d == x;
    assert (q - lo) * d == x - lo * d;
    SignOfProduct(q - lo, d);
    assert (hi - q) * d == hi * d - x;
    SignOfProduct(hi - q, d);
  }

  /** The stored confidence is the quotient rounded to the nearest hundredth, halves up. */
  lemma ConfidenceNearest(r: Ratio)
    requires r.den > 0
    ensures Confidence(r) - 0.005 <= Value(r) < Confidence(r) + 0.005
  {
    var hi := Hundredths(r);
    var h, n, d := hi as real, r.num as real, r.den as real;
    CastProduct(hi, r.den);
    assert 2.0 * (h * d) <= 200.0 * n + d < 2.0 * (h * d) + 2.0 * d;
    assert (h / 100.0 - 0.005) * d == (2.0 * (h * d) - d) / 200.0;
    assert (h / 100.0 + 0.005) * d == (2.0 * (h * d) + d) / 200.0;
    QuotientBounds(n, d, h / 100.0 - 0.005, h / 100.0 + 0.005);
  }
}
