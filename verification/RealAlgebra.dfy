/** A few facts about products of reals that the solver needs one at a time. */
module RealAlgebra {

  /** The weighted mean of two ends. */
  function Mix(w: real, a: real, b: real): real {
    (1.0 - w) * a + w * b
  }

  function Least(a: real, b: real): real {
    if a < b then a else b
  }

  function Largest(a: real, b: real): real {
    if a < b then b else a
  }

  function AbsReal(x: real): real {
    if x < 0.0 then -x else x
  }

  function Distance(a: real, b: real): real {
    if a < b then b - a else a - b
  }

  /** A product by name, so that equal factors make equal products. */
  function Product(a: real, b: real): real {
    a * b
  }

  function Sum(a: seq<real>): real {
    if a == [] then 0.0 else Sum(a[..|a| - 1]) + a[|a| - 1]
  }

  lemma ScaleLe(w: real, a: real, b: real)
    requires 0.0 <= w && a <= b
    ensures w * a <= w * b
  {
  }

  lemma ScaleLt(w: real, a: real, b: real)
    requires 0.0 < w && a < b
    ensures w * a < w * b
  {
  }

  lemma Distribute(c: real, sum: real, x: real, y: real)
    requires sum == x + y
    ensures c * sum == c * x + c * y
  {
  }

  lemma DistributeMix(c: real, w: real, a: real, b: real)
    ensures c * Mix(w, a, b) == c * (1.0 - w) * a + c * w * b
  {
  }

  lemma OneMore(k: nat, x: real)
    ensures (k + 1) as real * x == k as real * x + x
  {
  }

  /** Two factors of the same number. */
  lemma SameFactor(v: real, w: real, d: real, p: real)
    requires d > 0.0 && v * d == p && w * d == p
    ensures v == w
  {
    Cancel(v, w, d);
  }

  /** A fraction of a non-negative amount. */
  lemma Fraction(w: real, d: real)
    requires 0.0 <= w <= 1.0 && 0.0 <= d
    ensures 0.0 <= w * d <= d
    ensures 0.0 < w && 0.0 < d ==> 0.0 < w * d
    ensures w < 1.0 && 0.0 < d ==> w * d < d
  {
    ScaleLe(d, w, 1.0);
    if 0.0 < d && w < 1.0 {
      ScaleLt(d, w, 1.0);
    }
    if 0.0 < d && 0.0 < w {
      ScaleLt(d, 0.0, w);
    }
  }

  /** A weighted mean lies between its ends. */
  lemma MeanBetween(w: real, a: real, b: real)
    requires 0.0 <= w <= 1.0 && a <= b
    ensures a <= Mix(w, a, b) <= b
    ensures w > 0.0 && a < b ==> a < Mix(w, a, b)
  {
    MixAsStep(w, a, b);
    Fraction(w, b - a);
  }

  lemma WeightedSumGrows(v: real, w: real, a: real, b: real, c: real, d: real)
    requires 0.0 <= v && 0.0 <= w && (v > 0.0 || w > 0.0) && a < c && b < d
    ensures v * a + w * b < v * c + w * d
  {
    ScaleLe(v, a, c);
    ScaleLe(w, b, d);
    if w > 0.0 {
      ScaleLt(w, b, d);
    } else {
      ScaleLt(v, a, c);
    }
  }

  lemma MeanGrows(w: real, a: real, b: real, c: real, d: real)
    requires 0.0 <= w <= 1.0 && a < c && b < d
    ensures Mix(w, a, b) < Mix(w, c, d)
  {
    var e, f := c - a, d - b;
    WeightedSumGrows(1.0 - w, w, 0.0, 0.0, e, f);
    assert (1.0 - w) * e + w * f > 0.0;
    assert Mix(w, c, d) == Mix(w, a, b) + ((1.0 - w) * e + w * f);
  }

  lemma MeanGrowsWithWeight(v: real, w: real, a: real, b: real)
    requires a < b && v < w
    ensures Mix(v, a, b) < Mix(w, a, b)
  {
    var d := b - a;
    ScaleLt(d, v, w);
    MixAsStep(v, a, b);
    MixAsStep(w, a, b);
    assert a + v * d < a + w * d;
  }

  lemma MixAsStep(w: real, a: real, b: real)
    ensures Mix(w, a, b) == a + w * (b - a)
  {
  }

  /** Equal products with a positive factor. */
  lemma Cancel(v: real, w: real, d: real)
    requires d > 0.0
    ensures v * d == w * d ==> v == w
    ensures v * d < w * d ==> v < w
    ensures v * d <= w * d ==> v <= w
  {
    if v < w {
      ScaleLt(d, v, w);
    } else if w < v {
      ScaleLt(d, w, v);
    }
  }

  lemma CancelLt(v: real, w: real, d: real, p: real, q: real)
    requires d > 0.0 && v * d == p && w * d == q && p < q
    ensures v < w
  {
    if w <= v {
      ScaleLe(d, w, v);
    }
  }

  lemma Quotient(n: real, d: real)
    requires d != 0.0
    ensures (n / d) * d == n
  {
  }
}
