/** Facts about ordered-field arithmetic on reals that the proofs lean on. */
module RealFacts {

  /** `r` lies between `a` and `b`, whichever of them is the larger. */
  predicate Between(r: real, a: real, b: real)
  {
    (a <= r <= b) || (b <= r <= a)
  }

  function Abs(a: real): real { if a < 0.0 then -a else a }
  function Smaller(a: real, b: real): real { if a <= b then a else b }
  function Min3(a: real, b: real, c: real): real { Smaller(Smaller(a, b), c) }
  function Max3(a: real, b: real, c: real): real { -Min3(-a, -b, -c) }

  /** An affine blend with weight in [0, 1] lies between its two end values. */
  lemma InterpolationBetween(t: real, lo: real, hi: real)
    requires 0.0 <= t <= 1.0
    ensures Between(t * (hi - lo) + lo, lo, hi)
  {
    var d := hi - lo;
    if lo <= hi {
      MulNonnegative(t, d);
      MulNonnegative(1.0 - t, d);
    } else {
      MulNonnegative(t, -d);
      MulNonnegative(1.0 - t, -d);
    }
  }

  lemma MulNonnegative(a: real, b: real)
    requires 0.0 <= a && 0.0 <= b
    ensures 0.0 <= a * b
  {
  }

  /** A quotient of a positive value by a larger one lies strictly between 0 and 1. */
  lemma QuotientInUnit(a: real, w: real)
    requires 0.0 < a < w
    ensures 0.0 < a / w < 1.0
  {
    var q := a / w;
    assert q * w == a;
    if q >= 1.0 {
      MulNonnegative(q - 1.0, w);
    }
  }

  /** Dividing by a positive value keeps the order. */
  lemma DivMonotone(a: real, b: real, w: real)
    requires a <= b && 0.0 < w
    ensures a / w <= b / w
  {
    var qa, qb := a / w, b / w;
    assert qa * w == a && qb * w == b;
    if qb < qa {
      MulPositive(qa - qb, w);
    }
  }

  /** A product whose factors are bounded by `delta` and below `k` is below `delta * k <= eps`. */
  lemma SmallProduct(t: real, s: real, delta: real, k: real, eps: real)
    requires -delta < t < delta && Abs(s) < k && delta * k <= eps
    ensures -eps < t * s < eps
  {
    var ta, sa := Abs(t), Abs(s);
    assert Abs(t * s) == ta * sa by {
      if t < 0.0 && s < 0.0 { assert t * s == (-t) * (-s); }
      else if t < 0.0 { assert t * s == -((-t) * s); }
      else if s < 0.0 { assert t * s == -(t * (-s)); }
    }
    // ta * sa <= delta * sa < delta * k <= eps
    MulNonnegative(delta - ta, sa);
    MulPositive(delta, k - sa);
  }

  lemma MulPositive(a: real, b: real)
    requires 0.0 < a && 0.0 < b
    ensures 0.0 < a * b
  {
  }

  /** Dividing by a positive value keeps strict order. */
  lemma DivStrictMonotone(a: real, b: real, w: real)
    requires a < b && 0.0 < w
    ensures a / w < b / w
  {
    var qa, qb := a / w, b / w;
    assert qa * w == a && qb * w == b;
    if qb <= qa {
      MulNonnegative(qa - qb, w);
    }
  }

  lemma MulNonzero(a: real, b: real)
    requires a != 0.0 && b != 0.0
    ensures a * b != 0.0
  {
  }

  /** A value offset from `c` by a product bounded as in SmallProduct lies within `eps` of `c`. */
  lemma OffsetWithinEps(v: real, c: real, t: real, s: real, delta: real, k: real, eps: real)
    requires v - c == t * s
    requires -delta < t < delta && Abs(s) < k && delta * k <= eps
    ensures c - eps < v < c + eps
  {
    SmallProduct(t, s, delta, k, eps);
  }

  lemma SelfQuotient(w: real)
    requires w != 0.0
    ensures w / w == 1.0
  {
  }
}
