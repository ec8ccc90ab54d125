/**
 * Properties of the linear maps: linlin and the three-point bilin built from it.
 */
module LinearProps {
  import opened Clip
  import opened InlineMath
  import opened RealFacts

  // ---------------------------------------------------------------- linlin

  /**
   * On a proper input range linlin is exactly its affine formula on the whole
   * closed range: the clamps at the two ends give the values the formula gives
   * there, so the tie-breaking order is invisible in the result.
   */
  lemma LinLinAffineOnClosedRange(x: real, inMin: real, inMax: real, outMin: real, outMax: real)
    requires inMin < inMax && inMin <= x <= inMax
    ensures LinLin(x, inMin, inMax, outMin, outMax) == LinLinFormula(x, inMin, inMax, outMin, outMax)
  {
    var w := inMax - inMin;
    if x == inMax {
      assert (x - inMin) * (outMax - outMin) / w == outMax - outMin;
    }
  }

  /** With both ranges increasing, linlin is nondecreasing in `x`. */
  lemma LinLinMonotone(x1: real, x2: real, inMin: real, inMax: real, outMin: real, outMax: real)
    requires inMin < inMax && outMin <= outMax && x1 <= x2
    ensures LinLin(x1, inMin, inMax, outMin, outMax) <= LinLin(x2, inMin, inMax, outMin, outMax)
  {
    LinLinBetween(x1, inMin, inMax, outMin, outMax);
    LinLinBetween(x2, inMin, inMax, outMin, outMax);
    if inMin < x1 && x2 < inMax {
      FallbackIsLinLinFormula(x1, inMin, inMax, outMin, outMax);
      FallbackIsLinLinFormula(x2, inMin, inMax, outMin, outMax);
      DivMonotone(x1 - inMin, x2 - inMin, inMax - inMin);
      MulNonnegative(Scaled(x2, inMin, inMax) - Scaled(x1, inMin, inMax), outMax - outMin);
    }
  }

  /** The midpoint of the input range goes to the midpoint of the output range. */
  lemma LinLinMidpoint(inMin: real, inMax: real, outMin: real, outMax: real)
    requires inMin < inMax
    ensures LinLin((inMin + inMax) / 2.0, inMin, inMax, outMin, outMax) == (outMin + outMax) / 2.0
  {
    var w := inMax - inMin;
    assert ((inMin + inMax) / 2.0 - inMin) == w / 2.0;
    assert w / 2.0 * (outMax - outMin) / w == (outMax - outMin) / 2.0;
  }

  /** Worked values: 5, -1 and 11 on [0, 10] -> [0, 100]. */
  lemma LinLinExamples()
    ensures LinLin(5.0, 0.0, 10.0, 0.0, 100.0) == 50.0
    ensures LinLin(-1.0, 0.0, 10.0, 0.0, 100.0) == 0.0
    ensures LinLin(11.0, 0.0, 10.0, 0.0, 100.0) == 100.0
  {
  }

  // ---------------------------------------------------------------- bilin

  /**
   * With the centre strictly inside the input range the outer guard never
   * changes bilin's result: whatever it clamps, the inner linlin clamps to the
   * same bound. So under every clip policy bilin is the upper linlin for
   * `x >= inCenter` and the lower linlin otherwise.
   */
  lemma BiLinSplitAtCentre(x: real, inCenter: real, inMin: real, inMax: real,
                           outCenter: real, outMin: real, outMax: real, mode: ClipMode)
    requires inMin < inCenter < inMax
    ensures BiLin(x, inCenter, inMin, inMax, outCenter, outMin, outMax, mode)
            == if x >= inCenter then LinLin(x, inCenter, inMax, outCenter, outMax)
               else LinLin(x, inMin, inCenter, outMin, outCenter)
  {
  }

  /**
   * With the centre strictly inside the input range the clip policy never
   * matters: bilin under any policy equals bilin with no outer clipping,
   * because the delegated linlin clamps to the same bounds.
   */
  lemma BiLinPolicyIrrelevant(x: real, inCenter: real, inMin: real, inMax: real,
                              outCenter: real, outMin: real, outMax: real, mode: ClipMode)
    requires inMin < inCenter < inMax
    ensures BiLin(x, inCenter, inMin, inMax, outCenter, outMin, outMax, mode)
            == BiLin(x, inCenter, inMin, inMax, outCenter, outMin, outMax, NoClip)
  {
    BiLinSplitAtCentre(x, inCenter, inMin, inMax, outCenter, outMin, outMax, mode);
    BiLinSplitAtCentre(x, inCenter, inMin, inMax, outCenter, outMin, outMax, NoClip);
  }

  /** The centre of the input range maps to the centre of the output range. */
  lemma BiLinAtCentre(inCenter: real, inMin: real, inMax: real,
                      outCenter: real, outMin: real, outMax: real, mode: ClipMode)
    requires inMin < inCenter < inMax
    ensures BiLin(inCenter, inCenter, inMin, inMax, outCenter, outMin, outMax, mode) == outCenter
  {
  }

  /**
   * bilin never leaves the hull of its three output points, under every clip
   * policy and for every input, because both inner linlin calls clamp.
   */
  lemma BiLinBounded(x: real, inCenter: real, inMin: real, inMax: real,
                     outCenter: real, outMin: real, outMax: real, mode: ClipMode)
    ensures Min3(outMin, outCenter, outMax) <= BiLin(x, inCenter, inMin, inMax, outCenter, outMin, outMax, mode)
    ensures BiLin(x, inCenter, inMin, inMax, outCenter, outMin, outMax, mode) <= Max3(outMin, outCenter, outMax)
  {
  }

  /** With increasing ranges bilin is nondecreasing in `x`, under every clip policy. */
  lemma BiLinMonotone(x1: real, x2: real, inCenter: real, inMin: real, inMax: real,
                      outCenter: real, outMin: real, outMax: real, mode: ClipMode)
    requires inMin < inCenter < inMax && outMin <= outCenter <= outMax && x1 <= x2
    ensures BiLin(x1, inCenter, inMin, inMax, outCenter, outMin, outMax, mode)
            <= BiLin(x2, inCenter, inMin, inMax, outCenter, outMin, outMax, mode)
  {
    BiLinSplitAtCentre(x1, inCenter, inMin, inMax, outCenter, outMin, outMax, mode);
    BiLinSplitAtCentre(x2, inCenter, inMin, inMax, outCenter, outMin, outMax, mode);
    if x2 < inCenter {
      LinLinMonotone(x1, x2, inMin, inCenter, outMin, outCenter);
    } else if inCenter <= x1 {
      LinLinMonotone(x1, x2, inCenter, inMax, outCenter, outMax);
    } else {
      LinLinBetween(x1, inMin, inCenter, outMin, outCenter);
      LinLinBetween(x2, inCenter, inMax, outCenter, outMax);
    }
  }

  /** The slope of the half of bilin that serves `x`. */
  function HalfSlope(x: real, inCenter: real, inMin: real, inMax: real,
                     outCenter: real, outMin: real, outMax: real): real
    requires inMin < inCenter < inMax
  {
    if x >= inCenter then (outMax - outCenter) / (inMax - inCenter)
    else (outCenter - outMin) / (inCenter - inMin)
  }

  /**
   * Inside the input range both halves of bilin are lines through
   * (inCenter, outCenter): the two pieces meet at the centre.
   */
  lemma BiLinPiecesMeetAtCentre(x: real, inCenter: real, inMin: real, inMax: real,
                                outCenter: real, outMin: real, outMax: real, mode: ClipMode)
    requires inMin < inCenter < inMax && inMin < x < inMax
    ensures BiLin(x, inCenter, inMin, inMax, outCenter, outMin, outMax, mode) - outCenter
            == (x - inCenter) * HalfSlope(x, inCenter, inMin, inMax, outCenter, outMin, outMax)
  {
    BiLinSplitAtCentre(x, inCenter, inMin, inMax, outCenter, outMin, outMax, mode);
    var s := HalfSlope(x, inCenter, inMin, inMax, outCenter, outMin, outMax);
    if x >= inCenter {
      if x > inCenter {
        var w := inMax - inCenter;
        assert outMax - outCenter == s * w;
        assert (x - inCenter) * (s * w) / w == (x - inCenter) * s;
      }
    } else {
      var w := inCenter - inMin;
      assert outCenter - outMin == s * w;
      assert (x - inMin) * (s * w) / w == (x - inMin) * s;
      assert (x - inMin) * s + outMin - outCenter == (x - inMin) * s - s * w;
    }
  }

  // ------------------------------------------------------------ continuity

  /** Every input within `delta` of `c` has its image within `eps` of `f(c)`. */
  ghost predicate WithinDelta(f: real -> real, c: real, eps: real, delta: real)
  {
    forall x :: c - delta < x < c + delta ==> f(c) - eps < f(x) < f(c) + eps
  }

  ghost predicate HasDelta(f: real -> real, c: real, eps: real)
  {
    exists delta :: 0.0 < delta && WithinDelta(f, c, eps, delta)
  }

  /** Continuity of `f` at `c`, in epsilon-delta form. */
  ghost predicate ContinuousAt(f: real -> real, c: real)
  {
    forall eps :: 0.0 < eps ==> HasDelta(f, c, eps)
  }

  /** A bound on the steepness of both halves of bilin. */
  function SlopeBound(inCenter: real, inMin: real, inMax: real,
                      outCenter: real, outMin: real, outMax: real): (k: real)
    requires inMin < inCenter < inMax
    ensures 1.0 <= k
  {
    Abs((outMax - outCenter) / (inMax - inCenter)) + Abs((outCenter - outMin) / (inCenter - inMin)) + 1.0
  }

  /** Either half's slope stays below the slope bound. */
  lemma HalfSlopeBelowBound(x: real, inCenter: real, inMin: real, inMax: real,
                            outCenter: real, outMin: real, outMax: real)
    requires inMin < inCenter < inMax
    ensures Abs(HalfSlope(x, inCenter, inMin, inMax, outCenter, outMin, outMax))
            < SlopeBound(inCenter, inMin, inMax, outCenter, outMin, outMax)
  {
  }

  /** Within `delta` of the centre, bilin stays within `delta * k <= eps` of `outCenter`. */
  lemma BiLinNearCentre(x: real, inCenter: real, inMin: real, inMax: real,
                        outCenter: real, outMin: real, outMax: real, mode: ClipMode,
                        delta: real, k: real, eps: real)
    requires inMin < inCenter < inMax
    requires delta <= inCenter - inMin && delta <= inMax - inCenter
    requires Abs(HalfSlope(x, inCenter, inMin, inMax, outCenter, outMin, outMax)) < k && delta * k <= eps
    requires inCenter - delta < x < inCenter + delta
    ensures outCenter - eps < BiLin(x, inCenter, inMin, inMax, outCenter, outMin, outMax, mode) < outCenter + eps
  {
    var s := HalfSlope(x, inCenter, inMin, inMax, outCenter, outMin, outMax);
    BiLinPiecesMeetAtCentre(x, inCenter, inMin, inMax, outCenter, outMin, outMax, mode);
    OffsetWithinEps(BiLin(x, inCenter, inMin, inMax, outCenter, outMin, outMax, mode), outCenter,
                    x - inCenter, s, delta, k, eps);
  }

  /** bilin is continuous at its centre, under every clip policy. */
  lemma BiLinContinuousAtCentre(inCenter: real, inMin: real, inMax: real,
                                outCenter: real, outMin: real, outMax: real, mode: ClipMode)
    requires inMin < inCenter < inMax
    ensures ContinuousAt(x => BiLin(x, inCenter, inMin, inMax, outCenter, outMin, outMax, mode), inCenter)
  {
    var f := x => BiLin(x, inCenter, inMin, inMax, outCenter, outMin, outMax, mode);
    BiLinAtCentre(inCenter, inMin, inMax, outCenter, outMin, outMax, mode);
    var k := SlopeBound(inCenter, inMin, inMax, outCenter, outMin, outMax);
    forall eps | 0.0 < eps
      ensures HasDelta(f, inCenter, eps)
    {
      var delta := Smaller(Smaller(inCenter - inMin, inMax - inCenter), eps / k);
      assert delta * k <= eps by {
        assert eps / k * k == eps;
        MulNonnegative(eps / k - delta, k);
      }
      forall x | inCenter - delta < x < inCenter + delta
        ensures f(inCenter) - eps < f(x) < f(inCenter) + eps
      {
        HalfSlopeBelowBound(x, inCenter, inMin, inMax, outCenter, outMin, outMax);
        BiLinNearCentre(x, inCenter, inMin, inMax, outCenter, outMin, outMax, mode, delta, k, eps);
      }
      assert WithinDelta(f, inCenter, eps, delta);
    }
  }
}
