/**
 * Properties of lincurve and curvelin: the zero-curve fallback, the ends of
 * the curve, the round trip between the two, and the precedence defect in
 * the coefficient of the curved branch.
 */
module CurveProps {
  import opened Clip
  import opened InlineMath
  import opened LinearProps
  import opened RealFacts

  // ------------------------------------------------------------ zero curve

  /** With a zero curve and "minmax" clipping, lincurve is linlin. */
  lemma LinCurveLinearIsLinLin(m: Libm, x: real, inMin: real, inMax: real, outMin: real, outMax: real)
    ensures LinCurve(m, x, inMin, inMax, outMin, outMax, 0, MinMax) == LinLin(x, inMin, inMax, outMin, outMax)
  {
  }

  /** With a zero curve and "minmax" clipping, curvelin is linlin too. */
  lemma CurveLinLinearIsLinLin(m: Libm, x: real, inMin: real, inMax: real, outMin: real, outMax: real)
    ensures CurveLin(m, x, inMin, inMax, outMin, outMax, 0, MinMax) == LinLin(x, inMin, inMax, outMin, outMax)
  {
  }

  /**
   * The zero-curve fallback does not clamp: without clipping, lincurve
   * extrapolates past both ends of an increasing output range.
   */
  lemma LinCurveLinearExtrapolates(m: Libm, x: real, inMin: real, inMax: real, outMin: real, outMax: real)
    requires inMin < inMax && outMin < outMax
    ensures inMax < x ==> outMax < LinCurve(m, x, inMin, inMax, outMin, outMax, 0, NoClip)
    ensures x < inMin ==> LinCurve(m, x, inMin, inMax, outMin, outMax, 0, NoClip) < outMin
  {
    var w, d := inMax - inMin, outMax - outMin;
    FallbackIsLinLinFormula(x, inMin, inMax, outMin, outMax);
    if inMax < x {
      SelfQuotient(w);
      DivStrictMonotone(w, x - inMin, w);
      MulPositive(Scaled(x, inMin, inMax) - 1.0, d);
    } else if x < inMin {
      DivStrictMonotone(x - inMin, 0.0, w);
      MulPositive(-Scaled(x, inMin, inMax), d);
    }
  }

  // ---------------------------------------------------------------- ends

  /**
   * lincurve meets the output bounds at the two ends of the input range under
   * every clip policy: the curve runs from outMin to outMax, so clamping
   * there changes nothing. Needs pow(g, 0) = 1 and pow(g, 1) = g for g = exp(curve).
   */
  lemma LinCurveAtEnds(m: Libm, inMin: real, inMax: real, outMin: real, outMax: real, curve: int, mode: ClipMode)
    requires inMin < inMax
    requires curve != 0 ==>
               var g := m.exp(curve as real);
               g != 1.0 && m.pow(g, 0.0) == 1.0 && m.pow(g, 1.0) == g
    ensures LinCurve(m, inMin, inMin, inMax, outMin, outMax, curve, mode) == outMin
    ensures LinCurve(m, inMax, inMin, inMax, outMin, outMax, curve, mode) == outMax
  {
    ScaledAtEnds(inMin, inMax);
    if curve != 0 {
      var g := m.exp(curve as real);
      var a := Coefficient(outMin, outMax, g);
      assert m.pow(g, Scaled(inMax, inMin, inMax)) == g;
      assert LinCurveBranch(m, a, inMax, inMin, inMax, outMin, curve) == outMin + a - a * g;
      assert a * (1.0 - g) == outMax - outMin;
    } else {
      LinLinAffineOnClosedRange(inMin, inMin, inMax, outMin, outMax);
      LinLinAffineOnClosedRange(inMax, inMin, inMax, outMin, outMax);
    }
  }

  /**
   * curvelin meets the output bounds at the two ends of the input range under
   * every clip policy. Needs log 1 = 0 and log(exp(curve)) = curve.
   */
  lemma CurveLinAtEnds(m: Libm, inMin: real, inMax: real, outMin: real, outMax: real, curve: int, mode: ClipMode)
    requires inMin < inMax
    requires curve != 0 ==>
               var g := m.exp(curve as real);
               g != 1.0 && m.log(1.0) == 0.0 && m.log(g) == curve as real
    ensures CurveLin(m, inMin, inMin, inMax, outMin, outMax, curve, mode) == outMin
    ensures CurveLin(m, inMax, inMin, inMax, outMin, outMax, curve, mode) == outMax
  {
    if curve != 0 {
      var g := m.exp(curve as real);
      var a := Coefficient(inMin, inMax, g);
      CoefficientNonzero(inMin, inMax, g);
      SelfQuotient(a);
      assert (inMin + a - inMin) / a == 1.0;
      assert a * (1.0 - g) == inMax - inMin;
      assert (inMin + a - inMax) / a == g;
      assert (curve as real) * (outMax - outMin) / (curve as real) == outMax - outMin;
    } else {
      LinLinAffineOnClosedRange(inMin, inMin, inMax, outMin, outMax);
      LinLinAffineOnClosedRange(inMax, inMin, inMax, outMin, outMax);
    }
  }

  // ------------------------------------------------------------ round trip

  /**
   * curvelin, given lincurve's output range as its input range and the same
   * curve, undoes lincurve when neither clips. Needs log(pow(exp(c), s)) = s * c
   * at the scaled position `s` of `x`.
   */
  lemma CurveLinInvertsLinCurve(m: Libm, x: real, inMin: real, inMax: real, outMin: real, outMax: real, curve: int)
    requires inMin != inMax && outMin != outMax
    requires curve != 0 ==>
               var g := m.exp(curve as real);
               var s := Scaled(x, inMin, inMax);
               g != 1.0 && m.log(m.pow(g, s)) == s * (curve as real)
    ensures CurveLin(m, LinCurve(m, x, inMin, inMax, outMin, outMax, curve, NoClip),
                     outMin, outMax, inMin, inMax, curve, NoClip) == x
  {
    var s := Scaled(x, inMin, inMax);
    var y := LinCurve(m, x, inMin, inMax, outMin, outMax, curve, NoClip);
    assert s * (inMax - inMin) + inMin == x;
    if curve == 0 {
      assert y == LinearFallback(x, inMin, inMax, outMin, outMax);
      FallbackInverse(s, outMin, outMax);
    } else {
      var g := m.exp(curve as real);
      var a := Coefficient(outMin, outMax, g);
      CoefficientNonzero(outMin, outMax, g);
      assert y == LinCurveBranch(m, a, x, inMin, inMax, outMin, curve);
      assert CurveLin(m, y, outMin, outMax, inMin, inMax, curve, NoClip)
             == CurveLinBranch(m, a, y, outMin, inMin, inMax, curve);
      CurvedBranchesRoundTrip(m, a, x, inMin, inMax, outMin, curve);
    }
  }

  /** The curved branches with a shared coefficient: curvelin's undoes lincurve's. */
  lemma CurvedBranchesRoundTrip(m: Libm, a: real, x: real, inMin: real, inMax: real, outMin: real, curve: int)
    requires inMin != inMax && a != 0.0 && curve != 0
    requires var s := Scaled(x, inMin, inMax); m.log(m.pow(m.exp(curve as real), s)) == s * (curve as real)
    ensures CurveLinBranch(m, a, LinCurveBranch(m, a, x, inMin, inMax, outMin, curve), outMin, inMin, inMax, curve) == x
  {
    var s := Scaled(x, inMin, inMax);
    var y := LinCurveBranch(m, a, x, inMin, inMax, outMin, curve);
    var p := m.pow(m.exp(curve as real), s);
    assert y == outMin + a - a * p;
    CurvedBranchInverse(a, p, y, outMin);
    assert m.log((outMin + a - y) / a) == s * (curve as real);
    UnscaleByCurve(s, curve as real, inMin, inMax);
    assert s * (inMax - inMin) + inMin == x;
  }

  /** Reading the zero-curve fallback's value back onto the unit position. */
  lemma FallbackInverse(s: real, outMin: real, outMax: real)
    requires outMin != outMax
    ensures Scaled(s * (outMax - outMin) + outMin, outMin, outMax) == s
  {
  }

  /** With `b = outMin + a`, the value `b - a * p` gives back `p` as `(b - y) / a`. */
  lemma CurvedBranchInverse(a: real, p: real, y: real, outMin: real)
    requires a != 0.0 && y == outMin + a - a * p
    ensures (outMin + a - y) / a == p
  {
  }

  lemma UnscaleByCurve(s: real, c: real, inMin: real, inMax: real)
    requires c != 0.0
    ensures s * c * (inMax - inMin) / c + inMin == s * (inMax - inMin) + inMin
  {
  }

  // ------------------------------------------------ the coefficient defect

  /**
   * As the source is written, lincurve's curve ends at outMax * (1 - g), not
   * at outMax: with g = exp(curve) the two differ unless outMax is 0.
   */
  lemma LinCurveAsWrittenMissesTop(m: Libm, inMin: real, inMax: real, outMin: real, outMax: real, curve: int)
    requires inMin < inMax && curve != 0
    requires var g := m.exp(curve as real); g != 1.0 && m.pow(g, 1.0) == g
    ensures LinCurveAsWritten(m, inMax, inMin, inMax, outMin, outMax, curve, NoClip)
            == outMax * (1.0 - m.exp(curve as real))
    ensures outMax != 0.0 && m.exp(curve as real) != 0.0 ==>
              LinCurveAsWritten(m, inMax, inMin, inMax, outMin, outMax, curve, NoClip) != outMax
  {
    ScaledAtEnds(inMin, inMax);
    var g := m.exp(curve as real);
    assert outMin / (1.0 - g) * (1.0 - g) == outMin;
    if outMax != 0.0 && g != 0.0 {
      MulNonzero(outMax, g);
    }
  }

  /**
   * The round trip holds for the coefficient as written as well: with the
   * ranges swapped, lincurve and curvelin build the same misparsed `a` and
   * the same `b`, so a round-trip test cannot reveal the defect.
   */
  lemma AsWrittenRoundTripHolds(m: Libm, x: real, inMin: real, inMax: real, outMin: real, outMax: real, curve: int)
    requires inMin != inMax && outMin != outMax && curve != 0
    requires var g := m.exp(curve as real);
             var s := Scaled(x, inMin, inMax);
             g != 1.0 && CoefficientAsWritten(outMin, outMax, g) != 0.0 && m.log(m.pow(g, s)) == s * (curve as real)
    ensures CurveLinAsWritten(m, LinCurveAsWritten(m, x, inMin, inMax, outMin, outMax, curve, NoClip),
                              outMin, outMax, inMin, inMax, curve, NoClip) == x
  {
    var a := CoefficientAsWritten(outMin, outMax, m.exp(curve as real));
    CurvedBranchesRoundTrip(m, a, x, inMin, inMax, outMin, curve);
  }

  /**
   * As the source is written, curvelin on an input range starting at 0 takes
   * the log of 0 at the top of the range (an infinity in C), where the
   * parenthesised coefficient gives outMax (CurveLinAtEnds).
   */
  lemma CurveLinAsWrittenLogOfZero(m: Libm, inMax: real, outMin: real, outMax: real, curve: int)
    requires 0.0 < inMax && curve != 0 && m.exp(curve as real) != 1.0
    ensures CoefficientAsWritten(0.0, inMax, m.exp(curve as real)) == inMax
    ensures CurveLinAsWritten(m, inMax, 0.0, inMax, outMin, outMax, curve, NoClip)
            == m.log(0.0) * (outMax - outMin) / (curve as real) + outMin
  {
  }
}
