/**
 * Properties of the maps built on the C library's log and pow: explin, the
 * split-range biexp built from it, expexp and linexp. The library routines
 * are parameters; each lemma names the laws of them it relies on.
 */
module LogProps {
  import opened Clip
  import opened InlineMath
  import opened LinearProps
  import opened RealFacts

  /** The laws of the natural logarithm used here: log 1 = 0, strictly increasing on the positives. */
  ghost predicate IsLog(m: Libm)
  {
    && m.log(1.0) == 0.0
    && forall a, b :: 0.0 < a < b ==> m.log(a) < m.log(b)
  }

  // ---------------------------------------------------------------- explin

  /**
   * With a positive input range and a lawful log, explin is defined, and its
   * interior value is a blend of the two output bounds with a weight strictly
   * between 0 and 1.
   */
  lemma ExpLinBetween(m: Libm, x: real, inMin: real, inMax: real, outMin: real, outMax: real)
    requires IsLog(m) && 0.0 < inMin
    ensures LogInputDefined(m, x, inMin, inMax)
    ensures LogInputDefined(m, x, inMin, inMax) && Between(ExpLin(m, x, inMin, inMax, outMin, outMax), outMin, outMax)
  {
    if inMin < x < inMax {
      LogWeightInUnit(m, x, inMin, inMax);
      InterpolationBetween(m.log(x / inMin) / m.log(inMax / inMin), outMin, outMax);
    }
  }

  /** The weight explin gives to the upper output bound, `log(x / inMin) / log(inMax / inMin)`. */
  lemma LogWeightInUnit(m: Libm, x: real, inMin: real, inMax: real)
    requires IsLog(m) && 0.0 < inMin < x < inMax
    ensures 0.0 < m.log(x / inMin) < m.log(inMax / inMin)
    ensures 0.0 < m.log(x / inMin) / m.log(inMax / inMin) < 1.0
  {
    DivStrictMonotone(inMin, x, inMin);
    DivStrictMonotone(x, inMax, inMin);
    SelfQuotient(inMin);
    QuotientInUnit(m.log(x / inMin), m.log(inMax / inMin));
  }

  /** With a positive input range, an increasing output range and a lawful log, explin is nondecreasing. */
  lemma ExpLinMonotone(m: Libm, x1: real, x2: real, inMin: real, inMax: real, outMin: real, outMax: real)
    requires IsLog(m) && 0.0 < inMin && outMin <= outMax && x1 <= x2
    ensures LogInputDefined(m, x1, inMin, inMax) && LogInputDefined(m, x2, inMin, inMax)
    ensures LogInputDefined(m, x1, inMin, inMax) && LogInputDefined(m, x2, inMin, inMax) &&
            ExpLin(m, x1, inMin, inMax, outMin, outMax) <= ExpLin(m, x2, inMin, inMax, outMin, outMax)
  {
    ExpLinBetween(m, x1, inMin, inMax, outMin, outMax);
    ExpLinBetween(m, x2, inMin, inMax, outMin, outMax);
    if inMin < x1 && x2 < inMax {
      LogWeightInUnit(m, x1, inMin, inMax);
      LogWeightInUnit(m, x2, inMin, inMax);
      var lr := m.log(inMax / inMin);
      if x1 < x2 {
        DivStrictMonotone(x1, x2, inMin);
      }
      DivMonotone(m.log(x1 / inMin), m.log(x2 / inMin), lr);
      MulNonnegative(m.log(x2 / inMin) / lr - m.log(x1 / inMin) / lr, outMax - outMin);
    }
  }

  // ---------------------------------------------------------------- biexp

  /** The centre of the input range maps to the centre of the output range, whatever the library. */
  lemma BiExpAtCentre(m: Libm, inCenter: real, inMin: real, inMax: real,
                      outCenter: real, outMin: real, outMax: real, mode: ClipMode)
    requires inMin < inCenter < inMax
    ensures BiExp(m, inCenter, inCenter, inMin, inMax, outCenter, outMin, outMax, mode) == outCenter
  {
  }

  /**
   * As for bilin, with the centre strictly inside the input range the outer
   * guard never changes biexp's result: under every clip policy it is explin
   * on the upper half for `x >= inCenter` and on the lower half otherwise.
   */
  lemma BiExpSplitAtCentre(m: Libm, x: real, inCenter: real, inMin: real, inMax: real,
                           outCenter: real, outMin: real, outMax: real, mode: ClipMode)
    requires inMin < inCenter < inMax && BiExpDefined(m, x, inCenter, inMin, inMax)
    ensures BiExp(m, x, inCenter, inMin, inMax, outCenter, outMin, outMax, mode)
            == if x >= inCenter then ExpLin(m, x, inCenter, inMax, outCenter, outMax)
               else ExpLin(m, x, inMin, inCenter, outMin, outCenter)
  {
  }

  /** As for bilin, with the centre strictly inside the input range biexp's clip policy never matters. */
  lemma BiExpPolicyIrrelevant(m: Libm, x: real, inCenter: real, inMin: real, inMax: real,
                              outCenter: real, outMin: real, outMax: real, mode: ClipMode)
    requires inMin < inCenter < inMax && BiExpDefined(m, x, inCenter, inMin, inMax)
    ensures BiExp(m, x, inCenter, inMin, inMax, outCenter, outMin, outMax, mode)
            == BiExp(m, x, inCenter, inMin, inMax, outCenter, outMin, outMax, NoClip)
  {
    BiExpSplitAtCentre(m, x, inCenter, inMin, inMax, outCenter, outMin, outMax, mode);
    BiExpSplitAtCentre(m, x, inCenter, inMin, inMax, outCenter, outMin, outMax, NoClip);
  }

  /**
   * With a positive input range and a lawful log, biexp is defined everywhere
   * and never leaves the hull of its three output points, under every policy.
   */
  lemma BiExpBounded(m: Libm, x: real, inCenter: real, inMin: real, inMax: real,
                     outCenter: real, outMin: real, outMax: real, mode: ClipMode)
    requires IsLog(m) && 0.0 < inMin < inCenter < inMax
    ensures BiExpDefined(m, x, inCenter, inMin, inMax)
    ensures BiExpDefined(m, x, inCenter, inMin, inMax) &&
            Min3(outMin, outCenter, outMax) <= BiExp(m, x, inCenter, inMin, inMax, outCenter, outMin, outMax, mode)
                                            <= Max3(outMin, outCenter, outMax)
  {
    ExpLinBetween(m, x, inCenter, inMax, outCenter, outMax);
    ExpLinBetween(m, x, inMin, inCenter, outMin, outCenter);
    BiExpSplitAtCentre(m, x, inCenter, inMin, inMax, outCenter, outMin, outMax, mode);
  }

  /** With increasing ranges, a positive input range and a lawful log, biexp is nondecreasing. */
  lemma BiExpMonotone(m: Libm, x1: real, x2: real, inCenter: real, inMin: real, inMax: real,
                      outCenter: real, outMin: real, outMax: real, mode: ClipMode)
    requires IsLog(m) && 0.0 < inMin < inCenter < inMax && outMin <= outCenter <= outMax && x1 <= x2
    ensures BiExpDefined(m, x1, inCenter, inMin, inMax) && BiExpDefined(m, x2, inCenter, inMin, inMax)
    ensures BiExpDefined(m, x1, inCenter, inMin, inMax) && BiExpDefined(m, x2, inCenter, inMin, inMax) &&
            BiExp(m, x1, inCenter, inMin, inMax, outCenter, outMin, outMax, mode)
            <= BiExp(m, x2, inCenter, inMin, inMax, outCenter, outMin, outMax, mode)
  {
    BiExpBounded(m, x1, inCenter, inMin, inMax, outCenter, outMin, outMax, mode);
    BiExpBounded(m, x2, inCenter, inMin, inMax, outCenter, outMin, outMax, mode);
    BiExpSplitAtCentre(m, x1, inCenter, inMin, inMax, outCenter, outMin, outMax, mode);
    BiExpSplitAtCentre(m, x2, inCenter, inMin, inMax, outCenter, outMin, outMax, mode);
    if x2 < inCenter {
      ExpLinMonotone(m, x1, x2, inMin, inCenter, outMin, outCenter);
    } else if inCenter <= x1 {
      ExpLinMonotone(m, x1, x2, inCenter, inMax, outCenter, outMax);
    } else {
      ExpLinBetween(m, x1, inMin, inCenter, outMin, outCenter);
      ExpLinBetween(m, x2, inCenter, inMax, outCenter, outMax);
    }
  }

  // -------------------------------------------------------- expexp, linexp

  /**
   * expexp's formula gives the clamp values at the two ends of the input
   * range, given log 1 = 0, pow(r, 0) = 1 and pow(r, 1) = r for the output ratio.
   */
  lemma ExpExpFormulaAtEnds(m: Libm, inMin: real, inMax: real, outMin: real, outMax: real)
    requires inMin != 0.0 && outMin != 0.0 && m.log(inMax / inMin) != 0.0 && m.log(1.0) == 0.0
    requires m.pow(outMax / outMin, 0.0) == 1.0 && m.pow(outMax / outMin, 1.0) == outMax / outMin
    ensures ExpExpFormula(m, inMin, inMin, inMax, outMin, outMax) == outMin
    ensures ExpExpFormula(m, inMax, inMin, inMax, outMin, outMax) == outMax
  {
    SelfQuotient(inMin);
    SelfQuotient(m.log(inMax / inMin));
    assert outMax / outMin * outMin == outMax;
  }

  /**
   * linexp's formula gives the clamp values at the two ends of the input
   * range, given pow(r, 0) = 1 and pow(r, 1) = r for the output ratio.
   */
  lemma LinExpFormulaAtEnds(m: Libm, inMin: real, inMax: real, outMin: real, outMax: real)
    requires inMin != inMax && outMin != 0.0
    requires m.pow(outMax / outMin, 0.0) == 1.0 && m.pow(outMax / outMin, 1.0) == outMax / outMin
    ensures LinExpFormula(m, inMin, inMin, inMax, outMin, outMax) == outMin
    ensures LinExpFormula(m, inMax, inMin, inMax, outMin, outMax) == outMax
  {
    SelfQuotient(inMax - inMin);
    assert outMax / outMin * outMin == outMax;
  }
}
