/**
 * The range-mapping functions of inline_math.hpp, over exact reals.
 *
 * Each map sends `x` from the input range [inMin, inMax] to the output range
 * [outMin, outMax]. It first runs the clip guard of module Clip (the fixed maps
 * always with "minmax"), then evaluates its formula. The C library's exp, log
 * and pow are passed in as a `Libm` value, since the model has no
 * transcendental functions of its own; lemmas that need a law of them say so
 * in their requires.
 *
 * A division whose divisor may be zero in C (and yields an infinity or NaN
 * there) is a caller obligation; each function requires exactly the
 * conditions under which the branch it takes divides by a nonzero value.
 */
module InlineMath {
  import opened Clip
  import opened RealFacts

  /** The C math library routines the header calls. */
  datatype Libm = Libm(exp: real -> real, log: real -> real, pow: (real, real) -> real)

  // ---------------------------------------------------------------- linlin

  /** The affine formula of linlin, in the source's order of operations. */
  function LinLinFormula(x: real, inMin: real, inMax: real, outMin: real, outMax: real): real
    requires inMin != inMax
  {
    (x - inMin) * (outMax - outMin) / (inMax - inMin) + outMin
  }

  /** linlin: a clamped affine conversion; the low clamp wins a tie with the high one. */
  function LinLin(x: real, inMin: real, inMax: real, outMin: real, outMax: real): (r: real)
    ensures x <= inMin ==> r == outMin
    ensures inMin < x && inMax <= x ==> r == outMax
    ensures inMin < x < inMax ==> r == LinLinFormula(x, inMin, inMax, outMin, outMax)
  {
    match Guard(MinMax, x, inMin, inMax, outMin, outMax)
    case Some(v) => v
    case None => LinLinFormula(x, inMin, inMax, outMin, outMax)
  }

  // ------------------------------------------------- explin, expexp, linexp

  /** The divisions explin and expexp perform on the input side are by nonzero values. */
  predicate LogInputDefined(m: Libm, x: real, inMin: real, inMax: real)
  {
    inMin < x < inMax ==> inMin != 0.0 && m.log(inMax / inMin) != 0.0
  }

  /** explin: logarithmic input, linear output, both ends clamped. */
  function ExpLin(m: Libm, x: real, inMin: real, inMax: real, outMin: real, outMax: real): (r: real)
    requires LogInputDefined(m, x, inMin, inMax)
    ensures x <= inMin ==> r == outMin
    ensures inMin < x && inMax <= x ==> r == outMax
  {
    match Guard(MinMax, x, inMin, inMax, outMin, outMax)
    case Some(v) => v
    case None => m.log(x / inMin) / m.log(inMax / inMin) * (outMax - outMin) + outMin
  }

  /** The formula of expexp, without its clamps. */
  function ExpExpFormula(m: Libm, x: real, inMin: real, inMax: real, outMin: real, outMax: real): real
    requires inMin != 0.0 && outMin != 0.0 && m.log(inMax / inMin) != 0.0
  {
    m.pow(outMax / outMin, m.log(x / inMin) / m.log(inMax / inMin)) * outMin
  }

  /** expexp: logarithmic input, exponential output, both ends clamped. */
  function ExpExp(m: Libm, x: real, inMin: real, inMax: real, outMin: real, outMax: real): (r: real)
    requires LogInputDefined(m, x, inMin, inMax)
    requires inMin < x < inMax ==> outMin != 0.0
    ensures x <= inMin ==> r == outMin
    ensures inMin < x && inMax <= x ==> r == outMax
  {
    match Guard(MinMax, x, inMin, inMax, outMin, outMax)
    case Some(v) => v
    case None => ExpExpFormula(m, x, inMin, inMax, outMin, outMax)
  }

  /** The formula of linexp, without its clamps. */
  function LinExpFormula(m: Libm, x: real, inMin: real, inMax: real, outMin: real, outMax: real): real
    requires inMin != inMax && outMin != 0.0
  {
    m.pow(outMax / outMin, (x - inMin) / (inMax - inMin)) * outMin
  }

  /** linexp: linear input, exponential output, both ends clamped. */
  function LinExp(m: Libm, x: real, inMin: real, inMax: real, outMin: real, outMax: real): (r: real)
    requires inMin < x < inMax ==> outMin != 0.0
    ensures x <= inMin ==> r == outMin
    ensures inMin < x && inMax <= x ==> r == outMax
  {
    match Guard(MinMax, x, inMin, inMax, outMin, outMax)
    case Some(v) => v
    case None => LinExpFormula(m, x, inMin, inMax, outMin, outMax)
  }

  // ------------------------------------------------------ lincurve, curvelin

  /**
   * The degenerate-curve test `abs(curve) < 0.001`. The curve is an int, so
   * the test holds for zero alone.
   */
  function IsLinearCurve(curve: int): (linear: bool)
    ensures linear <==> curve == 0
  {
    (if curve < 0 then -curve else curve) as real < 0.001
  }

  /** The position of `x` in the input range, 0 at `inMin` and 1 at `inMax` (the source's `scaled`). */
  function Scaled(x: real, inMin: real, inMax: real): real
    requires inMin != inMax
  {
    (x - inMin) / (inMax - inMin)
  }

  /** `scaled` is 0 at the bottom of the input range and 1 at its top. */
  lemma ScaledAtEnds(inMin: real, inMax: real)
    requires inMin != inMax
    ensures Scaled(inMin, inMin, inMax) == 0.0 && Scaled(inMax, inMin, inMax) == 1.0
  {
    SelfQuotient(inMax - inMin);
  }

  /** The linear fallback of lincurve and curvelin for a zero curve; it does not clamp. */
  function LinearFallback(x: real, inMin: real, inMax: real, outMin: real, outMax: real): real
    requires inMin != inMax
  {
    Scaled(x, inMin, inMax) * (outMax - outMin) + outMin
  }

  /**
   * The coefficient `a` of the curved branches, parenthesised as
   * `(hi - lo) / (1 - grow)`; see CoefficientAsWritten for the source's parse.
   */
  function Coefficient(lo: real, hi: real, grow: real): real
    requires grow != 1.0
  {
    (hi - lo) / (1.0 - grow)
  }

  /** The coefficient as the source's expression parses: `hi - (lo / (1 - grow))`. */
  function CoefficientAsWritten(lo: real, hi: real, grow: real): real
    requires grow != 1.0
  {
    hi - lo / (1.0 - grow)
  }

  /** The curved branch of lincurve for a given coefficient `a`: `b - a * grow^scaled` with `b = outMin + a`. */
  function LinCurveBranch(m: Libm, a: real, x: real, inMin: real, inMax: real, outMin: real, curve: int): real
    requires inMin != inMax
  {
    var grow := m.exp(curve as real);
    var b := outMin + a;
    b - a * m.pow(grow, Scaled(x, inMin, inMax))
  }

  /** The curved branch of curvelin for a given coefficient `a`: `log((b - x) / a) * (outMax - outMin) / curve + outMin`. */
  function CurveLinBranch(m: Libm, a: real, x: real, inMin: real, outMin: real, outMax: real, curve: int): real
    requires a != 0.0 && curve != 0
  {
    var b := inMin + a;
    m.log((b - x) / a) * (outMax - outMin) / (curve as real) + outMin
  }

  /** The divisions of lincurve and curvelin that run when the guard lets `x` through are by nonzero values. */
  predicate CurveDefined(m: Libm, mode: ClipMode, x: real, inMin: real, inMax: real, curve: int)
  {
    Passes(mode, x, inMin, inMax) ==> inMin != inMax && (curve != 0 ==> m.exp(curve as real) != 1.0)
  }

  /**
   * lincurve: a linear input mapped onto an exponential-growth curve, with a
   * selectable clip policy. A zero curve falls back to the unclamped affine map.
   */
  function LinCurve(m: Libm, x: real, inMin: real, inMax: real, outMin: real, outMax: real,
                    curve: int := -4, mode: ClipMode := MinMax): (r: real)
    requires CurveDefined(m, mode, x, inMin, inMax, curve)
    ensures !Passes(mode, x, inMin, inMax) ==> r == Guard(mode, x, inMin, inMax, outMin, outMax).value
    ensures Passes(mode, x, inMin, inMax) && curve == 0 ==> r == LinLinFormula(x, inMin, inMax, outMin, outMax)
  {
    match Guard(mode, x, inMin, inMax, outMin, outMax)
    case Some(v) => v
    case None =>
      if IsLinearCurve(curve) then
        FallbackIsLinLinFormula(x, inMin, inMax, outMin, outMax);
        LinearFallback(x, inMin, inMax, outMin, outMax)
      else
        var grow := m.exp(curve as real);
        LinCurveBranch(m, Coefficient(outMin, outMax, grow), x, inMin, inMax, outMin, curve)
  }

  /**
   * curvelin: the inverse of lincurve, reading a curved input back onto a
   * linear output, with the same clip policies and zero-curve fallback.
   */
  function CurveLin(m: Libm, x: real, inMin: real, inMax: real, outMin: real, outMax: real,
                    curve: int := -4, mode: ClipMode := MinMax): (r: real)
    requires CurveDefined(m, mode, x, inMin, inMax, curve)
    ensures !Passes(mode, x, inMin, inMax) ==> r == Guard(mode, x, inMin, inMax, outMin, outMax).value
    ensures Passes(mode, x, inMin, inMax) && curve == 0 ==> r == LinLinFormula(x, inMin, inMax, outMin, outMax)
  {
    match Guard(mode, x, inMin, inMax, outMin, outMax)
    case Some(v) => v
    case None =>
      if IsLinearCurve(curve) then
        FallbackIsLinLinFormula(x, inMin, inMax, outMin, outMax);
        LinearFallback(x, inMin, inMax, outMin, outMax)
      else
        var grow := m.exp(curve as real);
        CoefficientNonzero(inMin, inMax, grow);
        CurveLinBranch(m, Coefficient(inMin, inMax, grow), x, inMin, outMin, outMax, curve)
  }

  /**
   * lincurve with the curved branch's coefficient as the source's expression
   * parses (see CoefficientAsWritten). It differs from LinCurve only there.
   */
  function LinCurveAsWritten(m: Libm, x: real, inMin: real, inMax: real, outMin: real, outMax: real,
                             curve: int := -4, mode: ClipMode := MinMax): (r: real)
    requires CurveDefined(m, mode, x, inMin, inMax, curve)
    ensures !(Passes(mode, x, inMin, inMax) && curve != 0) ==>
              r == LinCurve(m, x, inMin, inMax, outMin, outMax, curve, mode)
  {
    match Guard(mode, x, inMin, inMax, outMin, outMax)
    case Some(v) => v
    case None =>
      if IsLinearCurve(curve) then LinearFallback(x, inMin, inMax, outMin, outMax)
      else
        var grow := m.exp(curve as real);
        LinCurveBranch(m, CoefficientAsWritten(outMin, outMax, grow), x, inMin, inMax, outMin, curve)
  }

  /**
   * curvelin with the curved branch's coefficient as the source's expression
   * parses. That coefficient can vanish on a proper range, so its division
   * is an extra obligation. It differs from CurveLin only in the curved branch.
   */
  function CurveLinAsWritten(m: Libm, x: real, inMin: real, inMax: real, outMin: real, outMax: real,
                             curve: int := -4, mode: ClipMode := MinMax): (r: real)
    requires CurveDefined(m, mode, x, inMin, inMax, curve)
    requires Passes(mode, x, inMin, inMax) && curve != 0 ==>
               CoefficientAsWritten(inMin, inMax, m.exp(curve as real)) != 0.0
    ensures !(Passes(mode, x, inMin, inMax) && curve != 0) ==>
              r == CurveLin(m, x, inMin, inMax, outMin, outMax, curve, mode)
  {
    match Guard(mode, x, inMin, inMax, outMin, outMax)
    case Some(v) => v
    case None =>
      if IsLinearCurve(curve) then LinearFallback(x, inMin, inMax, outMin, outMax)
      else
        var grow := m.exp(curve as real);
        CurveLinBranch(m, CoefficientAsWritten(inMin, inMax, grow), x, inMin, outMin, outMax, curve)
  }

  /** Over the reals the fallback's order of operations gives linlin's formula. */
  lemma FallbackIsLinLinFormula(x: real, inMin: real, inMax: real, outMin: real, outMax: real)
    requires inMin != inMax
    ensures LinearFallback(x, inMin, inMax, outMin, outMax) == LinLinFormula(x, inMin, inMax, outMin, outMax)
  {
    var w := inMax - inMin;
    assert (x - inMin) / w * (outMax - outMin) == (x - inMin) * (outMax - outMin) / w;
  }

  /** The parenthesised coefficient vanishes only on an empty range. */
  lemma CoefficientNonzero(lo: real, hi: real, grow: real)
    requires grow != 1.0 && lo != hi
    ensures Coefficient(lo, hi, grow) != 0.0
  {
  }

  // ------------------------------------------------------------ bilin, biexp

  /**
   * bilin: a three-point piecewise-linear map. After the outer guard, the
   * upper half [inCenter, inMax] -> [outCenter, outMax] serves `x >= inCenter`
   * and the lower half [inMin, inCenter] -> [outMin, outCenter] the rest.
   */
  function BiLin(x: real, inCenter: real, inMin: real, inMax: real,
                 outCenter: real, outMin: real, outMax: real, mode: ClipMode := MinMax): (r: real)
    ensures !Passes(mode, x, inMin, inMax) ==> r == Guard(mode, x, inMin, inMax, outMin, outMax).value
    ensures Passes(mode, x, inMin, inMax) && inCenter <= x ==> Between(r, outCenter, outMax)
    ensures Passes(mode, x, inMin, inMax) && x < inCenter ==> Between(r, outMin, outCenter)
  {
    match Guard(mode, x, inMin, inMax, outMin, outMax)
    case Some(v) => v
    case None =>
      if x >= inCenter then
        LinLinBetween(x, inCenter, inMax, outCenter, outMax);
        LinLin(x, inCenter, inMax, outCenter, outMax)
      else
        LinLinBetween(x, inMin, inCenter, outMin, outCenter);
        LinLin(x, inMin, inCenter, outMin, outCenter)
  }

  /** The explin call biexp makes for `x` is defined: the upper half for `x >= inCenter`, else the lower half. */
  predicate BiExpDefined(m: Libm, x: real, inCenter: real, inMin: real, inMax: real)
  {
    if x >= inCenter then LogInputDefined(m, x, inCenter, inMax)
    else LogInputDefined(m, x, inMin, inCenter)
  }

  /** biexp: bilin's guard and split, with explin on each half. */
  function BiExp(m: Libm, x: real, inCenter: real, inMin: real, inMax: real,
                 outCenter: real, outMin: real, outMax: real, mode: ClipMode := MinMax): (r: real)
    requires Passes(mode, x, inMin, inMax) ==> BiExpDefined(m, x, inCenter, inMin, inMax)
    ensures !Passes(mode, x, inMin, inMax) ==> r == Guard(mode, x, inMin, inMax, outMin, outMax).value
    ensures Passes(mode, x, inMin, inMax) && inCenter <= x ==> r == ExpLin(m, x, inCenter, inMax, outCenter, outMax)
    ensures Passes(mode, x, inMin, inMax) && x < inCenter ==> r == ExpLin(m, x, inMin, inCenter, outMin, outCenter)
  {
    match Guard(mode, x, inMin, inMax, outMin, outMax)
    case Some(v) => v
    case None =>
      if x >= inCenter then ExpLin(m, x, inCenter, inMax, outCenter, outMax)
      else ExpLin(m, x, inMin, inCenter, outMin, outCenter)
  }

  // ------------------------------------------------------------------ sum3rand

  /**
   * sum3rand: the sum of three draws of Arduino's random(min, max). The draws
   * come from outside the header, so they are parameters here.
   */
  function Sum3Rand(lo: int, hi: int, d1: int, d2: int, d3: int): (r: int)
    ensures lo <= d1 < hi && lo <= d2 < hi && lo <= d3 < hi ==> 3 * lo <= r <= 3 * (hi - 1)
  {
    d1 + d2 + d3
  }

  // ------------------------------------------------------------ shared facts

  /** linlin never leaves the output range, whatever the order of either range. */
  lemma LinLinBetween(x: real, inMin: real, inMax: real, outMin: real, outMax: real)
    ensures Between(LinLin(x, inMin, inMax, outMin, outMax), outMin, outMax)
  {
    if inMin < x < inMax {
      var t := (x - inMin) / (inMax - inMin);
      QuotientInUnit(x - inMin, inMax - inMin);
      assert LinLinFormula(x, inMin, inMax, outMin, outMax) == t * (outMax - outMin) + outMin;
      InterpolationBetween(t, outMin, outMax);
    }
  }
}
