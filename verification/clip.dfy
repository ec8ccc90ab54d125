/**
 * The boundary-clamping policy shared by every map in inline_math.hpp.
 *
 * The fixed maps (linlin, explin, expexp, linexp) always clamp both ends; the
 * curved and split-range maps (lincurve, curvelin, bilin, biexp) select the
 * policy with a string. All of them run the same guard: the low test
 * `x <= in_min` before the high test `x >= in_max`, each returning the matching
 * output bound, or fall through to the map's formula.
 */
module Clip {

  datatype Option<T> = None | Some(value: T)

  /** The four clip policies: "minmax", "min", "max", and every other string. */
  datatype ClipMode = MinMax | Min | Max | NoClip

  /**
   * The strcmp chain that selects the policy: exactly "minmax", then exactly
   * "min", then exactly "max"; any other string (the documented "none"
   * included) clamps nothing.
   */
  function ParseClip(s: string): (mode: ClipMode)
    ensures mode == MinMax <==> s == "minmax"
    ensures mode == Min <==> s == "min"
    ensures mode == Max <==> s == "max"
    ensures mode == NoClip <==> s != "minmax" && s != "min" && s != "max"
  {
    if s == "minmax" then MinMax
    else if s == "min" then Min
    else if s == "max" then Max
    else NoClip
  }

  /** Reference definition: the inputs for which the guard lets `x` through to the formula. */
  predicate Passes(mode: ClipMode, x: real, inMin: real, inMax: real)
  {
    match mode
    case MinMax => inMin < x < inMax
    case Min => inMin < x
    case Max => x < inMax
    case NoClip => true
  }

  /**
   * The clip guard. `Some(v)` means the map returns `v` at once; `None` means
   * the map goes on to its formula.
   */
  function Guard(mode: ClipMode, x: real, inMin: real, inMax: real, outMin: real, outMax: real): (r: Option<real>)
    // the low end clamps under "minmax" and "min", and it is tested first
    ensures (mode == MinMax || mode == Min) && x <= inMin ==> r == Some(outMin)
    // the high end clamps under "minmax" (once the low test failed) and "max"
    ensures mode == MinMax && inMin < x && inMax <= x ==> r == Some(outMax)
    ensures mode == Max && inMax <= x ==> r == Some(outMax)
    // a clamp only ever yields one of the two output bounds
    ensures r.Some? ==> r.value == outMin || r.value == outMax
    // it falls through exactly on the inputs its policy leaves alone
    ensures r.None? <==> Passes(mode, x, inMin, inMax)
  {
    match mode
    case MinMax =>
      if x <= inMin then Some(outMin)
      else if x >= inMax then Some(outMax)
      else None
    case Min =>
      if x <= inMin then Some(outMin) else None
    case Max =>
      if x >= inMax then Some(outMax) else None
    case NoClip =>
      None
  }

  /**
   * On a proper input range, every policy is a weakening of "minmax": whatever
   * a policy clamps, "minmax" clamps to the same bound, and whatever "minmax"
   * lets through, every policy lets through.
   */
  lemma GuardWeakensMinMax(mode: ClipMode, x: real, inMin: real, inMax: real, outMin: real, outMax: real)
    requires inMin < inMax
    ensures Guard(mode, x, inMin, inMax, outMin, outMax).Some? ==>
              Guard(MinMax, x, inMin, inMax, outMin, outMax) == Guard(mode, x, inMin, inMax, outMin, outMax)
    ensures Passes(MinMax, x, inMin, inMax) ==> Guard(mode, x, inMin, inMax, outMin, outMax).None?
  {
  }
}
