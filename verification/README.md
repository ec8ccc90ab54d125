# inline_math.hpp range mappers, in Dafny

`inline_math.hpp` is a header of small range-mapping templates for Arduino
sketches. Each map sends a value `x` from an input range `[in_min, in_max]` to
an output range `[out_min, out_max]`:

- `linlin` maps linearly.
- `explin`, `expexp` and `linexp` use a logarithmic input, an exponential
  output, or both.
- `lincurve` and `curvelin` follow an exponential-growth curve and its inverse.
  They are steered by an integer `curve` and a clip policy string.
- `bilin` and `biexp` map three points: a centre and the two ends.
- `sum3rand` adds three random draws.

This project models the header over exact reals:

- `Clip` (clip.dfy) holds the four clip policies and the clip guard. Every map
  runs this guard before its formula. The guard tests the low end first, and
  each test returns the matching output bound at once.
- `InlineMath` (inline_math.dfy) holds every map as a function. The C library's
  `exp`, `log` and `pow` are fields of a `Libm` value passed in. Where a lemma
  needs a law of them, such as log 1 = 0, a strictly increasing log, or
  pow(g, 1) = g, it states that law in its requires.
- `LinearProps`, `LogProps` and `CurveProps` prove the maps' properties:
  - the boundary ties;
  - bounds;
  - monotonicity;
  - continuity of `bilin` at its centre;
  - the zero-curve fallback and its extrapolation without clipping;
  - the `lincurve`/`curvelin` round trip;
  - the coefficient defect recorded below.
- `RealFacts` holds small facts of ordered-field arithmetic used by the proofs.

Notes on reading the header:

- `bilin` and `biexp` call `linlin` and `explin` with a sixth argument `"none"`
  (inline_math.hpp:100, 102, 120, 122). Those templates take five parameters,
  so the calls do not compile. The model makes the evident five-argument call.
  That call always clamps, so the inner clipping is never switched off.
  Under every policy, `bilin` therefore stays within the hull of its three
  output points (`LinearProps.BiLinBounded`).
  With `in_min < in_center < in_max`, the clip argument of `bilin` and
  `biexp` then never changes the result (`LinearProps.BiLinPolicyIrrelevant`,
  `LogProps.BiExpPolicyIrrelevant`): whatever the outer guard lets through,
  the inner call clamps to the same bound. The trailing `"none"` suggests the
  authors meant the halves to be unclamped. In that case "min", "max" and no
  clipping would extrapolate beyond the outer ends. The model does not capture
  that reading, because the header never defines it.
- `curve` is an `int`, so the degenerate-curve test `abs(curve) < 0.001` holds
  for `curve == 0` alone, among the values the model's unbounded `curve` takes
  (see `IsLinearCurve` under "Left out" for `INT_MIN`). The zero-curve
  fallback does not clamp on its own.
- The clip string is read by a `strcmp` chain: "minmax", then "min", then
  "max". Every other string, "none" included, clamps nothing. `Clip.ParseClip`
  maps a string to the policy. The maps take the policy itself, with "minmax"
  as the default, and `curve` defaults to -4, as in the header.
- The header's divisions by zero yield infinities or NaN in C. Here each
  function requires that the divisor of the branch it takes is nonzero.

## Model

| member | source | states |
|---|---|---|
| Clip.ParseClip | inline_math.hpp:41-52 | "minmax", "min" and "max" select their own policy, and only those strings do; every other string selects no clipping |
| Clip.Guard | inline_math.hpp:41-52 | low-end clamp to out_min under minmax and min, tested first; high-end clamp to out_max under minmax (only after the low test fails) and max; a clamp yields only an output bound; it falls through exactly when `Passes` holds |
| Clip.GuardWeakensMinMax | inline_math.hpp:41-52 | on a proper range, whatever a policy clamps, minmax clamps to the same bound, and whatever minmax lets through, every policy lets through |
| InlineMath.LinLin | inline_math.hpp:7-13 | out_min when x <= in_min (which wins a tie with the high end); out_max when in_min < x and x >= in_max; the affine formula strictly inside |
| InlineMath.LinLinBetween | inline_math.hpp:7-13 | linlin's result lies between out_min and out_max, for every input and either order of the ranges |
| LinearProps.LinLinAffineOnClosedRange | inline_math.hpp:7-13 | on a proper range, linlin equals its affine formula on the whole closed range, both ends included |
| LinearProps.LinLinMonotone | inline_math.hpp:7-13 | with increasing ranges, linlin is nondecreasing in x |
| LinearProps.LinLinMidpoint | inline_math.hpp:12 | the midpoint of the input range maps to the midpoint of the output range |
| LinearProps.LinLinExamples | inline_math.hpp:7-13 | on [0,10] -> [0,100]: 5 gives 50, -1 clamps to 0, 11 clamps to 100 |
| InlineMath.ExpLin | inline_math.hpp:15-21 | explin's low and high clamps, in linlin's order |
| LogProps.ExpLinBetween | inline_math.hpp:15-21 | for a positive input range and a lawful log, explin is defined and lies between out_min and out_max |
| LogProps.LogWeightInUnit | inline_math.hpp:20 | strictly inside a positive range, explin's weight log(x/in_min)/log(in_max/in_min) lies strictly between 0 and 1 |
| LogProps.ExpLinMonotone | inline_math.hpp:15-21 | for a positive input range, an increasing output range and a lawful log, explin is nondecreasing |
| InlineMath.ExpExp | inline_math.hpp:23-29 | expexp's low and high clamps, in linlin's order |
| LogProps.ExpExpFormulaAtEnds | inline_math.hpp:28 | expexp's formula meets out_min at in_min and out_max at in_max, so its clamps are continuous with it |
| InlineMath.LinExp | inline_math.hpp:31-37 | linexp's low and high clamps, in linlin's order |
| LogProps.LinExpFormulaAtEnds | inline_math.hpp:36 | linexp's formula meets out_min at in_min and out_max at in_max |
| InlineMath.IsLinearCurve | inline_math.hpp:53 | the degenerate-curve test on an int curve holds exactly when the curve is 0 |
| InlineMath.LinCurve | inline_math.hpp:39-61 | lincurve with the corrected, parenthesised coefficient `(out_max - out_min) / (1 - grow)` in place of line 57's parse, which LinCurveAsWritten models: whenever the selected policy clamps, the result is the guard's bound; when it does not and the curve is 0, the result is the unclamped affine formula |
| InlineMath.CurveLin | inline_math.hpp:63-84 | curvelin with the corrected, parenthesised coefficient `(in_max - in_min) / (1 - grow)` in place of line 81's parse, which CurveLinAsWritten models: the same clamp and zero-curve rules as lincurve |
| InlineMath.FallbackIsLinLinFormula | inline_math.hpp:54 | the fallback's order of operations, scaled * (out_max - out_min) + out_min, equals linlin's formula |
| CurveProps.LinCurveLinearIsLinLin | inline_math.hpp:41-54 | with curve 0 and minmax clipping, lincurve is linlin |
| CurveProps.CurveLinLinearIsLinLin | inline_math.hpp:65-78 | with curve 0 and minmax clipping, curvelin is linlin |
| CurveProps.LinCurveLinearExtrapolates | inline_math.hpp:53-54 | with curve 0 and no clipping, lincurve exceeds out_max above in_max and falls below out_min under in_min |
| CurveProps.LinCurveAtEnds | inline_math.hpp:56-60 | with the parenthesised coefficient, lincurve gives out_min at in_min and out_max at in_max under every policy and every curve |
| CurveProps.CurveLinAtEnds | inline_math.hpp:80-83 | with the parenthesised coefficient, curvelin gives out_min at in_min and out_max at in_max under every policy and every curve |
| CurveProps.CurveLinInvertsLinCurve | inline_math.hpp:80-83 | without clipping, curvelin over lincurve's output range undoes lincurve: it returns x, for every curve |
| CurveProps.CurvedBranchesRoundTrip | inline_math.hpp:80-83 | the curved branches built from one coefficient a are inverse: curvelin's branch returns x from lincurve's |
| InlineMath.LinCurveAsWritten | inline_math.hpp:57 | lincurve with the coefficient as the header parses it agrees with LinCurve except in the curved branch |
| InlineMath.CurveLinAsWritten | inline_math.hpp:81 | curvelin with the coefficient as the header parses it agrees with CurveLin except in the curved branch |
| CurveProps.LinCurveAsWrittenMissesTop | inline_math.hpp:57-60 | as written, lincurve at in_max without clipping gives out_max * (1 - exp(curve)), which is not out_max when out_max and exp(curve) are nonzero |
| CurveProps.CurveLinAsWrittenLogOfZero | inline_math.hpp:81-83 | as written, curvelin on a range starting at 0 takes log(0) at in_max |
| CurveProps.AsWrittenRoundTripHolds | inline_math.hpp:57-60 | the round trip holds for the coefficient as written too, so it cannot reveal the defect |
| InlineMath.BiLin | inline_math.hpp:86-104 | the guard's bound when the policy clamps; otherwise a value between out_center and out_max for x >= in_center, and between out_min and out_center below |
| LinearProps.BiLinSplitAtCentre | inline_math.hpp:99-103 | with in_min < in_center < in_max, under every policy bilin is the upper linlin for x >= in_center and the lower linlin otherwise; the centre belongs to the upper half |
| LinearProps.BiLinPolicyIrrelevant | inline_math.hpp:86-104 | with in_min < in_center < in_max, bilin gives the same result under every clip policy as with no clipping, because the delegated linlin clamps anyway |
| LinearProps.BiLinAtCentre | inline_math.hpp:99-100 | bilin maps in_center to out_center under every policy |
| LinearProps.BiLinBounded | inline_math.hpp:99-103 | for every input and every policy, no clipping included, bilin lies between the least and greatest of its three output points |
| LinearProps.BiLinMonotone | inline_math.hpp:86-104 | with increasing three-point ranges, bilin is nondecreasing under every policy |
| LinearProps.BiLinPiecesMeetAtCentre | inline_math.hpp:99-103 | inside the input range, each half of bilin is a line through (in_center, out_center) |
| LinearProps.BiLinNearCentre | inline_math.hpp:99-103 | within delta of the centre, bilin stays within delta times a slope bound of out_center |
| LinearProps.BiLinContinuousAtCentre | inline_math.hpp:99-103 | bilin is continuous at in_center under every policy, in epsilon-delta form |
| InlineMath.BiExp | inline_math.hpp:106-124 | the guard's bound when the policy clamps; otherwise explin on the upper half for x >= in_center and on the lower half below |
| LogProps.BiExpAtCentre | inline_math.hpp:119-120 | biexp maps in_center to out_center under every policy, whatever the library |
| LogProps.BiExpSplitAtCentre | inline_math.hpp:119-123 | with in_min < in_center < in_max, under every policy biexp is explin on the half that holds x; the centre belongs to the upper half |
| LogProps.BiExpPolicyIrrelevant | inline_math.hpp:106-124 | with in_min < in_center < in_max, biexp gives the same result under every clip policy as with no clipping, because the delegated explin clamps anyway |
| LogProps.BiExpBounded | inline_math.hpp:119-123 | for a positive range and a lawful log, biexp is defined and lies within the hull of its three output points under every policy |
| LogProps.BiExpMonotone | inline_math.hpp:106-124 | for a positive range, increasing ranges and a lawful log, biexp is nondecreasing under every policy |
| InlineMath.Sum3Rand | inline_math.hpp:145-147 | the sum of three draws from [min, max) lies in [3 min, 3 (max - 1)] |

## Left out

- Floating point is not modelled: rounding, NaN, infinities and overflow are absent. The maps are over exact reals, and a division that would give an infinity or NaN in C is a precondition.
- The range maps are modelled only at a real-valued `T`. At an integer `T`, truncating division changes every formula. Sum3Rand is modelled on unbounded integers instead (see its line below).
- `exp`, `log` and `pow` are parameters, not the C library's. Properties of the curved and logarithmic branches hold for any functions that satisfy the laws each lemma requires.
- `strcmp` and C strings are not modelled. The maps take the clip policy, and `Clip.ParseClip` covers the string comparison.
- `Arduino.h` and its `random(min, max)` are not part of this model. Sum3Rand takes the three draws as parameters, so it does not model their distribution.
- Sum3Rand: modelled on unbounded `int` only. Three things are not modelled:
  - The header adds three `long` draws and narrows the sum to `T` on return. With a 16-bit `int` `T`, a sum above 32767 wraps, for example `sum3rand<int>(0, 20000)` with three draws of 19999. The bound `[3 min, 3 (max - 1)]` therefore holds only when the sum fits in `T`.
  - `long` overflow of the sum is not modelled.
  - At a floating `T`, `random` truncates its bounds to `long`.
- IsLinearCurve: on unbounded `int`, `abs(curve)` is never negative. In C++, `abs(INT_MIN)` is undefined behaviour and in practice yields `INT_MIN`, which passes the `< 0.001` test. The model has no `INT_MIN`, so it does not capture that a curve of `INT_MIN` takes the linear fallback.
- `fast_log2` (inline_math.hpp:126-141) is commented out in the header and is not modelled.
- LinCurve: its ensures do not bound the curved branch or state that it is monotone. Both would need monotonicity laws of `pow`. The ends of the curve are proved in `LinCurveAtEnds`.
- CurveLin: its ensures do not bound the curved branch or state that it is monotone, because both would need monotonicity laws of `log`. The ends are proved in `CurveLinAtEnds`.
- ExpLin, ExpExp, LinExp: their ensures state only the clamps. explin's interior bounds and monotonicity are proved in LogProps. For expexp and linexp, only the ends of their formulas are proved.
- CurveLinInvertsLinCurve: proves one direction of the round trip, curvelin after lincurve. It does not prove lincurve after curvelin.

## Findings

| source | as written | input that shows it | evidently intended | confidence | as-written member | corrected member |
|---|---|---|---|---|---|---|
| inline_math.hpp:57 | `a = out_max - out_min / (1.0 - grow)` parses as `out_max - (out_min / (1 - grow))`, so the curve ends at `out_max * (1 - grow)` | `lincurve(1.0, 0.0, 1.0, 0.0, 1.0, -4, "none")` gives 1 - e^-4 instead of 1 | `a = (out_max - out_min) / (1.0 - grow)`, so the curve runs from out_min to out_max | not executed | CurveProps.LinCurveAsWrittenMissesTop | CurveProps.LinCurveAtEnds |
| inline_math.hpp:81 | `a = in_max - in_min / (1.0 - grow)` parses as `in_max - (in_min / (1 - grow))`; with in_min = 0 this makes `b - x` zero at in_max | `curvelin(1.0, 0.0, 1.0, 0.0, 1.0, -4, "none")` takes log(0) and gives an infinity instead of 1 | `a = (in_max - in_min) / (1.0 - grow)`, so the curve runs from out_min to out_max | not executed | CurveProps.CurveLinAsWrittenLogOfZero | CurveProps.CurveLinAtEnds |
