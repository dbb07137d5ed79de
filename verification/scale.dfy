/** The colour-scale generators of code.ts:344-476: from a base hex colour
    and a list of steps, a `Map` from each step to a colour, with step 500
    holding the base colour, lighter colours below it and darker above. */
module ColorScale {
  import opened Wrappers
  import opened ColorSpace
  import opened InsertionMap
  import opened Text

  /** The step that holds the base colour unchanged. */
  const BaseStep: int := 500
  /** The end of the shade range: steps run 0..500 for tints, 500..1000 for shades. */
  const LastStep: int := 1000
  // The factors below are written as literals, as in the source: the
  // lightest tint goes 0.95 of the way to white (or, for HSL, to lightness
  // 0.95), the darkest shade 0.85 of the way to black; the HSL-saturation
  // scale takes 0.4 of the saturation off its lightest tint and adds 0.2 to
  // its darkest shade.

  type Scale = OrderedMap<int, RGB>

  /** `(baseStep - step) / baseStep`: 1 at step 0, 0 at the base step. */
  function TintRatio(step: int): (ratio: real)
    ensures 0 <= step < BaseStep ==> 0.0 < ratio <= 1.0
  {
    (BaseStep - step) as real / BaseStep as real
  }

  /** `(step - baseStep) / (1000 - baseStep)`: 0 at the base step, 1 at 1000. */
  function ShadeRatio(step: int): (ratio: real)
    ensures BaseStep < step <= LastStep ==> 0.0 < ratio <= 1.0
  {
    (step - BaseStep) as real / (LastStep - BaseStep) as real
  }

  // ----- moving a value towards a target -----

  /** `from + (to - from) * amount`: the point `amount` of the way from
      `from` to `to`. */
  function Mix(from: real, to: real, amount: real): real {
    from + (to - from) * amount
  }

  /** A channel mixed with white by `ratio * 0.95`. */
  function Tint(x: real, ratio: real): real {
    Mix(x, 1.0, ratio * 0.95)
  }

  /** A channel mixed with black by `ratio * 0.85`. */
  function Shade(x: real, ratio: real): real {
    x * (1.0 - ratio * 0.85)
  }

  // ----- tint-shade (code.ts:344-374) -----

  /** The colour `generateTintShadeScale` stores at `step`. */
  function TintShadeAt(base: RGB, step: int): RGB {
    if step == BaseStep then base
    else if step < BaseStep then
      var t := TintRatio(step);
      RGB(Tint(base.r, t), Tint(base.g, t), Tint(base.b, t))
    else
      var t := ShadeRatio(step);
      RGB(Shade(base.r, t), Shade(base.g, t), Shade(base.b, t))
  }

  /** `generateTintShadeScale`; None where `hexToRgb` throws. */
  function TintShadeScale(baseHex: string, steps: seq<int>): (r: Option<Scale>)
    ensures r.Some? <==> IsHexColor(baseHex)
    ensures r.Some? ==> Valid(r.value) && forall k :: k in r.value.values <==> k in steps
    ensures r.Some? ==> FirstOccurrenceOrder(steps, r.value.keys)
    ensures r.Some? ==> forall k | k in r.value.values :: r.value.values[k] == TintShadeAt(HexToRgb(baseHex).value, k)
  {
    match HexToRgb(baseHex)
    case None => None
    case Some(base) =>
      var f := step => TintShadeAt(base, step);
      PutAllOrder(steps, f);
      Some(PutAll(steps, f))
  }

  /** A tint lies between the channel and white, short of white unless the
      channel already is. */
  lemma TintBounds(x: real, step: int)
    requires InUnit(x) && 0 <= step < BaseStep
    ensures x <= Tint(x, TintRatio(step)) <= 1.0
    ensures x < 1.0 ==> Tint(x, TintRatio(step)) < 1.0
  {
    TintAbove(x, TintRatio(step));
    if x < 1.0 {
      TintShortOfWhite(x, TintRatio(step));
    }
  }

  lemma TintAbove(x: real, ratio: real)
    requires x <= 1.0 && 0.0 <= ratio
    ensures x <= Tint(x, ratio)
  {
    MixAtLeastFrom(x, 1.0, ratio * 0.95);
  }

  lemma TintShortOfWhite(x: real, ratio: real)
    requires x < 1.0 && ratio <= 1.0
    ensures Tint(x, ratio) < 1.0
  {
    MulMonotone(1.0 - x, ratio * 0.95, 0.95);
  }

  /** Lower steps are lighter: tints do not darken as the step falls. */
  lemma TintMonotone(x: real, s1: int, s2: int)
    requires InUnit(x) && 0 <= s1 <= s2 < BaseStep
    ensures Tint(x, TintRatio(s2)) <= Tint(x, TintRatio(s1))
  {
    TintGrows(x, TintRatio(s2), TintRatio(s1));
  }

  lemma TintGrows(x: real, r1: real, r2: real)
    requires x <= 1.0 && r1 <= r2
    ensures Tint(x, r1) <= Tint(x, r2)
  {
    MulMonotone(1.0 - x, r1 * 0.95, r2 * 0.95);
  }

  /** A shade lies between 15% of the channel and the channel. */
  lemma ShadeBounds(x: real, step: int)
    requires InUnit(x) && BaseStep < step <= LastStep
    ensures 0.15 * x <= Shade(x, ShadeRatio(step)) <= x
  {
    ShadeBelow(x, ShadeRatio(step));
    ShadeAboveFloor(x, ShadeRatio(step));
  }

  lemma ShadeBelow(x: real, ratio: real)
    requires 0.0 <= x && 0.0 <= ratio
    ensures Shade(x, ratio) <= x
  {
    MulMonotone(x, 1.0 - ratio * 0.85, 1.0);
  }

  lemma ShadeAboveFloor(x: real, ratio: real)
    requires 0.0 <= x && ratio <= 1.0
    ensures 0.15 * x <= Shade(x, ratio)
  {
    MulMonotone(x, 0.15, 1.0 - ratio * 0.85);
  }

  /** Higher steps are darker: shades do not lighten as the step rises. */
  lemma ShadeMonotone(x: real, s1: int, s2: int)
    requires InUnit(x) && BaseStep < s1 <= s2 <= LastStep
    ensures Shade(x, ShadeRatio(s2)) <= Shade(x, ShadeRatio(s1))
  {
    ShadeShrinks(x, ShadeRatio(s1), ShadeRatio(s2));
  }

  lemma ShadeShrinks(x: real, r1: real, r2: real)
    requires 0.0 <= x && r1 <= r2
    ensures Shade(x, r2) <= Shade(x, r1)
  {
    MulMonotone(x, 1.0 - r2 * 0.85, 1.0 - r1 * 0.85);
  }

  /** Both formulas meet the anchor: at the base step they give the base. */
  lemma TintShadeContinuous(x: real)
    ensures Tint(x, TintRatio(BaseStep)) == x
    ensures Shade(x, ShadeRatio(BaseStep)) == x
  {
  }

  /** Every step from 0 to 1000 gets a colour with channels in [0, 1]. */
  lemma TintShadeInUnit(base: RGB, step: int)
    requires IsUnitRgb(base) && 0 <= step <= LastStep
    ensures IsUnitRgb(TintShadeAt(base, step))
  {
    if step < BaseStep {
      TintBounds(base.r, step);
      TintBounds(base.g, step);
      TintBounds(base.b, step);
    } else if step > BaseStep {
      ShadeBounds(base.r, step);
      ShadeBounds(base.g, step);
      ShadeBounds(base.b, step);
    }
  }

  /** Scaling by a larger factor gives a larger product. */
  lemma MulMonotone(c: real, a: real, b: real)
    requires 0.0 <= c && a <= b
    ensures c * a <= c * b
  {
    assert c * b - c * a == c * (b - a);
  }

  lemma MixAtLeastFrom(from: real, to: real, amount: real)
    requires from <= to && 0.0 <= amount
    ensures from <= Mix(from, to, amount)
  {
    MulMonotone(to - from, 0.0, amount);
  }

  lemma MixAtMostTo(from: real, to: real, amount: real)
    requires from <= to && amount <= 1.0
    ensures Mix(from, to, amount) <= to
  {
    MulMonotone(to - from, amount, 1.0);
  }

  lemma MixAtMostFrom(from: real, to: real, amount: real)
    requires to <= from && 0.0 <= amount
    ensures Mix(from, to, amount) <= from
  {
    MulMonotone(from - to, 0.0, amount);
  }

  lemma MixAtLeastTo(from: real, to: real, amount: real)
    requires to <= from && amount <= 1.0
    ensures to <= Mix(from, to, amount)
  {
    MulMonotone(from - to, amount, 1.0);
  }

  /** Mixing by an amount in [0, 1] lands between the start and the target. */
  lemma MixBetween(from: real, to: real, amount: real)
    requires InUnit(amount)
    ensures from <= to ==> from <= Mix(from, to, amount) <= to
    ensures to <= from ==> to <= Mix(from, to, amount) <= from
  {
    if from <= to {
      MixAtLeastFrom(from, to, amount);
      MixAtMostTo(from, to, amount);
    } else {
      MixAtMostFrom(from, to, amount);
      MixAtLeastTo(from, to, amount);
    }
  }

  // ----- HSL lightness and saturation (code.ts:376-422) -----

  /** The lightness of a tint on the HSL scales: `ratio` of the way to 0.95. */
  function TintLightness(l: real, ratio: real): real {
    Mix(l, 0.95, ratio)
  }

  /** The saturation of a tint on the HSL-saturation scale. */
  function TintSaturation(s: real, ratio: real): real {
    s * (1.0 - ratio * 0.4)
  }

  /** The saturation of a shade on the HSL-saturation scale, capped at 1. */
  function ShadeSaturation(s: real, ratio: real): real {
    var boosted := s * (1.0 + ratio * 0.2);
    if boosted < 1.0 then boosted else 1.0
  }

  /** The lightness both HSL scales give `step`. */
  function StepLightness(l: real, step: int): real {
    if step < BaseStep then TintLightness(l, TintRatio(step)) else Shade(l, ShadeRatio(step))
  }

  /** The saturation the HSL-saturation scale gives `step`. */
  function StepSaturation(s: real, step: int): real {
    if step < BaseStep then TintSaturation(s, TintRatio(step)) else ShadeSaturation(s, ShadeRatio(step))
  }

  /** The colour `generateHslLightnessScale` stores at `step`: the base's
      hue and saturation with the step's lightness. */
  function HslLightnessAt(base: RGB, step: int): RGB
    requires IsUnitRgb(base)
  {
    var hsl := RgbToHsl(base);
    if step == BaseStep then base
    else HslToRgb(HSL(hsl.h, hsl.s, StepLightness(hsl.l, step)))
  }

  /** The colour `generateHslSaturationScale` stores at `step`: the base's
      hue with the step's saturation and lightness. */
  function HslSaturationAt(base: RGB, step: int): RGB
    requires IsUnitRgb(base)
  {
    var hsl := RgbToHsl(base);
    if step == BaseStep then base
    else HslToRgb(HSL(hsl.h, StepSaturation(hsl.s, step), StepLightness(hsl.l, step)))
  }

  /** `generateHslLightnessScale`; None where `hexToRgb` throws. */
  function HslLightnessScale(baseHex: string, steps: seq<int>): (r: Option<Scale>)
    ensures r.Some? <==> IsHexColor(baseHex)
    ensures r.Some? ==> Valid(r.value) && forall k :: k in r.value.values <==> k in steps
    ensures r.Some? ==> FirstOccurrenceOrder(steps, r.value.keys)
    ensures r.Some? ==> forall k | k in r.value.values :: r.value.values[k] == HslLightnessAt(HexToRgb(baseHex).value, k)
  {
    match HexToRgb(baseHex)
    case None => None
    case Some(base) =>
      var f := step => HslLightnessAt(base, step);
      PutAllOrder(steps, f);
      Some(PutAll(steps, f))
  }

  /** `generateHslSaturationScale`; None where `hexToRgb` throws. */
  function HslSaturationScale(baseHex: string, steps: seq<int>): (r: Option<Scale>)
    ensures r.Some? <==> IsHexColor(baseHex)
    ensures r.Some? ==> Valid(r.value) && forall k :: k in r.value.values <==> k in steps
    ensures r.Some? ==> FirstOccurrenceOrder(steps, r.value.keys)
    ensures r.Some? ==> forall k | k in r.value.values :: r.value.values[k] == HslSaturationAt(HexToRgb(baseHex).value, k)
  {
    match HexToRgb(baseHex)
    case None => None
    case Some(base) =>
      var f := step => HslSaturationAt(base, step);
      PutAllOrder(steps, f);
      Some(PutAll(steps, f))
  }

  /** Tint lightness moves from `l` towards 0.95 and shade lightness lies
      between 15% of `l` and `l`; every step in 0..1000 stays in [0, 1]. */
  lemma StepLightnessBounds(l: real, step: int)
    requires InUnit(l) && 0 <= step <= LastStep && step != BaseStep
    ensures InUnit(StepLightness(l, step))
    ensures step < BaseStep && l <= 0.95 ==> l <= StepLightness(l, step) <= 0.95
    ensures step < BaseStep && 0.95 <= l ==> 0.95 <= StepLightness(l, step) <= l
    ensures BaseStep < step ==> 0.15 * l <= StepLightness(l, step) <= l
  {
    if step < BaseStep {
      MixBetween(l, 0.95, TintRatio(step));
    } else {
      ShadeBelow(l, ShadeRatio(step));
      ShadeAboveFloor(l, ShadeRatio(step));
    }
  }

  /** Tints keep between 60% of the base saturation and all of it; shades
      keep at least the base saturation and never exceed 1. */
  lemma StepSaturationBounds(s: real, step: int)
    requires InUnit(s) && 0 <= step <= LastStep && step != BaseStep
    ensures InUnit(StepSaturation(s, step))
    ensures step < BaseStep ==> 0.6 * s <= StepSaturation(s, step) <= s
    ensures BaseStep < step ==> s <= StepSaturation(s, step) <= 1.0
  {
    if step < BaseStep {
      DesaturateBelow(s, TintRatio(step));
      DesaturateAboveFloor(s, TintRatio(step));
    } else {
      SaturateAbove(s, ShadeRatio(step));
    }
  }

  lemma DesaturateBelow(s: real, ratio: real)
    requires 0.0 <= s && 0.0 <= ratio
    ensures TintSaturation(s, ratio) <= s
  {
    MulMonotone(s, 1.0 - ratio * 0.4, 1.0);
  }

  lemma DesaturateAboveFloor(s: real, ratio: real)
    requires 0.0 <= s && ratio <= 1.0
    ensures 0.6 * s <= TintSaturation(s, ratio)
  {
    MulMonotone(s, 0.6, 1.0 - ratio * 0.4);
  }

  lemma SaturateAbove(s: real, ratio: real)
    requires 0.0 <= s && 0.0 <= ratio
    ensures s <= s * (1.0 + ratio * 0.2)
  {
    MulMonotone(s, 1.0, 1.0 + ratio * 0.2);
  }

  /** Every step in 0..1000 of the HSL-lightness scale is a colour in
      [0, 1] whose lightness is exactly the step's lightness. */
  lemma HslLightnessExact(base: RGB, step: int)
    requires IsUnitRgb(base) && 0 <= step <= LastStep && step != BaseStep
    ensures IsUnitRgb(HslLightnessAt(base, step))
    ensures RgbToHsl(HslLightnessAt(base, step)).l == StepLightness(RgbToHsl(base).l, step)
  {
    var hsl := RgbToHsl(base);
    StepLightnessBounds(hsl.l, step);
    HslLightnessKept(HSL(hsl.h, hsl.s, StepLightness(hsl.l, step)));
  }

  /** Every step in 0..1000 of the HSL-saturation scale is a colour in
      [0, 1] with the same lightness as on the HSL-lightness scale. */
  lemma HslSaturationExact(base: RGB, step: int)
    requires IsUnitRgb(base) && 0 <= step <= LastStep && step != BaseStep
    ensures IsUnitRgb(HslSaturationAt(base, step))
    ensures RgbToHsl(HslSaturationAt(base, step)).l == StepLightness(RgbToHsl(base).l, step)
  {
    var hsl := RgbToHsl(base);
    StepLightnessBounds(hsl.l, step);
    StepSaturationBounds(hsl.s, step);
    HslLightnessKept(HSL(hsl.h, StepSaturation(hsl.s, step), StepLightness(hsl.l, step)));
  }

  /** A grey base stays grey on both HSL scales: with no saturation the
      hue is never used. */
  lemma HslGreyStaysGrey(base: RGB, step: int)
    requires IsUnitRgb(base) && base.r == base.g == base.b
    ensures var c := HslLightnessAt(base, step); c.r == c.g == c.b
    ensures var c := HslSaturationAt(base, step); c.r == c.g == c.b
  {
    assert RgbToHsl(base).s == 0.0;
  }

  // ----- perceptual lightness (code.ts:424-462) -----

  /** The transfer functions of the perceptual scale, `Math.pow(c, 2.2)`
      and `Math.pow(c, 1 / 2.2)` in the source, taken as parameters. */
  datatype Gamma = Gamma(toLinear: real -> real, fromLinear: real -> real)

  /** The colour `generatePerceptualScale` stores at `step`: the tint-shade
      rule applied in linear light. */
  function PerceptualAt(base: RGB, step: int, gamma: Gamma): RGB {
    if step == BaseStep then base
    else
      var lin := RGB(gamma.toLinear(base.r), gamma.toLinear(base.g), gamma.toLinear(base.b));
      var mixed := TintShadeAt(lin, step);
      RGB(gamma.fromLinear(mixed.r), gamma.fromLinear(mixed.g), gamma.fromLinear(mixed.b))
  }

  /** `generatePerceptualScale`; None where `hexToRgb` throws. */
  function PerceptualScale(baseHex: string, steps: seq<int>, gamma: Gamma): (r: Option<Scale>)
    ensures r.Some? <==> IsHexColor(baseHex)
    ensures r.Some? ==> Valid(r.value) && forall k :: k in r.value.values <==> k in steps
    ensures r.Some? ==> FirstOccurrenceOrder(steps, r.value.keys)
    ensures r.Some? ==> forall k | k in r.value.values :: r.value.values[k] == PerceptualAt(HexToRgb(baseHex).value, k, gamma)
  {
    match HexToRgb(baseHex)
    case None => None
    case Some(base) =>
      var f := step => PerceptualAt(base, step, gamma);
      PutAllOrder(steps, f);
      Some(PutAll(steps, f))
  }

  /** With identity transfer functions the perceptual rule is tint-shade. */
  lemma PerceptualIdentity(base: RGB, step: int)
    ensures PerceptualAt(base, step, Gamma(x => x, x => x)) == TintShadeAt(base, step)
  {
  }

  /** Transfer functions that keep [0, 1] give colours in [0, 1]. */
  lemma PerceptualInUnit(base: RGB, step: int, gamma: Gamma)
    requires IsUnitRgb(base) && 0 <= step <= LastStep
    requires forall x | InUnit(x) :: InUnit(gamma.toLinear(x))
    requires forall x | InUnit(x) :: InUnit(gamma.fromLinear(x))
    ensures IsUnitRgb(PerceptualAt(base, step, gamma))
  {
    if step != BaseStep {
      var lin := RGB(gamma.toLinear(base.r), gamma.toLinear(base.g), gamma.toLinear(base.b));
      TintShadeInUnit(lin, step);
    }
  }

  // ----- the dispatcher (code.ts:464-476) -----

  /** The algorithm names the dispatcher recognises. */
  const TintShadeKey := "tint-shade"
  const HslLightnessKey := "hsl-lightness"
  const HslSaturationKey := "hsl-saturation"
  const PerceptualKey := "perceptual-lightness"

  /** What the UI sends to request a scale; `targetCollectionId` only
      matters to variable creation and is not modelled. */
  datatype ScaleConfig = ScaleConfig(baseColor: string, algorithm: string, steps: seq<int>, baseName: string)

  /** The colour the named algorithm puts at `step`, as an independent
      per-step reference: an unrecognised name means tint-shade. */
  function ColorAt(algorithm: string, base: RGB, step: int, gamma: Gamma): RGB
    requires IsUnitRgb(base)
  {
    if algorithm == HslLightnessKey then HslLightnessAt(base, step)
    else if algorithm == HslSaturationKey then HslSaturationAt(base, step)
    else if algorithm == PerceptualKey then PerceptualAt(base, step, gamma)
    else TintShadeAt(base, step)
  }

  /** `generateColorScale`: a scale with one entry per distinct requested
      step, each holding the colour the chosen algorithm assigns it. */
  function GenerateColorScale(config: ScaleConfig, gamma: Gamma): (r: Option<Scale>)
    ensures r.Some? <==> IsHexColor(config.baseColor)
    ensures r.Some? ==> Valid(r.value) && forall k :: k in r.value.values <==> k in config.steps
    ensures r.Some? ==> FirstOccurrenceOrder(config.steps, r.value.keys)
    ensures r.Some? ==> forall k | k in r.value.values ::
              r.value.values[k] == ColorAt(config.algorithm, HexToRgb(config.baseColor).value, k, gamma)
  {
    match config.algorithm
    case "tint-shade" => TintShadeScale(config.baseColor, config.steps)
    case "hsl-lightness" => HslLightnessScale(config.baseColor, config.steps)
    case "hsl-saturation" => HslSaturationScale(config.baseColor, config.steps)
    case "perceptual-lightness" => PerceptualScale(config.baseColor, config.steps, gamma)
    case _ => TintShadeScale(config.baseColor, config.steps)
  }

  /** Every algorithm stores the base colour unchanged at step 500. */
  lemma ScaleAnchor(config: ScaleConfig, gamma: Gamma)
    requires IsHexColor(config.baseColor) && BaseStep in config.steps
    ensures BaseStep in GenerateColorScale(config, gamma).value.values
    ensures GenerateColorScale(config, gamma).value.values[BaseStep] == HexToRgb(config.baseColor).value
  {
  }

  /** For steps in 0..1000 the three rational algorithms give colours in
      [0, 1], and so does the perceptual one with transfer functions that
      keep [0, 1]. */
  lemma ScaleInUnit(config: ScaleConfig, gamma: Gamma, step: int)
    requires IsHexColor(config.baseColor) && step in config.steps && 0 <= step <= LastStep
    requires forall x | InUnit(x) :: InUnit(gamma.toLinear(x))
    requires forall x | InUnit(x) :: InUnit(gamma.fromLinear(x))
    ensures IsUnitRgb(GenerateColorScale(config, gamma).value.values[step])
  {
    var base := HexToRgb(config.baseColor).value;
    var a := config.algorithm;
    if step == BaseStep {
    } else if a == HslLightnessKey {
      HslLightnessExact(base, step);
    } else if a == HslSaturationKey {
      HslSaturationExact(base, step);
    } else if a == PerceptualKey {
      PerceptualInUnit(base, step, gamma);
    } else {
      TintShadeInUnit(base, step);
    }
  }

  // ----- previews (code.ts:661-671) -----

  /** One row of the preview the UI shows before creating variables. */
  datatype ColorScalePreview = ColorScalePreview(step: int, color: string, variableName: string)

  /** The name a scale variable gets: `${baseName}/${step}` (code.ts:499). */
  function VariableName(baseName: string, step: int): string {
    baseName + "/" + Decimal(step)
  }

  /** The `preview-color-scale` handler's list: one row per scale entry in
      the scale's order. */
  function PreviewColorScale(config: ScaleConfig, gamma: Gamma): (previews: Option<seq<ColorScalePreview>>)
    ensures previews.Some? <==> IsHexColor(config.baseColor)
    ensures previews.Some? ==>
              var keys := GenerateColorScale(config, gamma).value.keys;
              && |previews.value| == |keys|
              && forall i | 0 <= i < |keys| ::
                   previews.value[i].step == keys[i]
                   && previews.value[i].variableName == VariableName(config.baseName, keys[i])
                   && previews.value[i].color
                        == RgbToHex(ColorAt(config.algorithm, HexToRgb(config.baseColor).value, keys[i], gamma))
  {
    match GenerateColorScale(config, gamma)
    case None => None
    case Some(scale) =>
      Some(seq(|scale.keys|, i requires 0 <= i < |scale.keys| =>
        var step := scale.keys[i];
        ColorScalePreview(step, RgbToHex(scale.values[step]), VariableName(config.baseName, step))))
  }

  /** The preview row of step 500 shows the base colour exactly as typed,
      in lower case. */
  lemma PreviewAnchor(config: ScaleConfig, gamma: Gamma, i: int)
    requires IsHexColor(config.baseColor)
    requires 0 <= i < |GenerateColorScale(config, gamma).value.keys|
    requires GenerateColorScale(config, gamma).value.keys[i] == BaseStep
    ensures PreviewColorScale(config, gamma).value[i].color == "#" + LowerAscii(HexDigitsOf(config.baseColor))
  {
    var scale := GenerateColorScale(config, gamma).value;
    assert scale.keys[i] in scale.values;
    assert scale.values[BaseStep] == HexToRgb(config.baseColor).value;
    assert PreviewColorScale(config, gamma).value[i].color == RgbToHex(scale.values[BaseStep]);
    HexRoundTrip(config.baseColor);
  }

  /** Each preview row of a step in 0..1000 shows its colour as `#` and six
      lower-case hex digits, which read back as that step's colour rounded
      to the nearest 1/255. */
  lemma PreviewColorReadsBack(config: ScaleConfig, gamma: Gamma, i: int)
    requires IsHexColor(config.baseColor)
    requires 0 <= i < |GenerateColorScale(config, gamma).value.keys|
    requires 0 <= GenerateColorScale(config, gamma).value.keys[i] <= LastStep
    requires forall x | InUnit(x) :: InUnit(gamma.toLinear(x))
    requires forall x | InUnit(x) :: InUnit(gamma.fromLinear(x))
    ensures var color := PreviewColorScale(config, gamma).value[i].color;
            var step := GenerateColorScale(config, gamma).value.keys[i];
            && |color| == 7 && color[0] == '#' && AllDigitsIn(color[1..], 16)
            && (forall k | 1 <= k < 7 :: !('A' <= color[k] <= 'Z'))
            && HexToRgb(color) == Some(Quantize(GenerateColorScale(config, gamma).value.values[step]))
  {
    var scale := GenerateColorScale(config, gamma).value;
    var step := scale.keys[i];
    assert step in scale.values;
    assert step in config.steps;
    ScaleInUnit(config, gamma, step);
    var c := scale.values[step];
    assert PreviewColorScale(config, gamma).value[i].color == RgbToHex(c);
    RgbToHexShape(c);
    RgbToHexParses(c);
  }
}
