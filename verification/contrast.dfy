/** The helpers of the colour engine: the default dark and light band
    generators, the WCAG contrast ratio of two `#rrggbb` colours, and the
    choice of a readable text lightness for a background colour. */
module Helpers {
  import opened Options
  import opened JsNumber
  import opened ColorTypes
  import opened Ranges
  import opened Conversions

  // ---------------------------------------------------------------------------
  // variants

  /** `variants.dark(color)`: two five-step bands with the default curves,
      lightness `30 + 0.2 l` down to `15 + 0.1 l`, then down to 2. Every end
      point keeps the base hue and saturation, and for a lightness in [0, 100]
      the end points darken strictly: background 0, foreground 0 (which is
      background 1), foreground 1. */
  function DarkVariant(c: Color): (v: seq<Range>)
    ensures TwoFiveStepBands(v)
    ensures forall k :: 0 <= k < |v| ==>
              v[k].background.h == c.h && v[k].background.s == c.s
              && v[k].foreground.h == c.h && v[k].foreground.s == c.s
    ensures 0.0 <= c.l <= 100.0 ==> v[0].background.l > v[0].foreground.l > v[1].foreground.l
  {
    var middle := Color(c.h, c.s, 15.0 + c.l * 0.1);
    [PlainRange(5, Color(c.h, c.s, 30.0 + c.l * 0.2), middle),
     PlainRange(5, middle, Color(c.h, c.s, 2.0))]
  }

  /** `variants.light(color)`: two five-step bands with the default curves,
      from lightness 0 with saturation `min(0, s - 24)` up to the colour, then
      up to lightness 100. The bands pass through the colour itself, start
      black with a saturation that is never positive, and for a lightness in
      [0, 100] brighten: 0, then `l`, then 100. */
  function LightVariant(c: Color): (v: seq<Range>)
    ensures TwoFiveStepBands(v)
    ensures v[0].foreground == c && v[1].background == c
    ensures v[0].background.l == 0.0 && v[0].background.s <= 0.0
    ensures v[1].foreground == Color(c.h, c.s, 100.0)
    ensures 0.0 <= c.l <= 100.0 ==> v[0].background.l <= v[0].foreground.l <= v[1].foreground.l
  {
    [PlainRange(5, Color(c.h, Min(0.0, c.s - 24.0), 0.0), c),
     PlainRange(5, c, Color(c.h, c.s, 100.0))]
  }

  /** Two five-step bands with the default curves, the second starting where
      the first ends. */
  predicate TwoFiveStepBands(v: seq<Range>) {
    && |v| == 2
    && v[0].count == 5 && v[1].count == 5
    && v[1].background == v[0].foreground
    && RangesValid(v)
  }

  /** Base colour (120, 75, 50): dark lightnesses 40, 20, 2; light band 0
      starts at (120, 0, 0). */
  lemma VariantFixtures(c: Color)
    requires c == Color(120.0, 75.0, 50.0)
    ensures DarkVariant(c)[0].background == Color(120.0, 75.0, 40.0)
    ensures DarkVariant(c)[0].foreground == Color(120.0, 75.0, 20.0)
    ensures DarkVariant(c)[1].foreground == Color(120.0, 75.0, 2.0)
    ensures LightVariant(c)[0].background == Color(120.0, 0.0, 0.0)
    ensures LightVariant(c)[1].foreground == Color(120.0, 75.0, 100.0)
  {
  }

  /** Either variant produces 6 + 5 = 11 colours: band 0 has five samples and
      its foreground, band 1 (starting at index 1) four samples and its
      foreground. */
  lemma VariantLength(c: Color)
    ensures |ColorRange(DarkVariant(c))| == 11
    ensures |ColorRange(LightVariant(c))| == 11
  {
    var d := DarkVariant(c);
    var l := LightVariant(c);
    assert OutputLength(d, 0) == 0 && OutputLength(d, 1) == 6 && OutputLength(d, 2) == 11;
    assert OutputLength(l, 0) == 0 && OutputLength(l, 1) == 6 && OutputLength(l, 2) == 11;
    ColorRangeLength(d, 2);
    ColorRangeLength(l, 2);
  }

  /** What the orchestrator needs of the default variants: their bands are
      valid and each expands to 11 colours. */
  lemma DefaultVariantsExpand(c: Color)
    ensures RangesValid(DarkVariant(c)) && |ColorRange(DarkVariant(c))| == 11
    ensures RangesValid(LightVariant(c)) && |ColorRange(LightVariant(c))| == 11
  {
    VariantLength(c);
  }

  // ---------------------------------------------------------------------------
  // relative luminance and contrast ratio

  /** One channel in the linear-light scale of the sRGB definition: `v / 255`
      up to 0.03928 is divided by 12.92, above it `((v + 0.055) / 1.055)^2.4`.
      The power curve is the parameter `gamma`. */
  function Linear(gamma: real -> real, v: int): real {
    var srgb := v as real / 255.0;
    if srgb <= 0.03928 then srgb / 12.92 else gamma((srgb + 0.055) / 1.055)
  }

  /** `getRelativeLuminance`: `0.2126 R + 0.7152 G + 0.0722 B` of the linear
      channels. `None` stands for `NaN`, which any `NaN` channel gives. */
  function RelativeLuminance(gamma: real -> real, rgb: RgbReading): (y: Option<real>)
    ensures y.Some? <==> rgb.r.Some? && rgb.g.Some? && rgb.b.Some?
  {
    if rgb.r.None? || rgb.g.None? || rgb.b.None? then None
    else
      Some(0.2126 * Linear(gamma, rgb.r.value) + 0.7152 * Linear(gamma, rgb.g.value)
           + 0.0722 * Linear(gamma, rgb.b.value))
  }

  /** The contrast ratio of two relative luminances, lighter over darker, each
      plus 0.05. */
  function ContrastOfLuminances(l1: real, l2: real): real
    requires Min(l1, l2) + 0.05 > 0.0
  {
    (Max(l1, l2) + 0.05) / (Min(l1, l2) + 0.05)
  }

  /** `calculateContrastRatio(color1, color2)` of two hex strings read with
      `hexToRgb`. `None` stands for `NaN` (a channel that does not parse) and
      also for the non-finite quotient of a darker luminance at or below
      -0.05, which needs a negative channel or a negative `gamma` value. */
  function ContrastRatio(gamma: real -> real, hex1: string, hex2: string): (r: Option<real>)
    ensures r.Some? ==> RelativeLuminance(gamma, HexToRgb(hex1)).Some?
                        && RelativeLuminance(gamma, HexToRgb(hex2)).Some?
  {
    RatioOfLuminances(RelativeLuminance(gamma, HexToRgb(hex1)), RelativeLuminance(gamma, HexToRgb(hex2)))
  }

  /** The ratio of two luminances, either of which may be `NaN`. */
  function RatioOfLuminances(y1: Option<real>, y2: Option<real>): (r: Option<real>)
    ensures r.Some? ==> y1.Some? && y2.Some?
  {
    if y1.None? || y2.None? || Min(y1.value, y2.value) + 0.05 <= 0.0 then None
    else Some(ContrastOfLuminances(y1.value, y2.value))
  }

  /** The ratio does not depend on the order of the two colours. */
  lemma ContrastSymmetric(gamma: real -> real, hex1: string, hex2: string)
    ensures ContrastRatio(gamma, hex1, hex2) == ContrastRatio(gamma, hex2, hex1)
  {
    RatioSymmetric(RelativeLuminance(gamma, HexToRgb(hex1)), RelativeLuminance(gamma, HexToRgb(hex2)));
  }

  lemma RatioSymmetric(y1: Option<real>, y2: Option<real>)
    ensures RatioOfLuminances(y1, y2) == RatioOfLuminances(y2, y1)
  {
    if y1.Some? && y2.Some? {
      assert Max(y1.value, y2.value) == Max(y2.value, y1.value);
      assert Min(y1.value, y2.value) == Min(y2.value, y1.value);
    }
  }

  /** The ratio of two non-negative luminances is defined and at least 1,
      with 1 exactly when they are equal. */
  lemma ContrastAtLeastOne(l1: real, l2: real)
    requires l1 >= 0.0 && l2 >= 0.0
    ensures ContrastOfLuminances(l1, l2) >= 1.0
    ensures ContrastOfLuminances(l1, l2) == 1.0 <==> l1 == l2
  {
    var hi := Max(l1, l2) + 0.05;
    var lo := Min(l1, l2) + 0.05;
    QuotientAtLeastOne(hi, lo, hi / lo);
  }

  lemma QuotientAtLeastOne(hi: real, lo: real, q: real)
    requires 0.0 < lo <= hi && q == hi / lo
    ensures q >= 1.0
    ensures q == 1.0 <==> hi == lo
  {
    DivMul(hi, lo);
    assert lo * q == hi;
    MulLt(q, 1.0, lo);
    if q == 1.0 {
      assert hi == lo * 1.0;
    }
  }

  /** A power curve that keeps non-negative arguments non-negative. */
  ghost predicate NonNegativeGamma(gamma: real -> real) {
    forall x :: x >= 0.0 ==> gamma(x) >= 0.0
  }

  /** Channels at or above zero have a non-negative luminance when the power
      curve is non-negative. */
  lemma LuminanceNonNegative(gamma: real -> real, r: int, g: int, b: int)
    requires NonNegativeGamma(gamma) && r >= 0 && g >= 0 && b >= 0
    ensures RelativeLuminance(gamma, RgbReading(Some(r), Some(g), Some(b))).value >= 0.0
  {
    assert Linear(gamma, r) >= 0.0 && Linear(gamma, g) >= 0.0 && Linear(gamma, b) >= 0.0;
  }

  /** Black has luminance 0 whatever the power curve, since every channel
      takes the linear segment. */
  lemma BlackLuminance(gamma: real -> real)
    ensures RelativeLuminance(gamma, RgbReading(Some(0), Some(0), Some(0))) == Some(0.0)
  {
  }

  /** White has luminance 1 when the power curve maps 1 to 1, as `x^2.4` does;
      white against black then has the largest ratio, 21. */
  lemma WhiteAgainstBlack(gamma: real -> real)
    requires gamma(1.0) == 1.0
    ensures RelativeLuminance(gamma, RgbReading(Some(255), Some(255), Some(255))) == Some(1.0)
    ensures ContrastOfLuminances(1.0, 0.0) == 21.0
  {
    assert (1.0 + 0.055) / 1.055 == 1.0;
  }

  // ---------------------------------------------------------------------------
  // getTextColor

  /** The ratio between the colour and the same hue and saturation at
      lightness `light`, both written with `hslToHex`. */
  function RatioAt(gamma: real -> real, c: Color, light: int): Option<real> {
    ContrastRatio(gamma, HslToHex(c.h, c.s, c.l), HslToHex(c.h, c.s, light as real))
  }

  /** Lightness `light` makes it into the list of `threshold`: its ratio is a
      number above the threshold (a `NaN` ratio compares false). */
  predicate Passes(ratio: int -> Option<real>, threshold: real, light: int) {
    ratio(light).Some? && ratio(light).value > threshold
  }

  /** The lightnesses `0 .. n - 1` that pass `threshold`, in the order the
      loop pushes them. */
  function Qualifying(ratio: int -> Option<real>, threshold: real, n: nat): (q: seq<int>)
    ensures forall x :: x in q <==> 0 <= x < n && Passes(ratio, threshold, x)
    ensures forall i :: 0 <= i < |q| ==> 0 <= q[i] < n
    ensures forall i, k :: 0 <= i < k < |q| ==> q[i] < q[k]
  {
    if n == 0 then []
    else
      var rest := Qualifying(ratio, threshold, n - 1);
      if Passes(ratio, threshold, n - 1) then rest + [n - 1] else rest
  }

  /** No lightness passes exactly when the list stays empty. */
  lemma {:induction false} QualifyingEmpty(ratio: int -> Option<real>, threshold: real, n: nat)
    requires forall y :: 0 <= y < n ==> !Passes(ratio, threshold, y)
    ensures Qualifying(ratio, threshold, n) == []
  {
    if n > 0 {
      QualifyingEmpty(ratio, threshold, n - 1);
    }
  }

  /** The index `findClosest(arr, value)` lands on: `reduce` without a seed
      keeps the running best and replaces it only on a strictly smaller
      distance. `reduce` throws on an empty array, which the caller rules out. */
  function ClosestIndex(arr: seq<int>, value: real): (i: nat)
    requires |arr| > 0
    ensures i < |arr|
    ensures forall k :: 0 <= k < |arr| ==> Abs(arr[i] as real - value) <= Abs(arr[k] as real - value)
    ensures forall k :: 0 <= k < i ==> Abs(arr[k] as real - value) > Abs(arr[i] as real - value)
  {
    if |arr| == 1 then 0
    else
      var p := ClosestIndex(arr[..|arr| - 1], value);
      var last := |arr| - 1;
      if Abs(arr[last] as real - value) < Abs(arr[p] as real - value) then last else p
  }

  /** `findClosest(arr, value)`: an element of the array at the smallest
      distance from `value`. */
  function FindClosest(arr: seq<int>, value: real): (r: int)
    requires |arr| > 0
    ensures r in arr
    ensures forall x :: x in arr ==> Abs(r as real - value) <= Abs(x as real - value)
  {
    arr[ClosestIndex(arr, value)]
  }

  /** `findClosest` returns an element of the array at the smallest distance
      from `value`, and among the elements at that distance the first one: in
      an increasing array, the smallest. */
  lemma FindClosestIsClosest(arr: seq<int>, value: real, x: int)
    requires |arr| > 0 && x in arr
    requires forall i, k :: 0 <= i < k < |arr| ==> arr[i] < arr[k]
    ensures FindClosest(arr, value) in arr
    ensures Abs(FindClosest(arr, value) as real - value) <= Abs(x as real - value)
    ensures Abs(x as real - value) == Abs(FindClosest(arr, value) as real - value) ==>
            FindClosest(arr, value) <= x
  {
    var i := ClosestIndex(arr, value);
    var k :| 0 <= k < |arr| && arr[k] == x;
    if k < i {
      assert Abs(arr[k] as real - value) > Abs(arr[i] as real - value);
    }
  }

  /** The list `getTextColor` picks from: the lightnesses above 7.5, or, when
      there is none, those above 4.5. */
  function Candidates(ratio: int -> Option<real>): (q: seq<int>)
    ensures forall x :: x in q ==> 0 <= x < 100 && Passes(ratio, 4.5, x)
    ensures forall i, k :: 0 <= i < k < |q| ==> q[i] < q[k]
  {
    var strict := Qualifying(ratio, 7.5, 100);
    if |strict| > 0 then strict else Qualifying(ratio, 4.5, 100)
  }

  /** The choice of `getTextColor` over any ratio function: the candidate
      closest to `c.l`; `None` stands for the exception `reduce` throws when
      both lists are empty. */
  function ChooseLightness(ratio: int -> Option<real>, c: Color): (r: Option<Color>)
    ensures r.None? <==> forall light :: 0 <= light < 100 ==> !Passes(ratio, 4.5, light)
    ensures r.Some? ==> r.value.h == c.h && r.value.s == c.s
    ensures r.Some? ==> IsInt(r.value.l) && 0.0 <= r.value.l <= 99.0
  {
    var q := Candidates(ratio);
    if |q| == 0 then
      var loose := Qualifying(ratio, 4.5, 100);
      assert |Qualifying(ratio, 7.5, 100)| == 0;
      assert forall light :: 0 <= light < 100 ==> light !in loose;
      None
    else
      var l := FindClosest(q, c.l);
      assert l in q;
      Some(Color(c.h, c.s, l as real))
  }

  /** The choice picks a candidate, at a distance from the colour's lightness
      no larger than any other candidate's, and the smaller of two equally close. */
  lemma ChooseLightnessClosest(ratio: int -> Option<real>, c: Color, x: int)
    requires x in Candidates(ratio)
    ensures var l := FindClosest(Candidates(ratio), c.l);
            && ChooseLightness(ratio, c) == Some(Color(c.h, c.s, l as real))
            && l in Candidates(ratio)
            && Abs(l as real - c.l) <= Abs(x as real - c.l)
            && (Abs(l as real - c.l) == Abs(x as real - c.l) ==> l <= x)
  {
    FindClosestIsClosest(Candidates(ratio), c.l, x);
  }

  /** The candidates are exactly the lightnesses above 7.5 when there is one,
      and otherwise exactly those above 4.5. */
  lemma CandidatesThreshold(ratio: int -> Option<real>, x: int)
    ensures (exists y :: 0 <= y < 100 && Passes(ratio, 7.5, y)) ==>
            (x in Candidates(ratio) <==> 0 <= x < 100 && Passes(ratio, 7.5, x))
    ensures (forall y :: 0 <= y < 100 ==> !Passes(ratio, 7.5, y)) ==>
            (x in Candidates(ratio) <==> 0 <= x < 100 && Passes(ratio, 4.5, x))
  {
    var strict := Qualifying(ratio, 7.5, 100);
    if exists y :: 0 <= y < 100 && Passes(ratio, 7.5, y) {
      var y :| 0 <= y < 100 && Passes(ratio, 7.5, y);
      assert y in strict;
    } else {
      QualifyingEmpty(ratio, 7.5, 100);
    }
  }

  /** `getTextColor(color)` with the power curve `gamma`: the ratios are the
      ones between the colour and each lightness of its hue and saturation. */
  function TextColor(gamma: real -> real, c: Color): (r: Option<Color>)
    ensures r.None? <==> forall light :: 0 <= light < 100 ==> !Passes(RatioOf(gamma, c), 4.5, light)
    ensures r.Some? ==> r.value.h == c.h && r.value.s == c.s
    ensures r.Some? ==> IsInt(r.value.l) && 0.0 <= r.value.l <= 99.0
  {
    ChooseLightness(RatioOf(gamma, c), c)
  }

  /** The ratio against each lightness, as a function of the lightness. */
  function RatioOf(gamma: real -> real, c: Color): int -> Option<real> {
    light => RatioAt(gamma, c, light)
  }

  /** `getTextColor` as written, for the ratio function `ratio` (which is
      `RatioOf(gamma, c)` in `TextColor`): one loop over lightness 0 .. 99
      pushing into both lists, then the choice. */
  method TextColorLoop(ratio: int -> Option<real>, c: Color) returns (r: Option<Color>)
    ensures r == ChooseLightness(ratio, c)
    ensures r.None? <==> forall light :: 0 <= light < 100 ==> !Passes(ratio, 4.5, light)
    ensures r.Some? ==> r.value.h == c.h && r.value.s == c.s && 0.0 <= r.value.l <= 99.0
  {
    var strict: seq<int> := [];
    var loose: seq<int> := [];
    var light := 0;
    while light < 100
      invariant 0 <= light <= 100
      invariant loose == Qualifying(ratio, 4.5, light)
      invariant strict == Qualifying(ratio, 7.5, light)
    {
      var value := ratio(light);
      if value.Some? && value.value > 4.5 {
        loose := loose + [light];
      }
      if value.Some? && value.value > 7.5 {
        strict := strict + [light];
      }
      light := light + 1;
    }
    if |strict| > 0 {
      r := Some(Color(c.h, c.s, FindClosest(strict, c.l) as real));
    } else if |loose| > 0 {
      r := Some(Color(c.h, c.s, FindClosest(loose, c.l) as real));
    } else {
      r := None;
    }
  }
}
