/** The range interpolator (`colorRange` and its `interpolateValue`): bands of
    stepped HSL samples, each channel eased by a four-term cubic curve. */
module Ranges {
  import opened Options
  import opened ColorTypes

  /** `interpolateValue` reads the first and the last control point, so a curve
      needs at least one. */
  predicate ValidCurve(p: CurveParams) {
    |p.points| > 0
  }

  function Last(p: CurveParams): Point
    requires ValidCurve(p)
  {
    p.points[|p.points| - 1]
  }

  /** The `while` scan: starting from `i`, advance while the next point lies
      strictly below `value`. It stops before the last point because that one
      lies above `value`; no ordering of the points is needed. */
  function Scan(pts: seq<Point>, value: real, i: nat): (k: nat)
    requires i + 1 < |pts|
    requires pts[i].x < value < pts[|pts| - 1].x
    ensures i <= k && k + 1 < |pts|
    ensures pts[k].x < value <= pts[k + 1].x
    ensures forall m :: i < m <= k ==> pts[m].x < value
    decreases |pts| - i
  {
    if pts[i + 1].x < value then Scan(pts, value, i + 1) else i
  }

  /** The segment the scan settles on, described without the scan: `k + 1` is
      the first index after 0 whose point does not lie below `value`. */
  predicate IsSegment(pts: seq<Point>, value: real, k: nat) {
    && k + 1 < |pts|
    && pts[k + 1].x >= value
    && forall m :: 1 <= m <= k ==> pts[m].x < value
  }

  /** The fixed blend `a t^3 + b t^2 + c t + d` of the bracketing points
      (x0, y0), (x3, y3) and the curve's first and last values y1, y2. */
  function Blend(t: real, y0: real, y1: real, y2: real, y3: real): real {
    var a := y3 - y2 - y0 + y1;
    var b := y0 - y1 - a;
    var c := y2 - y0;
    var d := y1;
    a * t * t * t + b * t * t + c * t + d
  }

  /** `interpolateValue(params, value)`. */
  function Interpolate(p: CurveParams, value: real): (r: real)
    requires ValidCurve(p)
    ensures value <= p.points[0].x ==> r == p.start
    ensures p.points[0].x < value && Last(p).x <= value ==> r == p.end
  {
    var first := p.points[0];
    var last := Last(p);
    if value <= first.x then p.start
    else if value >= last.x then p.end
    else
      var i := Scan(p.points, value, 0);
      var p0 := p.points[i];
      var p3 := p.points[i + 1];
      var t := (value - p0.x) / (p3.x - p0.x);
      Blend(t, p0.y, first.y, last.y, p3.y)
  }

  /** Strictly between the first and last control point, the result is the
      blend over the first segment whose right end is not below `value`, at a
      parameter `t` in (0, 1]; the divisor is never zero. */
  lemma InterpolateInterior(p: CurveParams, value: real, k: nat)
    requires ValidCurve(p)
    requires p.points[0].x < value < Last(p).x
    requires IsSegment(p.points, value, k)
    ensures p.points[k].x < value <= p.points[k + 1].x
    ensures var t := (value - p.points[k].x) / (p.points[k + 1].x - p.points[k].x);
            && 0.0 < t <= 1.0
            && Interpolate(p, value) == Blend(t, p.points[k].y, p.points[0].y, Last(p).y, p.points[k + 1].y)
  {
    var i := Scan(p.points, value, 0);
    SegmentUnique(p.points, value, i, k);
    var x0 := p.points[k].x;
    var x3 := p.points[k + 1].x;
    UnitFraction(value - x0, x3 - x0);
  }

  /** Two segments that both satisfy `IsSegment`, with the left end below
      `value`, are the same one. */
  lemma SegmentUnique(pts: seq<Point>, value: real, i: nat, k: nat)
    requires |pts| > 0 && pts[0].x < value
    requires IsSegment(pts, value, i) && IsSegment(pts, value, k)
    ensures i == k
  {
  }

  lemma UnitFraction(a: real, b: real)
    requires 0.0 < a <= b
    ensures 0.0 < a / b <= 1.0
  {
  }

  /** At the right end of any interior segment the blend yields the LAST
      control point's value, whatever the segment's own right value is. */
  lemma InterpolateAtSegmentEnd(p: CurveParams, k: nat)
    requires ValidCurve(p)
    requires k + 1 < |p.points|
    requires p.points[0].x < p.points[k + 1].x < Last(p).x
    requires IsSegment(p.points, p.points[k + 1].x, k)
    requires p.points[k].x < p.points[k + 1].x
    ensures Interpolate(p, p.points[k + 1].x) == Last(p).y
  {
    InterpolateInterior(p, p.points[k + 1].x, k);
  }

  /** The default hue curve: identity on [0, 360]. */
  const DefaultHueCurve := CurveParams(0.0, 360.0, [Point(0.0, 0.0), Point(360.0, 360.0)])

  /** The default saturation and lightness curve: identity on [0, 100]. */
  const DefaultPercentCurve := CurveParams(0.0, 100.0, [Point(0.0, 0.0), Point(100.0, 100.0)])

  /** A two-point curve from (0, 0) to (top, top) with start 0 and end `top`
      returns the value inside [0, top] and clamps it outside. */
  lemma {:induction false} IdentityCurve(top: real, v: real)
    requires top > 0.0
    ensures var p := CurveParams(0.0, top, [Point(0.0, 0.0), Point(top, top)]);
            Interpolate(p, v) == if v <= 0.0 then 0.0 else if v >= top then top else v
  {
    var p := CurveParams(0.0, top, [Point(0.0, 0.0), Point(top, top)]);
    if 0.0 < v < top {
      var t := v / top;
      assert Scan(p.points, v, 0) == 0;
      assert Interpolate(p, v) == Blend(t, 0.0, 0.0, top, top);
      assert Blend(t, 0.0, 0.0, top, top) == top * t;
      assert top * (v / top) == v;
    }
  }

  lemma DefaultCurvesAreClamps(v: real)
    ensures Interpolate(DefaultHueCurve, v) == if v <= 0.0 then 0.0 else if v >= 360.0 then 360.0 else v
    ensures Interpolate(DefaultPercentCurve, v) == if v <= 0.0 then 0.0 else if v >= 100.0 then 100.0 else v
  {
    IdentityCurve(360.0, v);
    IdentityCurve(100.0, v);
  }

  function HueCurve(band: Range): CurveParams {
    band.hueCurve.GetOr(DefaultHueCurve)
  }

  function SaturationCurve(band: Range): CurveParams {
    band.saturationCurve.GetOr(DefaultPercentCurve)
  }

  function LightnessCurve(band: Range): CurveParams {
    band.lightnessCurve.GetOr(DefaultPercentCurve)
  }

  /** The curves a band will ease its samples with all have a control point. */
  predicate BandCurvesValid(band: Range) {
    ValidCurve(HueCurve(band)) && ValidCurve(SaturationCurve(band)) && ValidCurve(LightnessCurve(band))
  }

  /** Band `j` evaluates its curves only when it has a sample, that is when
      `count > j`; only then must its curves be valid. */
  predicate RangesValid(ranges: seq<Range>) {
    forall j :: 0 <= j < |ranges| && ranges[j].count > j ==> BandCurvesValid(ranges[j])
  }

  /** Sample `i` of a band: the linear colour `background + i * step` with
      each channel passed through its curve. */
  function Sample(band: Range, i: int): Color
    requires band.count > 0 && BandCurvesValid(band)
  {
    var bg := band.background;
    var fg := band.foreground;
    Color(Interpolate(HueCurve(band), Step(bg.h, fg.h, band.count, i)),
          Interpolate(SaturationCurve(band), Step(bg.s, fg.s, band.count, i)),
          Interpolate(LightnessCurve(band), Step(bg.l, fg.l, band.count, i)))
  }

  /** One channel of the linear colour: `from + (to - from) / count * i`. */
  function Step(from: real, to: real, count: int, i: int): real
    requires count > 0
  {
    from + (to - from) / count as real * i as real
  }

  /** How many samples band `j` emits: the loop runs `i = j .. count - 1`. */
  function SampleCount(count: int, j: nat): nat {
    if count > j then count - j else 0
  }

  /** What band `j` contributes: samples `j .. count - 1`, then its foreground. */
  function Band(band: Range, j: nat): (out: seq<Color>)
    requires band.count > j ==> BandCurvesValid(band)
  {
    seq(SampleCount(band.count, j), k requires 0 <= k < SampleCount(band.count, j) => Sample(band, j + k))
      + [band.foreground]
  }

  /** The bands `0 .. n - 1` concatenated in order. */
  function BandsUpTo(ranges: seq<Range>, n: nat): seq<Color>
    requires n <= |ranges| && RangesValid(ranges)
  {
    if n == 0 then [] else BandsUpTo(ranges, n - 1) + Band(ranges[n - 1], n - 1)
  }

  /** `colorRange(ranges)`, as the bands' contributions concatenated: band
      `j` gives `max(0, count - j) + 1` colours. */
  function ColorRange(ranges: seq<Range>): (colors: seq<Color>)
    requires RangesValid(ranges)
    ensures |colors| == OutputLength(ranges, |ranges|)
  {
    ColorRangeLength(ranges, |ranges|);
    BandsUpTo(ranges, |ranges|)
  }

  /** The number of colours bands `0 .. n - 1` produce. */
  function OutputLength(ranges: seq<Range>, n: nat): nat
    requires n <= |ranges|
  {
    if n == 0 then 0 else OutputLength(ranges, n - 1) + SampleCount(ranges[n - 1].count, n - 1) + 1
  }

  /** `colorRange` as written: the outer loop over bands, the inner loop from
      the band index `j` (not 0) to `count - 1`, then the foreground. */
  method ColorRangeLoop(ranges: seq<Range>) returns (colors: seq<Color>)
    requires RangesValid(ranges)
    ensures colors == ColorRange(ranges)
  {
    colors := [];
    var j := 0;
    while j < |ranges|
      invariant 0 <= j <= |ranges|
      invariant colors == BandsUpTo(ranges, j)
    {
      var band := ranges[j];
      var before := colors;
      var i := j;
      while i < band.count
        invariant j <= i
        invariant band.count > j ==> i <= band.count
        invariant band.count <= j ==> i == j
        invariant colors == before + Band(band, j)[..i - j]
      {
        colors := colors + [Sample(band, i)];
        i := i + 1;
      }
      assert colors == before + Band(band, j)[..SampleCount(band.count, j)];
      colors := colors + [band.foreground];
      assert Band(band, j) == Band(band, j)[..SampleCount(band.count, j)] + [band.foreground];
      j := j + 1;
    }
  }

  /** The output length is the sum over bands of `max(0, count - j) + 1`. */
  lemma {:induction false} ColorRangeLength(ranges: seq<Range>, n: nat)
    requires n <= |ranges| && RangesValid(ranges)
    ensures |BandsUpTo(ranges, n)| == OutputLength(ranges, n)
  {
    if n > 0 {
      ColorRangeLength(ranges, n - 1);
    }
  }

  /** Bands appear in input order: band `j` occupies the positions right after
      the colours of the bands before it, sample by sample, foreground last. */
  lemma {:induction false} BandPlacement(ranges: seq<Range>, n: nat, j: nat, k: nat)
    requires n <= |ranges| && RangesValid(ranges)
    requires j < n && k < SampleCount(ranges[j].count, j) + 1
    ensures OutputLength(ranges, j) + k < |BandsUpTo(ranges, n)|
    ensures k < |Band(ranges[j], j)| && BandsUpTo(ranges, n)[OutputLength(ranges, j) + k] == Band(ranges[j], j)[k]
  {
    var before := BandsUpTo(ranges, n - 1);
    var band := Band(ranges[n - 1], n - 1);
    assert BandsUpTo(ranges, n) == before + band;
    ColorRangeLength(ranges, n - 1);
    if j < n - 1 {
      BandPlacement(ranges, n - 1, j, k);
      OutputGrows(ranges, j + 1, n - 1);
    }
  }

  /** Entry `k` of band `j`'s contribution: sample `j + k` while there are
      samples left, then the foreground. */
  lemma BandElement(band: Range, j: nat, k: nat)
    requires band.count > j ==> BandCurvesValid(band)
    requires k < SampleCount(band.count, j) + 1
    ensures k < |Band(band, j)|
    ensures Band(band, j)[k] == if k < SampleCount(band.count, j) then Sample(band, j + k) else band.foreground
  {
  }

  /** Processing more bands never shortens the output. */
  lemma {:induction false} OutputGrows(ranges: seq<Range>, m: nat, n: nat)
    requires m <= n <= |ranges|
    ensures OutputLength(ranges, m) <= OutputLength(ranges, n)
  {
    if m < n {
      OutputGrows(ranges, m, n - 1);
    }
  }

  /** The interpolation fixtures: 56.25 at x = 5 on three points, 35.68 at
      x = 12 on four points, 50 at x = 10 on two points. */
  lemma InterpolateFixtures()
    ensures Interpolate(CurveParams(10.0, 100.0, [Point(0.0, 0.0), Point(10.0, 50.0), Point(20.0, 100.0)]), 5.0) == 56.25
    ensures Interpolate(CurveParams(0.0, 100.0, [Point(0.0, 0.0), Point(10.0, 50.0), Point(15.0, 70.0), Point(20.0, 100.0)]), 12.0) == 35.68
    ensures Interpolate(CurveParams(0.0, 100.0, [Point(0.0, 0.0), Point(20.0, 100.0)]), 10.0) == 50.0
    ensures Interpolate(CurveParams(10.0, 100.0, [Point(0.0, 0.0), Point(10.0, 50.0), Point(20.0, 100.0)]), -1.0) == 10.0
    ensures Interpolate(CurveParams(10.0, 100.0, [Point(0.0, 0.0), Point(10.0, 50.0), Point(20.0, 100.0)]), 30.0) == 100.0
  {
    var four := [Point(0.0, 0.0), Point(10.0, 50.0), Point(15.0, 70.0), Point(20.0, 100.0)];
    assert Scan(four, 12.0, 0) == 1;
    assert Blend(0.4, 50.0, 0.0, 100.0, 70.0) == 35.68;
    assert Blend(0.5, 0.0, 0.0, 100.0, 50.0) == 56.25;
  }
}
