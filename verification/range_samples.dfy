/** Facts about the samples of bands with the default curves, and the
    five-step fixture of the range interpolator. */
module RangeSamples {
  import opened ColorTypes
  import opened Ranges

  /** One band of five steps from hue 120 to hue 240 at s = l = 50 with the
      default curves gives hues 120, 144, 168, 192, 216 and then 240. */
  lemma FiveStepFixture(band: Range)
    requires band == FixtureBand
    ensures ColorRange([band]) == [
              Color(120.0, 50.0, 50.0), Color(144.0, 50.0, 50.0), Color(168.0, 50.0, 50.0),
              Color(192.0, 50.0, 50.0), Color(216.0, 50.0, 50.0), Color(240.0, 50.0, 50.0)]
  {
    var want := [
      Color(120.0, 50.0, 50.0), Color(144.0, 50.0, 50.0), Color(168.0, 50.0, 50.0),
      Color(192.0, 50.0, 50.0), Color(216.0, 50.0, 50.0), Color(240.0, 50.0, 50.0)];
    forall k | 0 <= k < 5
      ensures Sample(band, k) == want[k]
    {
      FixtureSample(band, k);
    }
    SingleBand(band, want);
  }

  /** A list with one band gives that band's samples `0 .. count - 1` and then
      its foreground. */
  lemma SingleBand(band: Range, want: seq<Color>)
    requires band.count > 0 && BandCurvesValid(band)
    requires |want| == band.count + 1 && want[band.count] == band.foreground
    requires forall k :: 0 <= k < band.count ==> Sample(band, k) == want[k]
    ensures RangesValid([band]) && ColorRange([band]) == want
  {
    assert BandsUpTo([band], 0) == [];
    assert ColorRange([band]) == Band(band, 0);
  }

  const FixtureBand := PlainRange(5, Color(120.0, 50.0, 50.0), Color(240.0, 50.0, 50.0))

  lemma FixtureSample(band: Range, i: int)
    requires band == FixtureBand && 0 <= i < 5
    ensures Sample(band, i) == Color(120.0 + 24.0 * i as real, 50.0, 50.0)
  {
    var h := Step(120.0, 240.0, 5, i);
    assert h == 120.0 + 24.0 * i as real;
    var s := Step(50.0, 50.0, 5, i);
    assert s == 50.0;
    PlainSample(5, Color(120.0, 50.0, 50.0), Color(240.0, 50.0, 50.0), i, h, s, s);
  }

  /** With the default curves a sample is the linear colour with hue clamped
      to [0, 360] and saturation and lightness clamped to [0, 100]. */
  lemma PlainSample(count: int, bg: Color, fg: Color, i: int, h: real, s: real, l: real)
    requires count > 0
    requires && h == Step(bg.h, fg.h, count, i)
             && s == Step(bg.s, fg.s, count, i)
             && l == Step(bg.l, fg.l, count, i)
    ensures Sample(PlainRange(count, bg, fg), i) == Color(Clamp(h, 360.0), Clamp(s, 100.0), Clamp(l, 100.0))
  {
    DefaultCurvesAreClamps(h);
    DefaultCurvesAreClamps(s);
    DefaultCurvesAreClamps(l);
  }

  /** `v` limited to [0, top]. */
  function Clamp(v: real, top: real): real {
    if v <= 0.0 then 0.0 else if v >= top then top else v
  }
}
