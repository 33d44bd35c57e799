/** Colour conversions: HSL to RGB and to `#rrggbb`, `#rgb`/`#rrggbb` to HSL
    and to RGB, RGB to HSL, and the `colorToHsl` input dispatcher. */
module Conversions {
  import opened Options
  import opened JsNumber
  import opened Digits
  import opened Strings
  import opened ColorTypes

  const Black := Color(0.0, 0.0, 0.0)

  // ---------------------------------------------------------------------------
  // hslToRgb

  /** The `hue2rgb` helper: wrap `t` once into [0, 1], then pick the piece of
      the HSL triangle wave it falls in. */
  function Hue2Rgb(p: real, q: real, t0: real): real {
    var t1 := if t0 < 0.0 then t0 + 1.0 else t0;
    var t := if t1 > 1.0 then t1 - 1.0 else t1;
    if t < 1.0 / 6.0 then p + (q - p) * 6.0 * t
    else if t < 1.0 / 2.0 then q
    else if t < 2.0 / 3.0 then p + (q - p) * (2.0 / 3.0 - t) * 6.0
    else p
  }

  /** The `q` of `hslToRgb`: `l * (1 + s)` below half lightness, else `l + s - l * s`. */
  function UpperQ(ll: real, ss: real): real {
    if ll < 0.5 then ll * (1.0 + ss) else ll + ss - ll * ss
  }

  /** The three channels `hslToRgb` rounds, for a given `p`, `q` and hue fraction. */
  function HueChannels(p: real, q: real, hh: real): Rgb {
    Rgb(Round(Hue2Rgb(p, q, hh + 1.0 / 3.0) * 255.0),
        Round(Hue2Rgb(p, q, hh) * 255.0),
        Round(Hue2Rgb(p, q, hh - 1.0 / 3.0) * 255.0))
  }

  /** `hslToRgb(h, s, l)`: channels rounded with `Math.round`. With no
      saturation it is a grey; for a hue in [0, 360] it computes the very
      channels `hslToHex` writes, by its independent sector formula. */
  function HslToRgb(h: real, s: real, l: real): (c: Rgb)
    ensures s == 0.0 ==> c.r == c.g == c.b == Round(l * 255.0 / 100.0)
    ensures 0.0 <= h <= 360.0 ==> c == HexChannels(h, s, l)
  {
    var hh := h / 360.0;
    var ss := s / 100.0;
    var ll := l / 100.0;
    if ss == 0.0 then
      var v := Round(ll * 255.0);
      assert ll * 255.0 == l * 255.0 / 100.0;
      GreyChannels(h, s, l);
      Rgb(v, v, v)
    else
      var q := UpperQ(ll, ss);
      HueChannelsAgree(h, s, l);
      HueChannels(2.0 * ll - q, q, hh)
  }

  /** For `0 <= p <= q`, `hue2rgb` of a `t` in [-1, 2] stays between `p` and `q`. */
  lemma Hue2RgbBetween(p: real, q: real, t0: real)
    requires 0.0 <= p <= q && -1.0 <= t0 <= 2.0
    ensures p <= Hue2Rgb(p, q, t0) <= q
  {
    var t1 := if t0 < 0.0 then t0 + 1.0 else t0;
    var t := if t1 > 1.0 then t1 - 1.0 else t1;
    var v := Hue2Rgb(p, q, t0);
    if t < 1.0 / 6.0 {
      AddScaled(p, q, 6.0 * t, v);
    } else if 1.0 / 2.0 <= t < 2.0 / 3.0 {
      AddScaled(p, q, (2.0 / 3.0 - t) * 6.0, v);
    }
  }

  /** The `q` and `p` of `hslToRgb` for s, l in [0, 1] satisfy 0 <= p <= q <= 1. */
  lemma PQBounds(ll: real, ss: real)
    requires 0.0 <= ll <= 1.0 && 0.0 <= ss <= 1.0
    ensures var q := UpperQ(ll, ss);
            0.0 <= 2.0 * ll - q <= q <= 1.0
  {
    if ll < 0.5 {
      var w := ll * ss;
      ScaleWithin(ll, ss, w);
      assert ll * (1.0 + ss) == ll + w;
    } else {
      var w := (1.0 - ll) * ss;
      ScaleWithin(1.0 - ll, ss, w);
      assert ll + ss - ll * ss == ll + w;
      var q := ll + w;
      assert q <= 1.0;
      assert 0.0 <= w <= 1.0 - ll <= ll;
      assert 2.0 * ll - q == ll - w;
      assert 0.0 <= ll - w;
    }
  }

  /** A fraction of 255 in [0, 1] rounds to a channel in 0..255. */
  lemma ChannelInRange(v: real)
    requires 0.0 <= v <= 1.0
    ensures 0 <= Round(v * 255.0) <= 255
  {
    RoundMonotone(0.0, v * 255.0);
    RoundMonotone(v * 255.0, 255.0);
    RoundInt(0);
    RoundInt(255);
  }

  predicate ChannelsInRange(c: Rgb) {
    0 <= c.r <= 255 && 0 <= c.g <= 255 && 0 <= c.b <= 255
  }

  /** One `hue2rgb` channel of a `p`, `q` pair in [0, 1] rounds into 0..255. */
  lemma HueChannelInRange(p: real, q: real, t: real)
    requires 0.0 <= p <= q <= 1.0 && -1.0 <= t <= 2.0
    ensures 0 <= Round(Hue2Rgb(p, q, t) * 255.0) <= 255
  {
    Hue2RgbBetween(p, q, t);
    ChannelInRange(Hue2Rgb(p, q, t));
  }

  /** For a hue in [0, 360] and s, l in [0, 100] every channel is in 0..255. */
  lemma HslToRgbInRange(h: real, s: real, l: real)
    requires 0.0 <= h <= 360.0 && 0.0 <= s <= 100.0 && 0.0 <= l <= 100.0
    ensures ChannelsInRange(HslToRgb(h, s, l))
  {
    var hh := h / 360.0;
    var ss := s / 100.0;
    var ll := l / 100.0;
    if ss == 0.0 {
      ChannelInRange(ll);
    } else {
      var q := UpperQ(ll, ss);
      var p := 2.0 * ll - q;
      PQBounds(ll, ss);
      HueChannelInRange(p, q, hh + 1.0 / 3.0);
      HueChannelInRange(p, q, hh);
      HueChannelInRange(p, q, hh - 1.0 / 3.0);
      assert HslToRgb(h, s, l) == HueChannels(p, q, hh);
    }
  }

  /** Black, white and the six primaries and secondaries. */
  lemma HslToRgbFixtures(h: real, s: real, l: real)
    ensures h == 0.0 && s == 0.0 && l == 0.0 ==> HslToRgb(h, s, l) == Rgb(0, 0, 0)
    ensures h == 0.0 && s == 0.0 && l == 100.0 ==> HslToRgb(h, s, l) == Rgb(255, 255, 255)
    ensures s == 100.0 && l == 50.0 ==>
              && (h == 0.0 ==> HslToRgb(h, s, l) == Rgb(255, 0, 0))
              && (h == 60.0 ==> HslToRgb(h, s, l) == Rgb(255, 255, 0))
              && (h == 120.0 ==> HslToRgb(h, s, l) == Rgb(0, 255, 0))
              && (h == 180.0 ==> HslToRgb(h, s, l) == Rgb(0, 255, 255))
              && (h == 240.0 ==> HslToRgb(h, s, l) == Rgb(0, 0, 255))
              && (h == 300.0 ==> HslToRgb(h, s, l) == Rgb(255, 0, 255))
  {
    if s == 0.0 {
      GreyRgb(h, s, l);
    } else if s == 100.0 && l == 50.0 {
      FullRgb(h, s, l);
    }
  }

  lemma GreyRgb(h: real, s: real, l: real)
    requires s == 0.0
    ensures l == 0.0 ==> HslToRgb(h, s, l) == Rgb(0, 0, 0)
    ensures l == 100.0 ==> HslToRgb(h, s, l) == Rgb(255, 255, 255)
  {
  }

  /** At full saturation and half lightness `p` is 0 and `q` is 1. */
  lemma FullRgb(h: real, s: real, l: real)
    requires s == 100.0 && l == 50.0
    ensures var rgb := HueChannels(0.0, 1.0, h / 360.0);
            && HslToRgb(h, s, l) == rgb
            && (h == 0.0 ==> rgb == Rgb(255, 0, 0))
            && (h == 60.0 ==> rgb == Rgb(255, 255, 0))
            && (h == 120.0 ==> rgb == Rgb(0, 255, 0))
            && (h == 180.0 ==> rgb == Rgb(0, 255, 255))
            && (h == 240.0 ==> rgb == Rgb(0, 0, 255))
            && (h == 300.0 ==> rgb == Rgb(255, 0, 255))
  {
    assert UpperQ(0.5, 1.0) == 1.0;
  }

  // ---------------------------------------------------------------------------
  // hslToHex

  /** The rounded channels `hslToHex` writes: hue taken with `% 360`, one of six
      60-degree sectors chosen (none for a negative remainder, leaving all three
      at `m`). */
  function HexChannels(h: real, s: real, l: real): Rgb {
    var hue := Rem(h, 360.0);
    var light := l / 100.0;
    var c := Chroma(light, s / 100.0);
    var x := SecondComponent(c, hue);
    ShiftRound(Sector(hue, c, x), light - c / 2.0)
  }

  /** The chroma `(1 - |2l - 1|) * s`. */
  function Chroma(light: real, sat: real): real {
    (1.0 - Abs(2.0 * light - 1.0)) * sat
  }

  /** The intermediate component `c * (1 - |(hue / 60) % 2 - 1|)`. */
  function SecondComponent(c: real, hue: real): real {
    c * (1.0 - Abs(Rem(hue / 60.0, 2.0) - 1.0))
  }

  /** Adds `m` to each component, scales by 255 and rounds. */
  function ShiftRound(rgb: (real, real, real), m: real): Rgb {
    Rgb(Round((rgb.0 + m) * 255.0), Round((rgb.1 + m) * 255.0), Round((rgb.2 + m) * 255.0))
  }

  /** The unshifted (r, g, b) of the sector `hue` falls in. */
  function Sector(hue: real, c: real, x: real): (real, real, real) {
    if 0.0 <= hue < 60.0 then (c, x, 0.0)
    else if 60.0 <= hue < 120.0 then (x, c, 0.0)
    else if 120.0 <= hue < 180.0 then (0.0, c, x)
    else if 180.0 <= hue < 240.0 then (0.0, x, c)
    else if 240.0 <= hue < 300.0 then (x, 0.0, c)
    else if 300.0 <= hue < 360.0 then (c, 0.0, x)
    else (0.0, 0.0, 0.0)
  }

  /** `hslToHex(h, s, l)`: `#` and each channel as `toString(16)` padded to two. */
  function HslToHex(h: real, s: real, l: real): (hex: string)
    ensures |hex| >= 7 && hex[0] == '#'
  {
    ChannelsToHex(HexChannels(h, s, l))
  }

  /** The `#rrggbb` text of three channels, each `toString(16)` padded to two. */
  function ChannelsToHex(c: Rgb): (hex: string)
    ensures |hex| >= 7 && hex[0] == '#'
  {
    "#" + HexPair(c.r) + HexPair(c.g) + HexPair(c.b)
  }

  /** Every sector value lies between 0 and `c` when `0 <= x <= c`. */
  lemma SectorBetween(hue: real, c: real, x: real)
    requires 0.0 <= x <= c
    ensures var rgb := Sector(hue, c, x);
            0.0 <= rgb.0 <= c && 0.0 <= rgb.1 <= c && 0.0 <= rgb.2 <= c
  {
  }

  /** The chroma of s, l in [0, 1] leaves room for `m = l - c / 2` below and
      `m + c` above inside [0, 1]. */
  lemma ChromaBounds(light: real, sat: real)
    requires 0.0 <= light <= 1.0 && 0.0 <= sat <= 1.0
    ensures var c := Chroma(light, sat);
            0.0 <= c && 0.0 <= light - c / 2.0 && light - c / 2.0 + c <= 1.0
  {
    var k := 1.0 - Abs(2.0 * light - 1.0);
    var c := Chroma(light, sat);
    ScaleWithin(k, sat, c);
    if light <= 0.5 {
      assert k == 2.0 * light;
    } else {
      assert k == 2.0 - 2.0 * light;
    }
  }

  /** For a non-negative hue the intermediate component lies in [0, c]. */
  lemma SecondComponentBounds(c: real, hue: real)
    requires 0.0 <= c && 0.0 <= hue
    ensures 0.0 <= SecondComponent(c, hue) <= c
  {
    var r := Rem(hue / 60.0, 2.0);
    assert 0.0 <= r < 2.0;
    ScaleWithin(c, 1.0 - Abs(r - 1.0), SecondComponent(c, hue));
  }

  /** Components in [0, c] shifted by `m` with `0 <= m` and `m + c <= 1` round into 0..255. */
  lemma ShiftRoundInRange(rgb: (real, real, real), c: real, m: real)
    requires 0.0 <= rgb.0 <= c && 0.0 <= rgb.1 <= c && 0.0 <= rgb.2 <= c
    requires 0.0 <= m && m + c <= 1.0
    ensures ChannelsInRange(ShiftRound(rgb, m))
  {
    ChannelInRange(rgb.0 + m);
    ChannelInRange(rgb.1 + m);
    ChannelInRange(rgb.2 + m);
  }

  /** For s and l in [0, 100], whatever the hue, each channel is in 0..255. */
  lemma HexChannelsInRange(h: real, s: real, l: real)
    requires 0.0 <= s <= 100.0 && 0.0 <= l <= 100.0
    ensures ChannelsInRange(HexChannels(h, s, l))
  {
    var hue := Rem(h, 360.0);
    var light := l / 100.0;
    var c := Chroma(light, s / 100.0);
    ChromaBounds(light, s / 100.0);
    if 0.0 <= hue {
      var x := SecondComponent(c, hue);
      SecondComponentBounds(c, hue);
      SectorBetween(hue, c, x);
      ShiftRoundInRange(Sector(hue, c, x), c, light - c / 2.0);
    } else {
      var x := SecondComponent(c, hue);
      assert Sector(hue, c, x) == (0.0, 0.0, 0.0);
      ShiftRoundInRange(Sector(hue, c, x), c, light - c / 2.0);
    }
  }

  /** The two digits `HexPair` writes for a channel read back as that channel. */
  lemma PairValueOfHexPair(n: int)
    requires 0 <= n < 256
    ensures |HexPair(n)| == 2
    ensures IsLowerHexDigit(HexPair(n)[0]) && IsLowerHexDigit(HexPair(n)[1])
    ensures PairValue(HexPair(n)[0], HexPair(n)[1]) == n
  {
    HexPairRoundTrip(n);
  }

  /** Channels in 0..255 become `#` and six lower-case hex digits that both
      `hexToRgb` and the `hexToHsl` reader read back as the same channels. */
  lemma ChannelsToHexRoundTrip(c: Rgb)
    requires ChannelsInRange(c)
    ensures var hex := ChannelsToHex(c);
            && |hex| == 7
            && (forall i :: 1 <= i < 7 ==> IsLowerHexDigit(hex[i]))
            && IsHexColor(hex)
            && HexColorChannels(hex) == c
            && HexToRgb(hex) == RgbReading(Some(c.r), Some(c.g), Some(c.b))
  {
    PairValueOfHexPair(c.r);
    PairValueOfHexPair(c.g);
    PairValueOfHexPair(c.b);
    var hex := ChannelsToHex(c);
    var pr, pg, pb := HexPair(c.r), HexPair(c.g), HexPair(c.b);
    SixDigits(pr, pg, pb);
    assert hex == ['#', pr[0], pr[1], pg[0], pg[1], pb[0], pb[1]];
    LowerDigitsColor(pr[0], pr[1], pg[0], pg[1], pb[0], pb[1]);
    assert HexColorChannels(hex) == c;
    HexToRgbAgreesWithHexToHsl(hex);
  }

  lemma LowerDigitsColor(a: char, b: char, c: char, d: char, e: char, f: char)
    requires IsLowerHexDigit(a) && IsLowerHexDigit(b) && IsLowerHexDigit(c)
    requires IsLowerHexDigit(d) && IsLowerHexDigit(e) && IsLowerHexDigit(f)
    ensures var hex := ['#', a, b, c, d, e, f];
            IsHexColor(hex) && forall i :: 1 <= i < 7 ==> IsLowerHexDigit(hex[i])
  {
  }

  lemma SixDigits(a: string, b: string, c: string)
    requires |a| == 2 && |b| == 2 && |c| == 2
    ensures "#" + a + b + c == ['#', a[0], a[1], b[0], b[1], c[0], c[1]]
  {
  }

  /** For s and l in [0, 100] the result of `hslToHex` is a valid colour whose
      channels both readers recover exactly. */
  lemma HslToHexRoundTrip(h: real, s: real, l: real)
    requires 0.0 <= s <= 100.0 && 0.0 <= l <= 100.0
    ensures var hex := HslToHex(h, s, l);
            var c := HexChannels(h, s, l);
            && |hex| == 7
            && IsHexColor(hex)
            && HexColorChannels(hex) == c
            && HexToRgb(hex) == RgbReading(Some(c.r), Some(c.g), Some(c.b))
  {
    HexChannelsInRange(h, s, l);
    ChannelsToHexRoundTrip(HexChannels(h, s, l));
  }

  /** Pure red, green and blue at full saturation and half lightness. */
  lemma HslToHexPrimaries(h: real, s: real, l: real)
    requires s == 100.0 && l == 50.0
    ensures h == 0.0 ==> HslToHex(h, s, l) == "#ff0000"
    ensures h == 120.0 ==> HslToHex(h, s, l) == "#00ff00"
    ensures h == 240.0 ==> HslToHex(h, s, l) == "#0000ff"
  {
    HexPairFixtures();
    var ff, zero := HexPair(255), HexPair(0);
    if h == 0.0 {
      RedChannels(h, s, l);
      PairsText(HexChannels(h, s, l), ff, zero, zero);
    } else if h == 120.0 {
      GreenChannels(h, s, l);
      PairsText(HexChannels(h, s, l), zero, ff, zero);
    } else if h == 240.0 {
      BlueChannels(h, s, l);
      PairsText(HexChannels(h, s, l), zero, zero, ff);
    }
  }

  lemma PairsText(c: Rgb, x: string, y: string, z: string)
    requires HexPair(c.r) == x && HexPair(c.g) == y && HexPair(c.b) == z
    ensures ChannelsToHex(c) == "#" + x + y + z
  {
  }

  lemma RedChannels(h: real, s: real, l: real)
    requires h == 0.0 && s == 100.0 && l == 50.0
    ensures HexChannels(h, s, l) == Rgb(255, 0, 0)
  {
    var c := Chroma(l / 100.0, s / 100.0);
    assert Rem(h, 360.0) == 0.0;
    assert c == 1.0;
    assert SecondComponent(c, 0.0) == 0.0 by {
      assert Rem(0.0, 2.0) == 0.0;
    }
    assert ShiftRound((1.0, 0.0, 0.0), 0.0) == Rgb(255, 0, 0);
  }

  lemma GreenChannels(h: real, s: real, l: real)
    requires h == 120.0 && s == 100.0 && l == 50.0
    ensures HexChannels(h, s, l) == Rgb(0, 255, 0)
  {
    var c := Chroma(l / 100.0, s / 100.0);
    assert Rem(h, 360.0) == 120.0;
    assert c == 1.0;
    assert SecondComponent(c, 120.0) == 0.0 by {
      assert Rem(2.0, 2.0) == 0.0;
    }
    assert ShiftRound((0.0, 1.0, 0.0), 0.0) == Rgb(0, 255, 0);
  }

  lemma BlueChannels(h: real, s: real, l: real)
    requires h == 240.0 && s == 100.0 && l == 50.0
    ensures HexChannels(h, s, l) == Rgb(0, 0, 255)
  {
    var c := Chroma(l / 100.0, s / 100.0);
    assert Rem(h, 360.0) == 240.0;
    assert c == 1.0;
    assert SecondComponent(c, 240.0) == 0.0 by {
      assert Rem(4.0, 2.0) == 0.0;
    }
    assert ShiftRound((0.0, 0.0, 1.0), 0.0) == Rgb(0, 0, 255);
  }

  /** With no saturation the chroma is zero and, whatever the hue, every
      channel is `l * 255`, rounded. */
  lemma GreyChannels(h: real, s: real, l: real)
    requires s == 0.0
    ensures var v := Round(l / 100.0 * 255.0);
            HexChannels(h, s, l) == Rgb(v, v, v)
  {
    var hue := Rem(h, 360.0);
    var light := l / 100.0;
    var c := Chroma(light, s / 100.0);
    assert c == 0.0;
    var x := SecondComponent(c, hue);
    assert x == 0.0;
    assert Sector(hue, c, x) == (0.0, 0.0, 0.0);
    assert (0.0 + (light - c / 2.0)) * 255.0 == light * 255.0;
  }

  /** Whatever the hue, no saturation at full lightness is white and at zero
      lightness black. */
  lemma HslToHexGreys(h: real, s: real, l: real)
    requires s == 0.0 && (l == 0.0 || l == 100.0)
    ensures l == 100.0 ==> HslToHex(h, s, l) == "#ffffff"
    ensures l == 0.0 ==> HslToHex(h, s, l) == "#000000"
  {
    GreyChannels(h, s, l);
    HexPairFixtures();
    if l == 100.0 {
      assert HexChannels(h, s, l) == Rgb(255, 255, 255);
    } else {
      assert HexChannels(h, s, l) == Rgb(0, 0, 0);
    }
  }

  /** A pale blue: hue 198 lies in the fourth sector, `(0, x, c)`. */
  lemma HslToHexPaleBlue()
    ensures HslToHex(198.0, 46.0, 77.0) == "#a9cfdf"
  {
    var c := Chroma(0.77, 0.46);
    assert c == 0.2116;
    assert Rem(198.0 / 60.0, 2.0) == 1.3;
    var x := SecondComponent(c, 198.0);
    assert x == 0.2116 * 0.7;
    assert HexChannels(198.0, 46.0, 77.0) == Rgb(169, 207, 223);
    assert HexPair(169) == "a9";
    assert HexPair(207) == "cf";
    assert HexPair(223) == "df";
  }

  lemma HexPairFixtures()
    ensures HexPair(0) == "00" && HexPair(255) == "ff"
  {
    assert NatToHex(255) == "ff";
  }

  // ---------------------------------------------------------------------------
  // hslToRgb and hslToHex compute the same channels

  /** The `q` and `p` of `hslToRgb` are `m + c` and `m` of `hslToHex`: their
      spread is the chroma and `p` is the lightness less half of it. */
  lemma ChromaSpread(ll: real, ss: real)
    ensures var q := UpperQ(ll, ss);
            var c := Chroma(ll, ss);
            q == (2.0 * ll - q) + c && ll - c / 2.0 == 2.0 * ll - q
  {
    var c := Chroma(ll, ss);
    if ll < 0.5 {
      assert Abs(2.0 * ll - 1.0) == 1.0 - 2.0 * ll;
      assert c == (2.0 * ll) * ss;
      assert ll * (1.0 + ss) == ll + ll * ss;
    } else {
      assert Abs(2.0 * ll - 1.0) == 2.0 * ll - 1.0;
      assert c == (2.0 - 2.0 * ll) * ss;
    }
  }

  /** `v % 2` for `v` in [0, 6): `v` less the even whole number below it. */
  lemma RemTwo(v: real)
    requires 0.0 <= v < 6.0
    ensures Rem(v, 2.0) == if v < 2.0 then v else if v < 4.0 then v - 2.0 else v - 4.0
  {
    var r := Rem(v, 2.0);
    var n := ((v - r) / 2.0).Floor;
    assert v - r == 2.0 * n as real;
  }

  /** `360 % 360` is 0, so hue 360 is hue 0 for `hslToHex`. */
  lemma RemFullTurn()
    ensures Rem(360.0, 360.0) == 0.0
  {
    var r := Rem(360.0, 360.0);
    var n := ((360.0 - r) / 360.0).Floor;
    assert 360.0 - r == 360.0 * n as real;
  }

  /** The factor `1 - |(hue / 60) % 2 - 1|` of the intermediate component, a
      triangle wave rising on even sectors and falling on odd ones. */
  function TriangleFactor(h: real): (a: real)
    requires 0.0 <= h < 360.0
    ensures a == 1.0 - Abs(Rem(h / 60.0, 2.0) - 1.0)
  {
    var v := h / 60.0;
    RemTwo(v);
    if h < 60.0 then v
    else if h < 120.0 then 2.0 - v
    else if h < 180.0 then v - 2.0
    else if h < 240.0 then 4.0 - v
    else if h < 300.0 then v - 4.0
    else 6.0 - v
  }

  /** The three `hue2rgb` values for `p`, `q = p + c` and hue `h` are the
      sector components `rgb` shifted by `p`. */
  predicate SectorMatches(p: real, c: real, h: real, rgb: (real, real, real)) {
    && Hue2Rgb(p, p + c, h / 360.0 + 1.0 / 3.0) == rgb.0 + p
    && Hue2Rgb(p, p + c, h / 360.0) == rgb.1 + p
    && Hue2Rgb(p, p + c, h / 360.0 - 1.0 / 3.0) == rgb.2 + p
  }

  /** Inside [0, 360) the sector table of `hslToHex` and the `hue2rgb`
      triangle wave of `hslToRgb` agree. */
  lemma SectorIsHue2Rgb(p: real, c: real, h: real)
    requires 0.0 <= h < 360.0
    ensures SectorMatches(p, c, h, Sector(h, c, SecondComponent(c, h)))
  {
    if h < 60.0 {
      RedSector(p, c, h);
    } else if h < 120.0 {
      YellowSector(p, c, h);
    } else if h < 180.0 {
      GreenSector(p, c, h);
    } else if h < 240.0 {
      CyanSector(p, c, h);
    } else if h < 300.0 {
      BlueSector(p, c, h);
    } else {
      MagentaSector(p, c, h);
    }
  }

  lemma RedSector(p: real, c: real, h: real)
    requires 0.0 <= h < 60.0
    ensures SectorMatches(p, c, h, Sector(h, c, SecondComponent(c, h)))
  {
    var a := TriangleFactor(h);
    assert a == h / 60.0;
    assert SecondComponent(c, h) == c * a;
    RisingPiece(p, c, h / 360.0, h / 60.0);
  }

  lemma YellowSector(p: real, c: real, h: real)
    requires 60.0 <= h < 120.0
    ensures SectorMatches(p, c, h, Sector(h, c, SecondComponent(c, h)))
  {
    var a := TriangleFactor(h);
    assert a == 2.0 - h / 60.0;
    assert SecondComponent(c, h) == c * a;
    FallingPiece(p, c, h / 360.0 + 1.0 / 3.0, 2.0 - h / 60.0);
  }

  lemma GreenSector(p: real, c: real, h: real)
    requires 120.0 <= h < 180.0
    ensures SectorMatches(p, c, h, Sector(h, c, SecondComponent(c, h)))
  {
    var a := TriangleFactor(h);
    assert a == h / 60.0 - 2.0;
    assert SecondComponent(c, h) == c * a;
    RisingPiece(p, c, h / 360.0 - 1.0 / 3.0, h / 60.0 - 2.0);
  }

  lemma CyanSector(p: real, c: real, h: real)
    requires 180.0 <= h < 240.0
    ensures SectorMatches(p, c, h, Sector(h, c, SecondComponent(c, h)))
  {
    var a := TriangleFactor(h);
    assert a == 4.0 - h / 60.0;
    assert SecondComponent(c, h) == c * a;
    FallingPiece(p, c, h / 360.0, 4.0 - h / 60.0);
  }

  lemma BlueSector(p: real, c: real, h: real)
    requires 240.0 <= h < 300.0
    ensures SectorMatches(p, c, h, Sector(h, c, SecondComponent(c, h)))
  {
    var a := TriangleFactor(h);
    assert a == h / 60.0 - 4.0;
    assert SecondComponent(c, h) == c * a;
    if h > 240.0 {
      RisingPiece(p, c, h / 360.0 + 1.0 / 3.0 - 1.0, h / 60.0 - 4.0);
    }
  }

  lemma MagentaSector(p: real, c: real, h: real)
    requires 300.0 <= h < 360.0
    ensures SectorMatches(p, c, h, Sector(h, c, SecondComponent(c, h)))
  {
    var a := TriangleFactor(h);
    assert a == 6.0 - h / 60.0;
    assert SecondComponent(c, h) == c * a;
    FallingPiece(p, c, h / 360.0 - 1.0 / 3.0, 6.0 - h / 60.0);
  }

  /** The rising piece of `hue2rgb`: `p` plus the chroma times `6 t`. */
  lemma RisingPiece(p: real, c: real, t: real, u: real)
    requires 0.0 <= t < 1.0 / 6.0 && u == 6.0 * t
    ensures Hue2Rgb(p, p + c, t) == c * u + p
  {
  }

  /** The falling piece of `hue2rgb`: `p` plus the chroma times `(2/3 - t) 6`. */
  lemma FallingPiece(p: real, c: real, t: real, u: real)
    requires 1.0 / 2.0 <= t < 2.0 / 3.0 && u == (2.0 / 3.0 - t) * 6.0
    ensures Hue2Rgb(p, p + c, t) == c * u + p
  {
  }

  /** Hue fraction 1 gives the channels of hue fraction 0. */
  lemma FullTurnChannels(p: real, q: real)
    ensures HueChannels(p, q, 1.0) == HueChannels(p, q, 0.0)
  {
  }

  /** The chromatic branch of `hslToRgb` rounds to the channels of `hslToHex`
      for every hue in [0, 360], whatever the saturation and lightness. */
  lemma HueChannelsAgree(h: real, s: real, l: real)
    ensures var ll := l / 100.0;
            var q := UpperQ(ll, s / 100.0);
            0.0 <= h <= 360.0 ==> HueChannels(2.0 * ll - q, q, h / 360.0) == HexChannels(h, s, l)
  {
    if 0.0 <= h <= 360.0 {
      var ll, ss := l / 100.0, s / 100.0;
      var q := UpperQ(ll, ss);
      var p := 2.0 * ll - q;
      var c := Chroma(ll, ss);
      ChromaSpread(ll, ss);
      if h == 360.0 {
        RemFullTurn();
        SectorIsHue2Rgb(p, c, 0.0);
        FullTurnChannels(p, q);
        assert HexChannels(h, s, l) == HexChannels(0.0, s, l);
      } else {
        SectorIsHue2Rgb(p, c, h);
      }
    }
  }

  // ---------------------------------------------------------------------------
  // hexToHsl

  /** The pattern `^#([A-Fa-f0-9]{3}){1,2}$`: `#` and three or six hex digits. */
  predicate IsHexColor(s: string) {
    && (|s| == 4 || |s| == 7)
    && s[0] == '#'
    && forall i :: 1 <= i < |s| ==> IsHexDigit(s[i])
  }

  /** `parseInt(a + b, 16)` for two hex digits. */
  function PairValue(a: char, b: char): (v: int)
    requires IsHexDigit(a) && IsHexDigit(b)
    ensures 0 <= v <= 255
  {
    16 * DigitValue(a) + DigitValue(b)
  }

  /** The channels `hexToHsl` reads: each digit doubled for `#rgb`, digit
      pairs for `#rrggbb`. */
  function HexColorChannels(hex: string): (c: Rgb)
    requires IsHexColor(hex)
    ensures ChannelsInRange(c)
  {
    if |hex| == 4 then
      Rgb(PairValue(hex[1], hex[1]), PairValue(hex[2], hex[2]), PairValue(hex[3], hex[3]))
    else
      Rgb(PairValue(hex[1], hex[2]), PairValue(hex[3], hex[4]), PairValue(hex[5], hex[6]))
  }

  /** The hue before rounding, in sextants: which channel is largest decides the
      sextant, as in lines 151-159 of `hexToHsl`. */
  function HueSextant(red: real, green: real, blue: real): real {
    var max := Max3(red, green, blue);
    var diff := max - Min3(red, green, blue);
    if diff == 0.0 then 0.0
    else if max == red then Rem((green - blue) / diff, 6.0)
    else if max == green then (blue - red) / diff + 2.0
    else (red - green) / diff + 4.0
  }

  /** The saturation before rounding, as a fraction: `diff / (1 - |2 l - 1|)`. */
  function SaturationFraction(red: real, green: real, blue: real): real
    requires 0.0 <= red <= 1.0 && 0.0 <= green <= 1.0 && 0.0 <= blue <= 1.0
  {
    var max := Max3(red, green, blue);
    var min := Min3(red, green, blue);
    var diff := max - min;
    var l := (max + min) / 2.0;
    if diff == 0.0 then 0.0
    else
      UnitChannels(red, green, blue);
      diff / (1.0 - Abs(2.0 * l - 1.0))
  }

  /** The hue in whole degrees: the sextant times 60, rounded, and moved up by
      360 when negative. */
  function RoundedHue(red: real, green: real, blue: real): int {
    var h0 := Round(HueSextant(red, green, blue) * 60.0);
    if h0 < 0 then h0 + 360 else h0
  }

  /** Lines 139-177 of `hexToHsl`: HSL of integer channels, hue rounded to a
      degree, s and l rounded to a percent. */
  function RoundedHsl(c: Rgb): (hsl: Color)
    requires ChannelsInRange(c)
    ensures IsInt(hsl.h) && IsInt(hsl.s) && IsInt(hsl.l)
  {
    var red := c.r as real / 255.0;
    var green := c.g as real / 255.0;
    var blue := c.b as real / 255.0;
    var l := (Max3(red, green, blue) + Min3(red, green, blue)) / 2.0;
    Color(RoundedHue(red, green, blue) as real,
          Round(SaturationFraction(red, green, blue) * 100.0) as real,
          Round(l * 100.0) as real)
  }

  /** With channels in [0, 1] and some chroma, `1 - |2 l - 1|` is at least the
      chroma, so positive. */
  lemma UnitChannels(red: real, green: real, blue: real)
    requires 0.0 <= red <= 1.0 && 0.0 <= green <= 1.0 && 0.0 <= blue <= 1.0
    ensures var max := Max3(red, green, blue);
            var min := Min3(red, green, blue);
            max != min ==> 0.0 < max - min <= 1.0 - Abs(2.0 * ((max + min) / 2.0) - 1.0)
  {
  }

  /** `hexToHsl(hex)`: `None` (JavaScript `null`) unless the input matches the pattern. */
  function HexToHsl(hex: string): (r: Option<Color>)
    ensures r.Some? <==> IsHexColor(hex)
  {
    if !IsHexColor(hex) then None else Some(RoundedHsl(HexColorChannels(hex)))
  }

  /** A three-digit colour reads exactly as the six-digit one with every digit doubled. */
  lemma ShortFormDoubles(a: char, b: char, c: char)
    requires IsHexDigit(a) && IsHexDigit(b) && IsHexDigit(c)
    ensures HexToHsl(['#', a, b, c]) == HexToHsl(['#', a, a, b, b, c, c])
  {
    var short := ['#', a, b, c];
    var long := ['#', a, a, b, b, c, c];
    assert IsHexColor(short) && IsHexColor(long);
    assert HexColorChannels(short) == HexColorChannels(long);
  }

  /** A division of a value by a larger positive one is within [-1, 1]. */
  lemma UnitQuotient(a: real, d: real)
    requires d > 0.0 && -d <= a <= d
    ensures -1.0 <= a / d <= 1.0
  {
    assert a / d * d == a;
  }

  /** The sextant lies in [-1, 5]: below 1 only when red is the largest channel. */
  lemma HueSextantRange(red: real, green: real, blue: real)
    ensures -1.0 <= HueSextant(red, green, blue) <= 5.0
  {
    var max := Max3(red, green, blue);
    var diff := max - Min3(red, green, blue);
    if diff != 0.0 {
      if max == red {
        UnitQuotient(green - blue, diff);
      } else if max == green {
        UnitQuotient(blue - red, diff);
      } else {
        UnitQuotient(red - green, diff);
      }
    }
  }

  /** Between the channels, `diff / (1 - |2 l - 1|)` is a fraction in [0, 1]. */
  lemma SaturationFractionRange(red: real, green: real, blue: real)
    requires 0.0 <= red <= 1.0 && 0.0 <= green <= 1.0 && 0.0 <= blue <= 1.0
    ensures 0.0 <= SaturationFraction(red, green, blue) <= 1.0
  {
    UnitChannels(red, green, blue);
    var max := Max3(red, green, blue);
    var min := Min3(red, green, blue);
    var diff := max - min;
    var l := (max + min) / 2.0;
    if diff != 0.0 {
      var den := 1.0 - Abs(2.0 * l - 1.0);
      UnitFraction(diff, den);
    }
  }

  lemma UnitFraction(a: real, b: real)
    requires 0.0 < a <= b
    ensures 0.0 < a / b <= 1.0
  {
  }

  /** The rounded hue is a whole degree in [0, 360). */
  lemma RoundedHueRange(red: real, green: real, blue: real)
    ensures 0 <= RoundedHue(red, green, blue) < 360
  {
    HueSextantRange(red, green, blue);
    var y := HueSextant(red, green, blue);
    RoundMonotone(-60.0, y * 60.0);
    RoundMonotone(y * 60.0, 300.0);
    RoundInt(-60);
    RoundInt(300);
  }

  /** Channels in 0..255 give a hue in [0, 360) and s, l in [0, 100]. */
  lemma RoundedHslRange(c: Rgb)
    requires ChannelsInRange(c)
    ensures 0.0 <= RoundedHsl(c).h < 360.0
    ensures 0.0 <= RoundedHsl(c).s <= 100.0
    ensures 0.0 <= RoundedHsl(c).l <= 100.0
  {
    var red := c.r as real / 255.0;
    var green := c.g as real / 255.0;
    var blue := c.b as real / 255.0;
    RoundedFields(c, red, green, blue);
    RoundedHueRange(red, green, blue);
    SaturationFractionRange(red, green, blue);
    ChannelPercent(SaturationFraction(red, green, blue));
    ChannelPercent((Max3(red, green, blue) + Min3(red, green, blue)) / 2.0);
  }

  lemma RoundedFields(c: Rgb, red: real, green: real, blue: real)
    requires ChannelsInRange(c)
    requires red == c.r as real / 255.0 && green == c.g as real / 255.0 && blue == c.b as real / 255.0
    ensures RoundedHsl(c).h == RoundedHue(red, green, blue) as real
    ensures RoundedHsl(c).s == Round(SaturationFraction(red, green, blue) * 100.0) as real
    ensures RoundedHsl(c).l == Round((Max3(red, green, blue) + Min3(red, green, blue)) / 2.0 * 100.0) as real
  {
    var hsl := RoundedHsl(c);
    var l := (Max3(red, green, blue) + Min3(red, green, blue)) / 2.0;
    assert hsl == Color(RoundedHue(red, green, blue) as real,
                        Round(SaturationFraction(red, green, blue) * 100.0) as real,
                        Round(l * 100.0) as real);
  }

  /** A valid input yields a whole-degree hue in [0, 360) and whole-percent
      saturation and lightness in [0, 100]. */
  lemma HexToHslRange(hex: string)
    requires IsHexColor(hex)
    ensures var c := HexToHsl(hex).value;
            && 0.0 <= c.h < 360.0 && 0.0 <= c.s <= 100.0 && 0.0 <= c.l <= 100.0
            && IsInt(c.h) && IsInt(c.s) && IsInt(c.l)
  {
    RoundedHslRange(HexColorChannels(hex));
  }

  /** A fraction in [0, 1] rounds to a whole percent in 0..100. */
  lemma ChannelPercent(v: real)
    requires 0.0 <= v <= 1.0
    ensures 0 <= Round(v * 100.0) <= 100
  {
    RoundMonotone(0.0, v * 100.0);
    RoundMonotone(v * 100.0, 100.0);
    RoundInt(0);
    RoundInt(100);
  }

  /** Black, white, red, green and blue; `#GGGGGG` is rejected. */
  lemma HexToHslFixtures(hex: string)
    ensures hex == "#000000" ==> HexToHsl(hex) == Some(Color(0.0, 0.0, 0.0))
    ensures hex == "#FFFFFF" ==> HexToHsl(hex) == Some(Color(0.0, 0.0, 100.0))
    ensures hex == "#FF0000" ==> HexToHsl(hex) == Some(Color(0.0, 100.0, 50.0))
    ensures hex == "#00FF00" ==> HexToHsl(hex) == Some(Color(120.0, 100.0, 50.0))
    ensures hex == "#0000FF" ==> HexToHsl(hex) == Some(Color(240.0, 100.0, 50.0))
    ensures hex == "#GGGGGG" ==> HexToHsl(hex) == None
  {
    if hex == "#GGGGGG" {
      assert !IsHexDigit(hex[1]);
    }
    if hex == "#000000" {
      HexChannelsFixture(hex, Rgb(0, 0, 0));
      RoundedHslFixtures(Rgb(0, 0, 0));
      HexToHslOfChannels(hex, Rgb(0, 0, 0));
    }
    if hex == "#FFFFFF" {
      HexChannelsFixture(hex, Rgb(255, 255, 255));
      RoundedHslFixtures(Rgb(255, 255, 255));
      HexToHslOfChannels(hex, Rgb(255, 255, 255));
    }
    if hex == "#FF0000" {
      HexChannelsFixture(hex, Rgb(255, 0, 0));
      RoundedHslFixtures(Rgb(255, 0, 0));
      HexToHslOfChannels(hex, Rgb(255, 0, 0));
    }
    if hex == "#00FF00" {
      HexChannelsFixture(hex, Rgb(0, 255, 0));
      RoundedHslFixtures(Rgb(0, 255, 0));
      HexToHslOfChannels(hex, Rgb(0, 255, 0));
    }
    if hex == "#0000FF" {
      HexChannelsFixture(hex, Rgb(0, 0, 255));
      RoundedHslFixtures(Rgb(0, 0, 255));
      HexToHslOfChannels(hex, Rgb(0, 0, 255));
    }
  }

  /** A valid string is read as the rounded HSL of its channels. */
  lemma HexToHslOfChannels(hex: string, c: Rgb)
    requires IsHexColor(hex) && HexColorChannels(hex) == c
    ensures HexToHsl(hex) == Some(RoundedHsl(c))
  {
  }

  /** The channels of the five fixture strings. */
  lemma HexChannelsFixture(hex: string, c: Rgb)
    requires
      || (hex == "#000000" && c == Rgb(0, 0, 0))
      || (hex == "#FFFFFF" && c == Rgb(255, 255, 255))
      || (hex == "#FF0000" && c == Rgb(255, 0, 0))
      || (hex == "#00FF00" && c == Rgb(0, 255, 0))
      || (hex == "#0000FF" && c == Rgb(0, 0, 255))
    ensures IsHexColor(hex) && HexColorChannels(hex) == c
  {
  }

  /** Integer channels of black, white and the primaries and their HSL. */
  lemma RoundedHslFixtures(c: Rgb)
    requires ChannelsInRange(c)
    ensures c == Rgb(0, 0, 0) ==> RoundedHsl(c) == Color(0.0, 0.0, 0.0)
    ensures c == Rgb(255, 255, 255) ==> RoundedHsl(c) == Color(0.0, 0.0, 100.0)
    ensures c == Rgb(255, 0, 0) ==> RoundedHsl(c) == Color(0.0, 100.0, 50.0)
    ensures c == Rgb(0, 255, 0) ==> RoundedHsl(c) == Color(120.0, 100.0, 50.0)
    ensures c == Rgb(0, 0, 255) ==> RoundedHsl(c) == Color(240.0, 100.0, 50.0)
  {
    if c == Rgb(0, 0, 0) {
      RoundedBlack(c);
    } else if c == Rgb(255, 255, 255) {
      RoundedWhite(c);
    } else if c == Rgb(255, 0, 0) {
      RoundedRed(c);
    } else if c == Rgb(0, 255, 0) {
      RoundedGreen(c);
    } else if c == Rgb(0, 0, 255) {
      RoundedBlue(c);
    }
  }

  lemma RoundedBlack(c: Rgb)
    requires c == Rgb(0, 0, 0)
    ensures RoundedHsl(c) == Color(0.0, 0.0, 0.0)
  {
    var red := c.r as real / 255.0;
    var green := c.g as real / 255.0;
    var blue := c.b as real / 255.0;
    assert red == 0.0 && green == 0.0 && blue == 0.0;
    UnitHsl(0.0, 0.0, 0.0, 0.0, 0.0);
    assert RoundedHue(red, green, blue) == 0;
    assert Round(SaturationFraction(red, green, blue) * 100.0) == 0;
    assert Round(0.0 * 100.0) == 0;
  }

  lemma RoundedWhite(c: Rgb)
    requires c == Rgb(255, 255, 255)
    ensures RoundedHsl(c) == Color(0.0, 0.0, 100.0)
  {
    var red := c.r as real / 255.0;
    var green := c.g as real / 255.0;
    var blue := c.b as real / 255.0;
    assert red == 1.0 && green == 1.0 && blue == 1.0;
    UnitHsl(1.0, 1.0, 1.0, 0.0, 1.0);
    assert RoundedHue(red, green, blue) == 0;
    assert Round(SaturationFraction(red, green, blue) * 100.0) == 0;
    assert Round(1.0 * 100.0) == 100;
  }

  lemma RoundedRed(c: Rgb)
    requires c == Rgb(255, 0, 0)
    ensures RoundedHsl(c) == Color(0.0, 100.0, 50.0)
  {
    var red := c.r as real / 255.0;
    var green := c.g as real / 255.0;
    var blue := c.b as real / 255.0;
    assert red == 1.0 && green == 0.0 && blue == 0.0;
    UnitHsl(1.0, 0.0, 0.0, 0.0, 0.5);
    assert RoundedHue(red, green, blue) == 0;
    assert Round(SaturationFraction(red, green, blue) * 100.0) == 100;
    assert Round(0.5 * 100.0) == 50;
  }

  lemma RoundedGreen(c: Rgb)
    requires c == Rgb(0, 255, 0)
    ensures RoundedHsl(c) == Color(120.0, 100.0, 50.0)
  {
    var red := c.r as real / 255.0;
    var green := c.g as real / 255.0;
    var blue := c.b as real / 255.0;
    assert red == 0.0 && green == 1.0 && blue == 0.0;
    UnitHsl(0.0, 1.0, 0.0, 2.0, 0.5);
    assert RoundedHue(red, green, blue) == 120;
    assert Round(SaturationFraction(red, green, blue) * 100.0) == 100;
    assert Round(0.5 * 100.0) == 50;
  }

  lemma RoundedBlue(c: Rgb)
    requires c == Rgb(0, 0, 255)
    ensures RoundedHsl(c) == Color(240.0, 100.0, 50.0)
  {
    var red := c.r as real / 255.0;
    var green := c.g as real / 255.0;
    var blue := c.b as real / 255.0;
    assert red == 0.0 && green == 0.0 && blue == 1.0;
    UnitHsl(0.0, 0.0, 1.0, 4.0, 0.5);
    assert RoundedHue(red, green, blue) == 240;
    assert Round(SaturationFraction(red, green, blue) * 100.0) == 100;
    assert Round(0.5 * 100.0) == 50;
  }

  /** The sextant, saturation and lightness of channels that are all 0 or 1. */
  lemma UnitHsl(red: real, green: real, blue: real, sextant: real, l: real)
    requires red in {0.0, 1.0} && green in {0.0, 1.0} && blue in {0.0, 1.0}
    requires (red == green == blue && sextant == 0.0 && l == red)
          || (red == 1.0 && green == 0.0 && blue == 0.0 && sextant == 0.0 && l == 0.5)
          || (red == 0.0 && green == 1.0 && blue == 0.0 && sextant == 2.0 && l == 0.5)
          || (red == 0.0 && green == 0.0 && blue == 1.0 && sextant == 4.0 && l == 0.5)
    ensures HueSextant(red, green, blue) == sextant
    ensures (Max3(red, green, blue) + Min3(red, green, blue)) / 2.0 == l
    ensures SaturationFraction(red, green, blue) == (if red == green == blue then 0.0 else 1.0)
  {
    if red == 1.0 && green == 0.0 && blue == 0.0 {
      assert Rem(0.0, 6.0) == 0.0;
    }
  }

  // ---------------------------------------------------------------------------
  // hexToRgb

  /** A channel as `parseInt` returns it: `None` stands for `NaN`. */
  datatype RgbReading = RgbReading(r: Option<int>, g: Option<int>, b: Option<int>)

  /** `s.substring(a, b)` for `a <= b`: both ends clamped to the length. */
  function Substring(s: string, a: nat, b: nat): string
    requires a <= b
  {
    var lo := if a < |s| then a else |s|;
    var hi := if b < |s| then b else |s|;
    s[lo..hi]
  }

  /** `hexToRgb(hex)`: characters 1-2, 3-4 and 5-6 read with `parseInt(_, 16)`,
      without any check of the input. On a `#rrggbb` string the three readings
      are the three digit pairs. */
  function HexToRgb(hex: string): (rgb: RgbReading)
    ensures |hex| == 7 && IsHexColor(hex) ==>
            rgb == RgbReading(Some(PairValue(hex[1], hex[2])), Some(PairValue(hex[3], hex[4])), Some(PairValue(hex[5], hex[6])))
  {
    HexPairsRead(hex);
    RgbReading(ParseInt(Substring(hex, 1, 3), 16), ParseInt(Substring(hex, 3, 5), 16), ParseInt(Substring(hex, 5, 7), 16))
  }

  /** The three digit pairs of a `#rrggbb` string read with `parseInt(_, 16)`. */
  lemma HexPairsRead(hex: string)
    ensures |hex| == 7 && IsHexColor(hex) ==>
            && ParseInt(Substring(hex, 1, 3), 16) == Some(PairValue(hex[1], hex[2]))
            && ParseInt(Substring(hex, 3, 5), 16) == Some(PairValue(hex[3], hex[4]))
            && ParseInt(Substring(hex, 5, 7), 16) == Some(PairValue(hex[5], hex[6]))
  {
    if |hex| == 7 && IsHexColor(hex) {
      ParseHexPair(hex[1], hex[2]);
      ParseHexPair(hex[3], hex[4]);
      ParseHexPair(hex[5], hex[6]);
      assert hex[1..3] == [hex[1], hex[2]];
      assert hex[3..5] == [hex[3], hex[4]];
      assert hex[5..7] == [hex[5], hex[6]];
    }
  }

  /** On a six-digit colour, `hexToRgb` reads the same channels `hexToHsl` does. */
  lemma HexToRgbAgreesWithHexToHsl(hex: string)
    requires |hex| == 7 && IsHexColor(hex)
    ensures var c := HexColorChannels(hex);
            HexToRgb(hex) == RgbReading(Some(c.r), Some(c.g), Some(c.b))
  {
  }

  /** Three sample colours read channel by channel. */
  lemma HexToRgbFixtures(hex: string)
    ensures hex == "#C0C0C0" ==> HexToRgb(hex) == RgbReading(Some(192), Some(192), Some(192))
    ensures hex == "#123456" ==> HexToRgb(hex) == RgbReading(Some(18), Some(52), Some(86))
    ensures hex == "#abcdef" ==> HexToRgb(hex) == RgbReading(Some(171), Some(205), Some(239))
  {
    if hex == "#C0C0C0" {
      assert IsHexColor(hex);
    } else if hex == "#123456" {
      assert IsHexColor(hex);
    } else if hex == "#abcdef" {
      assert IsHexColor(hex);
    }
  }

  /** Without a check of the input, a `0x` in the first pair is read as the
      base-16 prefix with nothing after it: `#0x1f00` reads `NaN`, 31, 0. */
  lemma HexToRgbPrefixed(hex: string)
    requires hex == "#0x1f00"
    ensures HexToRgb(hex) == RgbReading(None, Some(31), Some(0))
  {
    ParseHexPrefix(hex[1..3], 'x', []);
    ParseHexPair('1', 'f');
    ParseHexPair('0', '0');
    assert hex[3..5] == ['1', 'f'];
    assert hex[5..7] == ['0', '0'];
  }

  // ---------------------------------------------------------------------------
  // rgbToHsl

  /** The hue of `rgbToHsl`, in degrees: the sextant formula (no `% 6`) times
      60, moved up by 360 when negative. */
  function RgbHue(red: real, green: real, blue: real): real {
    var max := Max3(red, green, blue);
    var chroma := max - Min3(red, green, blue);
    var h := if chroma == 0.0 then 0.0
             else if max == red then (green - blue) / chroma
             else if max == green then 2.0 + (blue - red) / chroma
             else 4.0 + (red - green) / chroma;
    if 60.0 * h < 0.0 then 60.0 * h + 360.0 else 60.0 * h
  }

  /** Channels in [0, 1] with a non-zero chroma have `0 < max + min < 2`, so
      both saturation denominators are positive. */
  lemma Denominators(red: real, green: real, blue: real)
    requires 0.0 <= red <= 1.0 && 0.0 <= green <= 1.0 && 0.0 <= blue <= 1.0
    requires Max3(red, green, blue) != Min3(red, green, blue)
    ensures 0.0 < Max3(red, green, blue) + Min3(red, green, blue) < 2.0
  {
  }

  /** The saturation fraction as line 218 of `rgbToHsl` computes it: `l` holds
      the largest channel, so the branch compares the largest channel, not the
      lightness, with one half. */
  function WrittenSaturation(red: real, green: real, blue: real): real
    requires 0.0 <= red <= 1.0 && 0.0 <= green <= 1.0 && 0.0 <= blue <= 1.0
  {
    var l := Max3(red, green, blue);
    var s := l - Min3(red, green, blue);
    if s == 0.0 then 0.0
    else
      Denominators(red, green, blue);
      if l <= 0.5 then s / (2.0 * l - s) else s / (2.0 - (2.0 * l - s))
  }

  /** The saturation fraction the formula intends: the branch compares the
      lightness `(max + min) / 2`, that is `2 l - s`, with one half. */
  function IntendedSaturation(red: real, green: real, blue: real): real
    requires 0.0 <= red <= 1.0 && 0.0 <= green <= 1.0 && 0.0 <= blue <= 1.0
  {
    var l := Max3(red, green, blue);
    var s := l - Min3(red, green, blue);
    if s == 0.0 then 0.0
    else
      Denominators(red, green, blue);
      if (2.0 * l - s) / 2.0 <= 0.5 then s / (2.0 * l - s) else s / (2.0 - (2.0 * l - s))
  }

  /** `rgbToHsl(r, g, b)` exactly as written, for channels in 0..255 (the range
      its documentation names). Nothing is rounded. */
  function RgbToHslAsWritten(r: int, g: int, b: int): (hsl: Color)
    requires ChannelsInRange(Rgb(r, g, b))
    ensures 0.0 <= hsl.h < 360.0 && 0.0 <= hsl.s && 0.0 <= hsl.l <= 100.0
  {
    var red := r as real / 255.0;
    var green := g as real / 255.0;
    var blue := b as real / 255.0;
    var l := Max3(red, green, blue);
    var s := l - Min3(red, green, blue);
    RgbHueRange(red, green, blue);
    WrittenSaturationNonNegative(red, green, blue);
    Color(RgbHue(red, green, blue), 100.0 * WrittenSaturation(red, green, blue), (100.0 * (2.0 * l - s)) / 2.0)
  }

  /** `rgbToHsl(r, g, b)` with the saturation branch on the lightness, as the
      HSL formula it cites has it. The palette converts `rgb(...)` colours
      with this version, through `ColorToHslCorrected`. */
  function RgbToHsl(r: int, g: int, b: int): (hsl: Color)
    requires ChannelsInRange(Rgb(r, g, b))
    ensures 0.0 <= hsl.h < 360.0 && 0.0 <= hsl.s <= 100.0 && 0.0 <= hsl.l <= 100.0
  {
    var red := r as real / 255.0;
    var green := g as real / 255.0;
    var blue := b as real / 255.0;
    var l := Max3(red, green, blue);
    var s := l - Min3(red, green, blue);
    RgbHueRange(red, green, blue);
    IntendedIsHexSaturation(red, green, blue);
    SaturationFractionRange(red, green, blue);
    Color(RgbHue(red, green, blue), 100.0 * IntendedSaturation(red, green, blue), (100.0 * (2.0 * l - s)) / 2.0)
  }

  /** The intended saturation is the one `hexToHsl` computes as
      `diff / (1 - |2 l - 1|)`. */
  lemma IntendedIsHexSaturation(red: real, green: real, blue: real)
    requires 0.0 <= red <= 1.0 && 0.0 <= green <= 1.0 && 0.0 <= blue <= 1.0
    ensures IntendedSaturation(red, green, blue) == SaturationFraction(red, green, blue)
  {
  }

  /** The hue of `rgbToHsl` is in [0, 360). */
  lemma RgbHueRange(red: real, green: real, blue: real)
    ensures 0.0 <= RgbHue(red, green, blue) < 360.0
  {
    var max := Max3(red, green, blue);
    var chroma := max - Min3(red, green, blue);
    if chroma != 0.0 {
      if max == red {
        UnitQuotient(green - blue, chroma);
      } else if max == green {
        UnitQuotient(blue - red, chroma);
      } else {
        UnitQuotient(red - green, chroma);
      }
    }
  }

  /** The corrected `rgbToHsl` agrees with `hexToHsl` on the same channels:
      rounding its saturation and lightness gives `hexToHsl`'s, and its hue is
      in [0, 360). */
  lemma RgbToHslAgreesWithHexToHsl(c: Rgb)
    requires ChannelsInRange(c)
    ensures var hsl := RgbToHsl(c.r, c.g, c.b);
            && 0.0 <= hsl.h < 360.0
            && Round(hsl.s) as real == RoundedHsl(c).s
            && Round(hsl.l) as real == RoundedHsl(c).l
  {
    RgbHueRange(c.r as real / 255.0, c.g as real / 255.0, c.b as real / 255.0);
    SaturationAgrees(c);
    LightnessAgrees(c);
  }

  lemma SaturationAgrees(c: Rgb)
    requires ChannelsInRange(c)
    ensures Round(RgbToHsl(c.r, c.g, c.b).s) as real == RoundedHsl(c).s
  {
    var red := c.r as real / 255.0;
    var green := c.g as real / 255.0;
    var blue := c.b as real / 255.0;
    WrittenSaturationField(c, red, green, blue);
    RoundedFields(c, red, green, blue);
    IntendedIsHexSaturation(red, green, blue);
    ScaledRound(SaturationFraction(red, green, blue));
  }

  lemma WrittenSaturationField(c: Rgb, red: real, green: real, blue: real)
    requires ChannelsInRange(c)
    requires red == c.r as real / 255.0 && green == c.g as real / 255.0 && blue == c.b as real / 255.0
    ensures RgbToHsl(c.r, c.g, c.b).s == 100.0 * IntendedSaturation(red, green, blue)
  {
  }

  lemma ScaledRound(f: real)
    ensures Round(100.0 * f) == Round(f * 100.0)
  {
  }

  lemma LightnessAgrees(c: Rgb)
    requires ChannelsInRange(c)
    ensures Round(RgbToHsl(c.r, c.g, c.b).l) as real == RoundedHsl(c).l
  {
    var red := c.r as real / 255.0;
    var green := c.g as real / 255.0;
    var blue := c.b as real / 255.0;
    var max := Max3(red, green, blue);
    var min := Min3(red, green, blue);
    assert RgbToHsl(c.r, c.g, c.b).l == (100.0 * (2.0 * max - (max - min))) / 2.0;
    assert RoundedHsl(c).l == Round((max + min) / 2.0 * 100.0) as real;
    assert (100.0 * (2.0 * max - (max - min))) / 2.0 == (max + min) / 2.0 * 100.0;
  }

  /** For channels in 0..255 the hue is in [0, 360) and the saturation and
      lightness are percentages, as written and corrected alike. */
  lemma RgbToHslRange(r: int, g: int, b: int)
    requires ChannelsInRange(Rgb(r, g, b))
    ensures var hsl := RgbToHslAsWritten(r, g, b);
            0.0 <= hsl.h < 360.0 && 0.0 <= hsl.s <= 100.0 && 0.0 <= hsl.l <= 100.0
    ensures var hsl := RgbToHsl(r, g, b);
            0.0 <= hsl.h < 360.0 && 0.0 <= hsl.s <= 100.0 && 0.0 <= hsl.l <= 100.0
  {
    WrittenVersusIntended(r, g, b);
  }

  /** Both branches of the written saturation divide a non-negative chroma by
      a positive denominator. */
  lemma WrittenSaturationNonNegative(red: real, green: real, blue: real)
    requires 0.0 <= red <= 1.0 && 0.0 <= green <= 1.0 && 0.0 <= blue <= 1.0
    ensures 0.0 <= WrittenSaturation(red, green, blue)
  {
    var l := Max3(red, green, blue);
    var s := l - Min3(red, green, blue);
    if s != 0.0 {
      Denominators(red, green, blue);
      var d := if l <= 0.5 then 2.0 * l - s else 2.0 - (2.0 * l - s);
      assert d > 0.0;
      assert s / d * d == s;
    }
  }

  /** Equal channels are a grey: hue and saturation 0 and lightness `100 v / 255`,
      in both versions. */
  lemma RgbToHslGrey(v: int)
    requires 0 <= v <= 255
    ensures RgbToHslAsWritten(v, v, v) == Color(0.0, 0.0, 100.0 * v as real / 255.0)
    ensures RgbToHsl(v, v, v) == Color(0.0, 0.0, 100.0 * v as real / 255.0)
  {
    var x := v as real / 255.0;
    assert Max3(x, x, x) == x && Min3(x, x, x) == x;
    assert (100.0 * (2.0 * x - 0.0)) / 2.0 == 100.0 * v as real / 255.0;
  }

  /** A fixed positive numerator over a larger positive denominator gives a smaller quotient. */
  lemma DivideByLarger(a: real, d1: real, d2: real)
    requires a > 0.0 && 0.0 < d1 < d2
    ensures a / d2 < a / d1
  {
    assert a / d2 * d2 == a;
    assert a / d1 * d1 == a;
  }

  /** The two saturations differ exactly when there is some chroma, the
      largest channel is above one half and the lightness is below one half;
      there the written one is smaller. Hue and lightness never differ. */
  lemma WrittenVersusIntended(r: int, g: int, b: int)
    requires ChannelsInRange(Rgb(r, g, b))
    ensures var red, green, blue := r as real / 255.0, g as real / 255.0, b as real / 255.0;
            var max, min := Max3(red, green, blue), Min3(red, green, blue);
            var written, intended := RgbToHslAsWritten(r, g, b), RgbToHsl(r, g, b);
            && written.h == intended.h
            && written.l == intended.l
            && (written.s != intended.s <==> max != min && max > 0.5 && max + min < 1.0)
            && written.s <= intended.s
  {
    var red := r as real / 255.0;
    var green := g as real / 255.0;
    var blue := b as real / 255.0;
    var max := Max3(red, green, blue);
    var min := Min3(red, green, blue);
    if max != min && max > 0.5 && max + min < 1.0 {
      Denominators(red, green, blue);
      DivideByLarger(max - min, max + min, 2.0 - (max + min));
      assert WrittenSaturation(red, green, blue) == (max - min) / (2.0 - (max + min));
      assert IntendedSaturation(red, green, blue) == (max - min) / (max + min);
    }
  }

  /** `rgb(204, 0, 0)`: the written saturation is 200/3 where `hexToHsl('#cc0000')`
      and the intended formula both give 100. */
  lemma RgbToHslCounterexample(r: int, g: int, b: int)
    requires r == 204 && g == 0 && b == 0
    ensures RgbToHslAsWritten(r, g, b).s == 200.0 / 3.0
    ensures RgbToHsl(r, g, b).s == 100.0
    ensures RoundedHsl(Rgb(r, g, b)).s == 100.0
  {
    var red := r as real / 255.0;
    assert red == 0.8;
    assert Max3(red, 0.0, 0.0) == 0.8 && Min3(red, 0.0, 0.0) == 0.0;
    assert WrittenSaturation(red, 0.0, 0.0) == 0.8 / 1.2;
    assert IntendedSaturation(red, 0.0, 0.0) == 1.0;
    IntendedIsHexSaturation(red, 0.0, 0.0);
    assert Round(1.0 * 100.0) == 100;
  }

  // ---------------------------------------------------------------------------
  // colorToHsl

  /** The text between `rgb(` and `)` once spaces are gone: the first `rgb`
      (at the front, since the text starts with it), the first `(` and the
      first `)` removed. */
  function RgbBody(text: string): string
    requires StartsWith(text, "rgb")
  {
    var compact := RemoveAll(text, ' ');
    RemoveAllKeepsPrefix(text, ' ', "rgb");
    RemoveFirst(RemoveFirst(compact[3..], '('), ')')
  }

  /** `rgb[k]` after `.split(',').map(c => parseInt(c, 10))`: a missing piece
      reads as `undefined`, which like `NaN` is `None` here. */
  function Component(parts: seq<string>, k: nat): Option<int> {
    if k < |parts| then ParseInt(parts[k], 10) else None
  }

  /** The channels of an `rgb(...)` string, or `None` when one of the first
      three pieces is not a number in 0..255. */
  function ParseRgbText(text: string): (c: Option<Rgb>)
    requires StartsWith(text, "rgb")
    ensures c.Some? ==> ChannelsInRange(c.value)
  {
    var parts := Split(RgbBody(text), ',');
    match (Component(parts, 0), Component(parts, 1), Component(parts, 2))
    case (Some(r), Some(g), Some(b)) =>
      if ChannelsInRange(Rgb(r, g, b)) then Some(Rgb(r, g, b)) else None
    case _ => None
  }

  /** `colorToHsl(color)`, as written. An `rgb(...)` string goes through
      `rgbToHsl` as written (line 218 included); a `#` string through
      `hexToHsl`, black when that yields `null`; an object with non-negative
      fields is returned as is; any other string or value is black. `None`
      marks an `rgb(...)` string whose first three pieces are not all whole
      numbers in 0..255: the source computes with `NaN` when a piece is not a
      number, and with numbers outside the range `rgbToHsl` documents when
      one is out of range; neither is followed here. */
  function ColorToHsl(input: ColorInput): (r: Option<Color>)
    ensures r.None? <==> input.Text? && StartsWith(input.text, "rgb") && ParseRgbText(input.text).None?
    ensures input.Text? && !StartsWith(input.text, "rgb") && !StartsWith(input.text, "#") ==> r == Some(Black)
    ensures input.Other? ==> r == Some(Black)
    ensures input.Hsl? ==> r == Some(if input.color.h >= 0.0 && input.color.s >= 0.0 && input.color.l >= 0.0 then input.color else Black)
  {
    match input
    case Text(text) =>
      if StartsWith(text, "rgb") then
        match ParseRgbText(text)
        case None => None
        case Some(c) => Some(RgbToHslAsWritten(c.r, c.g, c.b))
      else if StartsWith(text, "#") then
        Some(HexToHsl(text).GetOr(Black))
      else
        Some(Black)
    case Hsl(color) =>
      if color.h >= 0.0 && color.s >= 0.0 && color.l >= 0.0 then Some(color) else Some(Black)
    case Other => Some(Black)
  }

  /** True for an `rgb(...)` string whose channels parse. */
  predicate IsRgbInput(input: ColorInput) {
    input.Text? && StartsWith(input.text, "rgb") && ParseRgbText(input.text).Some?
  }

  /** `colorToHsl` with the corrected `rgbToHsl` in its `rgb(...)` branch,
      and the same as `colorToHsl` everywhere else. The palette is built
      with this version. */
  function ColorToHslCorrected(input: ColorInput): (r: Option<Color>)
    ensures r.None? <==> ColorToHsl(input).None?
    ensures !IsRgbInput(input) ==> r == ColorToHsl(input)
  {
    if IsRgbInput(input) then
      var c := ParseRgbText(input.text).value;
      Some(RgbToHsl(c.r, c.g, c.b))
    else
      ColorToHsl(input)
  }

  /** The two versions of `colorToHsl` differ only in the saturation of an
      `rgb(...)` colour, exactly where the two saturation formulas differ,
      and there the corrected one is larger. */
  lemma ColorToHslCorrection(input: ColorInput)
    ensures var written, corrected := ColorToHsl(input), ColorToHslCorrected(input);
            && (written.None? <==> corrected.None?)
            && (written.Some? ==> written.value.h == corrected.value.h && written.value.l == corrected.value.l
                                  && written.value.s <= corrected.value.s)
            && (written != corrected <==>
                  IsRgbInput(input) &&
                  var c := ParseRgbText(input.text).value;
                  var red, green, blue := c.r as real / 255.0, c.g as real / 255.0, c.b as real / 255.0;
                  var max, min := Max3(red, green, blue), Min3(red, green, blue);
                  max != min && max > 0.5 && max + min < 1.0)
  {
    if IsRgbInput(input) {
      var c := ParseRgbText(input.text).value;
      WrittenVersusIntended(c.r, c.g, c.b);
    }
  }

  /** A `#` string gives what `hexToHsl` gives when the text is a valid colour,
      black otherwise. */
  lemma ColorToHslHex(text: string)
    requires StartsWith(text, "#")
    ensures IsHexColor(text) ==> ColorToHsl(Text(text)) == HexToHsl(text)
    ensures !IsHexColor(text) ==> ColorToHsl(Text(text)) == Some(Black)
  {
    assert text[0] == text[..1][0] == '#';
    FirstOfPrefix(text, "rgb");
  }

  /** Every result of `colorToHsl` other than a passed-through object is in
      range: hue in [0, 360), saturation and lightness in [0, 100]; so is
      every result of the corrected version. */
  lemma ColorToHslRange(input: ColorInput)
    requires !input.Hsl?
    requires ColorToHsl(input).Some?
    ensures var c := ColorToHsl(input).value;
            0.0 <= c.h < 360.0 && 0.0 <= c.s <= 100.0 && 0.0 <= c.l <= 100.0
    ensures var c := ColorToHslCorrected(input).value;
            0.0 <= c.h < 360.0 && 0.0 <= c.s <= 100.0 && 0.0 <= c.l <= 100.0
  {
    if input.Text? {
      var text := input.text;
      if StartsWith(text, "rgb") {
        var c := ParseRgbText(text).value;
        RgbToHslRange(c.r, c.g, c.b);
      } else if StartsWith(text, "#") && IsHexColor(text) {
        HexToHslRange(text);
      }
    }
  }

  /** How `rgb(r, g, b)` is usually written: digits, a comma and a space between channels. */
  function RgbText(c: Rgb): string
    requires 0 <= c.r && 0 <= c.g && 0 <= c.b
  {
    "rgb(" + (NatToDecimal(c.r) + ", " + NatToDecimal(c.g) + ", " + NatToDecimal(c.b)) + ")"
  }

  /** Reading `rgb(r, g, b)` back gives the channels, for channels in 0..255. */
  lemma ParseRgbTextRoundTrip(c: Rgb)
    requires ChannelsInRange(c)
    ensures StartsWith(RgbText(c), "rgb")
    ensures ParseRgbText(RgbText(c)) == Some(c)
  {
    var dr, dg, db := NatToDecimal(c.r), NatToDecimal(c.g), NatToDecimal(c.b);
    var text := RgbText(c);
    RgbTextBody(dr, dg, db);
    SplitThree(dr, dg, db);
    DecimalRoundTrip(c.r);
    DecimalRoundTrip(c.g);
    DecimalRoundTrip(c.b);
  }

  /** The body of `rgb(a, b, c)` for digit strings is `a,b,c`. */
  lemma RgbTextBody(a: string, b: string, c: string)
    requires forall i :: 0 <= i < |a| ==> IsDecimalDigit(a[i])
    requires forall i :: 0 <= i < |b| ==> IsDecimalDigit(b[i])
    requires forall i :: 0 <= i < |c| ==> IsDecimalDigit(c[i])
    ensures var text := "rgb(" + (a + ", " + b + ", " + c) + ")";
            StartsWith(text, "rgb") && RgbBody(text) == a + "," + b + "," + c
  {
    var text := "rgb(" + (a + ", " + b + ", " + c) + ")";
    assert text[..3] == "rgb";
    var inner := a + "," + b + "," + c;
    CompactRgbText(a, b, c);
    NoChar(a, ')');
    NoChar(b, ')');
    NoChar(c, ')');
    assert ')' !in inner;
    StripCall("rgb(", inner, ')');
  }

  /** Dropping a three-letter name from `name(inner)` and then the first `(`
      and the first `)` leaves `inner` when it holds no `)`. */
  lemma StripCall(prefix: string, inner: string, close: char)
    requires |prefix| == 4 && close !in inner
    ensures RemoveFirst(RemoveFirst((prefix + inner + [close])[3..], prefix[3]), close) == inner
  {
    var open := prefix[3];
    var call := prefix + inner + [close];
    assert call[3..] == [open] + (inner + [close]);
    assert RemoveFirst([open] + (inner + [close]), open) == inner + [close];
    RemoveFirstAppend(inner, [close], close);
  }

  /** Removing the spaces of `rgb(a, b, c)` leaves `rgb(a,b,c)`. */
  lemma CompactRgbText(a: string, b: string, c: string)
    requires forall i :: 0 <= i < |a| ==> IsDecimalDigit(a[i])
    requires forall i :: 0 <= i < |b| ==> IsDecimalDigit(b[i])
    requires forall i :: 0 <= i < |c| ==> IsDecimalDigit(c[i])
    ensures RemoveAll("rgb(" + (a + ", " + b + ", " + c) + ")", ' ') == "rgb(" + (a + "," + b + "," + c) + ")"
  {
    NoChar(a, ' ');
    NoChar(b, ' ');
    NoChar(c, ' ');
    assert RemoveAll(", ", ' ') == ",";
    assert RemoveAll("rgb(", ' ') == "rgb(";
    assert RemoveAll(")", ' ') == ")";
    var list := a + ", " + b + ", " + c;
    RemoveAllFive(a, ", ", b, ", ", c, ",", ",");
    RemoveAllAppend("rgb(", list, ' ');
    RemoveAllAppend("rgb(" + list, ")", ' ');
  }

  /** Removing spaces from `a p1 b p2 c` removes them from the separators
      alone when the three pieces have none. */
  lemma RemoveAllFive(a: string, p1: string, b: string, p2: string, c: string, q1: string, q2: string)
    requires RemoveAll(p1, ' ') == q1 && RemoveAll(p2, ' ') == q2
    requires RemoveAll(a, ' ') == a && RemoveAll(b, ' ') == b && RemoveAll(c, ' ') == c
    ensures RemoveAll(a + p1 + b + p2 + c, ' ') == a + q1 + b + q2 + c
  {
    RemoveAllAppend(a, p1, ' ');
    RemoveAllAppend(a + p1, b, ' ');
    RemoveAllAppend(a + p1 + b, p2, ' ');
    RemoveAllAppend(a + p1 + b + p2, c, ' ');
  }

  /** `a,b,c` splits at commas into the three digit strings. */
  lemma SplitThree(a: string, b: string, c: string)
    requires forall i :: 0 <= i < |a| ==> IsDecimalDigit(a[i])
    requires forall i :: 0 <= i < |b| ==> IsDecimalDigit(b[i])
    requires forall i :: 0 <= i < |c| ==> IsDecimalDigit(c[i])
    ensures Split(a + "," + b + "," + c, ',') == [a, b, c]
  {
    NoChar(a, ',');
    NoChar(b, ',');
    NoChar(c, ',');
    assert a + "," + b + "," + c == a + [','] + (b + [','] + c);
    SplitAppend(a, b + [','] + c, ',');
    SplitAppend(b, c, ',');
  }

  lemma NoChar(d: string, c: char)
    requires forall i :: 0 <= i < |d| ==> IsDecimalDigit(d[i])
    requires !IsDecimalDigit(c)
    ensures c !in d && Split(d, c) == [d] && RemoveAll(d, c) == d
  {
  }

  /** `colorToHsl` of `rgb(r, g, b)` is `rgbToHsl(r, g, b)` as written; the
      corrected version gives the corrected conversion. */
  lemma ColorToHslRgb(c: Rgb)
    requires ChannelsInRange(c)
    ensures ColorToHsl(Text(RgbText(c))) == Some(RgbToHslAsWritten(c.r, c.g, c.b))
    ensures ColorToHslCorrected(Text(RgbText(c))) == Some(RgbToHsl(c.r, c.g, c.b))
  {
    ParseRgbTextRoundTrip(c);
  }

  /** `rgb(255, 0, 0)` is red; `#invalid-color` falls back to black. */
  lemma ColorToHslFixtures(text: string)
    ensures text == "rgb(255, 0, 0)" ==> ColorToHsl(Text(text)) == Some(Color(0.0, 100.0, 50.0))
    ensures text == "#invalid-color" ==> ColorToHsl(Text(text)) == Some(Black)
  {
    if text == "rgb(255, 0, 0)" {
      var red := Rgb(255, 0, 0);
      assert NatToDecimal(255) == "255" && NatToDecimal(0) == "0";
      assert text == RgbText(red);
      ColorToHslRgb(red);
      RedRgbToHsl(255, 0, 0);
    } else if text == "#invalid-color" {
      assert text[0] == '#' && text[..1] == "#";
      assert !IsHexColor(text);
      ColorToHslHex(text);
    }
  }

  /** Pure red converts to (0, 100, 50), as written and corrected alike. */
  lemma RedRgbToHsl(r: int, g: int, b: int)
    requires r == 255 && g == 0 && b == 0
    ensures RgbToHslAsWritten(r, g, b) == Color(0.0, 100.0, 50.0)
    ensures RgbToHsl(r, g, b) == Color(0.0, 100.0, 50.0)
  {
    assert Max3(1.0, 0.0, 0.0) == 1.0 && Min3(1.0, 0.0, 0.0) == 0.0;
    assert RgbHue(1.0, 0.0, 0.0) == 0.0;
    assert WrittenSaturation(1.0, 0.0, 0.0) == 1.0;
    assert IntendedSaturation(1.0, 0.0, 0.0) == 1.0;
  }
}
