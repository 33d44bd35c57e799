/** The harmony fan-out (`setHarmonies`): one configuration and N names
    become N configurations whose hues are rotated by a table of offsets, or
    spread evenly round the wheel. The callback is modelled by the sequence of
    argument lists it receives, one per call, in order. */
module Harmonies {
  import opened Options
  import opened JsNumber
  import opened ColorTypes
  import opened Configurations

  /** The `harmonies` table: the hue offsets, in degrees, of each kind. */
  function Offsets(kind: Harmony): (offsets: seq<real>)
    ensures |offsets| >= 2
    ensures forall i :: 0 <= i < |offsets| ==> 0.0 <= offsets[i] < 360.0
  {
    match kind
    case Triadic => [0.0, 120.0, 240.0]
    case Complementary => [0.0, 150.0, 210.0]
    case SplitComplementary => [150.0, 210.0]
    case Tetradic => [0.0, 90.0, 180.0, 270.0]
    case Square => [0.0, 90.0, 180.0, 270.0]
    case Analogous =>
      [0.0, 30.0, 60.0, 90.0, 120.0, 150.0, 180.0, 210.0, 240.0, 270.0, 300.0, 330.0]
  }

  /** The default cursor: `i * 360 / n` for `i = 0 .. n - 1`. */
  function EvenCursor(n: nat): (cursor: seq<real>)
    ensures |cursor| == n
    ensures forall i :: 0 <= i < n ==> 0.0 <= cursor[i] < 360.0
  {
    seq(n, i requires 0 <= i < n => EvenShare(i, n))
  }

  function EvenShare(i: nat, n: nat): (share: real)
    requires i < n
    ensures 0.0 <= share < 360.0
  {
    QuotientBelow(i, n);
    (i * 360) as real / n as real
  }

  lemma QuotientBelow(i: nat, n: nat)
    requires i < n
    ensures 0.0 <= (i * 360) as real / n as real < 360.0
  {
    var q := (i * 360) as real / n as real;
    assert q * n as real == (i * 360) as real;
    MulLt(360.0, q, n as real);
  }

  /** `setHarmonies` warns (and falls back to the even cursor) when a harmony
      is given that has fewer offsets than there are names. */
  predicate Warns(n: nat, harmony: Option<Harmony>) {
    harmony.Some? && n > |Offsets(harmony.value)|
  }

  /** The offsets the loop adds: the table's when a harmony is given and has
      enough entries, the even cursor otherwise. */
  function Cursor(n: nat, harmony: Option<Harmony>): (cursor: seq<real>)
    ensures |cursor| >= n
    ensures forall i :: 0 <= i < |cursor| ==> 0.0 <= cursor[i] < 360.0
  {
    if harmony.Some? && !Warns(n, harmony) then Offsets(harmony.value) else EvenCursor(n)
  }

  /** The base colour turned by `offset` degrees: `(h + offset) % 360`. The
      new hue differs from `h + offset` by a whole number of turns, lies in
      [0, 360) when `h + offset` is not negative, and saturation and lightness
      are kept. */
  function Rotate(color: Color, offset: real): (r: Color)
    ensures IsInt((color.h + offset - r.h) / 360.0)
    ensures color.h + offset >= 0.0 ==> 0.0 <= r.h < 360.0
    ensures r.s == color.s && r.l == color.l
  {
    Color(Rem(color.h + offset, 360.0), color.s, color.l)
  }

  /** `setHarmonies(name, harmony, color, configuration, callback)`: the list
      of argument lists the callback receives. */
  function SetHarmonies(name: Name, harmony: Option<Harmony>, color: Color, cfg: Configuration)
    : (calls: seq<seq<Configuration>>)
    ensures !name.Names? ==> calls == []
    ensures name.Names? ==> |calls| == |name.names|
    ensures forall i :: 0 <= i < |calls| ==> |calls[i]| == 1
  {
    match name
    case Names(names) =>
      var cursor := Cursor(|names|, harmony);
      seq(|names|, i requires 0 <= i < |names| =>
        [cfg.(name := Single(names[i]), color := Hsl(Rotate(color, cursor[i])))])
    case _ => []
  }

  /** The loop as written: one callback per name, in order, each with a
      one-element list. */
  method SetHarmoniesLoop(name: Name, harmony: Option<Harmony>, color: Color, cfg: Configuration)
    returns (calls: seq<seq<Configuration>>)
    ensures calls == SetHarmonies(name, harmony, color, cfg)
  {
    calls := [];
    if name.Names? {
      var names := name.names;
      var cursor := EvenCursor(|names|);
      if harmony.Some? {
        if |names| <= |Offsets(harmony.value)| {
          cursor := Offsets(harmony.value);
        }
      }
      var i := 0;
      while i < |names|
        invariant 0 <= i <= |names|
        invariant cursor == Cursor(|names|, harmony)
        invariant calls == SetHarmonies(name, harmony, color, cfg)[..i]
      {
        var config := cfg.(name := Single(names[i]), color := Hsl(Rotate(color, cursor[i])));
        calls := calls + [[config]];
        i := i + 1;
      }
    }
  }

  /** Call `i` carries name `i` and the base colour rotated by offset `i`;
      every other field of the configuration is copied unchanged. */
  lemma FannedConfiguration(names: seq<string>, harmony: Option<Harmony>, color: Color, cfg: Configuration, i: nat)
    requires i < |names|
    ensures var c := SetHarmonies(Names(names), harmony, color, cfg)[i][0];
            && c.name == Single(names[i])
            && c.color == Hsl(Color(Rem(color.h + Cursor(|names|, harmony)[i], 360.0), color.s, color.l))
            && c.(name := cfg.name, color := cfg.color) == cfg
  {
  }

  /** Which offsets are used: the table's first N entries exactly when a
      harmony is given and has at least N of them, the even spread otherwise;
      the fallback is the case that warns. */
  lemma CursorChoice(n: nat, harmony: Option<Harmony>)
    ensures harmony.Some? && n <= |Offsets(harmony.value)| ==>
              Cursor(n, harmony)[..n] == Offsets(harmony.value)[..n] && !Warns(n, harmony)
    ensures harmony.None? || n > |Offsets(harmony.value)| ==>
              Cursor(n, harmony) == EvenCursor(n)
    ensures Warns(n, harmony) <==> harmony.Some? && Cursor(n, harmony) == EvenCursor(n) && n > |Offsets(harmony.value)|
  {
  }

  /** For a base hue in [0, 360) each output hue is the base hue turned by the
      offset, wrapped once past 360, so it stays in [0, 360). */
  lemma RotatedHueRange(names: seq<string>, harmony: Option<Harmony>, color: Color, cfg: Configuration, i: nat)
    requires i < |names| && 0.0 <= color.h < 360.0
    ensures var hue := SetHarmonies(Names(names), harmony, color, cfg)[i][0].color.color.h;
            var offset := Cursor(|names|, harmony)[i];
            && 0.0 <= hue < 360.0
            && (hue == color.h + offset || hue == color.h + offset - 360.0)
  {
    var offset := Cursor(|names|, harmony)[i];
    var x := color.h + offset;
    var r := Rem(x, 360.0);
    assert IsInt((x - r) / 360.0);
    WrapOnce(x, r);
  }

  /** A remainder by 360 of a value in [0, 720) is the value or the value less 360. */
  lemma WrapOnce(x: real, r: real)
    requires 0.0 <= x < 720.0 && 0.0 <= r < 360.0 && IsInt((x - r) / 360.0)
    ensures r == x || r == x - 360.0
  {
    var q := (x - r) / 360.0;
    assert x - r == 360.0 * q;
    assert -1.0 < q < 2.0;
    assert q.Floor == 0 || q.Floor == 1;
  }

  /** A non-negative base hue always gives output hues in [0, 360). */
  lemma HueNonNegative(names: seq<string>, harmony: Option<Harmony>, color: Color, cfg: Configuration, i: nat)
    requires i < |names| && color.h >= 0.0
    ensures 0.0 <= SetHarmonies(Names(names), harmony, color, cfg)[i][0].color.color.h < 360.0
  {
  }

  /** Three names with the analogous harmony from hue 0 get hues 0, 30, 60,
      and each keeps its name. */
  lemma AnalogousThree(names: seq<string>, color: Color, cfg: Configuration)
    requires |names| == 3 && color == Color(0.0, 50.0, 50.0)
    ensures var calls := SetHarmonies(Names(names), Some(Analogous), color, cfg);
            && |calls| == 3
            && forall i :: 0 <= i < 3 ==>
                 calls[i][0].color == Hsl(Color(30.0 * i as real, 50.0, 50.0)) && calls[i][0].name == Single(names[i])
  {
    var cursor := Cursor(3, Some(Analogous));
    assert cursor[0] == 0.0 && cursor[1] == 30.0 && cursor[2] == 60.0;
  }

  /** Twenty-two names overflow the analogous table: the call warns, still
      makes 22 calls, and spreads the hues evenly, all below 360. */
  lemma AnalogousOverflow(names: seq<string>, color: Color, cfg: Configuration)
    requires |names| == 22 && color == Color(0.0, 50.0, 50.0)
    ensures Warns(22, Some(Analogous))
    ensures var calls := SetHarmonies(Names(names), Some(Analogous), color, cfg);
            && |calls| == 22
            && forall i :: 0 <= i < 22 ==>
                 calls[i][0].color == Hsl(Color(EvenShare(i, 22), 50.0, 50.0))
                 && calls[i][0].color.color.h < 360.0
  {
  }
}
