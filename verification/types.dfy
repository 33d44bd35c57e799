/** The records the colour engine passes around. */
module ColorTypes {
  import opened Options

  /** An HSL colour: hue in degrees, saturation and lightness in percent.
      Nothing clamps the fields; the engine's arithmetic is done on them as they are. */
  datatype Color = Color(h: real, s: real, l: real)

  /** An RGB triple of integer channels, nominally 0..255. */
  datatype Rgb = Rgb(r: int, g: int, b: int)

  /** A control point `[x, y]` of an easing curve. */
  datatype Point = Point(x: real, y: real)

  /** An easing curve: the values returned below the first and beyond the last
      control point, and the control points themselves. */
  datatype CurveParams = CurveParams(start: real, end: real, points: seq<Point>)

  /** One band of a gradient: `count` steps from `background` toward
      `foreground`, each channel eased by its optional curve. */
  datatype Range = Range(
    count: int,
    background: Color,
    foreground: Color,
    hueCurve: Option<CurveParams>,
    saturationCurve: Option<CurveParams>,
    lightnessCurve: Option<CurveParams>)

  /** A band with the three curves left to their defaults. */
  function PlainRange(count: int, background: Color, foreground: Color): Range {
    Range(count, background, foreground, None, None, None)
  }

  /** What a configuration may give as its colour: a string (`#rgb`, `#rrggbb`
      or `rgb(r, g, b)`), an `{h, s, l}` object, or a value of any other type. */
  datatype ColorInput = Text(text: string) | Hsl(color: Color) | Other
}
