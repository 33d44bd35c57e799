/** The closure `radioColor()` returns, with the accumulators as mutable
    fields. Each method replaces them with what the corresponding function of
    `Palette` computes; the properties are proved on those functions. */
module Closure {
  import opened Options
  import opened ColorTypes
  import opened CssTree
  import opened Configurations
  import opened Conversions
  import P = Palette

  /** `radioColor()`: the accumulators as mutable fields, each operation
      replacing them with what the corresponding function computes. */
  class RadioColor {
    var light: seq<Declaration>
    var dark: seq<Declaration>
    var attributes: seq<Node>
    var classes: seq<Node>
    var styles: string
    var target: string

    function Current(): P.State
      reads this
    {
      P.State(light, dark, attributes, classes, styles, target)
    }

    constructor ()
      ensures Current() == P.Initial
    {
      light, dark, attributes, classes, styles, target := [], [], [], [], "", ":root";
    }

    method Assign(s: P.State)
      modifies this
      ensures Current() == s
    {
      light, dark, attributes, classes, styles, target := s.light, s.dark, s.attributes, s.classes, s.styles, s.target;
    }

    /** `setColors`; `threw` reports an exception, after which the fields
        hold the mutations made before it. */
    method SetColors(env: P.Environment, options: seq<ColorOptions>) returns (threw: bool)
      requires forall k :: 0 <= k < |options| ==> ColorToHslCorrected(options[k].color).Some?
      modifies this
      ensures Current() == P.SetColors(old(Current()), env, options).state
      ensures threw == P.SetColors(old(Current()), env, options).Threw?
    {
      var o := P.SetColors(Current(), env, options);
      Assign(o.state);
      threw := o.Threw?;
    }

    /** `setTokens(theme, names)`; `threw` reports an exception from the text
        colour choice. */
    method SetTokens(env: P.Environment, light: Color, dark: Option<Color>, font: bool, names: P.TokenNames)
      returns (threw: bool)
      modifies this
      ensures Current() == P.SetTokens(old(Current()), env, light, dark, font, names).state
      ensures threw == P.SetTokens(old(Current()), env, light, dark, font, names).Threw?
    {
      var o := P.SetTokens(Current(), env, light, dark, font, names);
      Assign(o.state);
      threw := o.Threw?;
    }

    /** `setAttributes(names, font, selector)`. */
    method SetAttributes(names: P.TokenNames, font: bool, selector: bool)
      modifies this
      ensures Current() == P.SetAttributes(old(Current()), names, font, selector)
    {
      Assign(P.SetAttributes(Current(), names, font, selector));
    }

    /** `setTarget(t)`. */
    method SetTarget(t: string)
      modifies this
      ensures Current() == P.SetTarget(old(Current()), t)
    {
      Assign(P.SetTarget(Current(), t));
    }

    /** `clearStyles()`. */
    method ClearStyles()
      modifies this
      ensures Current() == P.ClearStyles(old(Current()))
    {
      Assign(P.ClearStyles(Current()));
    }

    /** `stylesheet()`: the styles of the last `setColors`, with the
        accumulators reset. */
    method Stylesheet() returns (css: string)
      modifies this
      ensures (Current(), css) == P.Stylesheet(old(Current()))
    {
      var r := P.Stylesheet(Current());
      Assign(r.0);
      css := r.1;
    }
  }
}
