/** The `radioColor` orchestrator: a closure over accumulators (the light and
    dark token lists, the attribute and class rules, the generated styles and
    the target selector). Each of its operations is a function from the
    accumulators before to the accumulators after; `Closure.RadioColor`
    holds them in mutable fields as the closure does. */
module Palette {
  import opened Options
  import opened ColorTypes
  import opened Digits
  import opened Ranges
  import opened Conversions
  import opened Helpers
  import opened Configurations
  import opened CssTree
  import opened Tokens

  /** The functions the orchestrator calls that are passed in: `getTextColor`
      (which reaches the power segment of the luminance curve), the
      two-decimal formatter and css-tree's `generate`. */
  datatype Environment = Environment(
    textColor: Color -> Option<Color>,
    fixed: real -> string,
    generate: seq<Node> -> string)

  /** The environment whose `getTextColor` is `TextColor` with the power
      curve `gamma`. */
  function EnvironmentFor(gamma: real -> real, fixed: real -> string, generate: seq<Node> -> string): Environment {
    Environment(c => TextColor(gamma, c), fixed, generate)
  }

  /** The closure's accumulators. */
  datatype State = State(
    light: seq<Declaration>,
    dark: seq<Declaration>,
    attributes: seq<Node>,
    classes: seq<Node>,
    styles: string,
    target: string)

  /** The accumulators of a fresh `radioColor()`. */
  const Initial: State := State([], [], [], [], "", ":root")

  /** How a call ends: normally, or by an exception (`getTextColor` reducing
      an empty list, or a band curve without control points) after the
      mutations made before it. */
  datatype Outcome = Completed(state: State) | Threw(state: State)

  /** The names of one step's tokens. */
  datatype TokenNames = TokenNames(background: string, text: string)

  /** Step `i`'s names: `<prefix><name>-<10 i><suffix>` for the background and
      `<prefix><name>-font-<10 i><suffix>` for the text. */
  function StepNames(prefix: string, name: string, suffix: string, i: nat): TokenNames {
    var n := NatToDecimal(10 * i);
    TokenNames(prefix + name + "-" + n + suffix, prefix + name + "-font-" + n + suffix)
  }

  /** The step number can be read back from a background name: between the
      fixed head `<prefix><name>-` and the suffix stand the decimal digits of
      `10 i`. */
  lemma StepNamesReadBack(prefix: string, name: string, suffix: string, i: nat)
    ensures var b := StepNames(prefix, name, suffix, i).background;
            var head := prefix + name + "-";
            && |head| + |suffix| < |b|
            && b[..|head|] == head && b[|b| - |suffix|..] == suffix
            && ParseInt(b[|head|..|b| - |suffix|], 10) == Some(10 * i)
  {
    var n := NatToDecimal(10 * i);
    var head := prefix + name + "-";
    var b := head + n + suffix;
    assert b[|head|..|b| - |suffix|] == n;
    DecimalRoundTrip(10 * i);
  }

  /** Different steps of one colour never share a token name, and a step's
      background and text names differ. */
  lemma StepNamesDistinct(prefix: string, name: string, suffix: string, i: nat, j: nat)
    ensures StepNames(prefix, name, suffix, i).background != StepNames(prefix, name, suffix, i).text
    ensures i != j ==> StepNames(prefix, name, suffix, i).background != StepNames(prefix, name, suffix, j).background
    ensures i != j ==> StepNames(prefix, name, suffix, i).text != StepNames(prefix, name, suffix, j).text
  {
    var ni, nj := NatToDecimal(10 * i), NatToDecimal(10 * j);
    var bi := prefix + name + "-" + ni + suffix;
    var ti := prefix + name + "-font-" + ni + suffix;
    var k := |prefix + name + "-"|;
    assert bi[k] == ni[0] && IsDecimalDigit(ni[0]);
    assert ti[k] == 'f';
    if i != j {
      DecimalRoundTrip(10 * i);
      DecimalRoundTrip(10 * j);
      MiddleCancels(prefix + name + "-", ni, nj, suffix);
      MiddleCancels(prefix + name + "-font-", ni, nj, suffix);
    }
  }

  lemma MiddleCancels(head: string, x: string, y: string, tail: string)
    ensures head + x + tail == head + y + tail ==> x == y
  {
    if head + x + tail == head + y + tail {
      var s := head + x + tail;
      assert |x| == |y|;
      assert x == s[|head|..|head| + |x|] == y;
    }
  }

  // ---------------------------------------------------------------------------
  // the colour options with their defaults

  /** The fields `setColors` uses once the defaults are in place. */
  datatype Resolved = Resolved(
    prefix: string,
    name: string,
    suffix: string,
    dark: bool,
    font: bool,
    attribute: bool,
    className: bool,
    darken: Variant,
    lighten: Variant)

  /** Destructuring with defaults: `prefix = ''`, `name = 'primary'`,
      `suffix = ''`, `dark = true`, `font = true`, `selector = {attribute:
      true, class: true}`, `theme` with `darken = variants.dark` and
      `lighten = variants.light`. A given selector object turns a list on
      only when its flag is `true`. */
  function Resolve(o: ColorOptions): Resolved {
    Resolved(
      o.prefix.GetOr(""),
      o.name.GetOr("primary"),
      o.suffix.GetOr(""),
      o.dark.GetOr(true),
      o.font.GetOr(true),
      o.selector.None? || o.selector.value.attribute == Some(true),
      o.selector.None? || o.selector.value.className == Some(true),
      if o.theme.Some? && o.theme.value.darken.Some? then o.theme.value.darken.value else DarkVariant,
      if o.theme.Some? && o.theme.value.lighten.Some? then o.theme.value.lighten.value else LightVariant)
  }

  /** Options that give only a colour. */
  function ColorOnly(color: ColorInput): ColorOptions {
    ColorOptions(color, None, None, None, None, None, None, None, None)
  }

  /** With nothing but a colour, every default applies: no prefix or suffix,
      the name `primary`, dark and font tokens, both rule lists, and the
      default variants. A given field always wins over its default. */
  lemma ResolveDefaults(o: ColorOptions)
    ensures Resolve(ColorOnly(o.color)) == Resolved("", "primary", "", true, true, true, true, DarkVariant, LightVariant)
    ensures o.prefix.Some? ==> Resolve(o).prefix == o.prefix.value
    ensures o.name.Some? ==> Resolve(o).name == o.name.value
    ensures o.suffix.Some? ==> Resolve(o).suffix == o.suffix.value
    ensures o.dark.Some? ==> Resolve(o).dark == o.dark.value
    ensures o.font.Some? ==> Resolve(o).font == o.font.value
    ensures o.theme.Some? && o.theme.value.darken.Some? ==> Resolve(o).darken == o.theme.value.darken.value
    ensures o.theme.Some? && o.theme.value.lighten.Some? ==> Resolve(o).lighten == o.theme.value.lighten.value
    ensures o.selector.Some? ==> (Resolve(o).attribute <==> o.selector.value.attribute == Some(true))
    ensures o.selector.Some? ==> (Resolve(o).className <==> o.selector.value.className == Some(true))
  {
  }

  // ---------------------------------------------------------------------------
  // setTokens, setAttributes, setClasses

  /** Appends a token's light declarations, and its dark ones when it has them. */
  function AppendScheme(s: State, t: TokenScheme): State {
    s.(light := s.light + t.light, dark := if t.dark.Some? then s.dark + t.dark.value else s.dark)
  }

  /** `setTokens({dark, light, font}, {background, text})`: the background
      token for the light colour (and the dark colour when there is one),
      then, with `font`, the text token for the `getTextColor` of each. When
      `getTextColor` finds no readable lightness the source throws; the
      background token is then already in place. */
  function SetTokens(s: State, env: Environment, light: Color, dark: Option<Color>, font: bool, names: TokenNames)
    : (o: Outcome)
    ensures o.state.(light := s.light, dark := s.dark) == s
    ensures |o.state.light| >= |s.light| + 2 && o.state.light[..|s.light|] == s.light
    ensures |o.state.dark| >= |s.dark| && o.state.dark[..|s.dark|] == s.dark
    ensures dark.None? ==> o.state.dark == s.dark
    ensures o.Threw? <==>
              font && (env.textColor(light).None? || (dark.Some? && env.textColor(dark.value).None?))
    ensures o.Completed? ==> |o.state.light| == |s.light| + (if font then 4 else 2)
    ensures o.Completed? && dark.Some? ==> |o.state.dark| == |s.dark| + (if font then 4 else 2)
  {
    var s1 := AppendScheme(s, CssToken(names.background, light, dark, env.fixed));
    if !font then Completed(s1)
    else
      match env.textColor(light)
      case None => Threw(s1)
      case Some(lightText) =>
        if dark.Some? then
          match env.textColor(dark.value)
          case None => Threw(s1)
          case Some(darkText) => Completed(AppendScheme(s1, CssToken(names.text, lightText, Some(darkText), env.fixed)))
        else
          Completed(AppendScheme(s1, CssToken(names.text, lightText, None, env.fixed)))
  }

  /** What the appended declarations hold: the background colour under the
      background name and, with `font`, the text colour `getTextColor` picks
      for the same background under the text name; in the dark list the same
      for the dark colour. */
  lemma SetTokensContents(s: State, env: Environment, light: Color, dark: Option<Color>, font: bool, names: TokenNames)
    ensures var o := SetTokens(s, env, light, dark, font, names);
            o.state.light[|s.light|..|s.light| + 2] == TokenPair(names.background, light, env.fixed)
    ensures var o := SetTokens(s, env, light, dark, font, names);
            dark.Some? ==> o.state.dark[|s.dark|..|s.dark| + 2] == TokenPair(names.background, dark.value, env.fixed)
    ensures var o := SetTokens(s, env, light, dark, font, names);
            o.Completed? && font ==>
              o.state.light[|s.light| + 2..] == TokenPair(names.text, env.textColor(light).value, env.fixed)
    ensures var o := SetTokens(s, env, light, dark, font, names);
            o.Completed? && font && dark.Some? ==>
              o.state.dark[|s.dark| + 2..] == TokenPair(names.text, env.textColor(dark.value).value, env.fixed)
  {
  }

  /** With `getTextColor` computed by `TextColor`, the text tokens of a
      completed step carry a colour of the background's hue and saturation
      with an integer lightness in 0..99; a step throws exactly when a
      background has no lightness reaching a ratio above 4.5. */
  lemma TextTokensReadable(s: State, gamma: real -> real, fixed: real -> string, generate: seq<Node> -> string,
                           light: Color, dark: Option<Color>, names: TokenNames)
    ensures var env := EnvironmentFor(gamma, fixed, generate);
            var o := SetTokens(s, env, light, dark, true, names);
            o.Completed? ==>
              && var text := TextColor(gamma, light).value;
              && o.state.light[|s.light| + 2..] == TokenPair(names.text, text, fixed)
              && text.h == light.h && text.s == light.s && 0.0 <= text.l <= 99.0
    ensures var env := EnvironmentFor(gamma, fixed, generate);
            SetTokens(s, env, light, dark, true, names).Threw? <==>
              (forall l :: 0 <= l < 100 ==> !Passes(RatioOf(gamma, light), 4.5, l))
              || (dark.Some? && forall l :: 0 <= l < 100 ==> !Passes(RatioOf(gamma, dark.value), 4.5, l))
  {
    var env := EnvironmentFor(gamma, fixed, generate);
    assert env.textColor(light) == TextColor(gamma, light);
    if dark.Some? {
      assert env.textColor(dark.value) == TextColor(gamma, dark.value);
    }
    SetTokensContents(s, env, light, dark, true, names);
  }

  /** `setAttributes(names, font, selector)`: with `selector` set, one
      attribute rule setting `background-color` from the background token
      and, with `font`, one setting `color` from the text token. */
  function SetAttributes(s: State, names: TokenNames, font: bool, selector: bool): (r: State)
    ensures r.(attributes := s.attributes) == s
    ensures |r.attributes| == |s.attributes| + (if !selector then 0 else if font then 2 else 1)
    ensures r.attributes[..|s.attributes|] == s.attributes
  {
    if !selector then s
    else
      var background := Selector(Named("Identifier", names.background), "background-color", "AttributeSelector");
      var text := Selector(Named("Identifier", names.text), "color", "AttributeSelector");
      s.(attributes := s.attributes + [background] + (if font then [text] else []))
  }

  /** `setClasses(names, font, selector)`: the same rules as class selectors,
      named by the plain token names. */
  function SetClasses(s: State, names: TokenNames, font: bool, selector: bool): (r: State)
    ensures r.(classes := s.classes) == s
    ensures |r.classes| == |s.classes| + (if !selector then 0 else if font then 2 else 1)
    ensures r.classes[..|s.classes|] == s.classes
  {
    if !selector then s
    else
      var background := Selector(Plain(names.background), "background-color", "ClassSelector");
      var text := Selector(Plain(names.text), "color", "ClassSelector");
      s.(classes := s.classes + [background] + (if font then [text] else []))
  }

  /** The rules refer to the tokens of the same step: each rule's
      `var(--…)` names the custom property the token of that name declares. */
  lemma RulesUseTokens(s: State, names: TokenNames, font: bool, c: Color, fixed: real -> string)
    ensures var a := SetAttributes(s, names, font, true).attributes;
            a[|s.attributes|].block[0].value.identifier == TokenPair(names.background, c, fixed)[1].property
    ensures var k := SetClasses(s, names, font, true).classes;
            k[|s.classes|].block[0].value.identifier == TokenPair(names.background, c, fixed)[1].property
    ensures var a := SetAttributes(s, names, font, true).attributes;
            font ==> a[|s.attributes| + 1].block[0].value.identifier == TokenPair(names.text, c, fixed)[1].property
    ensures var k := SetClasses(s, names, font, true).classes;
            font ==> k[|s.classes| + 1].block[0].value.identifier == TokenPair(names.text, c, fixed)[1].property
  {
  }

  // ---------------------------------------------------------------------------
  // setColors

  /** One iteration of the inner loop of `setColors`: step `i` pairs the light
      range's colour `i` with the dark range's (absent when the dark range is
      shorter, or when the options turn dark tokens off). */
  function ColorStep(s: State, env: Environment, r: Resolved, lights: seq<Color>, darks: seq<Color>, i: nat)
    : Outcome
    requires i < |lights|
  {
    var dark := if r.dark && i < |darks| then Some(darks[i]) else None;
    StepWith(s, env, r, lights[i], dark, StepNames(r.prefix, r.name, r.suffix, i))
  }

  /** The body of the inner loop for given colours and names: the tokens,
      then the attribute and class rules unless the tokens threw. */
  function StepWith(s: State, env: Environment, r: Resolved, light: Color, dark: Option<Color>, names: TokenNames)
    : Outcome
  {
    match SetTokens(s, env, light, dark, r.font, names)
    case Threw(t) => Threw(t)
    case Completed(t) =>
      Completed(SetClasses(SetAttributes(t, names, r.font, r.attribute), names, r.font, r.className))
  }

  /** Steps `0 .. k - 1` of a step function, stopping at the first that
      throws: the shape of the inner loop of `setColors`, where a throw ends
      the call with the mutations made so far. */
  function Run(s: State, step: (State, nat) -> Outcome, k: nat): Outcome {
    if k == 0 then Completed(s)
    else
      match Run(s, step, k - 1)
      case Threw(t) => Threw(t)
      case Completed(t) => step(t, k - 1)
  }

  /** The steps of one option: step `i` pairs the light range's colour `i`
      with the dark range's. */
  function StepOf(env: Environment, r: Resolved, lights: seq<Color>, darks: seq<Color>): (State, nat) -> Outcome {
    (t: State, i: nat) => if i < |lights| then ColorStep(t, env, r, lights, darks, i) else Completed(t)
  }

  /** Steps `0 .. k - 1` of one option. */
  function RunSteps(s: State, env: Environment, r: Resolved, lights: seq<Color>, darks: seq<Color>, k: nat)
    : Outcome
    requires k <= |lights|
  {
    Run(s, StepOf(env, r, lights, darks), k)
  }

  /** The tokens one step adds to the light list (and to the dark list when
      it has a dark colour), and the rules it adds to each enabled list. */
  function TokensPerStep(font: bool): nat {
    if font then 4 else 2
  }

  function RulesPerStep(font: bool, enabled: bool): nat {
    if !enabled then 0 else if font then 2 else 1
  }

  /** `t` holds everything `s` holds, and possibly more: every list of `s` is
      a prefix of the same list of `t`; styles and target are the same. */
  predicate Extends(s: State, t: State) {
    && s.light <= t.light && s.dark <= t.dark
    && s.attributes <= t.attributes && s.classes <= t.classes
    && t.styles == s.styles && t.target == s.target
  }

  lemma ExtendsTrans(s: State, t: State, u: State)
    requires Extends(s, t) && Extends(t, u)
    ensures Extends(s, u)
  {
  }

  /** `t` extends `s` and, of the lists the resolved options turn off, holds
      exactly what `s` holds. */
  predicate Keeps(r: Resolved, s: State, t: State) {
    && Extends(s, t)
    && (!r.dark ==> t.dark == s.dark)
    && (!r.attribute ==> t.attributes == s.attributes)
    && (!r.className ==> t.classes == s.classes)
  }

  lemma KeepsTrans(r: Resolved, s: State, t: State, u: State)
    requires Keeps(r, s, t) && Keeps(r, t, u)
    ensures Keeps(r, s, u)
  {
  }

  /** One step: nothing is lost; a disabled list is left alone; on completion
      the light list grows by 2 (4 with font tokens), the dark list the same
      when the step has a dark colour, each enabled rule list by 1 (2 with
      font tokens). */
  lemma ColorStepCounts(t: State, env: Environment, r: Resolved, lights: seq<Color>, darks: seq<Color>, i: nat)
    requires i < |lights|
    ensures Keeps(r, t, ColorStep(t, env, r, lights, darks, i).state)
    ensures var o := ColorStep(t, env, r, lights, darks, i);
            o.Completed? ==>
              && |o.state.light| == |t.light| + TokensPerStep(r.font)
              && |o.state.attributes| == |t.attributes| + RulesPerStep(r.font, r.attribute)
              && |o.state.classes| == |t.classes| + RulesPerStep(r.font, r.className)
              && (r.dark && i < |darks| ==> |o.state.dark| == |t.dark| + TokensPerStep(r.font))
  {
    var dark := if r.dark && i < |darks| then Some(darks[i]) else None;
    StepWithCounts(t, env, r, lights[i], dark, StepNames(r.prefix, r.name, r.suffix, i));
  }

  lemma StepWithCounts(t: State, env: Environment, r: Resolved, light: Color, dark: Option<Color>, names: TokenNames)
    requires !r.dark ==> dark.None?
    ensures Keeps(r, t, StepWith(t, env, r, light, dark, names).state)
    ensures var o := StepWith(t, env, r, light, dark, names);
            o.Completed? ==>
              && |o.state.light| == |t.light| + TokensPerStep(r.font)
              && |o.state.attributes| == |t.attributes| + RulesPerStep(r.font, r.attribute)
              && |o.state.classes| == |t.classes| + RulesPerStep(r.font, r.className)
              && (dark.Some? ==> |o.state.dark| == |t.dark| + TokensPerStep(r.font))
  {
    var o := SetTokens(t, env, light, dark, r.font, names);
    var u := o.state;
    assert Keeps(r, t, u);
    if o.Completed? {
      var a := SetAttributes(u, names, r.font, r.attribute);
      var c := SetClasses(a, names, r.font, r.className);
      assert Keeps(r, u, a);
      assert Keeps(r, a, c);
      KeepsTrans(r, t, u, a);
      KeepsTrans(r, t, a, c);
    }
  }

  /** If no step loses anything or touches a disabled list, no run does. */
  lemma {:induction false} RunKeeps(r: Resolved, s: State, step: (State, nat) -> Outcome, k: nat)
    requires forall t: State, i: nat :: Keeps(r, t, step(t, i).state)
    ensures Keeps(r, s, Run(s, step, k).state)
  {
    if k > 0 {
      RunKeeps(r, s, step, k - 1);
      var o := Run(s, step, k - 1);
      if o.Completed? {
        KeepsTrans(r, s, o.state, step(o.state, k - 1).state);
      }
    }
  }

  /** If each of the first `k` steps that completes grows a size by `c`, a
      run of `k` steps that completes grows it by `k` times `c`. */
  lemma {:induction false} RunGrows(s: State, step: (State, nat) -> Outcome, k: nat, size: State -> nat, c: nat)
    requires forall t: State, i: nat :: i < k && step(t, i).Completed? ==> size(step(t, i).state) == size(t) + c
    ensures Run(s, step, k).Completed? ==> size(Run(s, step, k).state) == size(s) + k * c
  {
    if k > 0 {
      RunGrows(s, step, k - 1, size, c);
      assert (k - 1) * c + c == k * c;
    }
  }

  /** `t` and `u` agree on everything but the styles. */
  predicate SameButStyles(t: State, u: State) {
    t.(styles := u.styles) == u
  }

  /** Two outcomes of the same kind whose states agree but for the styles. */
  predicate SameOutcome(o1: Outcome, o2: Outcome) {
    o1.Completed? == o2.Completed? && SameButStyles(o1.state, o2.state)
  }

  /** If steps do not read the styles, neither do runs. */
  lemma {:induction false} RunStyles(a: State, b: State, step: (State, nat) -> Outcome, k: nat)
    requires SameButStyles(a, b)
    requires forall t: State, u: State, i: nat :: SameButStyles(t, u) ==> SameOutcome(step(t, i), step(u, i))
    ensures SameOutcome(Run(a, step, k), Run(b, step, k))
  {
    if k > 0 {
      RunStyles(a, b, step, k - 1);
      var oa := Run(a, step, k - 1);
      var ob := Run(b, step, k - 1);
      if oa.Completed? {
        assert SameOutcome(step(oa.state, k - 1), step(ob.state, k - 1));
        assert Run(a, step, k) == step(oa.state, k - 1) && Run(b, step, k) == step(ob.state, k - 1);
      } else {
        assert Run(a, step, k) == oa && Run(b, step, k) == ob;
      }
    }
  }

  /** Over `k` steps nothing is lost and disabled lists stay as they were,
      whether or not a step throws. */
  lemma RunStepsExtends(s: State, env: Environment, r: Resolved, lights: seq<Color>, darks: seq<Color>, k: nat)
    requires k <= |lights|
    ensures Keeps(r, s, RunSteps(s, env, r, lights, darks, k).state)
  {
    var step := StepOf(env, r, lights, darks);
    forall t: State, i: nat
      ensures Keeps(r, t, step(t, i).state)
    {
      if i < |lights| {
        ColorStepCounts(t, env, r, lights, darks, i);
      }
    }
    RunKeeps(r, s, step, k);
  }

  /** When `k` steps all complete, the light list has grown by `k` times the
      per-step count, the dark list the same while the dark range lasts, and
      each rule list by `k` times its count. */
  lemma RunStepsCounts(s: State, env: Environment, r: Resolved, lights: seq<Color>, darks: seq<Color>, k: nat)
    requires k <= |lights|
    ensures var o := RunSteps(s, env, r, lights, darks, k);
            o.Completed? ==>
              && |o.state.light| == |s.light| + k * TokensPerStep(r.font)
              && |o.state.attributes| == |s.attributes| + k * RulesPerStep(r.font, r.attribute)
              && |o.state.classes| == |s.classes| + k * RulesPerStep(r.font, r.className)
              && (r.dark && k <= |darks| ==> |o.state.dark| == |s.dark| + k * TokensPerStep(r.font))
  {
    var step := StepOf(env, r, lights, darks);
    forall t: State, i: nat | i < k && step(t, i).Completed?
      ensures |step(t, i).state.light| == |t.light| + TokensPerStep(r.font)
      ensures |step(t, i).state.attributes| == |t.attributes| + RulesPerStep(r.font, r.attribute)
      ensures |step(t, i).state.classes| == |t.classes| + RulesPerStep(r.font, r.className)
      ensures r.dark && k <= |darks| ==> |step(t, i).state.dark| == |t.dark| + TokensPerStep(r.font)
    {
      ColorStepCounts(t, env, r, lights, darks, i);
    }
    RunGrows(s, step, k, (t: State) => |t.light|, TokensPerStep(r.font));
    RunGrows(s, step, k, (t: State) => |t.attributes|, RulesPerStep(r.font, r.attribute));
    RunGrows(s, step, k, (t: State) => |t.classes|, RulesPerStep(r.font, r.className));
    if r.dark && k <= |darks| {
      RunGrows(s, step, k, (t: State) => |t.dark|, TokensPerStep(r.font));
    }
  }

  /** One option, resolved, whose variants expand to valid bands and whose
      light range has `n` colours, the dark one at least `n`: when it
      completes it has made `n` steps' worth of tokens and rules. */
  lemma OptionsCounts(s: State, env: Environment, r: Resolved, hsl: Color, n: nat)
    requires RangesValid(r.lighten(hsl)) && RangesValid(r.darken(hsl))
    requires |ColorRange(r.lighten(hsl))| == n && |ColorRange(r.darken(hsl))| >= n
    ensures var a := ApplyResolved(s, env, r, hsl);
            a.Completed? ==>
              && |a.state.light| == |s.light| + n * TokensPerStep(r.font)
              && |a.state.attributes| == |s.attributes| + n * RulesPerStep(r.font, r.attribute)
              && |a.state.classes| == |s.classes| + n * RulesPerStep(r.font, r.className)
              && (r.dark ==> |a.state.dark| == |s.dark| + n * TokensPerStep(r.font))
  {
    RunStepsCounts(s, env, r, ColorRange(r.lighten(hsl)), ColorRange(r.darken(hsl)), n);
  }

  /** One element of `setColors`' list: the colour converted, both variants
      expanded into ranges (light first, a band curve without control points
      throws), then one step per colour of the light range. An `rgb(...)`
      colour whose pieces are not whole numbers in 0..255 is outside the
      model (the documented range of `rgbToHsl`; the source would compute
      with `NaN` or with the out-of-range numbers), hence the precondition.
      `rgb(...)` colours are converted with the corrected saturation. */
  function ApplyOptions(s: State, env: Environment, o: ColorOptions): (out: Outcome)
    requires ColorToHslCorrected(o.color).Some?
    ensures Extends(s, out.state)
    ensures !Resolve(o).dark ==> out.state.dark == s.dark
  {
    ResolvedExtends(s, env, Resolve(o), ColorToHslCorrected(o.color).value);
    ApplyResolved(s, env, Resolve(o), ColorToHslCorrected(o.color).value)
  }

  /** The same for options already resolved and a colour already converted. */
  function ApplyResolved(s: State, env: Environment, r: Resolved, hsl: Color): Outcome {
    var lightBands := r.lighten(hsl);
    var darkBands := r.darken(hsl);
    if !RangesValid(lightBands) || !RangesValid(darkBands) then Threw(s)
    else
      var lights := ColorRange(lightBands);
      RunSteps(s, env, r, lights, ColorRange(darkBands), |lights|)
  }

  /** The outer loop over the options, stopping at the first that throws. */
  function ApplyAll(s: State, env: Environment, options: seq<ColorOptions>): Outcome
    requires forall k :: 0 <= k < |options| ==> ColorToHslCorrected(options[k].color).Some?
    decreases |options|
  {
    if options == [] then Completed(s)
    else
      match ApplyOptions(s, env, options[0])
      case Threw(t) => Threw(t)
      case Completed(t) => ApplyAll(t, env, options[1..])
  }

  /** The node list `setColors` serialises: the light scheme, the dark scheme,
      then the class rules and the attribute rules. */
  function Sheet(s: State): (nodes: seq<Node>)
    ensures |nodes| == 2 + |s.classes| + |s.attributes|
    ensures nodes[0] == SchemeLight(s.light, s.target) && nodes[1] == SchemeDark(s.dark, s.target)
    ensures nodes[2..2 + |s.classes|] == s.classes && nodes[2 + |s.classes|..] == s.attributes
  {
    [SchemeLight(s.light, s.target), SchemeDark(s.dark, s.target)] + s.classes + s.attributes
  }

  /** `setColors(colorsOptions)`: every option's tokens and rules appended,
      then the styles regenerated from everything accumulated. It never clears
      an accumulator: the token and rule lists still begin with what they held
      before, whether it completes or throws, and the target is kept. On
      completion the styles are the serialisation of everything accumulated,
      so a second call without `stylesheet()` in between serialises the tokens
      of both. */
  function SetColors(s: State, env: Environment, options: seq<ColorOptions>): (o: Outcome)
    requires forall k :: 0 <= k < |options| ==> ColorToHslCorrected(options[k].color).Some?
    ensures && s.light <= o.state.light && s.dark <= o.state.dark
            && s.attributes <= o.state.attributes && s.classes <= o.state.classes
            && o.state.target == s.target
    ensures o.Completed? ==> o.state.styles == env.generate(Sheet(o.state))
  {
    ApplyAllExtends(s, env, options);
    match ApplyAll(s, env, options)
    case Threw(t) => Threw(t)
    case Completed(t) => Completed(t.(styles := env.generate(Sheet(t))))
  }

  lemma ResolvedExtends(s: State, env: Environment, r: Resolved, hsl: Color)
    ensures Extends(s, ApplyResolved(s, env, r, hsl).state)
    ensures !r.dark ==> ApplyResolved(s, env, r, hsl).state.dark == s.dark
  {
    if RangesValid(r.lighten(hsl)) && RangesValid(r.darken(hsl)) {
      var lights := ColorRange(r.lighten(hsl));
      RunStepsExtends(s, env, r, lights, ColorRange(r.darken(hsl)), |lights|);
    }
  }

  lemma {:induction false} ApplyAllExtends(s: State, env: Environment, options: seq<ColorOptions>)
    requires forall k :: 0 <= k < |options| ==> ColorToHslCorrected(options[k].color).Some?
    ensures Extends(s, ApplyAll(s, env, options).state)
    decreases |options|
  {
    if options != [] {
      var o := ApplyOptions(s, env, options[0]);
      if o.Completed? {
        var rest := options[1..];
        assert forall k :: 0 <= k < |rest| ==> ColorToHslCorrected(rest[k].color).Some? by {
          assert forall k :: 0 <= k < |rest| ==> rest[k] == options[k + 1];
        }
        ApplyAllExtends(o.state, env, rest);
        ExtendsTrans(s, o.state, ApplyAll(o.state, env, rest).state);
      }
    }
  }

  /** With `dark: false` no option adds dark tokens. */
  lemma DarkOffKeepsDark(s: State, env: Environment, o: ColorOptions)
    requires ColorToHslCorrected(o.color).Some? && o.dark == Some(false)
    ensures ApplyOptions(s, env, o).state.dark == s.dark
  {
  }

  /** With the default variants both ranges have 11 colours, so one option
      makes 11 steps, named `-0` to `-100`: completed, it adds 44 light and
      44 dark declarations and 22 rules to each list (font tokens and both
      selectors being on by default). */
  lemma DefaultOptionsElevenSteps(s: State, env: Environment, o: ColorOptions, hsl: Color)
    requires o == ColorOnly(o.color) && ColorToHslCorrected(o.color) == Some(hsl)
    ensures var a := ApplyOptions(s, env, o);
            a.Completed? ==>
              && |a.state.light| == |s.light| + 44 && |a.state.dark| == |s.dark| + 44
              && |a.state.attributes| == |s.attributes| + 22 && |a.state.classes| == |s.classes| + 22
  {
    ResolveDefaults(o);
    DefaultVariantsExpand(hsl);
    assert ApplyOptions(s, env, o) == ApplyResolved(s, env, Resolve(o), hsl);
    ElevenSteps(s, env, Resolve(o), hsl);
  }

  lemma ElevenSteps(s: State, env: Environment, r: Resolved, hsl: Color)
    requires r.font && r.dark && r.attribute && r.className
    requires RangesValid(r.lighten(hsl)) && RangesValid(r.darken(hsl))
    requires |ColorRange(r.lighten(hsl))| == 11 && |ColorRange(r.darken(hsl))| == 11
    ensures var a := ApplyResolved(s, env, r, hsl);
            a.Completed? ==>
              && |a.state.light| == |s.light| + 44 && |a.state.dark| == |s.dark| + 44
              && |a.state.attributes| == |s.attributes| + 22 && |a.state.classes| == |s.classes| + 22
  {
    var a := ApplyResolved(s, env, r, hsl);
    OptionsCounts(s, env, r, hsl, 11);
    if a.Completed? {
      assert |a.state.light| == |s.light| + 11 * 4 && |a.state.dark| == |s.dark| + 11 * 4;
      assert |a.state.attributes| == |s.attributes| + 11 * 2 && |a.state.classes| == |s.classes| + 11 * 2;
    }
  }

  /** The last default step is named `primary-100` and `primary-font-100`. */
  lemma LastDefaultStepNames(i: nat)
    requires i == 10
    ensures StepNames("", "primary", "", i) == TokenNames("primary-100", "primary-font-100")
  {
    var n := NatToDecimal(10 * i);
    assert n == "100" by {
      assert NatToDecimal(10) == "10";
    }
    assert "" + "primary" + "-" + n + "" == "primary-100";
    assert "" + "primary" + "-font-" + n + "" == "primary-font-100";
  }

  // ---------------------------------------------------------------------------
  // setDefaults, stylesheet, clearStyles, setTarget

  /** `setDefaults()`: the token and rule lists emptied, the target back to
      `:root`; the styles stay. */
  function SetDefaults(s: State): (r: State)
    ensures r == Initial.(styles := s.styles)
  {
    s.(attributes := [], classes := [], light := [], dark := [], target := ":root")
  }

  /** `stylesheet()`: the accumulators reset, and the styles of the last
      `setColors` returned. */
  function Stylesheet(s: State): (result: (State, string))
    ensures result.0 == Initial.(styles := s.styles) && result.1 == s.styles
  {
    (SetDefaults(s), s.styles)
  }

  /** `clearStyles()`: the next `stylesheet()` returns the empty string, and
      nothing else changes. */
  function ClearStyles(s: State): (r: State)
    ensures Stylesheet(r).1 == ""
    ensures SameButStyles(s, r)
    ensures r == s.(styles := "")
  {
    s.(styles := "")
  }

  /** `setTarget(t)`. */
  function SetTarget(s: State, t: string): (r: State)
    ensures r == s.(target := t)
  {
    s.(target := t)
  }

  /** After `stylesheet()` the next `setColors` starts from empty lists: its
      output does not depend on anything accumulated before, except the
      styles it overwrites. */
  lemma StylesheetForgets(s1: State, s2: State, env: Environment, options: seq<ColorOptions>)
    requires forall k :: 0 <= k < |options| ==> ColorToHslCorrected(options[k].color).Some?
    ensures var t1 := SetColors(Stylesheet(s1).0, env, options);
            var t2 := SetColors(Stylesheet(s2).0, env, options);
            t1.Completed? ==> t1 == t2
  {
    var a := Stylesheet(s1).0;
    var b := Stylesheet(s2).0;
    StylesOverwritten(a, b, env, options);
  }

  /** `setColors` from two states that differ only in their styles ends in
      states that differ at most in their styles, and not at all when it
      completes. */
  lemma StylesOverwritten(a: State, b: State, env: Environment, options: seq<ColorOptions>)
    requires a.(styles := b.styles) == b
    requires forall k :: 0 <= k < |options| ==> ColorToHslCorrected(options[k].color).Some?
    ensures SetColors(a, env, options).Completed? ==> SetColors(a, env, options) == SetColors(b, env, options)
  {
    ApplyAllStyles(a, b, env, options);
  }

  lemma {:induction false} ApplyAllStyles(a: State, b: State, env: Environment, options: seq<ColorOptions>)
    requires a.(styles := b.styles) == b
    requires forall k :: 0 <= k < |options| ==> ColorToHslCorrected(options[k].color).Some?
    ensures ApplyAll(a, env, options).Completed? == ApplyAll(b, env, options).Completed?
    ensures ApplyAll(a, env, options).state.(styles := b.styles) == ApplyAll(b, env, options).state
    decreases |options|
  {
    if options != [] {
      ResolvedStyles(a, b, env, Resolve(options[0]), ColorToHslCorrected(options[0].color).value);
      var oa := ApplyOptions(a, env, options[0]);
      var ob := ApplyOptions(b, env, options[0]);
      if oa.Completed? {
        var rest := options[1..];
        assert forall k :: 0 <= k < |rest| ==> ColorToHslCorrected(rest[k].color).Some? by {
          assert forall k :: 0 <= k < |rest| ==> rest[k] == options[k + 1];
        }
        ApplyAllStyles(oa.state, ob.state, env, rest);
      }
    }
  }

  lemma ResolvedStyles(a: State, b: State, env: Environment, r: Resolved, hsl: Color)
    requires a.(styles := b.styles) == b
    ensures ApplyResolved(a, env, r, hsl).Completed? == ApplyResolved(b, env, r, hsl).Completed?
    ensures ApplyResolved(a, env, r, hsl).state.(styles := b.styles) == ApplyResolved(b, env, r, hsl).state
  {
    if RangesValid(r.lighten(hsl)) && RangesValid(r.darken(hsl)) {
      var lights := ColorRange(r.lighten(hsl));
      RunStepsStyles(a, b, env, r, lights, ColorRange(r.darken(hsl)), |lights|);
    }
  }

  lemma RunStepsStyles(a: State, b: State, env: Environment, r: Resolved, lights: seq<Color>,
                        darks: seq<Color>, k: nat)
    requires a.(styles := b.styles) == b
    requires k <= |lights|
    ensures RunSteps(a, env, r, lights, darks, k).Completed? == RunSteps(b, env, r, lights, darks, k).Completed?
    ensures RunSteps(a, env, r, lights, darks, k).state.(styles := b.styles) == RunSteps(b, env, r, lights, darks, k).state
  {
    var step := StepOf(env, r, lights, darks);
    forall t: State, u: State, i: nat | SameButStyles(t, u)
      ensures SameOutcome(step(t, i), step(u, i))
    {
      if i < |lights| {
        ColorStepStyles(t, u, env, r, lights, darks, i);
      }
    }
    RunStyles(a, b, step, k);
    assert SameOutcome(RunSteps(a, env, r, lights, darks, k), RunSteps(b, env, r, lights, darks, k));
    RunStepsExtends(b, env, r, lights, darks, k);
  }

  /** A step does not read the styles. */
  lemma ColorStepStyles(a: State, b: State, env: Environment, r: Resolved, lights: seq<Color>, darks: seq<Color>, i: nat)
    requires SameButStyles(a, b)
    requires i < |lights|
    ensures SameOutcome(ColorStep(a, env, r, lights, darks, i), ColorStep(b, env, r, lights, darks, i))
  {
    var dark := if r.dark && i < |darks| then Some(darks[i]) else None;
    StepWithStyles(a, b, env, r, lights[i], dark, StepNames(r.prefix, r.name, r.suffix, i));
  }

  lemma StepWithStyles(a: State, b: State, env: Environment, r: Resolved, light: Color, dark: Option<Color>,
                       names: TokenNames)
    requires SameButStyles(a, b)
    ensures SameOutcome(StepWith(a, env, r, light, dark, names), StepWith(b, env, r, light, dark, names))
  {
    var oa := SetTokens(a, env, light, dark, r.font, names);
    var ob := SetTokens(b, env, light, dark, r.font, names);
    assert SameOutcome(oa, ob);
    if oa.Completed? {
      var xa := SetAttributes(oa.state, names, r.font, r.attribute);
      var xb := SetAttributes(ob.state, names, r.font, r.attribute);
      assert SameButStyles(xa, xb);
      assert SameButStyles(SetClasses(xa, names, r.font, r.className), SetClasses(xb, names, r.font, r.className));
    }
  }

  /** Clearing the styles changes nothing a following `setColors` computes
      when it completes, since it regenerates the styles from the lists. */
  lemma ClearStylesForgotten(s: State, env: Environment, options: seq<ColorOptions>)
    requires forall k :: 0 <= k < |options| ==> ColorToHslCorrected(options[k].color).Some?
    ensures var o := SetColors(ClearStyles(s), env, options);
            o.Completed? ==> o == SetColors(s, env, options)
  {
    StylesOverwritten(ClearStyles(s), s, env, options);
  }

  /** The styles a completed `setColors` produces are built under the target
      last set with `setTarget`. */
  lemma StylesUseTarget(s: State, env: Environment, t: string, options: seq<ColorOptions>)
    requires forall k :: 0 <= k < |options| ==> ColorToHslCorrected(options[k].color).Some?
    ensures var o := SetColors(SetTarget(s, t), env, options);
            o.Completed? ==> Sheet(o.state)[0].selector == TargetSelector(GetSelectorType(t), NormalizeSelector(t))
  {
  }
}
