/** The token emitter (`cssToken`): the pair of custom properties
    `--<name>-hsl` (the colour's channels) and `--<name>` (its use through
    `hsl(var(--<name>-hsl))`), for the light scheme and optionally the dark. */
module Tokens {
  import opened Options
  import opened ColorTypes
  import opened Strings
  import opened CssTree

  /** `hslToString(color)`: `H S% L%`, each channel written by the two-decimal
      formatter `fixed` (`toFixed(2)`). When the formatter writes no spaces,
      the three channels can be read back: splitting at the spaces gives `H`,
      `S%` and `L%`. */
  function HslToString(c: Color, fixed: real -> string): (text: string)
    ensures ' ' !in fixed(c.h) && ' ' !in fixed(c.s) && ' ' !in fixed(c.l) ==>
            Split(text, ' ') == [fixed(c.h), fixed(c.s) + "%", fixed(c.l) + "%"]
  {
    var h, s, l := fixed(c.h), fixed(c.s) + "%", fixed(c.l) + "%";
    assert h + " " + fixed(c.s) + "% " + fixed(c.l) + "%" == h + [' '] + (s + [' '] + l);
    SpacedFields(h, s, l);
    fixed(c.h) + " " + fixed(c.s) + "% " + fixed(c.l) + "%"
  }

  /** Three fields without spaces, joined by single spaces, split back into
      the three fields. */
  lemma SpacedFields(h: string, s: string, l: string)
    ensures ' ' !in h && ' ' !in s && ' ' !in l ==> Split(h + [' '] + (s + [' '] + l), ' ') == [h, s, l]
  {
    if ' ' !in h && ' ' !in s && ' ' !in l {
      SplitAppend(h, s + [' '] + l, ' ');
      SplitAppend(s, l, ' ');
    }
  }

  /** The declarations of one token: the light list, and the dark list or
      `null`. */
  datatype TokenScheme = TokenScheme(light: seq<Declaration>, dark: Option<seq<Declaration>>)

  /** The two declarations for one colour. */
  function TokenPair(name: string, c: Color, fixed: real -> string): seq<Declaration> {
    var tokenName := name + "-hsl";
    [Token(tokenName, HslToString(c, fixed)), Token(name, "hsl(var(--" + tokenName + "))")]
  }

  /** `cssToken(name, {light, dark})`. The third argument of the source
      (`gamut`) is not read, so it is not a parameter here. */
  function CssToken(name: string, light: Color, dark: Option<Color>, fixed: real -> string): (t: TokenScheme)
    ensures |t.light| == 2
    ensures t.light[0].property == "--" + name + "-hsl" && t.light[1].property == "--" + name
    ensures t.light[0].value == Raw(HslToString(light, fixed))
    ensures t.light[1].value == Raw("hsl(var(" + t.light[0].property + "))")
    ensures !t.light[0].important && !t.light[1].important
    ensures t.dark.None? <==> dark.None?
    ensures dark.Some? ==> |t.dark.value| == 2
    ensures dark.Some? ==> t.dark.value[0] == t.light[0].(value := Raw(HslToString(dark.value, fixed)))
    ensures dark.Some? ==> t.dark.value[1] == t.light[1]
  {
    if dark.Some? then
      TokenScheme(TokenPair(name, light, fixed), Some(TokenPair(name, dark.value, fixed)))
    else
      TokenScheme(TokenPair(name, light, fixed), None)
  }

  /** The light list depends on the light colour only: supplying a dark colour
      changes nothing in it. */
  lemma LightIndependentOfDark(name: string, light: Color, dark: Option<Color>, fixed: real -> string)
    ensures CssToken(name, light, dark, fixed).light == CssToken(name, light, None, fixed).light
  {
  }

  /** Tokens of different names never declare the same property, unless one
      name is the other followed by `-hsl`. */
  lemma DistinctNamesDistinctProperties(n1: string, n2: string, c1: Color, c2: Color, fixed: real -> string)
    requires n1 != n2 && n2 != n1 + "-hsl" && n1 != n2 + "-hsl"
    ensures forall i, j :: 0 <= i < 2 && 0 <= j < 2 ==>
              CssToken(n1, c1, None, fixed).light[i].property != CssToken(n2, c2, None, fixed).light[j].property
  {
    var t1 := CssToken(n1, c1, None, fixed).light;
    var t2 := CssToken(n2, c2, None, fixed).light;
    forall i, j | 0 <= i < 2 && 0 <= j < 2
      ensures t1[i].property != t2[j].property
    {
      if i == 0 && j == 0 {
        SuffixCancels(n1, n2, "-hsl");
      } else if i == 1 && j == 1 {
        assert t1[1].property[2..] == n1 && t2[1].property[2..] == n2;
      } else if i == 0 {
        HslNameNotPlain(n1, n2);
      } else {
        HslNameNotPlain(n2, n1);
      }
    }
  }

  lemma SuffixCancels(a: string, b: string, suffix: string)
    ensures "--" + a + suffix == "--" + b + suffix ==> a == b
  {
    if "--" + a + suffix == "--" + b + suffix {
      var x := "--" + a + suffix;
      assert |a| == |b|;
      assert a == x[2..2 + |a|];
    }
  }

  /** The `-hsl` property of one name is the plain property of another name
      exactly when that name is the first followed by `-hsl`. */
  lemma HslNameNotPlain(a: string, b: string)
    ensures "--" + a + "-hsl" == "--" + b <==> b == a + "-hsl"
  {
    if "--" + a + "-hsl" == "--" + b {
      assert b == ("--" + b)[2..] == ("--" + a + "-hsl")[2..];
    }
  }
}
