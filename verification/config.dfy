/** The configuration records callers hand to the library: a colour
    configuration for the harmony fan-out and the colour options `setColors`
    reads. Every optional field is an `Option`; `None` is an absent key. */
module Configurations {
  import opened Options
  import opened ColorTypes

  /** The harmony kinds the `harmonies` table knows. */
  datatype Harmony = Triadic | Complementary | SplitComplementary | Tetradic | Square | Analogous

  /** The `name` field of a colour configuration: absent, one string, or an
      array of strings. */
  datatype Name = Unnamed | Single(text: string) | Names(names: seq<string>)

  /** `selector: {attribute?, class?}`: which rule lists `setColors` fills. */
  datatype SelectorFlags = SelectorFlags(attribute: Option<bool>, className: Option<bool>)

  /** A band generator such as `variants.dark`: a base colour to its bands. */
  type Variant = Color -> seq<Range>

  /** `theme: {darken?, lighten?}`. */
  datatype Theme = Theme(darken: Option<Variant>, lighten: Option<Variant>)

  /** A colour configuration, the record `setHarmonies` copies. */
  datatype Configuration = Configuration(
    color: ColorInput,
    prefix: Option<string>,
    name: Name,
    suffix: Option<string>,
    dark: Option<bool>,
    font: Option<bool>,
    selector: Option<SelectorFlags>,
    theme: Option<Theme>,
    gamut: Option<string>,
    harmony: Option<Harmony>)

  /** The colour options `setColors` walks; `name` is a single string here. */
  datatype ColorOptions = ColorOptions(
    color: ColorInput,
    prefix: Option<string>,
    name: Option<string>,
    suffix: Option<string>,
    dark: Option<bool>,
    font: Option<bool>,
    selector: Option<SelectorFlags>,
    theme: Option<Theme>,
    gamut: Option<string>)
}
