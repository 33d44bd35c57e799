# RadioColorSystem colour engine in Dafny

A model of the colour engine of RadioColorSystem, a small TypeScript library
that turns a base colour into a CSS colour system: stepped light and dark
palettes, readable text colours for every step, custom-property tokens, and
class and attribute rules, serialised into one style sheet.

The model covers:

- `colorRange`, in module `Ranges`. It walks background-to-foreground bands,
  steps the HSL channels, and eases each channel through the fixed cubic
  `interpolateValue`. The defaults are the identity curves.
- The colour conversions `hslToRgb`, `hslToHex`, `hexToHsl`, `hexToRgb`,
  `rgbToHsl` and `colorToHsl`, in module `Conversions`. The `parseInt`,
  `toString(16)`, `padStart` and string-splitting primitives they use are in
  `Digits` and `Strings`.
- The default band generators `variants.dark` and `variants.light`, the WCAG
  contrast ratio and relative luminance, and `getTextColor` with its
  `findClosest`, in module `Helpers`.
- The harmony fan-out `setHarmonies` and its offset table, in module
  `Harmonies`. The callback is modelled as the returned list of the argument
  lists it receives.
- The css-tree builders, in module `CssTree`: selector classification and
  normalisation, `tree.token`, the light and dark scheme rules, and
  `tree.selector`.
- The token emitter `cssToken` and its `hslToString`, in module `Tokens`.
- The `radioColor` closure, in module `Palette`. Every operation is a pure
  function from the accumulators before to the accumulators after: `setColors`,
  `setTokens`, `setAttributes`, `setClasses`, `setDefaults`, `stylesheet`,
  `clearStyles` and `setTarget`. The class `Closure.RadioColor` holds the
  accumulators in `seq` fields, as the closure does, and has one method per
  operation the closure returns.

JavaScript numbers are Dafny `real`s.

- `Math.round` is `floor(x + 1/2)` (`JsNumber.Round`).
- The `%` operator is the truncating remainder (`JsNumber.Rem`).
- A `NaN`, `null` or `undefined` result is `Option.None`.
- An exception thrown by `setColors` is `Palette.Outcome.Threw`. It carries
  the mutations made before the throw.

Three operations the library calls are parameters of the model:

- the power segment of the luminance curve, `Math.pow(x, 2.4)`, is `gamma`;
- the two-decimal formatter `toFixed(2)` is `fixed`;
- css-tree's `generate` is `generate`.

## Model

| member | source | states |
|---|---|---|
| JsNumber.Round | src/lib/package/utils/helpers/color.ts:43-45 | `Math.round(x)` is the integer n with n - 1/2 <= x < n + 1/2 (halves go up) |
| JsNumber.Rem | src/lib/package/utils/helpers/color.ts:58 | `x % m` has the sign of x, magnitude below m, an integral quotient, and is x itself when abs(x) < m |
| Digits.NatToDecimal | src/lib/package/index.ts:79-80 | a number written in a template literal is a non-empty string of decimal digits whose value is the number |
| Digits.DecimalRoundTrip | src/lib/package/index.ts:79-80 | `parseInt(_, 10)` reads the written number back exactly |
| Digits.ParseAllDigits | src/lib/package/utils/helpers/color.ts:186-188 | `parseInt` of a non-empty all-digit string is the string's value in that radix |
| Digits.ParseHexPair | src/lib/package/utils/helpers/color.ts:130-136 | `parseInt(a + b, 16)` of two hex digits, in either case, is 16 a + b |
| Digits.ParseIntReads | src/lib/package/utils/helpers/color.ts:186-188 | `parseInt(s, radix)` skips one sign and, in base 16, a `0x`/`0X` prefix; it is a number exactly when a digit follows, and then the value of the longest digit prefix, negated after a minus |
| Digits.ParseHexPrefix | src/lib/package/utils/helpers/color.ts:186-188 | in base 16, `0x` followed by nothing or by a non-digit reads `NaN`, and `0x1f` reads 31 |
| Digits.PadStart2 | src/lib/package/utils/helpers/color.ts:99 | `padStart(2, '0')` leaves strings of length 2 or more alone and left-fills shorter ones with zeros to length 2 |
| Digits.HexPairRoundTrip | src/lib/package/utils/helpers/color.ts:97-105 | for 0..255, `toString(16).padStart(2, '0')` is two lower-case hex digits that `parseInt(_, 16)` reads back to the channel |
| Strings.RemoveAll | src/lib/package/utils/helpers/color.ts:231 | `replace(/ /g, '')` leaves no occurrence, never lengthens, and changes nothing when there is none |
| Strings.RemoveAllCounts | src/lib/package/utils/helpers/color.ts:231 | `replace(/ /g, '')` removes every occurrence of the character and keeps every other character as often as it occurred |
| Strings.RemoveFirst | src/lib/package/utils/helpers/color.ts:233-234 | `replace(c, '')` with a one-character string pattern makes the string one shorter when c occurs and changes nothing otherwise |
| Strings.RemoveFirstSplice | src/lib/package/utils/helpers/color.ts:233-234 | `replace(c, '')` removes exactly the first occurrence: the string before it followed by the string after it |
| Strings.Split | src/lib/package/utils/helpers/color.ts:235 | `split(',')` gives at least one piece and no piece contains the separator |
| Strings.SplitJoin | src/lib/package/utils/helpers/color.ts:235 | joining the pieces of `split` with the separator gives the string back |
| Strings.SplitAppend | src/lib/package/utils/helpers/color.ts:235 | splitting `a + c + b` when a has no c gives a followed by the pieces of b |
| Conversions.HslToRgb | src/lib/package/utils/helpers/color.ts:13-47 | with saturation 0 all three channels are round(l * 255 / 100); for h in [0, 360] the channels are exactly the ones `hslToHex` computes with its own sector formula (`c`, `x`, `m`), so the two conversions agree |
| Conversions.HslToRgbInRange | src/lib/package/utils/helpers/color.ts:13-47 | for h in [0, 360] and s, l in [0, 100] every channel is in 0..255 |
| Conversions.HslToRgbFixtures | src/lib/package/utils/helpers/color.test.ts:11-51 | black, white and the six primaries and secondaries map to their pure channels |
| Conversions.HslToHex | src/lib/package/utils/helpers/color.ts:56-108 | the result starts with `#` and has at least six characters after it |
| Conversions.HexChannelsInRange | src/lib/package/utils/helpers/color.ts:63-105 | for s, l in [0, 100] and any hue the three rounded channels are in 0..255 |
| Conversions.ChannelsToHexRoundTrip | src/lib/package/utils/helpers/color.ts:96-107 | channels in 0..255 are written as `#` and six lower-case hex digits, a valid hex colour that `hexToHsl`'s parser and `hexToRgb` read back to the same channels |
| Conversions.HslToHexRoundTrip | src/lib/package/utils/helpers/color.ts:56-108 | for s, l in [0, 100] the output is a seven-character hex colour whose channels, read back by `hexToRgb`, are the computed channels |
| Conversions.HslToHexPrimaries | src/lib/package/utils/helpers/color.test.ts:53-65 | hues 0, 120, 240 at full saturation and half lightness give `#ff0000`, `#00ff00`, `#0000ff` |
| Conversions.HslToHexGreys | src/lib/package/utils/helpers/color.test.ts:66-73 | lightness 100 and 0 without saturation give `#ffffff` and `#000000` |
| Conversions.HslToHexPaleBlue | src/lib/package/utils/helpers/color.test.ts:74-77 | (198, 46, 77) gives `#a9cfdf` |
| Conversions.HexToHsl | src/lib/package/utils/helpers/color.ts:117-123 | the result is non-null exactly when the input is `#` followed by three or six hex digits of either case |
| Conversions.ShortFormDoubles | src/lib/package/utils/helpers/color.ts:129-137 | `#abc` converts exactly like `#aabbcc` |
| Conversions.HexToHslRange | src/lib/package/utils/helpers/color.ts:161-177 | on valid input h is an integer in [0, 360) and s, l are integers in [0, 100] |
| Conversions.HexToHslFixtures | src/lib/package/utils/helpers/color.test.ts:79-102 | black, white and the three primaries convert to their test values, and `#GGGGGG` gives null |
| Conversions.HexToRgb | src/lib/package/utils/helpers/color.ts:185-191 | on `#rrggbb` the readings are the base-16 values of characters 1-2, 3-4 and 5-6 |
| Conversions.HexToRgbAgreesWithHexToHsl | src/lib/package/utils/helpers/color.ts:185-191 | on a six-digit hex colour `hexToRgb` reads the same channels as `hexToHsl` |
| Conversions.HexToRgbFixtures | src/lib/package/utils/helpers/color.test.ts:126-137 | `#C0C0C0`, `#123456` and `#abcdef` read as their test triples |
| Conversions.HexToRgbPrefixed | src/lib/package/utils/helpers/color.ts:185-191 | without a check of the input, `#0x1f00` reads `NaN`, 31 and 0: the first pair is taken as the base-16 prefix |
| Conversions.RgbToHslAsWritten | src/lib/package/utils/helpers/color.ts:202-221 | as written, for channels in 0..255: h in [0, 360), l in [0, 100] and s not negative (the upper bound comes from `WrittenVersusIntended`) |
| Conversions.RgbToHsl | src/lib/package/utils/helpers/color.ts:202-221 | corrected, for channels in 0..255: h in [0, 360) and s, l in [0, 100] |
| Conversions.RgbToHslRange | src/lib/package/utils/helpers/color.ts:202-221 | for channels in 0..255 both the conversion as written and the corrected one give h in [0, 360) and s, l in [0, 100] |
| Conversions.RgbToHslGrey | src/lib/package/utils/helpers/color.ts:206-219 | r = g = b = v gives (0, 0, 100 v / 255), as written and corrected |
| Conversions.RgbToHslAgreesWithHexToHsl | src/lib/package/utils/helpers/color.ts:202-221 | the corrected conversion has its hue in [0, 360) and, once rounded, the saturation and lightness `hexToHsl` gives for the same channels |
| Conversions.WrittenVersusIntended | src/lib/package/utils/helpers/color.ts:218 | the conversion as written agrees with the corrected one in hue and lightness, never exceeds its saturation, and differs exactly when the colour is chromatic, max > 1/2 and max + min < 1 |
| Conversions.RgbToHslCounterexample | src/lib/package/utils/helpers/color.ts:218 | for (204, 0, 0) the conversion as written gives saturation 200/3 where the corrected one and `hexToHsl` give 100 |
| Conversions.RedRgbToHsl | src/lib/package/utils/helpers/color.test.ts:140-146 | (255, 0, 0) converts to (0, 100, 50), as written and corrected |
| Conversions.ParseRgbText | src/lib/package/utils/helpers/color.ts:230-236 | a successful parse of an `rgb(...)` string has every channel in 0..255 |
| Conversions.ParseRgbTextRoundTrip | src/lib/package/utils/helpers/color.ts:229-237 | `rgb(r, g, b)` written with decimal channels in 0..255 parses back to those channels |
| Conversions.ColorToHsl | src/lib/package/utils/helpers/color.ts:228-250 | as written: the result is absent exactly for an `rgb` string whose first three pieces are not whole numbers in 0..255; a string starting with neither `rgb` nor `#`, and any non-string non-object value, gives black; an HSL object with no negative channel is returned as is, any other black |
| Conversions.ColorToHslCorrected | src/lib/package/utils/helpers/color.ts:228-250 | the conversion the palette uses: absent for the same inputs as `colorToHsl`, and equal to it except on `rgb(...)` strings |
| Conversions.ColorToHslCorrection | src/lib/package/utils/helpers/color.ts:218 | the two conversions agree on absence, hue and lightness; the saturation as written is never larger, and they differ exactly on `rgb(...)` input with max != min, max > 1/2 and max + min < 1 |
| Conversions.ColorToHslHex | src/lib/package/utils/helpers/color.ts:238-239 | a `#` string converts through `hexToHsl`, or to black when that gives null |
| Conversions.ColorToHslRgb | src/lib/package/utils/helpers/color.ts:229-237 | `rgb(r, g, b)` with decimal channels in 0..255 converts to `rgbToHsl(r, g, b)` as written, and to the corrected `rgbToHsl` in the corrected conversion |
| Conversions.ColorToHslRange | src/lib/package/utils/helpers/color.ts:228-250 | every converted string or non-object value gives h in [0, 360) and s, l in [0, 100], as written and corrected |
| Conversions.ColorToHslFixtures | src/lib/package/utils/helpers/color.test.ts:183-203 | `rgb(255, 0, 0)` gives (0, 100, 50) and `#invalid-color` gives black |
| Ranges.Interpolate | src/lib/package/utils/range/index.ts:24-32 | at or below the first point's x the result is `start`, whatever the curve; otherwise at or above the last point's x it is `end` |
| Ranges.Scan | src/lib/package/utils/range/index.ts:33-36 | the segment scan stops inside the point list at the first k with x_k < value <= x_(k+1) |
| Ranges.SegmentUnique | src/lib/package/utils/range/index.ts:33-36 | there is only one segment the scan can stop at |
| Ranges.InterpolateInterior | src/lib/package/utils/range/index.ts:33-44 | for an interior value the segment found brackets it, t = (value - x0) / (x3 - x0) lies in (0, 1], and the result is the cubic a t^3 + b t^2 + c t + d with y1, y2 taken from the first and last points |
| Ranges.InterpolateAtSegmentEnd | src/lib/package/utils/range/index.ts:37-44 | at the right end of an interior segment (t = 1) the curve gives the last point's y |
| Ranges.IdentityCurve | src/lib/package/utils/range/index.ts:24-45 | the two-point curve from (0, 0) to (top, top) is the identity inside [0, top] and clamps outside it |
| Ranges.DefaultCurvesAreClamps | src/lib/package/utils/range/index.ts:55-78 | the default hue curve clamps to [0, 360] and the default saturation and lightness curves clamp to [0, 100], leaving values inside unchanged |
| Ranges.InterpolateFixtures | src/lib/package/utils/range/index.test.ts:82-122 | the test curves give 56.25, 35.68 and 50 inside and `start`, `end` outside |
| Ranges.ColorRangeLoop | src/lib/package/utils/range/index.ts:47-102 | the nested loops, inner one starting at the band index, compute the band-by-band concatenation |
| Ranges.ColorRange | src/lib/package/utils/range/index.ts:47-102 | the output has, for each band j, max(0, count_j - j) + 1 colours |
| Ranges.ColorRangeLength | src/lib/package/utils/range/index.ts:47-102 | the output length is the sum over bands j of max(0, count_j - j) + 1 |
| Ranges.BandPlacement | src/lib/package/utils/range/index.ts:47-102 | band j's contribution sits, in order, right after the entries of all earlier bands |
| Ranges.BandElement | src/lib/package/utils/range/index.ts:85-99 | entry k of band j's contribution is sample j + k while samples remain, then the foreground unchanged |
| Ranges.OutputGrows | src/lib/package/utils/range/index.ts:47-102 | processing more bands never shortens the output |
| RangeSamples.FiveStepFixture | src/lib/package/utils/range/index.test.ts:4-50 | five steps from hue 120 to 240 at s = l = 50 give hues 120, 144, 168, 192, 216, 240 with s and l kept |
| RangeSamples.SingleBand | src/lib/package/utils/range/index.ts:47-102 | a one-band list gives the band's samples 0 .. count - 1 and then its foreground |
| RangeSamples.PlainSample | src/lib/package/utils/range/index.ts:81-94 | with the default curves a sample is the linear step of each channel clamped to its domain |
| RangeSamples.FixtureSample | src/lib/package/utils/range/index.ts:81-94 | sample i of the test band has hue 120 + 24 i |
| Helpers.DarkVariant | src/lib/package/utils/helpers/index.ts:24-37 | two count-5 bands with the default curves, band 1 starting where band 0 ends; every end point keeps the base hue and saturation, and for l in [0, 100] the lightness falls strictly from end point to end point |
| Helpers.LightVariant | src/lib/package/utils/helpers/index.ts:44-65 | two count-5 bands with the default curves meeting at the base colour, starting black with a saturation that is never positive and ending at lightness 100; for l in [0, 100] the lightness rises |
| Helpers.VariantFixtures | src/lib/package/utils/helpers/index.test.ts:13-43 | the base (120, 75, 50) gives dark lightnesses 40, 20, 2 and light end points (120, 0, 0) and (120, 75, 100) |
| Helpers.VariantLength | src/lib/package/utils/helpers/index.ts:24-65 | each default variant expands to 6 + 5 = 11 colours |
| Helpers.DefaultVariantsExpand | src/lib/package/utils/helpers/index.ts:24-65 | the default variants always expand without error, to 11 colours each |
| Helpers.RelativeLuminance | src/lib/package/utils/helpers/index.ts:96-107 | the luminance is a number exactly when all three channels are |
| Helpers.LuminanceNonNegative | src/lib/package/utils/helpers/index.ts:96-107 | non-negative channels give a non-negative luminance when the power segment is non-negative |
| Helpers.BlackLuminance | src/lib/package/utils/helpers/index.ts:96-107 | black has luminance 0, through the linear segment |
| Helpers.WhiteAgainstBlack | src/lib/package/utils/helpers/index.ts:85 | with the power segment fixing 1, white has luminance 1 and the ratio of 1 to 0 is 21 |
| Helpers.ContrastRatio | src/lib/package/utils/helpers/index.ts:75-88 | the ratio of two hex colours is a number only when both luminances are |
| Helpers.ContrastSymmetric | src/lib/package/utils/helpers/index.ts:75-88 | the contrast ratio does not depend on the order of its arguments |
| Helpers.ContrastAtLeastOne | src/lib/package/utils/helpers/index.ts:85 | (max + 0.05) / (min + 0.05) is at least 1 for non-negative luminances, and 1 exactly when they are equal |
| Helpers.Qualifying | src/lib/package/utils/helpers/index.ts:129-142 | the list a threshold collects holds exactly the lightnesses 0..99 whose ratio is above the threshold, in increasing order |
| Helpers.QualifyingEmpty | src/lib/package/utils/helpers/index.ts:129-142 | when no lightness passes, the list is empty |
| Helpers.ClosestIndex | src/lib/package/utils/helpers/index.ts:121-127 | the reduce keeps an element minimising the distance, and the earliest of the minimal ones |
| Helpers.FindClosest | src/lib/package/utils/helpers/index.ts:121-127 | the result is an element of the array no farther from the value than any other element |
| Helpers.FindClosestIsClosest | src/lib/package/utils/helpers/index.ts:121-127 | on an increasing list the chosen value is in the list, no farther than any element, and the smaller one on a tie |
| Helpers.Candidates | src/lib/package/utils/helpers/index.ts:144-156 | the list chosen from holds increasing lightnesses in 0..99 with a ratio above 4.5 |
| Helpers.CandidatesThreshold | src/lib/package/utils/helpers/index.ts:144-156 | the chosen list is the above-7.5 list when that is non-empty and the above-4.5 list otherwise |
| Helpers.ChooseLightness | src/lib/package/utils/helpers/index.ts:144-156 | no colour exactly when no lightness passes 4.5; otherwise hue and saturation kept and an integer lightness in 0..99 |
| Helpers.ChooseLightnessClosest | src/lib/package/utils/helpers/index.ts:121-156 | the chosen lightness is a candidate at least as close to the input lightness as any candidate, the smaller on a tie |
| Helpers.TextColor | src/lib/package/utils/helpers/index.ts:115-157 | `getTextColor` fails exactly when no lightness reaches a ratio above 4.5, and otherwise keeps h and s with an integer lightness in 0..99 |
| Helpers.TextColorLoop | src/lib/package/utils/helpers/index.ts:129-156 | the loop as written, pushing into both lists, computes the same choice |
| Harmonies.Offsets | src/lib/package/utils/harmony/index.ts:8-15 | every table entry has at least two offsets, each in [0, 360) |
| Harmonies.EvenCursor | src/lib/package/utils/harmony/index.ts:34-36 | the fallback cursor has one offset per name, each in [0, 360) |
| Harmonies.EvenShare | src/lib/package/utils/harmony/index.ts:36 | i * 360 / n is in [0, 360) for i < n |
| Harmonies.Cursor | src/lib/package/utils/harmony/index.ts:34-44 | the cursor used has at least one offset per name, each in [0, 360) |
| Harmonies.CursorChoice | src/lib/package/utils/harmony/index.ts:38-43 | the table's offsets exactly when a harmony is given and has at least N entries, the even spread otherwise; the warning is issued exactly in the fallback with a harmony |
| Harmonies.SetHarmonies | src/lib/package/utils/harmony/index.ts:26-60 | no call for a name that is not an array; N calls for N names, each with a one-element list |
| Harmonies.SetHarmoniesLoop | src/lib/package/utils/harmony/index.ts:46-58 | the loop as written makes exactly those calls, in order |
| Harmonies.Rotate | src/lib/package/utils/harmony/index.ts:52 | the rotated hue differs from h + offset by whole turns and lies in [0, 360) when h + offset is not negative; s and l are kept |
| Harmonies.FannedConfiguration | src/lib/package/utils/harmony/index.ts:47-56 | call i carries name i and colour ((h + cursor[i]) % 360, s, l); every other field is copied unchanged |
| Harmonies.RotatedHueRange | src/lib/package/utils/harmony/index.ts:52 | for a base hue in [0, 360) each output hue is the rotated hue, less 360 when it passes 360, and lies in [0, 360) |
| Harmonies.HueNonNegative | src/lib/package/utils/harmony/index.ts:52 | a non-negative base hue gives output hues in [0, 360) |
| Harmonies.AnalogousThree | src/lib/package/utils/harmony/index.test.ts:32-38 | three analogous names from hue 0 get hues 0, 30, 60 and keep their names |
| Harmonies.AnalogousOverflow | src/lib/package/utils/harmony/index.test.ts:64-113 | 22 analogous names warn, still make 22 calls, and get the even hues i * 360 / 22, all below 360 |
| CssTree.GetSelectorType | src/lib/package/utils/tree/index.ts:16-29 | `#`, `.` and `[` give the id, class and attribute types; any other first character, or the empty string, gives the pseudo-class type |
| CssTree.NormalizeSelector | src/lib/package/utils/tree/index.ts:36-47 | one leading `:`, `#` or `.` is dropped; for `[` the first and last characters are dropped (a lone `[` gives the empty string); anything else is unchanged |
| CssTree.ClassifyPrefixed | src/lib/package/utils/tree/index.ts:16-47 | classifying and normalising a selector written with its type's prefix gives back the type and the name |
| CssTree.PrefixedClassified | src/lib/package/utils/tree/index.ts:16-47 | conversely, a selector with a recognised prefix (and closing `]`) is its type's prefix around its normalised name |
| CssTree.SelectorExamples | src/lib/package/utils/tree/index.test.ts:5-50 | the documented examples `:hover`, `#my-id`, `.my-class`, `[data-foo]`, `my-selector` |
| CssTree.Token | src/lib/package/utils/tree/index.ts:56-66 | the declaration has property `--` + token, is not important, and has the raw value |
| CssTree.TokenInjective | src/lib/package/utils/tree/index.ts:56-66 | two token declarations are equal exactly when names and values are |
| CssTree.SchemeLight | src/lib/package/utils/tree/index.ts:75-96 | a rule whose block is exactly the tokens under the target's type and normalised name |
| CssTree.SchemeDark | src/lib/package/utils/tree/index.ts:103-156 | `@media (prefers-color-scheme: dark)` around one rule whose block is exactly the tokens |
| CssTree.SchemesShareRule | src/lib/package/utils/tree/index.ts:75-156 | the dark scheme wraps exactly the rule the light scheme builds |
| CssTree.Selector | src/lib/package/utils/tree/index.ts:169-230 | a rule with the given selector type and name whose one declaration sets the property to `var(--` + name `)`, the string or the object's `name` |
| CssTree.SelectorUsesToken | src/lib/package/utils/tree/index.ts:169-230 | the variable a selector rule reads is the property the token of the same name declares |
| Tokens.HslToString | src/lib/package/utils/token/index.ts:25-28 | when the formatter writes no spaces, `H S% L%` splits at its spaces back into the three formatted channels |
| Tokens.CssToken | src/lib/package/utils/token/index.ts:19-45 | light is two declarations, `--<name>-hsl` with the colour's channels then `--<name>` with `hsl(var(--<name>-hsl))`; dark is null exactly when no dark colour is given, and otherwise has the same names and usage value with the dark colour's channels |
| Tokens.LightIndependentOfDark | src/lib/package/utils/token/index.ts:34-44 | the light declarations do not depend on the dark colour |
| Tokens.DistinctNamesDistinctProperties | src/lib/package/utils/token/index.ts:30-42 | tokens of different names declare disjoint properties unless one name is the other followed by `-hsl` |
| Tokens.HslNameNotPlain | src/lib/package/utils/token/index.ts:31-32 | the `-hsl` property of one name is another name's plain property exactly when that name ends the first with `-hsl` |
| Palette.StepNamesReadBack | src/lib/package/index.ts:78-81 | the step's background name is the head, the decimal digits of 10 i, and the suffix; `parseInt` of the middle gives 10 i back |
| Palette.StepNamesDistinct | src/lib/package/index.ts:78-81 | different steps never share a background or text name, and a step's two names differ |
| Palette.LastDefaultStepNames | src/lib/package/index.ts:52-81 | with the default prefix, name and suffix the last of 11 steps is named `primary-100` and `primary-font-100` |
| Palette.ResolveDefaults | src/lib/package/index.ts:52-66 | options with only a colour resolve to prefix '', name 'primary', suffix '', dark and font tokens, both rule lists and the default variants; a given field wins over its default |
| Palette.SetTokens | src/lib/package/index.ts:116-170 | only the token lists change, both by appending; light grows by 2 (4 with font), dark by the same only with a dark colour; the call throws exactly when font is on and `getTextColor` fails for a colour |
| Palette.SetTokensContents | src/lib/package/index.ts:116-170 | the appended declarations are the background token of the light (dark) colour, then with font the text token of its `getTextColor` |
| Palette.TextTokensReadable | src/lib/package/index.ts:145-169 | with the library's `getTextColor` the text token has the background's hue and saturation and a lightness in 0..99, and the call throws exactly when a background colour has no lightness above ratio 4.5 |
| Palette.SetAttributes | src/lib/package/index.ts:179-209 | only the attribute list changes, by appending 0 rules when off, else 1 (2 with font) |
| Palette.SetClasses | src/lib/package/index.ts:218-232 | only the class list changes, by appending 0 rules when off, else 1 (2 with font) |
| Palette.RulesUseTokens | src/lib/package/index.ts:179-232 | each appended rule reads the usage property of the token of the same name |
| Palette.KeepsTrans | src/lib/package/index.ts:74-91 | growing by appending without touching disabled lists composes across steps |
| Palette.StepWithCounts | src/lib/package/index.ts:83-90 | the loop body only appends, leaves disabled lists alone, and on completion adds 2 (4 with font) tokens to the light list, the same to the dark list when there is a dark colour, and the per-step rules to each enabled list |
| Palette.StepWithStyles | src/lib/package/index.ts:83-90 | the loop body does not read the styles: from states differing only in styles it ends alike |
| Palette.RunKeeps | src/lib/package/index.ts:74-91 | if no step loses anything or touches a disabled list, neither does a run of steps, whether it completes or throws |
| Palette.RunGrows | src/lib/package/index.ts:74-91 | if every completed step grows a list by c, k completed steps grow it by k times c |
| Palette.RunStyles | src/lib/package/index.ts:74-91 | if no step reads the styles, no run of steps does |
| Palette.ColorStepCounts | src/lib/package/index.ts:74-91 | one step only appends, leaves disabled lists alone, and on completion adds the per-step counts of tokens and rules |
| Palette.RunStepsExtends | src/lib/package/index.ts:74-91 | over k steps, completed or thrown, every list keeps its old contents as a prefix and disabled lists are unchanged |
| Palette.RunStepsCounts | src/lib/package/index.ts:74-91 | k completed steps add k times the per-step counts, on the dark list while the dark range lasts |
| Palette.OptionsCounts | src/lib/package/index.ts:66-91 | an option with n light colours adds n steps' worth of tokens and rules when it completes |
| Palette.Sheet | src/lib/package/index.ts:94-107 | the serialised nodes are the light scheme, the dark scheme, the class rules, then the attribute rules |
| Palette.ApplyOptions | src/lib/package/index.ts:66-91 | one option only appends to the token and rule lists, whether it completes or throws, keeps styles and target, and with dark tokens off leaves the dark list alone |
| Palette.DarkOffKeepsDark | src/lib/package/index.ts:57-84 | with `dark: false` the dark list is unchanged |
| Palette.DefaultOptionsElevenSteps | src/lib/package/index.ts:51-92 | default options make 11 steps: 44 light and 44 dark declarations and 22 rules in each list |
| Palette.SetColors | src/lib/package/index.ts:51-108 | `setColors` never clears an accumulator and keeps the target, whether it completes or throws; on completion the styles are the serialisation of everything accumulated so far |
| Palette.SetDefaults | src/lib/package/index.ts:237-243 | the state is the initial one except for the styles |
| Palette.Stylesheet | src/lib/package/index.ts:249-252 | returns the last styles and leaves the initial state with those styles |
| Palette.StylesheetForgets | src/lib/package/index.ts:237-252 | after `stylesheet()` a completed `setColors` does not depend on anything accumulated before |
| Palette.RunStepsStyles | src/lib/package/index.ts:74-91 | the steps of one option end alike from states that differ only in styles |
| Palette.StylesOverwritten | src/lib/package/index.ts:51-108 | `setColors` does not read the styles: states differing only in styles end equal when it completes |
| Palette.ClearStyles | src/lib/package/index.ts:254-256 | the next `stylesheet()` returns the empty string, and nothing but the styles changes |
| Palette.ClearStylesForgotten | src/lib/package/index.ts:254-256 | clearing the styles changes nothing a following completed `setColors` computes |
| Palette.StylesUseTarget | src/lib/package/index.ts:94-107 | after `setTarget(t)`, the light-scheme rule a completed `setColors` serialises sits under the selector classified and normalised from t |

## Left out

- `build/index.mjs` is a generated bundle of the Svelte runtime with stale copies of the utilities. It is not modelled.
- `src/lib/package/utils/image` reads pixels from the DOM and a canvas asynchronously. This is I/O and is not modelled.
- `src/lib/utils/token/index.ts` is an older emitter that the package entry does not import. It is not modelled.
- The type-only files and `rollup.config.mjs` have no behaviour.
- Numbers are exact reals. The model claims agreement with IEEE-754 doubles only up to exact rational arithmetic. Overflow, infinities and `-0` are not modelled.
- `Math.pow(x, 2.4)` in the luminance is the parameter `gamma`. Facts that depend on its values are stated for any `gamma` or under a stated condition on it (`WhiteAgainstBlack`, `LuminanceNonNegative`). The library's fixed-lightness `getTextColor` examples depend on it and are not stated.
- `toFixed(2)` is the parameter `fixed`, and css-tree's `generate` is the parameter `generate`. The model states what they receive, not what they return.
- Conversions.ColorToHsl: the `rgb(...)` branch is followed only when the first three pieces read (with `parseInt`, leniently) as whole numbers in 0..255, the range `rgbToHsl` documents at color.ts:196. Otherwise the result is `None`. That covers pieces that read as `NaN`, where the source computes with `NaN`, and finite numbers out of range such as `rgb(256, 0, 0)`, where the source computes with them; neither computation is modelled.
- Palette.ApplyOptions: requires that the colour converts (`ColorToHslCorrected(o.color).Some?`), so an `rgb(...)` colour with a piece that is `NaN` or outside 0..255 is excluded, as above. The same requirement is on `ApplyAll`, `SetColors`, the class method and the lemmas about them.
- Palette.SetColors: converts `rgb(...)` colours with the corrected saturation (`ColorToHslCorrected`), not with line 218 as written, following the correction under Findings. For an `rgb(...)` colour whose largest channel is above one half and whose lightness is below one half, the palette's steps therefore differ from the source's; `Conversions.ColorToHslCorrection` states exactly where the two conversions differ and that only the saturation changes. `#` colours and HSL objects are converted exactly as in the source.
- Digits.ParseInt: leading white space other than the spaces `colorToHsl` removes first is not skipped, and a radix other than 10 and 16 is not modelled; the library calls `parseInt` with 10 and 16 only.
- Conversions.ColorToHsl: the range facts are stated for string inputs only (`ColorToHslRange`). An HSL object with non-negative channels is passed through unchanged with no upper bound, as in the source.
- Helpers.ContrastRatio: gives `None` when a luminance is `NaN`. It also gives `None` when min + 0.05 is not positive, which only a negative `gamma` can cause and where the source divides by zero or a negative.
- Helpers.TextColor: `getTextColor` throws (`reduce` of an empty list) when no lightness passes 4.5. The model returns `None`, and `SetTokens` turns that into `Threw` after the background token is appended.
- `console.warn` in `setHarmonies` is the predicate `Harmonies.Warns`. No output is modelled.
- `setColors` does not call `setHarmonies`: `ColorOptions.name` is a single string there. The model follows the code, and `SetHarmonies` stands alone.
- `cssToken` takes a third argument that it never reads, so the model omits it. `setTokens` forwards `gamut` into that argument, which is therefore unmodelled too.
- `src/lib/package/utils/token/index.test.ts` exercises a different emitter API (a `-token` suffix, colour spaces). The model follows `token/index.ts`, which names the raw property `<name>-hsl`.
- A band `count` that is not an integer is not modelled. `Range.count` is an `int`.
- The `type` of a `tree.selector` node is a free string, as in the source. The orchestrator passes `AttributeSelector` or `ClassSelector`.
- The methods of `Closure.RadioColor` state their effect through `old` and `modifies`. Their logic is the pure functions above, on which the properties are proved.

## Findings

| source | as written | input that shows it | evidently intended | confidence | as-written member | corrected member |
|---|---|---|---|---|---|---|
| src/lib/package/utils/helpers/color.ts:218 | `rgbToHsl` picks the saturation formula by testing `l <= 0.5`, but `l` holds the maximum channel there, not the lightness `(max + min) / 2` | `rgbToHsl(204, 0, 0)` gives saturation 66.67 where the standard formula and `hexToHsl("#cc0000")` give 100 | branch on the lightness `(2 l - s) / 2 <= 0.5`, which makes `rgbToHsl` agree with `hexToHsl` after rounding | not executed | Conversions.RgbToHslAsWritten (exhibited by Conversions.RgbToHslCounterexample and Conversions.WrittenVersusIntended) | Conversions.RgbToHsl (Conversions.RgbToHslAgreesWithHexToHsl), used by the palette through Conversions.ColorToHslCorrected |
