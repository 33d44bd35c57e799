/** The CSS tree builders: selector classification and prefix stripping, and
    the declaration and rule nodes the library hands to the css-tree
    serialiser, reduced to the fields the library sets. */
module CssTree {

  /** The selector types `getSelectorType` can answer. */
  datatype SelectorType = PseudoClassSelector | IdSelector | ClassSelector | AttributeSelector

  /** `getSelectorType(target)`: the type named by the first character. */
  function GetSelectorType(target: string): (t: SelectorType)
    ensures t == IdSelector <==> |target| > 0 && target[0] == '#'
    ensures t == ClassSelector <==> |target| > 0 && target[0] == '.'
    ensures t == AttributeSelector <==> |target| > 0 && target[0] == '['
    ensures t == PseudoClassSelector <==> |target| == 0 || target[0] !in "#.["
  {
    if |target| == 0 then PseudoClassSelector
    else match target[0]
      case ':' => PseudoClassSelector
      case '#' => IdSelector
      case '.' => ClassSelector
      case '[' => AttributeSelector
      case _ => PseudoClassSelector
  }

  /** `normalizeSelector(target)`: drops the one-character prefix of a
      pseudo-class, id or class selector, and both brackets of an attribute
      selector (`slice(1, -1)`, which is empty for a lone `[`). */
  function NormalizeSelector(target: string): (name: string)
    ensures |target| > 0 && target[0] in ":#." ==> [target[0]] + name == target
    ensures |target| > 1 && target[0] == '[' ==> [target[0]] + name + [target[|target| - 1]] == target
    ensures target == "[" ==> name == ""
    ensures |target| == 0 || target[0] !in ":#.[" ==> name == target
  {
    if |target| == 0 then target
    else match target[0]
      case ':' => target[1..]
      case '#' => target[1..]
      case '.' => target[1..]
      case '[' => if |target| > 1 then target[1..|target| - 1] else ""
      case _ => target
  }

  /** How a selector of each type is written: the inverse of the pair
      (`GetSelectorType`, `NormalizeSelector`). */
  function Prefixed(t: SelectorType, name: string): string {
    match t
    case PseudoClassSelector => ":" + name
    case IdSelector => "#" + name
    case ClassSelector => "." + name
    case AttributeSelector => "[" + name + "]"
  }

  /** Classifying and normalising a written selector gives back its type and
      its name. */
  lemma ClassifyPrefixed(t: SelectorType, name: string)
    ensures GetSelectorType(Prefixed(t, name)) == t
    ensures NormalizeSelector(Prefixed(t, name)) == name
  {
    var s := Prefixed(t, name);
    if t == AttributeSelector {
      assert s[1..|s| - 1] == name;
    } else {
      assert s[1..] == name;
    }
  }

  /** A selector written with a recognised prefix, an attribute selector
      with its closing bracket. */
  predicate WellPrefixed(target: string) {
    && |target| > 0 && target[0] in ":#.["
    && (target[0] == '[' ==> |target| > 1 && target[|target| - 1] == ']')
  }

  /** Conversely, a selector with a recognised prefix (and, for `[`, a closing
      `]`) is its type's prefix around its normalised name. */
  lemma PrefixedClassified(target: string)
    requires WellPrefixed(target)
    ensures Prefixed(GetSelectorType(target), NormalizeSelector(target)) == target
  {
  }

  /** The examples of the selector helpers' documentation. */
  lemma SelectorExamples(target: string)
    requires target in {":hover", "#my-id", ".my-class", "[data-foo]", "my-selector"}
    ensures target == ":hover" ==> GetSelectorType(target) == PseudoClassSelector && NormalizeSelector(target) == "hover"
    ensures target == "#my-id" ==> GetSelectorType(target) == IdSelector && NormalizeSelector(target) == "my-id"
    ensures target == ".my-class" ==> GetSelectorType(target) == ClassSelector && NormalizeSelector(target) == "my-class"
    ensures target == "[data-foo]" ==> GetSelectorType(target) == AttributeSelector && NormalizeSelector(target) == "data-foo"
    ensures target == "my-selector" ==> GetSelectorType(target) == PseudoClassSelector && NormalizeSelector(target) == "my-selector"
  {
    if target == "[data-foo]" {
      assert target[1..|target| - 1] == "data-foo";
    }
  }

  /** The value of a declaration: raw text, or `var(<identifier>)`. */
  datatype Value = Raw(text: string) | VarCall(identifier: string)

  /** A `Declaration` node. */
  datatype Declaration = Declaration(important: bool, property: string, value: Value)

  /** The name `tree.selector` accepts: a string, or an object `{type, name}`. */
  datatype SelectorName = Plain(text: string) | Named(kind: string, text: string)

  /** The one selector inside a rule's selector list: the scheme rules'
      `{type, name, children: null}`, or `tree.selector`'s
      `{type, name, matcher: null, value: null, flags: null}`. */
  datatype SimpleSelector =
    | TargetSelector(targetType: SelectorType, targetName: string)
    | MatchSelector(selectorType: string, selectorName: SelectorName)

  /** A node of the style sheet: a rule with one selector and a block of
      declarations, or an at-rule `@name (feature: value)` around rules. */
  datatype Node =
    | Rule(selector: SimpleSelector, block: seq<Declaration>)
    | Atrule(name: string, feature: string, featureValue: string, rules: seq<Node>)

  /** `tree.token(token, value)`: the custom property `--token`, not
      important, with the raw value. */
  function Token(token: string, value: string): (d: Declaration)
    ensures !d.important && d.value == Raw(value)
    ensures |d.property| == |token| + 2 && d.property[..2] == "--" && d.property[2..] == token
  {
    Declaration(false, "--" + token, Raw(value))
  }

  /** Distinct names or values give distinct declarations. */
  lemma TokenInjective(t1: string, v1: string, t2: string, v2: string)
    ensures Token(t1, v1) == Token(t2, v2) <==> t1 == t2 && v1 == v2
  {
    if Token(t1, v1) == Token(t2, v2) {
      assert t1 == Token(t1, v1).property[2..];
    }
  }

  /** The selector the scheme rules put the tokens under. */
  function TargetOf(target: string): SimpleSelector {
    TargetSelector(GetSelectorType(target), NormalizeSelector(target))
  }

  /** `tree.tokens.scheme.light(tokens, target)`: one rule, the target's
      selector, the tokens as its block. */
  function SchemeLight(tokens: seq<Declaration>, target: string): (n: Node)
    ensures n.Rule? && n.block == tokens
    ensures n.selector == TargetSelector(GetSelectorType(target), NormalizeSelector(target))
  {
    Rule(TargetOf(target), tokens)
  }

  /** `tree.tokens.scheme.dark(tokens, target)`: the same rule inside
      `@media (prefers-color-scheme: dark)`. */
  function SchemeDark(tokens: seq<Declaration>, target: string): (n: Node)
    ensures n.Atrule? && n.name == "media"
    ensures n.feature == "prefers-color-scheme" && n.featureValue == "dark"
    ensures |n.rules| == 1 && n.rules[0].Rule? && n.rules[0].block == tokens
  {
    Atrule("media", "prefers-color-scheme", "dark", [Rule(TargetOf(target), tokens)])
  }

  /** The dark scheme wraps exactly the rule the light scheme builds for the
      same tokens and target. */
  lemma SchemesShareRule(tokens: seq<Declaration>, target: string)
    ensures SchemeDark(tokens, target).rules == [SchemeLight(tokens, target)]
  {
  }

  /** The name a selector refers to: the string, or the object's `name`. */
  function NameText(name: SelectorName): string {
    match name
    case Plain(text) => text
    case Named(_, text) => text
  }

  /** `tree.selector(name, property, selectorType)`: a rule whose selector is
      `name` with the given type and whose one declaration sets `property`
      to `var(--<name>)`. */
  function Selector(name: SelectorName, property: string, selectorType: string): (n: Node)
    ensures n.Rule? && n.selector == MatchSelector(selectorType, name)
    ensures |n.block| == 1 && !n.block[0].important && n.block[0].property == property
    ensures n.block[0].value.VarCall? && |n.block[0].value.identifier| >= 2
    ensures n.block[0].value.identifier[..2] == "--" && n.block[0].value.identifier[2..] == NameText(name)
  {
    Rule(MatchSelector(selectorType, name), [Declaration(false, property, VarCall("--" + NameText(name)))])
  }

  /** The declaration a selector rule makes refers to the custom property a
      token of the same name declares. */
  lemma SelectorUsesToken(name: SelectorName, property: string, selectorType: string, value: string)
    ensures Selector(name, property, selectorType).block[0].value.identifier == Token(NameText(name), value).property
  {
  }
}
