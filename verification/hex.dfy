/** Digit strings in base 16 and base 10: `Number.prototype.toString(16)`,
    `padStart(2, '0')`, `parseInt(_, radix)` and decimal interpolation of an
    integer into a template string. */
module Digits {
  import opened Options

  predicate IsHexDigit(c: char) {
    '0' <= c <= '9' || 'a' <= c <= 'f' || 'A' <= c <= 'F'
  }

  predicate IsLowerHexDigit(c: char) {
    '0' <= c <= '9' || 'a' <= c <= 'f'
  }

  predicate IsDecimalDigit(c: char) {
    '0' <= c <= '9'
  }

  /** The two radixes the library passes to `parseInt`. */
  predicate IsRadix(radix: nat) {
    radix == 10 || radix == 16
  }

  /** A digit `parseInt(_, radix)` accepts. */
  predicate IsDigit(c: char, radix: nat) {
    if radix == 16 then IsHexDigit(c) else IsDecimalDigit(c)
  }

  /** The value of one digit, letters in either case. */
  function DigitValue(c: char): (v: nat)
    requires IsHexDigit(c)
    ensures v < 16
    ensures IsDecimalDigit(c) ==> v < 10
  {
    if '0' <= c <= '9' then (c - '0') as nat
    else if 'a' <= c <= 'f' then (c - 'a') as nat + 10
    else (c - 'A') as nat + 10
  }

  /** The lower-case digit `toString(16)` writes for a value below 16. */
  function HexChar(v: nat): (c: char)
    requires v < 16
    ensures IsLowerHexDigit(c) && DigitValue(c) == v
  {
    if v < 10 then '0' + v as char else 'a' + (v - 10) as char
  }

  /** The decimal digit for a value below 10. */
  function DecimalChar(v: nat): (c: char)
    requires v < 10
    ensures IsDecimalDigit(c) && DigitValue(c) == v
  {
    '0' + v as char
  }

  /** The value of a string of digits in `radix`, most significant first. */
  function DigitsValue(s: string, radix: nat): nat
    requires IsRadix(radix)
    requires forall i :: 0 <= i < |s| ==> IsDigit(s[i], radix)
  {
    if s == [] then 0
    else
      assert IsDigit(s[|s| - 1], radix);
      radix * DigitsValue(s[..|s| - 1], radix) + DigitValue(s[|s| - 1])
  }

  /** `n.toString(16)` for a non-negative integer: no leading zeros, "0" for 0. */
  function NatToHex(n: nat): (s: string)
    ensures |s| >= 1
    ensures forall i :: 0 <= i < |s| ==> IsLowerHexDigit(s[i])
    ensures n < 16 <==> |s| == 1
    ensures 16 <= n < 256 <==> |s| == 2
  {
    if n < 16 then [HexChar(n)] else NatToHex(n / 16) + [HexChar(n % 16)]
  }

  /** `n.toString(16)` for any integer: a negative value gets a leading '-'. */
  function IntToHex(n: int): string {
    if n < 0 then "-" + NatToHex(-n) else NatToHex(n)
  }

  /** `s.padStart(2, '0')`. */
  function PadStart2(s: string): (r: string)
    ensures |s| >= 2 ==> r == s
    ensures |s| < 2 ==> |r| == 2 && r[2 - |s|..] == s
    ensures |s| < 2 ==> forall i :: 0 <= i < 2 - |s| ==> r[i] == '0'
  {
    if |s| >= 2 then s else if |s| == 1 then "0" + s else "00"
  }

  /** The two lower-case hex digits an integer channel becomes in a `#rrggbb`
      string: `Math.round(..).toString(16).padStart(2, '0')`. */
  function HexPair(n: int): string {
    PadStart2(IntToHex(n))
  }

  /** How a non-negative integer is written into a template string. */
  function NatToDecimal(n: nat): (s: string)
    ensures |s| >= 1
    ensures forall i :: 0 <= i < |s| ==> IsDecimalDigit(s[i])
    ensures DigitsValue(s, 10) == n
  {
    if n < 10 then
      var s := [DecimalChar(n)];
      assert s[..0] == [];
      s
    else
      var s := NatToDecimal(n / 10) + [DecimalChar(n % 10)];
      assert s[..|s| - 1] == NatToDecimal(n / 10);
      s
  }

  /** Length of the longest prefix of `s` made of digits of `radix`. */
  function PrefixLength(s: string, radix: nat): (k: nat)
    ensures k <= |s|
    ensures forall i :: 0 <= i < k ==> IsDigit(s[i], radix)
    ensures k < |s| ==> !IsDigit(s[k], radix)
  {
    if s == [] || !IsDigit(s[0], radix) then 0 else 1 + PrefixLength(s[1..], radix)
  }

  /** `parseInt(s, radix)`: an optional sign, in base 16 an optional `0x` or
      `0X`, then the longest run of digits; `None` stands for the `NaN`
      returned when that run is empty. */
  function ParseInt(s: string, radix: nat): Option<int>
    requires IsRadix(radix)
  {
    match ParseDigits(StripHexPrefix(Unsigned(s), radix), radix)
    case None => None
    case Some(v) => var n: int := v; Some(if IsNegative(s) then -n else n)
  }

  predicate HasSign(s: string) {
    |s| > 0 && (s[0] == '-' || s[0] == '+')
  }

  predicate IsNegative(s: string) {
    |s| > 0 && s[0] == '-'
  }

  /** The text after an optional leading sign. */
  function Unsigned(s: string): (t: string)
    ensures HasSign(s) ==> t == s[1..]
    ensures !HasSign(s) ==> t == s
  {
    if HasSign(s) then s[1..] else s
  }

  /** In base 16 a leading `0x` or `0X` is dropped before the digits are read. */
  function StripHexPrefix(s: string, radix: nat): string {
    if radix == 16 && |s| >= 2 && s[0] == '0' && (s[1] == 'x' || s[1] == 'X') then s[2..] else s
  }

  /** `parseInt` yields a number exactly when a digit follows the sign and,
      in base 16, the `0x`; the number is the value of the longest run of
      digits there, negated after a `-`. */
  lemma ParseIntReads(s: string, radix: nat)
    requires IsRadix(radix)
    ensures var body := StripHexPrefix(Unsigned(s), radix);
            var r := ParseInt(s, radix);
            && (r.Some? <==> |body| > 0 && IsDigit(body[0], radix))
            && (r.Some? ==> var n: int := DigitsValue(body[..PrefixLength(body, radix)], radix);
                            r.value == if IsNegative(s) then -n else n)
  {
  }

  function ParseDigits(s: string, radix: nat): (r: Option<nat>)
    requires IsRadix(radix)
    ensures r.Some? <==> |s| > 0 && IsDigit(s[0], radix)
  {
    var k := PrefixLength(s, radix);
    if k == 0 then None else Some(DigitsValue(s[..k], radix))
  }

  /** A string made only of digits is a prefix of itself. */
  lemma {:induction false} AllDigitsPrefix(s: string, radix: nat)
    requires forall i :: 0 <= i < |s| ==> IsDigit(s[i], radix)
    ensures PrefixLength(s, radix) == |s|
    decreases |s|
  {
    if s != [] {
      AllDigitsPrefix(s[1..], radix);
    }
  }

  /** `parseInt` of a non-empty run of digits is the value of the run. */
  lemma ParseAllDigits(s: string, radix: nat)
    requires IsRadix(radix) && |s| > 0
    requires forall i :: 0 <= i < |s| ==> IsDigit(s[i], radix)
    ensures ParseInt(s, radix) == Some(DigitsValue(s, radix))
  {
    AllDigitsPrefix(s, radix);
    assert s[..|s|] == s;
    assert IsDigit(s[0], radix);
    assert |s| >= 2 ==> IsDigit(s[1], radix);
    assert StripHexPrefix(Unsigned(s), radix) == s;
  }

  /** In base 16 a leading `0x` or `0X` is skipped: what follows must start
      with a digit, so `parseInt("0x", 16)` is `NaN` and `parseInt("0x1f", 16)`
      is 31. */
  lemma ParseHexPrefix(s: string, x: char, t: string)
    requires s == ['0', x] + t && (x == 'x' || x == 'X')
    ensures ParseInt(s, 16).Some? <==> |t| > 0 && IsHexDigit(t[0])
    ensures t == [] ==> ParseInt(s, 16) == None
    ensures t == "1f" ==> ParseInt(s, 16) == Some(31)
  {
    assert StripHexPrefix(Unsigned(s), 16) == t;
    if t == "1f" {
      ParseHexPair('1', 'f');
      assert ParseInt(t, 16) == Some(31);
      assert PrefixLength(t, 16) == 2;
    }
  }

  /** `parseInt(_, 10)` reads back what a template string writes for `n`. */
  lemma DecimalRoundTrip(n: nat)
    ensures ParseInt(NatToDecimal(n), 10) == Some(n)
  {
    ParseAllDigits(NatToDecimal(n), 10);
  }

  /** Reading two hex digits as `parseInt` does gives 16 * first + second. */
  lemma ParseHexPair(a: char, b: char)
    requires IsHexDigit(a) && IsHexDigit(b)
    ensures ParseInt([a, b], 16) == Some(16 * DigitValue(a) + DigitValue(b))
  {
    var p := [a, b];
    ParseAllDigits(p, 16);
    assert p[..|p| - 1] == [a];
    assert DigitsValue([a], 16) == DigitValue(a) by {
      assert [a][..0] == [];
    }
    assert DigitsValue(p, 16) == 16 * DigitsValue([a], 16) + DigitValue(b);
  }

  /** The pair a channel in 0..255 becomes is two lower-case hex digits that
      `parseInt(_, 16)` reads back as the channel. */
  lemma HexPairRoundTrip(n: int)
    requires 0 <= n < 256
    ensures |HexPair(n)| == 2
    ensures IsLowerHexDigit(HexPair(n)[0]) && IsLowerHexDigit(HexPair(n)[1])
    ensures 16 * DigitValue(HexPair(n)[0]) + DigitValue(HexPair(n)[1]) == n
    ensures ParseInt(HexPair(n), 16) == Some(n)
  {
    var p := HexPair(n);
    if n < 16 {
      assert p == ['0', HexChar(n)];
    } else {
      assert NatToHex(n / 16) == [HexChar(n / 16)];
      assert p == [HexChar(n / 16), HexChar(n % 16)];
    }
    ParseHexPair(p[0], p[1]);
    assert p == [p[0], p[1]];
  }
}
