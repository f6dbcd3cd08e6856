/**
 * `parse_size`: turns a human-readable, German-formatted size such as
 * "1.024,5 KB" or "10 Bytes" into a byte count. The number is kept as an
 * exact decimal; the source's `int(float(number) * units[unit])` is
 * modelled as truncation toward zero of the exact product.
 */
module SizeParser {
  import opened Wrappers
  import opened Text

  /** The unit table: B, KB, MB, GB and TB are 1024^0 .. 1024^4 bytes. */
  const Units: map<string, nat> :=
    map["B" := 1, "KB" := 1024, "MB" := 1048576, "GB" := 1073741824, "TB" := 1099511627776]

  /** Why `parse_size` raises: the unpacking into two tokens, `float(number)`, or the `units` lookup. */
  datatype SizeError = WrongTokenCount(count: nat) | InvalidNumber(text: string) | UnknownUnit(unit: string)

  /** A decimal number: (-1 if negative) * digits * 10^exponent. */
  datatype Decimal = Decimal(negative: bool, digits: nat, exponent: int)

  /** Upper-case, "BYTES" to "B", delete every ".", then turn every "," into ".". */
  function Normalize(s: string): string {
    ReplaceAll(ReplaceAll(ReplaceAll(Upper(s), "BYTES", "B"), ".", ""), ",", ".")
  }

  predicate IsUnitPrefix(c: char) {
    c == 'K' || c == 'M' || c == 'G' || c == 'T'
  }

  /** `re.sub(r'([KMGT]?B)', r' \1', s)`: a space before every unit match, scanning left to right. */
  function SeparateUnit(s: string): string
    decreases |s|
  {
    if s == [] then []
    else if |s| >= 2 && IsUnitPrefix(s[0]) && s[1] == 'B' then [' ', s[0], 'B'] + SeparateUnit(s[2..])
    else if s[0] == 'B' then " B" + SeparateUnit(s[1..])
    else [s[0]] + SeparateUnit(s[1..])
  }

  /** The normalised text, with the unit separated unless it already starts with a space. */
  function Prepare(s: string): string {
    var n := Normalize(s);
    if StartsWith(n, " ") then n else SeparateUnit(n)
  }

  /** The whitespace-separated tokens `parse_size` unpacks into number and unit. */
  function Tokens(s: string): seq<string> {
    Split(Prepare(s))
  }

  /** Length of the leading run of ASCII digits. */
  function DigitRun(s: string): (n: nat)
    ensures n <= |s|
    ensures forall i :: 0 <= i < n ==> IsDigit(s[i])
    ensures n < |s| ==> !IsDigit(s[n])
  {
    if s == [] || !IsDigit(s[0]) then 0 else 1 + DigitRun(s[1..])
  }

  /** An optional exponent part "E[+-]digits" of a Python float literal; the empty text is exponent 0. */
  function ParseExponent(s: string): Option<int> {
    if s == [] then Some(0)
    else if s[0] != 'E' && s[0] != 'e' then None
    else
      var t := s[1..];
      var digits := if |t| > 0 && (t[0] == '+' || t[0] == '-') then t[1..] else t;
      if !AllDigits(digits) then None
      else
        var v: int := DigitsValue(digits);
        Some(if |t| > 0 && t[0] == '-' then -v else v)
  }

  predicate HasSign(t: string) {
    |t| > 0 && (t[0] == '+' || t[0] == '-')
  }

  /** The literal without its optional leading sign. */
  function Unsigned(t: string): string {
    if HasSign(t) then t[1..] else t
  }

  /** The parts of a float literal before its exponent: integer digits, fraction digits, and what follows. */
  datatype Mantissa = Mantissa(intDigits: string, fracDigits: string, rest: string)

  /** Leading digits, then optionally "." and more digits. */
  function ScanMantissa(body: string): (m: Mantissa)
    ensures forall i :: 0 <= i < |m.intDigits| ==> IsDigit(m.intDigits[i])
    ensures forall i :: 0 <= i < |m.fracDigits| ==> IsDigit(m.fracDigits[i])
  {
    var n := DigitRun(body);
    var afterInt := body[n..];
    if |afterInt| > 0 && afterInt[0] == '.' then
      var frac := afterInt[1..];
      var f := DigitRun(frac);
      Mantissa(body[..n], frac[..f], frac[f..])
    else
      Mantissa(body[..n], [], afterInt)
  }

  /**
   * `float(t)` for the decimal forms: an optional sign, digits with an
   * optional "." and fraction (at least one digit in all), and an optional
   * exponent.
   */
  function ParseNumber(t: string): Option<Decimal> {
    var m := ScanMantissa(Unsigned(t));
    if |m.intDigits| + |m.fracDigits| == 0 then None
    else match ParseExponent(m.rest)
      case None => None
      case Some(e) =>
        Some(Decimal(|t| > 0 && t[0] == '-', DigitsValue(m.intDigits + m.fracDigits), e - |m.fracDigits|))
  }

  function Magnitude(d: Decimal): (m: real)
    ensures m >= 0.0
  {
    if d.exponent >= 0 then (d.digits * Pow10(d.exponent)) as real
    else d.digits as real / Pow10(-d.exponent) as real
  }

  /** The exact value of a decimal. */
  function Value(d: Decimal): real {
    if d.negative then -Magnitude(d) else Magnitude(d)
  }

  /** Python's `int(x)` on a number: truncation toward zero. */
  function Trunc(x: real): int {
    if x >= 0.0 then x.Floor else -((-x).Floor)
  }

  lemma FloorOfQuotient(a: nat, b: nat)
    requires b > 0
    ensures (a as real / b as real).Floor == a / b
  {
    var q, r := a / b, a % b;
    assert a == q * b + r;
    var x := a as real / b as real;
    assert x * b as real == a as real;
    assert (q * b) as real == q as real * b as real;
    assert q as real * b as real <= a as real;
    assert q as real <= x;
    assert a as real < (q + 1) as real * b as real;
    assert x < (q + 1) as real;
  }

  /** The integer computation of the product of a decimal and a unit multiplier. */
  function Scale(d: Decimal, unit: nat): int {
    var m := if d.exponent >= 0 then d.digits * unit * Pow10(d.exponent) else (d.digits * unit) / Pow10(-d.exponent);
    if d.negative then -m else m
  }

  /** Scaling an exact quotient by a whole number. */
  lemma QuotientTimes(x: nat, k: nat, u: nat)
    requires k > 0
    ensures (x as real / k as real) * u as real == (x * u) as real / k as real
  {
    var q := x as real / k as real;
    assert q * k as real == x as real;
    assert (q * u as real) * k as real == (x * u) as real;
  }

  /** The product of a decimal's magnitude and a unit multiplier, truncated, is the integer computation. */
  lemma MagnitudeFloor(d: Decimal, unit: nat)
    ensures (Magnitude(d) * unit as real).Floor
      == if d.exponent >= 0 then d.digits * unit * Pow10(d.exponent) else (d.digits * unit) / Pow10(-d.exponent)
  {
    if d.exponent >= 0 {
      var a := d.digits * Pow10(d.exponent);
      assert Magnitude(d) == a as real;
      assert a as real * unit as real == (a * unit) as real;
      assert a * unit == d.digits * unit * Pow10(d.exponent);
    } else {
      var k := Pow10(-d.exponent);
      QuotientTimes(d.digits, k, unit);
      FloorOfQuotient(d.digits * unit, k);
    }
  }

  /** `int(number * units[unit])` in exact arithmetic: the reference meaning of a parsed size. */
  function ExactSize(d: Decimal, unit: nat): int {
    Trunc(Value(d) * unit as real)
  }

  lemma TruncNegated(p: real)
    requires p >= 0.0
    ensures Trunc(-p) == -(p.Floor)
  {
  }

  /** The integer computation is the exact product truncated toward zero. */
  lemma ScaleTruncates(d: Decimal, unit: nat)
    ensures Scale(d, unit) == ExactSize(d, unit)
  {
    MagnitudeFloor(d, unit);
    if d.negative {
      NegativeTruncates(d, unit);
    } else {
      PositiveTruncates(d, unit);
    }
  }

  lemma PositiveTruncates(d: Decimal, unit: nat)
    requires !d.negative
    ensures ExactSize(d, unit) == (Magnitude(d) * unit as real).Floor
  {
    var p := Magnitude(d) * unit as real;
    assert Value(d) * unit as real == p;
    assert p >= 0.0;
  }

  lemma NegativeTruncates(d: Decimal, unit: nat)
    requires d.negative
    ensures ExactSize(d, unit) == -((Magnitude(d) * unit as real).Floor)
  {
    var p := Magnitude(d) * unit as real;
    assert Value(d) * unit as real == -p;
    TruncNegated(p);
  }

  /**
   * `parse_size(text)`: it succeeds exactly when the prepared text splits
   * into two tokens, the first a number and the second a unit, and then
   * gives the exact product truncated toward zero.
   */
  function ParseSize(text: string): (r: Result<int, SizeError>)
    ensures r.Success? <==>
      |Tokens(text)| == 2 && ParseNumber(Tokens(text)[0]).Some? && Tokens(text)[1] in Units
  {
    var tokens := Tokens(text);
    if |tokens| != 2 then Failure(WrongTokenCount(|tokens|))
    else
      var number := ParseNumber(tokens[0]);
      if number.None? then Failure(InvalidNumber(tokens[0]))
      else if tokens[1] !in Units then Failure(UnknownUnit(tokens[1]))
      else
        Success(Scale(number.value, Units[tokens[1]]))
  }

  /** A successful parse is `int(number * units[unit])`, computed exactly. */
  lemma ParseSizeTruncates(text: string)
    requires ParseSize(text).Success?
    ensures ParseSize(text).value == ExactSize(ParseNumber(Tokens(text)[0]).value, Units[Tokens(text)[1]])
  {
    var tokens := Tokens(text);
    var d := ParseNumber(tokens[0]).value;
    var u := Units[tokens[1]];
    ScaleTruncates(d, u);
  }
}

/** What `parse_size` does with the size texts the course pages show. */
module SizeParserFacts {
  import opened Wrappers
  import opened Text
  import opened SizeParser

  predicate DigitsOnly(s: string) {
    forall i :: 0 <= i < |s| ==> IsDigit(s[i])
  }

  /** Text already in normal form: upper case, no "Y" (so no "BYTES"), no "." and no ",". */
  predicate Plain(s: string) {
    forall i :: 0 <= i < |s| ==> !IsLower(s[i]) && s[i] != 'Y' && s[i] != '.' && s[i] != ','
  }

  /** Text in which the unit regex finds nothing to separate. */
  predicate NoUnitLetters(s: string) {
    forall i :: 0 <= i < |s| ==> s[i] != 'B' && !IsUnitPrefix(s[i])
  }

  lemma NormalizePlain(s: string)
    requires Plain(s)
    ensures Normalize(s) == s
  {
    UpperKeeps(s);
    MissingCharNotContained(s, "BYTES", 1);
    MissingCharNotContained(s, ".", 0);
    MissingCharNotContained(s, ",", 0);
  }

  lemma {:induction false} SeparateUnitSkips(a: string, b: string)
    requires NoUnitLetters(a)
    ensures SeparateUnit(a + b) == a + SeparateUnit(b)
    decreases |a|
  {
    if a == [] {
      assert a + b == b;
    } else {
      assert (a + b)[1..] == a[1..] + b;
      SeparateUnitSkips(a[1..], b);
    }
  }

  lemma SeparateUnitOfUnit(u: string)
    requires u in Units
    ensures SeparateUnit(u) == " " + u
  {
    if u == "B" {
      assert SeparateUnit(u) == " B" + SeparateUnit([]);
    } else {
      assert SeparateUnit(u) == [' ', u[0], 'B'] + SeparateUnit([]);
    }
  }

  lemma UnitShape(u: string)
    requires u in Units
    ensures Plain(u) && u != [] && NoSpace(u)
  {
  }

  lemma {:induction false} DigitRunOf(a: string, rest: string)
    requires DigitsOnly(a)
    requires rest == [] || !IsDigit(rest[0])
    ensures DigitRun(a + rest) == |a|
    decreases |a|
  {
    if a == [] {
      assert a + rest == rest;
    } else {
      assert (a + rest)[1..] == a[1..] + rest;
      DigitRunOf(a[1..], rest);
    }
  }

  /** `float` of a digit string is its integer value. */
  lemma ParseNumberDigits(d: string)
    requires AllDigits(d)
    ensures ParseNumber(d) == Some(Decimal(false, DigitsValue(d), 0))
  {
    assert ScanMantissa(d) == Mantissa(d, [], []) by {
      DigitRunOf(d, []);
      assert d + [] == d;
    }
    assert d + [] == d;
  }

  lemma ScanMantissaPoint(a: string, b: string)
    requires DigitsOnly(a) && DigitsOnly(b)
    ensures ScanMantissa(a + "." + b) == Mantissa(a, b, [])
  {
    var t := a + "." + b;
    assert t == a + ("." + b);
    DigitRunOf(a, "." + b);
    assert t[|a|..] == "." + b;
    assert t[|a|..][1..] == b;
    DigitRunOf(b, []);
    assert b + [] == b;
  }

  /** `float` of "a.b" is the digits of a and b scaled down by the length of b. */
  lemma ParseNumberPoint(a: string, b: string)
    requires DigitsOnly(a) && DigitsOnly(b) && |a| + |b| > 0
    ensures ParseNumber(a + "." + b) == Some(Decimal(false, DigitsValue(a + b), -|b|))
  {
    var t := a + "." + b;
    var sign := t[0];
    assert sign == '.' || IsDigit(sign);
    assert !HasSign(t);
    ScanMantissaPoint(a, b);
    var m := ScanMantissa(Unsigned(t));
    assert m == Mantissa(a, b, []);
    assert ParseExponent(m.rest) == Some(0);
  }

  lemma ScaleWhole(v: nat, unit: nat)
    ensures Scale(Decimal(false, v, 0), unit) == v * unit
  {
    assert Pow10(0) == 1;
  }

  lemma ScaleFraction(v: nat, k: nat, unit: nat)
    ensures Scale(Decimal(false, v, -(k as int)), unit) == (v * unit) / Pow10(k)
  {
    if k == 0 {
      assert Pow10(0) == 1;
      assert v * unit * 1 == v * unit;
    }
  }

  /** A parse is decided by the two tokens alone. */
  lemma ParseSizeFromTokens(text: string, n: string, u: string, d: Decimal)
    requires Tokens(text) == [n, u] && ParseNumber(n) == Some(d) && u in Units
    ensures ParseSize(text) == Success(Scale(d, Units[u]))
  {
  }

  lemma DigitsShape(d: string)
    requires DigitsOnly(d)
    ensures Plain(d) && NoUnitLetters(d) && NoSpace(d)
  {
  }

  lemma TokensSpaced(d: string, u: string)
    requires AllDigits(d) && u in Units
    ensures Tokens(d + " " + u) == [d, u]
  {
    var s := d + " " + u;
    DigitsShape(d);
    UnitShape(u);
    NormalizePlain(s);
    assert s[0] == d[0];
    SeparateUnitSkips(d + " ", u);
    SeparateUnitOfUnit(u);
    assert Prepare(s) == d + "  " + u;
    SplitTwoWords(d, "  ", u);
  }

  /** "n U" with a digit string n and a unit U is n times the unit's multiplier. */
  lemma ParseSizeSpaced(d: string, u: string)
    requires AllDigits(d) && u in Units
    ensures ParseSize(d + " " + u) == Success(DigitsValue(d) * Units[u])
  {
    TokensSpaced(d, u);
    ParseNumberDigits(d);
    ParseSizeFromTokens(d + " " + u, d, u, Decimal(false, DigitsValue(d), 0));
    ScaleWhole(DigitsValue(d), Units[u]);
  }

  lemma TokensGlued(d: string, u: string)
    requires AllDigits(d) && u in Units
    ensures Tokens(d + u) == [d, u]
  {
    var s := d + u;
    DigitsShape(d);
    UnitShape(u);
    NormalizePlain(s);
    assert s[0] == d[0];
    SeparateUnitSkips(d, u);
    SeparateUnitOfUnit(u);
    assert Prepare(s) == d + " " + u;
    SplitTwoWords(d, " ", u);
  }

  /** The glued form "nU" gets its space from the unit regex and parses like "n U". */
  lemma ParseSizeGlued(d: string, u: string)
    requires AllDigits(d) && u in Units
    ensures ParseSize(d + u) == Success(DigitsValue(d) * Units[u])
  {
    TokensGlued(d, u);
    ParseNumberDigits(d);
    ParseSizeFromTokens(d + u, d, u, Decimal(false, DigitsValue(d), 0));
    ScaleWhole(DigitsValue(d), Units[u]);
  }

  /** A leading space switches the unit regex off, so " nU" is a single token and fails. */
  lemma ParseSizeLeadingSpaceGlued(d: string, u: string)
    requires AllDigits(d) && u in Units
    ensures ParseSize(" " + d + u) == Failure(WrongTokenCount(1))
  {
    var s := " " + d + u;
    DigitsShape(d);
    UnitShape(u);
    NormalizePlain(s);
    assert Prepare(s) == " " + (d + u);
    assert NoSpace(d + u);
    SplitSkipsSpaces(" ", d + u);
    assert d + u == (d + u) + [];
    SplitWord(d + u, []);
  }

  /** A single "," turns into "." and nothing else changes. */
  lemma {:induction false} CommaToPoint(a: string, rest: string)
    requires ',' !in a && ',' !in rest
    ensures ReplaceAll(a + "," + rest, ",", ".") == a + "." + rest
  {
    var s := a + "," + rest;
    ReplaceCharMap(s, ',', '.');
    var r := ReplaceAll(s, ",", ".");
    assert forall i :: 0 <= i < |s| ==> r[i] == (a + "." + rest)[i];
  }

  /** Upper case, no "Y" and no ".": only the comma rewrite is left to do. */
  predicate CommaOnly(s: string) {
    forall i :: 0 <= i < |s| ==> !IsLower(s[i]) && s[i] != 'Y' && s[i] != '.'
  }

  lemma NormalizeCommaOnly(s: string)
    requires CommaOnly(s)
    ensures Normalize(s) == ReplaceAll(s, ",", ".")
  {
    UpperKeeps(s);
    MissingCharNotContained(s, "BYTES", 1);
    MissingCharNotContained(s, ".", 0);
  }

  lemma NormalizeDecimalComma(a: string, b: string, u: string)
    requires DigitsOnly(a) && DigitsOnly(b) && u in Units
    ensures Normalize(a + "," + b + " " + u) == a + "." + b + " " + u
  {
    var rest := b + " " + u;
    var s := a + "," + rest;
    assert s == a + "," + b + " " + u;
    DigitsShape(a);
    DigitsShape(b);
    UnitShape(u);
    assert CommaOnly(rest);
    assert CommaOnly(s);
    NormalizeCommaOnly(s);
    CommaToPoint(a, rest);
  }

  /** The prepared text of "a,b U": the decimal point in place and the unit set off by a second space. */
  lemma PrepareDecimalComma(a: string, b: string, u: string)
    requires DigitsOnly(a) && DigitsOnly(b) && |a| + |b| > 0 && u in Units
    ensures Prepare(a + "," + b + " " + u) == (a + "." + b) + "  " + u
  {
    var head := a + "." + b + " ";
    NormalizeDecimalComma(a, b, u);
    DigitsShape(a);
    DigitsShape(b);
    assert (head + u)[0] != ' ';
    assert NoUnitLetters(head);
    SeparateUnitSkips(head, u);
    SeparateUnitOfUnit(u);
  }

  lemma TokensDecimalComma(a: string, b: string, u: string)
    requires DigitsOnly(a) && DigitsOnly(b) && |a| + |b| > 0 && u in Units
    ensures Tokens(a + "," + b + " " + u) == [a + "." + b, u]
  {
    PrepareDecimalComma(a, b, u);
    DigitsShape(a);
    DigitsShape(b);
    UnitShape(u);
    assert NoSpace(a + "." + b);
    SplitTwoWords(a + "." + b, "  ", u);
  }

  /** "a,b U": the comma is the decimal separator; the result is truncated toward zero. */
  lemma ParseSizeDecimalComma(a: string, b: string, u: string)
    requires DigitsOnly(a) && DigitsOnly(b) && |a| + |b| > 0 && u in Units
    ensures ParseSize(a + "," + b + " " + u) == Success((DigitsValue(a + b) * Units[u]) / Pow10(|b|))
  {
    TokensDecimalComma(a, b, u);
    ParseNumberPoint(a, b);
    ParseSizeFromTokens(a + "," + b + " " + u, a + "." + b, u, Decimal(false, DigitsValue(a + b), -|b|));
    ScaleFraction(DigitsValue(a + b), |b|, Units[u]);
  }

  lemma {:induction false} DeleteOneChar(a: string, c: char, rest: string)
    requires c !in a && c !in rest
    ensures ReplaceAll(a + [c] + rest, [c], []) == a + rest
    decreases |a|
  {
    var s := a + [c] + rest;
    if a == [] {
      assert s == [c] + rest;
      assert s[1..] == rest;
      MissingCharNotContained(rest, [c], 0);
    } else {
      assert s[0] == a[0];
      assert s[1..] == a[1..] + [c] + rest;
      DeleteOneChar(a[1..], c, rest);
      assert a + rest == [a[0]] + (a[1..] + rest);
    }
  }

  lemma NormalizeThousandsDot(a: string, b: string, u: string)
    requires DigitsOnly(a) && DigitsOnly(b) && u in Units
    ensures Normalize(a + "." + b + " " + u) == (a + b) + " " + u
  {
    var s := a + "." + b + " " + u;
    var rest := b + " " + u;
    DigitsShape(a);
    DigitsShape(b);
    UnitShape(u);
    assert ReplaceAll(Upper(s), "BYTES", "B") == s by {
      UpperKeeps(s);
      MissingCharNotContained(s, "BYTES", 1);
    }
    assert s == a + "." + rest;
    DeleteOneChar(a, '.', rest);
    assert a + rest == (a + b) + " " + u;
    MissingCharNotContained(a + rest, ",", 0);
  }

  /** "a.b U": the dot is a thousands separator and is dropped. */
  lemma ParseSizeThousandsDot(a: string, b: string, u: string)
    requires DigitsOnly(a) && DigitsOnly(b) && |a| + |b| > 0 && u in Units
    ensures ParseSize(a + "." + b + " " + u) == Success(DigitsValue(a + b) * Units[u])
  {
    NormalizeThousandsDot(a, b, u);
    DigitsShape(a);
    DigitsShape(b);
    UnitShape(u);
    NormalizePlain((a + b) + " " + u);
    SameNormalForm(a + "." + b + " " + u, (a + b) + " " + u);
    ParseSizeSpaced(a + b, u);
  }

  /** `parse_size` sees its input only through the normalised text. */
  lemma SameNormalForm(s: string, t: string)
    requires Normalize(s) == Normalize(t)
    ensures ParseSize(s) == ParseSize(t)
  {
  }

  lemma ExampleSpaced()
    ensures ParseSize("1 KB") == Success(1024)
  {
    var d, u := "1", "KB";
    assert d + " " + u == "1 KB";
    assert Units[u] == 1024;
    assert DigitsValue(d) == 1 by {
      assert d[..0] == [];
    }
    ParseSizeSpaced(d, u);
  }

  lemma ExampleGlued()
    ensures ParseSize("2KB") == Success(2048)
  {
    var d, u := "2", "KB";
    assert d + u == "2KB";
    assert Units[u] == 1024;
    assert DigitsValue(d) == 2 by {
      assert d[..0] == [];
    }
    ParseSizeGlued(d, u);
  }

  lemma TwoDigits(c: char, e: char)
    requires IsDigit(c) && IsDigit(e)
    ensures DigitsValue([c, e]) == 10 * DigitValue(c) + DigitValue(e)
  {
    assert [c, e][..1] == [c];
    assert [c][..0] == [];
    assert DigitsValue([c]) == DigitValue(c);
  }

  /** Replacing a pattern skips a prefix that lacks the pattern's first character. */
  lemma {:induction false} ReplaceAfterPrefix(a: string, rest: string, pat: string, rep: string)
    requires pat != [] && pat[0] !in a
    ensures ReplaceAll(a + rest, pat, rep) == a + ReplaceAll(rest, pat, rep)
    decreases |a|
  {
    if a == [] {
      assert a + rest == rest;
    } else {
      assert (a + rest)[0] == a[0] != pat[0];
      assert (a + rest)[1..] == a[1..] + rest;
      ReplaceAfterPrefix(a[1..], rest, pat, rep);
    }
  }

  lemma NormalizeBytesWord(d: string, w: string)
    requires AllDigits(d) && Upper(w) == "BYTES"
    ensures Normalize(d + " " + w) == Normalize(d + " " + "B")
  {
    var t := d + " " + "B";
    DigitsShape(d);
    UpperKeeps(d + " ");
    assert Upper(d + " " + w) == Upper(d + " ") + Upper(w);
    ReplaceAfterPrefix(d + " ", "BYTES", "BYTES", "B");
    assert ReplaceAll("BYTES", "BYTES", "B") == "B";
    assert (d + " ") + "B" == t;
    UpperKeeps(t);
    MissingCharNotContained(t, "BYTES", 1);
  }

  lemma BytesWordSameAsB(d: string, w: string)
    requires AllDigits(d) && Upper(w) == "BYTES"
    ensures ParseSize(d + " " + w) == ParseSize(d + " " + "B")
  {
    NormalizeBytesWord(d, w);
    SameNormalForm(d + " " + w, d + " " + "B");
  }

  /** The unit spelled out as "Bytes", in any case, is the unit "B". */
  lemma ParseSizeBytesWord(d: string, w: string)
    requires AllDigits(d) && Upper(w) == "BYTES"
    ensures ParseSize(d + " " + w) == Success(DigitsValue(d))
  {
    assert Units["B"] == 1;
    BytesWordSameAsB(d, w);
    ParseSizeSpaced(d, "B");
  }

  lemma ExampleTenBytes()
    ensures ParseSize("10 Bytes") == Success(10)
  {
    var d, w := "10", "Bytes";
    assert d + " " + w == "10 Bytes";
    assert Upper(w) == "BYTES";
    TwoDigits('1', '0');
    assert DigitsValue(d) == 10;
    ParseSizeBytesWord(d, w);
  }

  lemma ExampleThousands()
    ensures ParseSize("1.024 B") == Success(1024)
  {
    var a, b, u := "1", "024", "B";
    assert a + "." + b + " " + u == "1.024 B";
    assert a + b == ['1', '0'] + ['2', '4'];
    TwoDigits('1', '0');
    TwoDigits('2', '4');
    DigitsValueAppend(['1', '0'], ['2', '4']);
    assert Pow10(2) == 100;
    assert DigitsValue(a + b) == 1024;
    assert Units[u] == 1;
    ParseSizeThousandsDot(a, b, u);
  }

  /** Letter case does not matter: `parse_size` upper-cases its input first. */
  lemma CaseInsensitive(s: string)
    ensures ParseSize(s) == ParseSize(Upper(s))
  {
    UpperKeeps(Upper(s));
    SameNormalForm(s, Upper(s));
  }

  lemma ExampleThousandsLower()
    ensures ParseSize("1.024 b") == Success(1024)
  {
    var s, t := "1.024 b", "1.024 B";
    assert Upper(s) == t by {
      assert forall i :: 0 <= i < |s| - 1 ==> !IsLower(s[i]) && s[i] == t[i];
      assert UpperChar(s[|s| - 1]) == t[|s| - 1];
    }
    CaseInsensitive(s);
    ExampleThousands();
  }

  lemma ExampleDecimalComma()
    ensures ParseSize("1,5 MB") == Success(1572864)
  {
    var a, b, u := "1", "5", "MB";
    assert a + "," + b + " " + u == "1,5 MB";
    assert a + b == ['1', '5'];
    TwoDigits('1', '5');
    assert DigitsValue(a + b) == 15;
    assert Pow10(|b|) == 10;
    assert Units[u] == 1048576;
    assert (DigitsValue(a + b) * Units[u]) / Pow10(|b|) == 15728640 / 10 == 1572864;
    ParseSizeDecimalComma(a, b, u);
  }

  lemma ExampleDotIsThousands()
    ensures ParseSize("1.5 MB") == Success(15728640)
  {
    var a, b, u := "1", "5", "MB";
    assert a + "." + b + " " + u == "1.5 MB";
    assert a + b == ['1', '5'];
    TwoDigits('1', '5');
    assert DigitsValue(a + b) == 15;
    assert Units[u] == 1048576;
    ParseSizeThousandsDot(a, b, u);
  }

  lemma ExampleLeadingSpace()
    ensures ParseSize(" 2KB") == Failure(WrongTokenCount(1))
  {
    var d, u := "2", "KB";
    assert " " + d + u == " 2KB";
    ParseSizeLeadingSpaceGlued(d, u);
  }

  lemma ExampleEmpty()
    ensures ParseSize("") == Failure(WrongTokenCount(0))
  {
    assert Upper("") == "";
    assert Normalize("") == "";
  }
}
