/**
 * The locale-aware number readers of js/app.js: `toNumberFR`, `toPercent`,
 * `parseSalary`, `parseAstTov` and the `parseInt` of the age, all built on
 * the decimal-prefix subset of JavaScript's `parseFloat` and `parseInt`
 * (sections 19.2.4 and 19.2.5 of ECMA-262).  NaN is `None`.
 */
module LocaleNumbers {
  import opened JsValues
  import opened Text

  predicate IsDigit(c: char) {
    '0' <= c <= '9'
  }

  predicate AllDigits(s: string) {
    forall i | 0 <= i < |s| :: IsDigit(s[i])
  }

  /** The digits at the start of `s`. */
  function LeadingDigits(s: string): (d: string)
    ensures AllDigits(d) && |d| <= |s| && d == s[..|d|]
    ensures |d| < |s| ==> !IsDigit(s[|d|])
  {
    if s != [] && IsDigit(s[0]) then [s[0]] + LeadingDigits(s[1..]) else []
  }

  /** The number a string of decimal digits denotes. */
  function DigitsValue(d: string): nat
    requires AllDigits(d)
  {
    if d == [] then 0 else 10 * DigitsValue(d[..|d| - 1]) + (d[|d| - 1] as int - '0' as int)
  }

  /** The value of the fraction digits `frac` after a decimal point. */
  function FractionValue(frac: string): (r: real)
    requires AllDigits(frac)
    ensures 0.0 <= r < 1.0
  {
    if frac == [] then 0.0 else ((frac[0] as int - '0' as int) as real + FractionValue(frac[1..])) / 10.0
  }

  /** The value of the numeral `[-]whole.frac`. */
  function NumeralValue(negative: bool, whole: string, frac: string): real
    requires AllDigits(whole) && AllDigits(frac)
  {
    var magnitude := DigitsValue(whole) as real + FractionValue(frac);
    if negative then -magnitude else magnitude
  }

  function SignText(negative: bool): string {
    if negative then "-" else ""
  }

  /** An optional sign at the start of `t`: whether it is '-', and what follows it. */
  function SplitSign(t: string): (bool, string) {
    if t != [] && t[0] == '-' then (true, t[1..])
    else if t != [] && t[0] == '+' then (false, t[1..])
    else (false, t)
  }

  /** `parseFloat(s)` restricted to decimals: leading white space is
      skipped, then an optional sign, digits, and an optional point with
      more digits; the longest such prefix is read and the rest ignored.
      Without a digit in that prefix the result is NaN. */
  function ParseFloat(s: string): Option<real> {
    var (negative, u) := SplitSign(TrimStart(s));
    var whole := LeadingDigits(u);
    var after := u[|whole|..];
    var frac := if after != [] && after[0] == '.' then LeadingDigits(after[1..]) else [];
    if whole == [] && frac == [] then None else Some(NumeralValue(negative, whole, frac))
  }

  /** `parseInt(s)` (radix 10) restricted to decimals: white space, an
      optional sign and the run of digits that follows. */
  function ParseInt(s: string): Option<int> {
    var (negative, u) := SplitSign(TrimStart(s));
    var whole := LeadingDigits(u);
    if whole == [] then None
    else Some(if negative then -(DigitsValue(whole) as int) else DigitsValue(whole) as int)
  }

  /** A run of digits followed by a non-digit is read up to its end. */
  lemma {:induction false} LeadingDigitsOf(d: string, rest: string)
    requires AllDigits(d)
    requires rest == [] || !IsDigit(rest[0])
    ensures LeadingDigits(d + rest) == d
  {
    if d != [] {
      assert (d + rest)[1..] == d[1..] + rest;
      LeadingDigitsOf(d[1..], rest);
    }
  }

  /** A text that starts with a sign, a digit or a point, signed as written. */
  lemma SplitSignOf(negative: bool, u: string)
    requires u != [] && (IsDigit(u[0]) || u[0] == '.')
    ensures TrimStart(SignText(negative) + u) == SignText(negative) + u
    ensures SplitSign(SignText(negative) + u) == (negative, u)
  {
    var s := SignText(negative) + u;
    assert s[0] == (if negative then '-' else u[0]);
    assert !IsJsSpace(s[0]);
    assert TrimStart(s) == s;
    if negative {
      assert s[1..] == u;
    } else {
      assert s == u;
    }
  }

  /** `parseFloat` reads a written-out decimal numeral `[-]whole.frac`
      and ignores whatever follows it, provided that does not continue the
      fraction digits. */
  lemma ParseFloatDecimal(negative: bool, whole: string, frac: string, rest: string)
    requires AllDigits(whole) && AllDigits(frac) && |whole| + |frac| > 0
    requires rest == [] || !IsDigit(rest[0])
    ensures ParseFloat(SignText(negative) + whole + "." + frac + rest) == Some(NumeralValue(negative, whole, frac))
  {
    var u := whole + "." + frac + rest;
    Regroup(SignText(negative), whole, ".", frac, rest);
    DecimalParts(whole, frac, rest);
    SplitSignOf(negative, u);
    ParseFloatOfParts(SignText(negative) + u, negative, u, whole, frac);
  }

  /** How the digit scanner splits `whole.frac` followed by a non-digit. */
  lemma DecimalParts(whole: string, frac: string, rest: string)
    requires AllDigits(whole) && AllDigits(frac) && |whole| + |frac| > 0
    requires rest == [] || !IsDigit(rest[0])
    ensures var u := whole + "." + frac + rest;
      && u != [] && (IsDigit(u[0]) || u[0] == '.')
      && LeadingDigits(u) == whole
      && |whole| < |u| && u[|whole|] == '.'
      && LeadingDigits(u[|whole| + 1..]) == frac
  {
    Assoc(whole + ".", frac, rest);
    PointAt(whole, frac + rest);
    LeadingDigitsOf(whole, "." + (frac + rest));
    LeadingDigitsOf(frac, rest);
  }

  lemma Assoc(a: string, b: string, c: string)
    ensures a + b + c == a + (b + c)
  {
  }

  /** Where the point stands in `a + "." + b`, and what follows it. */
  lemma PointAt(a: string, b: string)
    ensures var t := a + "." + b;
      && t == a + ("." + b)
      && |a| < |t| && t[|a|] == '.' && t[|a| + 1..] == b
      && t[0] == (if a == [] then '.' else a[0])
  {
  }

  /** `parseFloat` once its sign, whole digits and fraction digits are known. */
  lemma ParseFloatOfParts(s: string, negative: bool, u: string, whole: string, frac: string)
    requires SplitSign(TrimStart(s)) == (negative, u)
    requires LeadingDigits(u) == whole
    requires |whole| < |u| && u[|whole|] == '.' && LeadingDigits(u[|whole| + 1..]) == frac
    requires whole != [] || frac != []
    ensures ParseFloat(s) == Some(NumeralValue(negative, whole, frac))
  {
    assert u[|whole|..][1..] == u[|whole| + 1..];
  }

  /** `parseFloat` reads a written-out integer `[-]whole` and ignores what
      follows it, provided that continues neither the digits nor a fraction. */
  lemma ParseFloatWhole(negative: bool, whole: string, rest: string)
    requires AllDigits(whole) && whole != []
    requires rest == [] || (!IsDigit(rest[0]) && rest[0] != '.')
    ensures ParseFloat(SignText(negative) + whole + rest) == Some(NumeralValue(negative, whole, []))
  {
    var u := whole + rest;
    assert SignText(negative) + whole + rest == SignText(negative) + u;
    WholeParts(whole, rest);
    SplitSignOf(negative, u);
    ParseFloatOfWhole(SignText(negative) + u, negative, u, whole);
  }

  /** How the digit scanner splits `whole` followed by a non-digit. */
  lemma WholeParts(whole: string, rest: string)
    requires AllDigits(whole) && whole != []
    requires rest == [] || !IsDigit(rest[0])
    ensures var u := whole + rest;
      && u != [] && IsDigit(u[0])
      && LeadingDigits(u) == whole
      && (|whole| == |u| || u[|whole|] == rest[0])
  {
    var u := whole + rest;
    assert u[0] == whole[0];
    LeadingDigitsOf(whole, rest);
  }

  /** `parseFloat` once its sign and digits are known and no point follows. */
  lemma ParseFloatOfWhole(s: string, negative: bool, u: string, whole: string)
    requires SplitSign(TrimStart(s)) == (negative, u)
    requires LeadingDigits(u) == whole && whole != []
    requires |whole| == |u| || u[|whole|] != '.'
    ensures ParseFloat(s) == Some(NumeralValue(negative, whole, []))
  {
  }

  /** Text without any digit is NaN to `parseFloat`. */
  lemma ParseFloatNoDigits(s: string)
    requires forall i | 0 <= i < |s| :: !IsDigit(s[i])
    ensures ParseFloat(s) == None
  {
    var t := TrimStart(s);
    TrimStartShape(s);
    var u := SplitSign(t).1;
    assert forall i | 0 <= i < |t| :: t[i] == s[|s| - |t| + i];
    assert forall i | 0 <= i < |u| :: !IsDigit(u[i]);
    assert LeadingDigits(u) == [];
    if u != [] && u[0] == '.' {
      assert LeadingDigits(u[1..]) == [];
    }
  }

  /** `parseInt` reads a written-out integer `[-]whole` and ignores what
      follows the digits. */
  lemma ParseIntWhole(negative: bool, whole: string, rest: string)
    requires AllDigits(whole) && whole != []
    requires rest == [] || !IsDigit(rest[0])
    ensures ParseInt(SignText(negative) + whole + rest)
            == Some(if negative then -(DigitsValue(whole) as int) else DigitsValue(whole) as int)
  {
    var u := whole + rest;
    assert SignText(negative) + whole + rest == SignText(negative) + u;
    WholeParts(whole, rest);
    SplitSignOf(negative, u);
    ParseIntOfWhole(SignText(negative) + u, negative, u, whole);
  }

  /** `parseInt` once its sign and digits are known. */
  lemma ParseIntOfWhole(s: string, negative: bool, u: string, whole: string)
    requires SplitSign(TrimStart(s)) == (negative, u)
    requires LeadingDigits(u) == whole && whole != []
    ensures ParseInt(s) == Some(if negative then -(DigitsValue(whole) as int) else DigitsValue(whole) as int)
  {
  }

  /** `parseInt(String(x))` for a number written out in decimal: the
      integer part, truncated toward zero. */
  function Trunc(x: real): (r: int)
    ensures 0.0 <= x ==> r as real <= x < r as real + 1.0
    ensures x < 0.0 ==> r as real - 1.0 < x <= r as real
  {
    if x >= 0.0 then x.Floor else -((-x).Floor)
  }

  /** `toNumberFR(value)` (js/app.js:34-39): 0 for a falsy value, else the
      first comma of the trimmed text becomes a point and `parseFloat`
      reads the result.  A number comes back as itself: `String(x)` holds
      no comma and `parseFloat(String(x))` is `x`. */
  function ToNumberFR(v: Value): (r: Option<real>)
    ensures !Truthy(v) ==> r == Some(0.0)
    ensures v.Num? && Truthy(v) ==> r == v.n
  {
    match v
    case Str(s) => if s == "" then Some(0.0) else ParseFloat(ReplaceFirst(Trim(s), ',', '.'))
    case Num(n) => if Truthy(v) then n else Some(0.0)
    case Undef => Some(0.0)
  }

  /** Replacing the first comma of `p + "," + q` where `p` has none. */
  lemma ReplaceFirstAt(p: string, q: string)
    requires ',' !in p
    ensures ReplaceFirst(p + "," + q, ',', '.') == p + "." + q
  {
    var s := p + "," + q;
    var r := ReplaceFirst(s, ',', '.');
    forall i | 0 <= i < |s| ensures r[i] == (p + "." + q)[i] {
      if i > |p| {
        assert s[..i][|p|] == ',';
      }
    }
  }

  /** No comma, nothing to replace. */
  lemma ReplaceFirstNone(s: string)
    requires ',' !in s
    ensures ReplaceFirst(s, ',', '.') == s
  {
  }

  /** `toNumberFR` of text that is already trimmed. */
  lemma ToNumberFRTrimmed(s: string)
    requires s != [] && Trim(s) == s
    ensures ToNumberFR(Str(s)) == ParseFloat(ReplaceFirst(s, ',', '.'))
  {
  }

  /** A signed run of digits holds no comma and starts with no white space. */
  lemma SignedDigits(negative: bool, whole: string)
    requires AllDigits(whole)
    ensures ',' !in SignText(negative) + whole
    ensures var head := SignText(negative) + whole;
      head == [] || head[0] == '-' || IsDigit(head[0])
  {
    var head := SignText(negative) + whole;
    forall i | 0 <= i < |head| ensures head[i] != ',' {
      if negative && i > 0 {
        assert head[i] == whole[i - 1];
      } else if !negative {
        assert head[i] == whole[i];
      }
    }
    if head != [] && negative {
      assert head[0] == '-';
    } else if head != [] {
      assert head[0] == whole[0];
    }
  }

  /** `toNumberFR` reads a French decimal `[-]whole,frac` followed by text
      that does not continue the fraction digits ("6,8" is 6.8). */
  lemma ToNumberFRDecimalComma(negative: bool, whole: string, frac: string, rest: string)
    requires AllDigits(whole) && AllDigits(frac) && |whole| + |frac| > 0
    requires rest == [] || !IsDigit(rest[0])
    requires rest == [] || !IsJsSpace(rest[|rest| - 1])
    ensures ToNumberFR(Str(SignText(negative) + whole + "," + frac + rest)) == Some(NumeralValue(negative, whole, frac))
  {
    var head := SignText(negative) + whole;
    var tail := frac + rest;
    SignedDigits(negative, whole);
    LastOfTail(frac, rest);
    ToNumberFRComma(head, tail);
    Regroup(SignText(negative), whole, ",", frac, rest);
    Regroup(SignText(negative), whole, ".", frac, rest);
    ParseFloatDecimal(negative, whole, frac, rest);
  }

  lemma Regroup(a: string, b: string, c: string, d: string, e: string)
    ensures (a + b) + c + (d + e) == a + b + c + d + e
    ensures a + b + c + d + e == a + (b + c + d + e)
  {
  }

  /** `toNumberFR` of `head,tail`, trimmed, where `head` holds no comma. */
  lemma ToNumberFRComma(head: string, tail: string)
    requires ',' !in head
    requires head == [] || head[0] == '-' || IsDigit(head[0])
    requires tail == [] || !IsJsSpace(tail[|tail| - 1])
    ensures ToNumberFR(Str(head + "," + tail)) == ParseFloat(head + "." + tail)
  {
    UnpaddedNumeral(head, tail);
    ToNumberFRTrimmed(head + "," + tail);
    ReplaceFirstAt(head, tail);
  }

  /** Digits followed by text that does not end in white space do not end
      in white space. */
  lemma LastOfTail(digits: string, rest: string)
    requires AllDigits(digits)
    requires rest == [] || !IsJsSpace(rest[|rest| - 1])
    ensures var t := digits + rest; t == [] || !IsJsSpace(t[|t| - 1])
  {
    var t := digits + rest;
    if rest == [] && t != [] {
      assert t[|t| - 1] == digits[|digits| - 1];
    } else if rest != [] {
      assert t[|t| - 1] == rest[|rest| - 1];
    }
  }

  /** `[-]digits,text` with `text` not ending in white space is its own trim. */
  lemma UnpaddedNumeral(head: string, tail: string)
    requires head == [] || head[0] == '-' || IsDigit(head[0])
    requires tail == [] || !IsJsSpace(tail[|tail| - 1])
    ensures Trim(head + "," + tail) == head + "," + tail
  {
    var s := head + "," + tail;
    assert s[0] == if head == [] then ',' else head[0];
    assert s[|s| - 1] == if tail == [] then ',' else tail[|tail| - 1];
    TrimOfTrimmed(s);
  }

  /** `toNumberFR` reads an integer followed by text that starts with
      neither a digit, a point nor a comma ("27 ans" is 27). */
  lemma ToNumberFRWhole(negative: bool, whole: string, rest: string)
    requires AllDigits(whole) && whole != []
    requires rest == [] || (!IsDigit(rest[0]) && rest[0] != '.' && rest[0] != ',')
    requires rest == [] || !IsJsSpace(rest[|rest| - 1])
    ensures ToNumberFR(Str(SignText(negative) + whole + rest)) == Some(NumeralValue(negative, whole, []))
  {
    var head := SignText(negative) + whole;
    var s := head + rest;
    assert SignText(negative) + whole + rest == s;
    SignedDigits(negative, whole);
    LastOfTail(whole, rest);
    assert s[0] == head[0];
    TrimOfTrimmed(s);
    ToNumberFRTrimmed(s);
    var rest' := ReplaceFirstAfter(head, rest);
    assert head + rest' == SignText(negative) + whole + rest';
    ParseFloatWhole(negative, whole, rest');
  }

  /** Replacing the first comma of `head + rest` where `head` has none
      leaves `head` and the first character of `rest` as they were. */
  lemma ReplaceFirstAfter(head: string, rest: string) returns (rest': string)
    requires ',' !in head
    requires rest == [] || rest[0] != ','
    ensures ReplaceFirst(head + rest, ',', '.') == head + rest'
    ensures |rest'| == |rest| && (rest == [] || rest'[0] == rest[0])
  {
    var s := head + rest;
    var r := ReplaceFirst(s, ',', '.');
    rest' := r[|head|..];
    forall i | 0 <= i < |head| ensures r[i] == head[i] {
      assert s[i] == head[i];
      assert s[..i] == head[..i];
    }
    assert r == r[..|head|] + rest';
    if rest != [] {
      assert s[|head|] == rest[0];
      assert s[..|head|] == head;
    }
  }

  predicate IsSpaceOrPercent(c: char) {
    IsJsSpace(c) || c == '%'
  }

  /** `toPercent(value)` (js/app.js:45-50): 0 for a falsy value, else every
      white-space and '%' character of the trimmed text is removed and
      `parseFloat` reads the result; commas are left alone.  A number comes
      back as itself. */
  function ToPercent(v: Value): (r: Option<real>)
    ensures !Truthy(v) ==> r == Some(0.0)
    ensures v.Num? && Truthy(v) ==> r == v.n
  {
    match v
    case Str(s) => if s == "" then Some(0.0) else ParseFloat(Without(Trim(s), IsSpaceOrPercent))
    case Num(n) => if Truthy(v) then n else Some(0.0)
    case Undef => Some(0.0)
  }

  /** `toPercent` reads the text with every white-space and '%' character
      taken out, wherever they stood. */
  lemma ToPercentStrips(s: string)
    requires s != ""
    ensures ToPercent(Str(s)) == ParseFloat(Without(s, IsSpaceOrPercent))
  {
    WithoutSpacesIgnoresTrim(s, IsSpaceOrPercent);
  }

  /** A run of digits, then optional white space and a percent sign, reads
      as the whole number. */
  lemma ToPercentOfDigits(whole: string, gap: string)
    requires AllDigits(whole) && whole != [] && AllSpaces(gap)
    ensures ToPercent(Str(whole + gap + "%")) == Some(DigitsValue(whole) as real)
  {
    ToPercentStrips(whole + gap + "%");
    PercentStripped(whole, gap);
    ParseFloatWhole(false, whole, []);
    assert SignText(false) + whole + [] == whole;
    NumeralWhole(whole);
  }

  lemma PercentStripped(whole: string, gap: string)
    requires AllDigits(whole) && AllSpaces(gap)
    ensures Without(whole + gap + "%", IsSpaceOrPercent) == whole
  {
    WithoutAppend(whole + gap, "%", IsSpaceOrPercent);
    WithoutAppend(whole, gap, IsSpaceOrPercent);
    DigitsKept(whole);
    GapDropped(gap);
  }

  lemma DigitsKept(whole: string)
    requires AllDigits(whole)
    ensures Without(whole, IsSpaceOrPercent) == whole
  {
  }

  lemma GapDropped(gap: string)
    requires AllSpaces(gap)
    ensures Without(gap, IsSpaceOrPercent) == []
    ensures Without("%", IsSpaceOrPercent) == []
  {
    WithoutAllDropped(gap, IsSpaceOrPercent);
    WithoutAllDropped("%", IsSpaceOrPercent);
  }

  /** "53 %" and "53%" both read as 53. */
  lemma PercentExamples()
    ensures ToPercent(Str("53 %")) == Some(53.0)
    ensures ToPercent(Str("53%")) == Some(53.0)
  {
    PercentExampleText();
    PercentExampleDigits();
    ToPercentOfDigits("53", " ");
    ToPercentOfDigits("53", "");
  }

  lemma PercentExampleText()
    ensures "53" + " " + "%" == "53 %" && "53" + "" + "%" == "53%"
  {
  }

  lemma PercentExampleDigits()
    ensures AllDigits("53") && AllSpaces(" ") && AllSpaces("")
    ensures DigitsValue("53") as real == 53.0
  {
    assert "53"[..1] == "5";
  }

  lemma NumeralWhole(whole: string)
    requires AllDigits(whole)
    ensures NumeralValue(false, whole, []) == DigitsValue(whole) as real
  {
  }

  /** `parseSalary(salaryStr)` (js/app.js:150-162): 0 for a falsy value,
      else the lower-cased, trimmed text loses all white space, its first
      comma becomes a point, and `parseFloat` reads it.  No scaling. */
  function ParseSalary(v: Value): (r: Option<real>)
    ensures !Truthy(v) ==> r == Some(0.0)
    ensures v.Num? && Truthy(v) ==> r == v.n
  {
    match v
    case Str(s) =>
      if s == "" then Some(0.0)
      else ParseFloat(ReplaceFirst(Without(Trim(Lower(s)), IsJsSpace), ',', '.'))
    case Num(n) => if Truthy(v) then n else Some(0.0)
    case Undef => Some(0.0)
  }

  /** White space anywhere in a salary is ignored, and the figure is read
      in the units it is written in. */
  lemma ParseSalaryIgnoresSpaces(s: string)
    requires s != ""
    ensures ParseSalary(Str(s)) == ParseFloat(ReplaceFirst(Without(s, IsJsSpace), ',', '.'))
  {
    var t := ReplaceFirst(Without(s, IsJsSpace), ',', '.');
    WithoutSpacesIgnoresTrim(Lower(s), IsJsSpace);
    WithoutSpacesLower(s);
    ReplaceCommaLower(Without(s, IsJsSpace));
    ParseFloatIgnoresCase(t);
  }

  /** Lower-casing leaves the characters `parseFloat` reads alone and maps
      every other character to one it does not read. */
  lemma LowerCharReads(c: char)
    ensures IsDigit(LowerChar(c)) == IsDigit(c)
    ensures IsJsSpace(LowerChar(c)) == IsJsSpace(c)
    ensures (LowerChar(c) == '-') == (c == '-') && (LowerChar(c) == '+') == (c == '+')
    ensures (LowerChar(c) == '.') == (c == '.')
  {
  }

  /** Lower-casing does not change the digit run at the start. */
  lemma {:induction false} LeadingDigitsLower(s: string)
    ensures LeadingDigits(Lower(s)) == LeadingDigits(s)
  {
    if s != [] {
      LowerCharReads(s[0]);
      if IsDigit(s[0]) {
        LowerSuffix(s, 1);
        LeadingDigitsLower(s[1..]);
      }
    }
  }

  lemma SplitSignLower(t: string)
    ensures SplitSign(Lower(t)) == (SplitSign(t).0, Lower(SplitSign(t).1))
  {
    if t != [] {
      LowerCharReads(t[0]);
      LowerSuffix(t, 1);
    }
  }

  /** `parseFloat` reads a text and its lower-case form alike. */
  lemma ParseFloatIgnoresCase(s: string)
    ensures ParseFloat(Lower(s)) == ParseFloat(s)
  {
    TrimStartLower(s);
    var t := TrimStart(s);
    SplitSignLower(t);
    var u := SplitSign(t).1;
    LeadingDigitsLower(u);
    var whole := LeadingDigits(u);
    LowerSuffix(u, |whole|);
    var after := u[|whole|..];
    if after != [] {
      LowerCharReads(after[0]);
      LowerSuffix(after, 1);
      LeadingDigitsLower(after[1..]);
    }
  }

  /** `a / b` on numbers that may be NaN, for a divisor that is not 0. */
  function Div(a: Option<real>, b: Option<real>): Option<real>
    requires b != Some(0.0)
  {
    if a.Some? && b.Some? then Some(a.value / b.value) else None
  }

  const Pour: string := "pour"

  /** `parseAstTov(value)` (js/app.js:188-202): "A pour B" is A / B when the
      text splits on "pour" into exactly two pieces and B is not 0; anything
      else, a zero B included, is `toNumberFR` of the whole trimmed text. */
  function ParseAstTov(v: Value): (r: Option<real>)
    ensures !Truthy(v) ==> r == Some(0.0)
    ensures v.Num? && Truthy(v) ==> r == v.n
  {
    match v
    case Str(s) =>
      if s == "" then Some(0.0)
      else
        var t := Trim(s);
        var parts := SplitOn(t, Pour);
        if Contains(t, Pour) && |parts| == 2 && ToNumberFR(Str(Trim(parts[1]))) != Some(0.0)
        then Div(ToNumberFR(Str(Trim(parts[0]))), ToNumberFR(Str(Trim(parts[1]))))
        else ToNumberFR(Str(t))
    case Num(n) => if Truthy(v) then n else Some(0.0)
    case Undef => Some(0.0)
  }

  /** A text `a pour b` whose first piece holds no 'p' and whose second
      piece holds no "pour" is the quotient of the two trimmed pieces,
      unless the second reads as 0: then it is `toNumberFR` of the whole
      text, which reads only the leading number of `a` (so "6,0 pour 0"
      gives 6, neither 0 nor a division by zero). */
  lemma ParseAstTovRatio(a: string, b: string)
    requires 'p' !in a && !Contains(b, Pour)
    requires a == [] || !IsJsSpace(a[0])
    requires b == [] || !IsJsSpace(b[|b| - 1])
    ensures var y := ToNumberFR(Str(Trim(b)));
            ParseAstTov(Str(a + Pour + b))
            == if y != Some(0.0) then Div(ToNumberFR(Str(Trim(a))), y)
               else ToNumberFR(Str(a + Pour + b))
  {
    PourTrimmed(a, b);
    PourPieces(a, b);
  }

  /** Text without "pour", or that splits on it into other than two
      pieces, is read by `toNumberFR` as a whole ("2,5" reads as 2.5). */
  lemma ParseAstTovFallback(s: string)
    requires s != ""
    requires !Contains(Trim(s), Pour) || |SplitOn(Trim(s), Pour)| != 2
    ensures ParseAstTov(Str(s)) == ToNumberFR(Str(Trim(s)))
  {
  }

  /** "w,f pour w',f'" is the quotient of the two decimals when the
      second is not 0. */
  lemma RatioOfDecimals(w1: string, f1: string, w2: string, f2: string)
    requires AllDigits(w1) && AllDigits(f1) && |w1| + |f1| > 0
    requires AllDigits(w2) && AllDigits(f2) && |w2| + |f2| > 0
    requires NumeralValue(false, w2, f2) != 0.0
    ensures ParseAstTov(Str(w1 + "," + f1 + " " + Pour + " " + w2 + "," + f2))
            == Some(NumeralValue(false, w1, f1) / NumeralValue(false, w2, f2))
  {
    var x := w1 + "," + f1;
    var y := w2 + "," + f2;
    RatioSides(w1, f1, w2, f2);
    CommaDecimal(w1, f1);
    CommaDecimal(w2, f2);
    RatioText(x, w2, f2);
    RatioOfReadings(x + " ", " " + y, NumeralValue(false, w1, f1), NumeralValue(false, w2, f2));
  }

  /** Two pieces that read as numbers, the second not 0, give their quotient. */
  lemma RatioOfReadings(a: string, b: string, x: real, y: real)
    requires 'p' !in a && !Contains(b, Pour)
    requires a == [] || !IsJsSpace(a[0])
    requires b == [] || !IsJsSpace(b[|b| - 1])
    requires ToNumberFR(Str(Trim(a))) == Some(x) && ToNumberFR(Str(Trim(b))) == Some(y) && y != 0.0
    ensures ParseAstTov(Str(a + Pour + b)) == Some(x / y)
  {
    ParseAstTovRatio(a, b);
  }

  /** The two sides of the ratio text, as `ParseAstTovRatio` needs them. */
  lemma RatioSides(w1: string, f1: string, w2: string, f2: string)
    requires AllDigits(w1) && AllDigits(f1) && AllDigits(w2) && AllDigits(f2)
    ensures var a := w1 + "," + f1 + " ";
            var b := " " + (w2 + "," + f2);
            && 'p' !in a && !Contains(b, Pour)
            && !IsJsSpace(a[0]) && !IsJsSpace(b[|b| - 1])
            && Trim(a) == w1 + "," + f1 && Trim(b) == w2 + "," + f2
  {
    var x := w1 + "," + f1;
    var y := w2 + "," + f2;
    DecimalEnds(w1, f1);
    DecimalEnds(w2, f2);
    TrimBeforeSpace(x);
    TrimAfterSpace(y);
    NoPour(" " + y);
  }

  /** "w,f" starts and ends with something other than white space. */
  lemma DecimalEnds(w: string, f: string)
    requires AllDigits(w) && AllDigits(f)
    ensures var x := w + "," + f;
            && |x| > 0 && 'p' !in x && !IsJsSpace(x[0]) && !IsJsSpace(x[|x| - 1])
  {
    var x := w + "," + f;
    assert x[0] == (if w == [] then ',' else w[0]);
    assert x[|x| - 1] == (if f == [] then ',' else f[|f| - 1]);
  }

  /** A text without a 'p' holds no "pour". */
  lemma NoPour(b: string)
    requires 'p' !in b
    ensures !Contains(b, Pour)
  {
    forall i: nat | i <= |b|
      ensures !OccursAt(b, Pour, i)
    {
      assert i + |Pour| <= |b| ==> b[i..i + |Pour|][0] == b[i];
    }
  }

  /** "w,f" reads as the decimal w.f. */
  lemma CommaDecimal(w: string, f: string)
    requires AllDigits(w) && AllDigits(f) && |w| + |f| > 0
    ensures ToNumberFR(Str(w + "," + f)) == Some(NumeralValue(false, w, f))
  {
    ToNumberFRDecimalComma(false, w, f, []);
    UnsignedText(w, f);
  }

  lemma UnsignedText(w: string, f: string)
    ensures SignText(false) + w + "," + f + [] == w + "," + f
  {
  }

  lemma RatioText(x: string, w: string, f: string)
    ensures x + " " + Pour + (" " + (w + "," + f)) == x + " " + Pour + " " + w + "," + f
  {
  }

  /** The example of the source: "6,0 pour 2,9" is 6.0 / 2.9. */
  lemma RatioExample()
    ensures ParseAstTov(Str("6,0 pour 2,9")) == Some(6.0 / 2.9)
  {
    ExampleNumerals();
    RatioOfDecimals("6", "0", "2", "9");
    ExampleText();
  }

  lemma ExampleNumerals()
    ensures NumeralValue(false, "6", "0") == 6.0 && NumeralValue(false, "2", "9") == 2.9
  {
    assert NumeralValue(false, "6", "0") == 6.0;
    assert NumeralValue(false, "2", "9") == 2.9;
  }

  lemma ExampleText()
    ensures "6" + "," + "0" + " " + Pour + " " + "2" + "," + "9" == "6,0 pour 2,9"
  {
  }

  /** A zero turnover count: "A pour 0" is not 0 but the leading number of
      the whole text, which is A ("6,0 pour 0" gives 6). */
  lemma ZeroTurnoverReadsAssists(whole: string, frac: string)
    requires AllDigits(whole) && AllDigits(frac) && |whole| + |frac| > 0
    ensures ParseAstTov(Str(whole + "," + frac + " " + Pour + " 0")) == Some(NumeralValue(false, whole, frac))
  {
    var a := whole + "," + frac + " ";
    var b := " 0";
    RatioPieces(whole, frac);
    ParseAstTovRatio(a, b);
    SpacedZero();
    var rest := " " + Pour + b;
    assert rest[0] == ' ' && rest[|rest| - 1] == '0';
    ToNumberFRDecimalComma(false, whole, frac, rest);
    UnsignedRatio(whole, frac, b);
  }

  lemma RatioPieces(whole: string, frac: string)
    requires AllDigits(whole) && AllDigits(frac)
    ensures var a := whole + "," + frac + " ";
            && 'p' !in a && !IsJsSpace(a[0]) && !Contains(" 0", Pour)
  {
    var a := whole + "," + frac + " ";
    assert a[0] == (if whole == [] then ',' else whole[0]);
  }

  /** " 0" trimmed reads as 0. */
  lemma SpacedZero()
    ensures ToNumberFR(Str(Trim(" 0"))) == Some(0.0)
  {
    assert Trim(" 0") == "0";
    ToNumberFRWhole(false, "0", []);
    assert SignText(false) + "0" + [] == "0";
    assert NumeralValue(false, "0", []) == 0.0;
  }

  lemma UnsignedRatio(whole: string, frac: string, b: string)
    ensures SignText(false) + whole + "," + frac + (" " + Pour + b) == whole + "," + frac + " " + Pour + b
  {
    assert SignText(false) + whole == whole;
  }

  /** The text of `ParseAstTovRatio` is already trimmed. */
  lemma PourTrimmed(a: string, b: string)
    requires a == [] || !IsJsSpace(a[0])
    requires b == [] || !IsJsSpace(b[|b| - 1])
    ensures Trim(a + Pour + b) == a + Pour + b
  {
    var t := a + Pour + b;
    assert t[0] == (if a == [] then 'p' else a[0]);
    assert t[|t| - 1] == (if b == [] then 'r' else b[|b| - 1]);
    TrimOfTrimmed(t);
  }

  /** The text of `ParseAstTovRatio` splits into its two pieces. */
  lemma PourPieces(a: string, b: string)
    requires 'p' !in a && !Contains(b, Pour)
    ensures var t := a + Pour + b;
            Contains(t, Pour) && SplitOn(t, Pour) == [a, b]
  {
    var t := a + Pour + b;
    PourFirstAt(a, b);
    var i := IndexOf(t, Pour);
    SplitOnFound(t, Pour);
    IndexOfFinds(t, Pour);
    assert t[..i] == a;
    assert t[i + |Pour|..] == b;
    IndexOfFinds(b, Pour);
    assert SplitOn(b, Pour) == [b];
  }

  /** The first "pour" of `a + "pour" + b` is the one after `a` when `a`
      holds no 'p'. */
  lemma PourFirstAt(a: string, b: string)
    requires 'p' !in a
    ensures IndexOf(a + Pour + b, Pour) == |a|
  {
    var t := a + Pour + b;
    assert OccursAt(t, Pour, |a|) by { assert t[|a|..|a| + |Pour|] == Pour; }
    forall j: nat | j < |a|
      ensures !OccursAt(t, Pour, j)
    {
      assert t[j] == a[j];
      assert j + |Pour| <= |t| ==> t[j..j + |Pour|][0] == t[j];
    }
  }

  /** `parseInt(value.toString().replace(' ans', ''))` (js/app.js:133-135)
      for the truthy age: a number is truncated toward zero, a string loses
      its first " ans" and is read by `parseInt`. */
  function ParseAge(v: Value): (r: Option<real>)
    requires Truthy(v)
    ensures v.Num? ==> r == Some(Trunc(v.n.value) as real)
  {
    match v
    case Str(s) =>
      var n := ParseInt(ReplaceFirstWord(s, " ans", ""));
      if n.Some? then Some(n.value as real) else None
    case Num(n) => Some(Trunc(n.value) as real)
  }
}
