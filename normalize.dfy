/**
 * `normalizePlayer`: a raw CSV record, every value a string, becomes a
 * player record in which the listed statistics are numbers, the salary is
 * kept both as written and as a number, and a defensive-impact figure is
 * added.
 *
 * `Normalized` states what the player record holds, and the lemmas after
 * it state that field by field; `NormalizePlayer` is the copy-and-rewrite
 * loop and is proved to build exactly that record.  The raw record is a
 * value: nothing the method does can change it.
 */
module Normalize {
  import opened JsValues
  import opened LocaleNumbers
  import opened Text

  const Age: string := "Age"
  const Salary: string := "Salary"
  const SalaryDisplay: string := "SalaryDisplay"
  const SalaryNumeric: string := "SalaryNumeric"
  const DefImpact: string := "DEF_impact"
  const Steals: string := "STL_per_game"
  const Blocks: string := "BLK_per_game"

  /** The columns written as French decimals (js/app.js:107-112). */
  const DecimalFields: seq<string> := [
    "Age", "Minutes_Played", "PTS_per_game", "AST_per_game", "REB_per_game",
    "STL_per_game", "BLK_per_game", "TOV_per_game", "FGA_per_game",
    "TwoPA_per_game", "Tir_a_2_points_reussi", "ThreePA_per_game", "ThreeP_per_game",
    "FTA_per_game", "FT_per_game", "PER", "TS_Pct", "eFG_Pct", "BPM", "OBPM", "DBPM", "WS"
  ]

  /** The columns written as percentages (js/app.js:121). */
  const PercentFields: seq<string> := ["FG_Pct", "TwoP_Pct", "ThreeP_Pct", "FT_Pct", "TS_Pct", "eFG_Pct"]

  /** The keys `normalizePlayer` adds to every record. */
  const Added: set<string> := {SalaryDisplay, SalaryNumeric, DefImpact}

  // Which list each named column is on.  Each fact compares string
  // literals one by one, so each is proved on its own.

  lemma AgeListed()
    ensures Age in DecimalFields && Age !in PercentFields
  {
  }

  lemma StatsListed()
    ensures Steals in DecimalFields && Blocks in DecimalFields && Steals != Age && Blocks != Age
  {
  }

  lemma SalaryUnlisted()
    ensures Salary != Age && Salary !in DecimalFields && Salary !in PercentFields
  {
  }

  // ---------------------------------------------------------------------
  // What the player record holds
  // ---------------------------------------------------------------------

  /** `rawPlayer[k]`: the cell's text, or undefined for a missing column. */
  function RawValue(raw: map<string, string>, k: string): Value {
    if k in raw then Str(raw[k]) else Undef
  }

  /** The value a raw cell `s` of column `k` ends up as.  An empty cell
      stays ''.  An age is read as a decimal and, if that gives a non-zero
      number, truncated toward zero.  Every other decimal column (the two
      shooting percentages listed as decimals too) is read as a French
      decimal; a percentage column has its spaces and '%' removed; any
      other column keeps its text. */
  function Converted(k: string, s: string): Value {
    if s == "" then Str(s)
    else if k == Age then
      var x := ToNumberFR(Str(s));
      if x.Some? && x.value != 0.0 then Num(Some(Trunc(x.value) as real)) else Num(x)
    else if k in DecimalFields then Num(ToNumberFR(Str(s)))
    else if k in PercentFields then Num(ToPercent(Str(s)))
    else Str(s)
  }

  /** The number a statistic contributes to a sum: what its cell reads as,
      and 0 when the cell is missing, empty or not a number. */
  function Reading(raw: map<string, string>, k: string): real {
    if k in raw && raw[k] != "" then NumberOrZero(ToNumberFR(Str(raw[k]))) else 0.0
  }

  /** The defensive impact: steals plus blocks per game, each read as 0
      when missing, empty or not a number. */
  function Impact(raw: map<string, string>): real {
    Reading(raw, Steals) + Reading(raw, Blocks)
  }

  /** Every raw column, converted. */
  function ConvertedColumns(raw: map<string, string>): (columns: map<string, Value>)
    ensures columns.Keys == raw.Keys
  {
    map k | k in raw :: Converted(k, raw[k])
  }

  /** `normalizePlayer(rawPlayer)`: the converted columns, then the salary
      as written, the salary as a number and the defensive impact, each
      written over a raw column of the same name if there is one. */
  function Normalized(raw: map<string, string>): map<string, Value> {
    WithDerived(ConvertedColumns(raw), RawValue(raw, Salary), Impact(raw))
  }

  /** `columns` with the three added keys written last. */
  function WithDerived(columns: map<string, Value>, salary: Value, impact: real): map<string, Value> {
    columns
      [SalaryDisplay := salary]
      [SalaryNumeric := Num(ParseSalary(salary))]
      [DefImpact := Num(Some(impact))]
  }

  // ---------------------------------------------------------------------
  // What the player record promises
  // ---------------------------------------------------------------------

  /** The record has the raw columns and the three added keys, no more. */
  lemma NormalizedKeys(raw: map<string, string>)
    ensures Normalized(raw).Keys == raw.Keys + Added
  {
  }

  /** A raw column other than the added keys holds its converted cell. */
  lemma NormalizedColumn(raw: map<string, string>, k: string)
    requires k in raw && k !in Added
    ensures Normalized(raw)[k] == Converted(k, raw[k])
  {
  }

  /** The salary as written (undefined without a Salary column), the salary
      as a number, and steals plus blocks, each read as 0 when missing,
      empty or not a number. */
  lemma NormalizedAdded(raw: map<string, string>)
    ensures Normalized(raw)[SalaryDisplay] == RawValue(raw, Salary)
    ensures Normalized(raw)[SalaryNumeric] == Num(ParseSalary(RawValue(raw, Salary)))
    ensures Normalized(raw)[DefImpact] == Num(Some(Impact(raw)))
  {
    KeysApart();
  }

  /** A column on neither list keeps its text. */
  lemma UnlistedUnchanged(raw: map<string, string>, k: string)
    requires k in raw && k !in Added && k !in DecimalFields && k !in PercentFields
    ensures Normalized(raw)[k] == Str(raw[k])
  {
    NormalizedColumn(raw, k);
    if k == Age {
      AgeListed();
    }
  }

  /** An empty cell stays the empty string, whatever its column. */
  lemma EmptyStaysEmpty(raw: map<string, string>, k: string)
    requires k in raw && k !in Added && raw[k] == ""
    ensures Normalized(raw)[k] == Str("")
  {
    NormalizedColumn(raw, k);
  }

  /** A listed statistic (other than the age) that is not empty holds a
      number: what its cell reads as a French decimal. */
  lemma DecimalColumnRead(raw: map<string, string>, k: string)
    requires k in raw && k !in Added && k != Age && k in DecimalFields && raw[k] != ""
    ensures Normalized(raw)[k] == Num(ToNumberFR(Str(raw[k])))
  {
    NormalizedColumn(raw, k);
  }

  /** A percentage column that is not also a decimal column holds its
      cell read after spaces and '%' are removed. */
  lemma PercentColumnRead(raw: map<string, string>, k: string)
    requires k in raw && k !in Added && k !in DecimalFields && k in PercentFields && raw[k] != ""
    ensures Normalized(raw)[k] == Num(ToPercent(Str(raw[k])))
  {
    NormalizedColumn(raw, k);
    if k == Age {
      AgeListed();
    }
  }

  /** A decimal column (other than the age) reads "whole,frac%" as the
      French decimal whole.frac: the '%' ends the number.  This is what
      the true-shooting column, on both lists, holds. */
  lemma DecimalCommaRead(k: string, whole: string, frac: string)
    requires k in DecimalFields && k != Age
    requires AllDigits(whole) && AllDigits(frac) && |whole| + |frac| > 0
    ensures Converted(k, whole + "," + frac + "%") == Num(Some(NumeralValue(false, whole, frac)))
  {
    assert SignText(false) + whole + "," + frac + "%" == whole + "," + frac + "%";
    ToNumberFRDecimalComma(false, whole, frac, "%");
  }

  /** A column that is only a percentage column does not turn a comma into
      a point: "whole,frac" reads as the whole part alone. */
  lemma PercentCommaStops(k: string, whole: string, frac: string)
    requires k in PercentFields && k !in DecimalFields && k != Age
    requires AllDigits(whole) && whole != [] && AllDigits(frac)
    ensures Converted(k, whole + "," + frac) == Num(Some(DigitsValue(whole) as real))
  {
    var cell := whole + "," + frac;
    NothingStripped(whole, frac);
    ToPercentStrips(cell);
    Unsigned(whole, ",", frac);
    ParseFloatWhole(false, whole, "," + frac);
    NumeralWhole(whole);
    PercentConverted(k, cell, DigitsValue(whole) as real);
  }

  lemma NothingStripped(whole: string, frac: string)
    requires AllDigits(whole) && AllDigits(frac)
    ensures Without(whole + "," + frac, IsSpaceOrPercent) == whole + "," + frac
  {
    var cell := whole + "," + frac;
    forall i | 0 <= i < |cell|
      ensures !IsSpaceOrPercent(cell[i])
    {
      if i < |whole| {
        assert cell[i] == whole[i];
      } else if i > |whole| {
        assert cell[i] == frac[i - |whole| - 1];
      }
    }
  }

  lemma PercentConverted(k: string, cell: string, x: real)
    requires k in PercentFields && k !in DecimalFields && k != Age
    requires cell != [] && ToPercent(Str(cell)) == Some(x)
    ensures Converted(k, cell) == Num(Some(x))
  {
  }

  /** An age cell made of a whole number and a unit after a space
      ("27 ans") reads as that number. */
  lemma AgeWithUnit(whole: string, unit: string)
    requires AllDigits(whole) && whole != []
    requires unit != [] && !IsJsSpace(unit[|unit| - 1])
    ensures Converted(Age, whole + " " + unit) == Num(Some(DigitsValue(whole) as real))
  {
    var rest := " " + unit;
    assert rest[0] == ' ' && rest[|rest| - 1] == unit[|unit| - 1];
    Unsigned(whole, " ", unit);
    ToNumberFRWhole(false, whole, rest);
    NumeralWhole(whole);
    TruncWhole(DigitsValue(whole));
    AgeConverted(whole + " " + unit, DigitsValue(whole) as real);
  }

  lemma AgeConverted(cell: string, x: real)
    requires cell != [] && ToNumberFR(Str(cell)) == Some(x)
    ensures Converted(Age, cell) == Num(Some(Trunc(x) as real))
  {
    if x == 0.0 {
      assert Trunc(x) == 0;
    }
  }

  lemma Unsigned(a: string, b: string, c: string)
    ensures SignText(false) + a + (b + c) == a + b + c
  {
  }

  lemma TruncWhole(n: int)
    ensures Trunc(n as real) == n
  {
  }

  // ---------------------------------------------------------------------
  // normalizePlayer, as the loops it is written as
  // ---------------------------------------------------------------------

  /** A raw value after the decimal pass, once the columns in `done` have
      been visited. */
  function AfterDecimals(raw: map<string, string>, k: string, done: seq<string>): Value
    requires k in raw
  {
    if k in done && raw[k] != "" then Num(ToNumberFR(Str(raw[k]))) else Str(raw[k])
  }

  /** A raw value after the whole decimal pass and the percentage columns
      in `done`. */
  function AfterPercents(raw: map<string, string>, k: string, done: seq<string>): Value
    requires k in raw
  {
    var d := AfterDecimals(raw, k, DecimalFields);
    if k in done && Truthy(d) then Num(ToPercent(d)) else d
  }

  /** The age rewrite of line 133-135, on the value left by both passes. */
  function AgeStep(k: string, v: Value): Value {
    if k == Age && Truthy(v) then Num(ParseAge(v)) else v
  }

  /** `normalizePlayer(rawPlayer)` (js/app.js:103-143). */
  method NormalizePlayer(raw: map<string, string>) returns (player: map<string, Value>)
    ensures player == Normalized(raw)
  {
    player := ReadDecimals(raw);
    player := ReadPercents(raw, player);
    ghost var converted := player;
    StatsRead(raw, converted);
    player := AddDerived(player);
    DerivedNormalized(raw, converted);
  }

  /** The statements after the two passes (js/app.js:128-141) on the
      record `converted` they left, in the order they are written. */
  method AddDerived(converted: map<string, Value>) returns (player: map<string, Value>)
    requires NumberLike(Get(converted, Steals)) && NumberLike(Get(converted, Blocks))
    ensures player == Derived(converted)
  {
    player := KeepSalary(converted);
    player := ReadAge(player);
    SalariedAgedStats(converted);
    player := AddImpact(player);
    DerivedIs(converted);
  }

  /** Lines 129-130: the salary as written and as a number. */
  method KeepSalary(before: map<string, Value>) returns (player: map<string, Value>)
    ensures player == Salaried(before)
  {
    player := before;
    player := player[SalaryDisplay := Get(player, Salary)];
    player := player[SalaryNumeric := Num(ParseSalary(Get(player, Salary)))];
  }

  /** Lines 133-135: the age, when present, as a whole number. */
  method ReadAge(before: map<string, Value>) returns (player: map<string, Value>)
    ensures player == Aged(before)
  {
    player := before;
    if Truthy(Get(player, Age)) {
      player := player[Age := Num(ParseAge(player[Age]))];
    }
  }

  /** Lines 138-140: the defensive impact. */
  method AddImpact(before: map<string, Value>) returns (player: map<string, Value>)
    requires NumberLike(Get(before, Steals)) && NumberLike(Get(before, Blocks))
    ensures player == WithImpact(before)
  {
    player := before;
    var stl := OrZero(Get(player, Steals));
    var blk := OrZero(Get(player, Blocks));
    player := player[DefImpact := Num(Some(stl + blk))];
  }

  function Salaried(player: map<string, Value>): map<string, Value> {
    var p := player[SalaryDisplay := Get(player, Salary)];
    p[SalaryNumeric := Num(ParseSalary(Get(p, Salary)))]
  }

  function WithImpact(player: map<string, Value>): map<string, Value>
    requires NumberLike(Get(player, Steals)) && NumberLike(Get(player, Blocks))
  {
    player[DefImpact := Num(Some(OrZero(Get(player, Steals)) + OrZero(Get(player, Blocks))))]
  }

  /** Neither the salary keys nor the age touch the statistics. */
  lemma SalariedAgedStats(c: map<string, Value>)
    ensures Get(Aged(Salaried(c)), Steals) == Get(c, Steals) && Get(Aged(Salaried(c)), Blocks) == Get(c, Blocks)
  {
    KeysApart();
  }

  lemma DerivedIs(c: map<string, Value>)
    requires NumberLike(Get(c, Steals)) && NumberLike(Get(c, Blocks))
    ensures NumberLike(Get(Aged(Salaried(c)), Steals)) && NumberLike(Get(Aged(Salaried(c)), Blocks))
    ensures Derived(c) == WithImpact(Aged(Salaried(c)))
  {
    SalariedAgedStats(c);
  }

  /** `Derived` settles the age before the salary keys it is written
      after: the order of the two does not matter. */
  lemma DerivedReordered(c: map<string, Value>)
    requires NumberLike(Get(c, Steals)) && NumberLike(Get(c, Blocks))
    ensures Get(Aged(c), Steals) == Get(c, Steals) && Get(Aged(c), Blocks) == Get(c, Blocks)
    ensures Derived(c) == WithDerived(Aged(c), Get(c, Salary), OrZero(Get(Aged(c), Steals)) + OrZero(Get(Aged(c), Blocks)))
  {
    var a1 := Aged(c)[SalaryDisplay := Get(c, Salary)][SalaryNumeric := Num(ParseSalary(Get(c, Salary)))];
    DerivedIs(c);
    SalariedAged(c);
    ImpactCongruence(Aged(Salaried(c)), a1);
    AgedStats(c);
    ImpactAfterSalary(Aged(c), Get(c, Salary));
  }

  lemma ImpactCongruence(p: map<string, Value>, q: map<string, Value>)
    requires p == q
    requires NumberLike(Get(p, Steals)) && NumberLike(Get(p, Blocks))
    ensures WithImpact(p) == WithImpact(q)
  {
  }

  lemma WithDerivedCongruence(a: map<string, Value>, b: map<string, Value>, s: Value, t: Value, i: real, j: real)
    requires a == b && s == t && i == j
    ensures WithDerived(a, s, i) == WithDerived(b, t, j)
  {
  }

  lemma SalariedAged(c: map<string, Value>)
    ensures Aged(Salaried(c)) == Aged(c)[SalaryDisplay := Get(c, Salary)][SalaryNumeric := Num(ParseSalary(Get(c, Salary)))]
  {
    SalariedIs(c);
    AgedPast(c, Get(c, Salary), Num(ParseSalary(Get(c, Salary))));
  }

  lemma ImpactAfterSalary(a: map<string, Value>, salary: Value)
    requires NumberLike(Get(a, Steals)) && NumberLike(Get(a, Blocks))
    ensures Get(a[SalaryDisplay := salary][SalaryNumeric := Num(ParseSalary(salary))], Steals) == Get(a, Steals)
    ensures Get(a[SalaryDisplay := salary][SalaryNumeric := Num(ParseSalary(salary))], Blocks) == Get(a, Blocks)
    ensures WithImpact(a[SalaryDisplay := salary][SalaryNumeric := Num(ParseSalary(salary))])
      == WithDerived(a, salary, OrZero(Get(a, Steals)) + OrZero(Get(a, Blocks)))
  {
    var p := a[SalaryDisplay := salary][SalaryNumeric := Num(ParseSalary(salary))];
    var i := OrZero(Get(a, Steals)) + OrZero(Get(a, Blocks));
    SalaryKeysPast(a, salary, Num(ParseSalary(salary)));
    ImpactOf(p, i);
    WithDerivedIs(a, salary, i);
  }

  lemma SalariedIs(c: map<string, Value>)
    ensures Salaried(c) == c[SalaryDisplay := Get(c, Salary)][SalaryNumeric := Num(ParseSalary(Get(c, Salary)))]
  {
    KeysApart();
  }

  /** The salary keys do not touch the age. */
  lemma AgedPast(c: map<string, Value>, salary: Value, sn: Value)
    ensures Aged(c[SalaryDisplay := salary][SalaryNumeric := sn]) == Aged(c)[SalaryDisplay := salary][SalaryNumeric := sn]
  {
    KeysApart();
    if Truthy(Get(c, Age)) {
      UpdatesCommute(c, SalaryDisplay, SalaryNumeric, Age, salary, sn, Num(ParseAge(c[Age])));
    }
  }

  /** The age rewrite does not touch the statistics nor the salary. */
  lemma AgedStats(c: map<string, Value>)
    ensures Get(Aged(c), Steals) == Get(c, Steals) && Get(Aged(c), Blocks) == Get(c, Blocks)
    ensures Get(Aged(c), Salary) == Get(c, Salary)
  {
    KeysApart();
  }

  /** The salary keys do not touch the statistics. */
  lemma SalaryKeysPast(a: map<string, Value>, salary: Value, sn: Value)
    ensures Get(a[SalaryDisplay := salary][SalaryNumeric := sn], Steals) == Get(a, Steals)
    ensures Get(a[SalaryDisplay := salary][SalaryNumeric := sn], Blocks) == Get(a, Blocks)
  {
    KeysApart();
  }

  lemma ImpactOf(p: map<string, Value>, i: real)
    requires NumberLike(Get(p, Steals)) && NumberLike(Get(p, Blocks))
    requires OrZero(Get(p, Steals)) + OrZero(Get(p, Blocks)) == i
    ensures WithImpact(p) == p[DefImpact := Num(Some(i))]
  {
  }

  lemma WithDerivedIs(a: map<string, Value>, salary: Value, i: real)
    ensures WithDerived(a, salary, i) == a[SalaryDisplay := salary][SalaryNumeric := Num(ParseSalary(salary))][DefImpact := Num(Some(i))]
  {
  }

  /** What `AddDerived` makes of `converted`: the three steps in the
      order they are written. */
  function Derived(converted: map<string, Value>): map<string, Value>
    requires NumberLike(Get(converted, Steals)) && NumberLike(Get(converted, Blocks))
  {
    SalariedAgedStats(converted);
    WithImpact(Aged(Salaried(converted)))
  }

  /** After both passes, the derived record is `Normalized(raw)`. */
  lemma DerivedNormalized(raw: map<string, string>, converted: map<string, Value>)
    requires converted.Keys == raw.Keys
    requires forall k {:trigger AfterPercents(raw, k, PercentFields)} | k in raw :: converted[k] == AfterPercents(raw, k, PercentFields)
    requires NumberLike(Get(converted, Steals)) && NumberLike(Get(converted, Blocks))
    ensures Derived(converted) == Normalized(raw)
  {
    AgedColumns(raw, converted);
    SalaryUntouched(raw, converted);
    StatsRead(raw, converted);
    DerivedOfParts(raw, converted);
  }

  /** `Derived` is `Normalized` once its three parts are. */
  lemma DerivedOfParts(raw: map<string, string>, converted: map<string, Value>)
    requires NumberLike(Get(converted, Steals)) && NumberLike(Get(converted, Blocks))
    requires Aged(converted) == ConvertedColumns(raw)
    requires Get(converted, Salary) == RawValue(raw, Salary)
    requires OrZero(Get(converted, Steals)) + OrZero(Get(converted, Blocks)) == Impact(raw)
    ensures Derived(converted) == Normalized(raw)
  {
    DerivedReordered(converted);
    PartsNormalized(raw, converted);
  }

  lemma PartsNormalized(raw: map<string, string>, converted: map<string, Value>)
    requires NumberLike(Get(Aged(converted), Steals)) && NumberLike(Get(Aged(converted), Blocks))
    requires Aged(converted) == ConvertedColumns(raw)
    requires Get(converted, Salary) == RawValue(raw, Salary)
    requires OrZero(Get(Aged(converted), Steals)) + OrZero(Get(Aged(converted), Blocks)) == Impact(raw)
    ensures WithDerived(Aged(converted), Get(converted, Salary), OrZero(Get(Aged(converted), Steals)) + OrZero(Get(Aged(converted), Blocks)))
      == Normalized(raw)
  {
    var impact := OrZero(Get(Aged(converted), Steals)) + OrZero(Get(Aged(converted), Blocks));
    WithDerivedCongruence(Aged(converted), ConvertedColumns(raw), Get(converted, Salary), RawValue(raw, Salary), impact, Impact(raw));
    NormalizedIs(raw);
  }

  lemma NormalizedIs(raw: map<string, string>)
    ensures WithDerived(ConvertedColumns(raw), RawValue(raw, Salary), Impact(raw)) == Normalized(raw)
  {
  }

  lemma PrefixSnoc(s: seq<string>, i: nat)
    requires i < |s|
    ensures s[..i + 1] == s[..i] + [s[i]]
  {
  }

  lemma PrefixAll(s: seq<string>)
    ensures s[..|s|] == s
  {
  }

  /** The copy of the raw record and the decimal pass over it
      (js/app.js:104-118): every listed column whose cell is not '' is read
      as a French decimal. */
  method ReadDecimals(raw: map<string, string>) returns (player: map<string, Value>)
    ensures player.Keys == raw.Keys
    ensures forall k {:trigger AfterDecimals(raw, k, DecimalFields)} | k in raw :: player[k] == AfterDecimals(raw, k, DecimalFields)
  {
    player := map k | k in raw :: Str(raw[k]);
    for i := 0 to |DecimalFields|
      invariant player.Keys == raw.Keys
      invariant forall k {:trigger AfterDecimals(raw, k, DecimalFields[..i])} | k in raw :: player[k] == AfterDecimals(raw, k, DecimalFields[..i])
    {
      var field := DecimalFields[i];
      ghost var before := player;
      if Truthy(Get(player, field)) {
        player := player[field := Num(ToNumberFR(player[field]))];
      }
      PrefixSnoc(DecimalFields, i);
      DecimalStep(raw, before, player, field, DecimalFields[..i]);
    }
    PrefixAll(DecimalFields);
  }

  /** The percentage pass (js/app.js:121-126) over the record the decimal
      pass left: every listed column still truthy loses its spaces and '%'
      and is read by `parseFloat`. */
  method ReadPercents(raw: map<string, string>, decimals: map<string, Value>) returns (player: map<string, Value>)
    requires decimals.Keys == raw.Keys
    requires forall k {:trigger AfterDecimals(raw, k, DecimalFields)} | k in raw :: decimals[k] == AfterDecimals(raw, k, DecimalFields)
    ensures player.Keys == raw.Keys
    ensures forall k {:trigger AfterPercents(raw, k, PercentFields)} | k in raw :: player[k] == AfterPercents(raw, k, PercentFields)
  {
    player := decimals;
    for j := 0 to |PercentFields|
      invariant player.Keys == raw.Keys
      invariant forall k {:trigger AfterPercents(raw, k, PercentFields[..j])} | k in raw :: player[k] == AfterPercents(raw, k, PercentFields[..j])
    {
      var field := PercentFields[j];
      ghost var before := player;
      if Truthy(Get(player, field)) {
        player := player[field := Num(ToPercent(player[field]))];
      }
      PrefixSnoc(PercentFields, j);
      PercentStep(raw, before, player, field, PercentFields[..j]);
    }
    PrefixAll(PercentFields);
  }

  /** The age rewrite of js/app.js:133-135 on the record both passes left. */
  function Aged(converted: map<string, Value>): map<string, Value> {
    if Truthy(Get(converted, Age)) then converted[Age := Num(ParseAge(converted[Age]))] else converted
  }

  /** The lengths and a telling letter of the column names the method
      reads and writes after the passes: enough to tell any two apart. */
  lemma KeysApart()
    ensures |Age| == 3 && |Salary| == 6 && |DefImpact| == 10
    ensures |SalaryDisplay| == 13 && |SalaryNumeric| == 13 && SalaryDisplay[6] == 'D' && SalaryNumeric[6] == 'N'
    ensures |Steals| == 12 && |Blocks| == 12 && Steals[0] == 'S' && Blocks[0] == 'B'
  {
  }

  lemma UpdatesCommute(m: map<string, Value>, k1: string, k2: string, k3: string, a: Value, b: Value, c: Value)
    requires k3 != k1 && k3 != k2
    ensures m[k1 := a][k2 := b][k3 := c] == m[k3 := c][k1 := a][k2 := b]
  {
  }

  /** Both passes and the age rewrite leave every raw column converted. */
  lemma AgedColumns(raw: map<string, string>, converted: map<string, Value>)
    requires converted.Keys == raw.Keys
    requires forall k {:trigger AfterPercents(raw, k, PercentFields)} | k in raw :: converted[k] == AfterPercents(raw, k, PercentFields)
    ensures Aged(converted) == ConvertedColumns(raw)
  {
    var aged := Aged(converted);
    var columns := ConvertedColumns(raw);
    forall k | k in raw ensures aged[k] == columns[k] {
      FieldConverted(raw, k);
      assert AgeStep(k, converted[k]) == Converted(k, raw[k]);
    }
  }

  /** Neither pass touches the salary column. */
  lemma SalaryUntouched(raw: map<string, string>, converted: map<string, Value>)
    requires converted.Keys == raw.Keys
    requires forall k {:trigger AfterPercents(raw, k, PercentFields)} | k in raw :: converted[k] == AfterPercents(raw, k, PercentFields)
    ensures Get(converted, Salary) == RawValue(raw, Salary)
  {
    SalaryUnlisted();
    if Salary in raw {
      assert converted[Salary] == AfterPercents(raw, Salary, PercentFields);
    }
  }

  /** One column of the decimal pass keeps the pass's invariant. */
  lemma DecimalStep(raw: map<string, string>, before: map<string, Value>, after: map<string, Value>,
                    field: string, done: seq<string>)
    requires before.Keys == raw.Keys
    requires forall k | k in raw :: before[k] == AfterDecimals(raw, k, done)
    requires after == if Truthy(Get(before, field)) then before[field := Num(ToNumberFR(before[field]))] else before
    ensures after.Keys == raw.Keys
    ensures forall k | k in raw :: after[k] == AfterDecimals(raw, k, done + [field])
  {
    forall k | k in raw ensures after[k] == AfterDecimals(raw, k, done + [field]) {
      assert k in done + [field] <==> k in done || k == field;
    }
  }

  /** One column of the percentage pass keeps the pass's invariant. */
  lemma PercentStep(raw: map<string, string>, before: map<string, Value>, after: map<string, Value>,
                    field: string, done: seq<string>)
    requires before.Keys == raw.Keys
    requires forall k | k in raw :: before[k] == AfterPercents(raw, k, done)
    requires after == if Truthy(Get(before, field)) then before[field := Num(ToPercent(before[field]))] else before
    ensures after.Keys == raw.Keys
    ensures forall k | k in raw :: after[k] == AfterPercents(raw, k, done + [field])
  {
    forall k | k in raw ensures after[k] == AfterPercents(raw, k, done + [field]) {
      assert k in done + [field] <==> k in done || k == field;
    }
  }

  /** Both passes and the age rewrite together give `Converted`: the two
      shooting percentages read as decimals are left alone by the
      percentage pass, and an age is read as a decimal before it is
      truncated. */
  lemma FieldConverted(raw: map<string, string>, k: string)
    requires k in raw
    ensures AgeStep(k, AfterPercents(raw, k, PercentFields)) == Converted(k, raw[k])
  {
    AgeListed();
    var s := raw[k];
    if s != "" {
      if k == Age {
      } else if k in DecimalFields {
        var x := ToNumberFR(Str(s));
        assert AfterDecimals(raw, k, DecimalFields) == Num(x);
      } else if k in PercentFields {
        assert AfterDecimals(raw, k, DecimalFields) == Str(s);
      }
    }
  }

  /** After both passes, `(STL || 0) + (BLK || 0)` is the impact. */
  lemma StatsRead(raw: map<string, string>, converted: map<string, Value>)
    requires converted.Keys == raw.Keys
    requires forall j {:trigger AfterPercents(raw, j, PercentFields)} | j in raw :: converted[j] == AfterPercents(raw, j, PercentFields)
    ensures NumberLike(Get(converted, Steals)) && NumberLike(Get(converted, Blocks))
    ensures OrZero(Get(converted, Steals)) + OrZero(Get(converted, Blocks)) == Impact(raw)
  {
    StatsListed();
    StatReading(raw, converted, Steals);
    StatReading(raw, converted, Blocks);
  }

  /** After both passes a statistic's `x || 0` is its `Reading`. */
  lemma StatReading(raw: map<string, string>, converted: map<string, Value>, k: string)
    requires k in DecimalFields
    requires converted.Keys == raw.Keys
    requires forall j {:trigger AfterPercents(raw, j, PercentFields)} | j in raw :: converted[j] == AfterPercents(raw, j, PercentFields)
    ensures NumberLike(Get(converted, k)) && OrZero(Get(converted, k)) == Reading(raw, k)
  {
    if k in raw {
      assert converted[k] == AfterPercents(raw, k, PercentFields) == AfterDecimals(raw, k, DecimalFields);
    }
  }
}
