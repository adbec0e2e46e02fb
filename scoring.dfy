/**
 * The dashboard's scoring: a clamp onto a 0-100 scale, the label a metric's
 * value earns on a fixed table of tiers, the value-for-money verdict on a
 * player record, and the offensive/defensive split shown as a doughnut.
 *
 * Numbers are reals; `None` is NaN.  Floating-point rounding is not
 * modelled.
 */
module Scoring {
  import opened JsValues
  import Normalize

  // ---------------------------------------------------------------------
  // normalizeToScale
  // ---------------------------------------------------------------------

  function Min(a: real, b: real): real { if a <= b then a else b }
  function Max(a: real, b: real): real { if a >= b then a else b }

  /** `((value - min) / (max - min)) * 100` in floating point: a division by
      zero gives +Infinity, -Infinity or NaN, which the clamp then turns into
      100, 0 or NaN. */
  function ScaleClamped(x: real, min: real, max: real): (r: Option<real>)
    ensures r.Some? ==> 0.0 <= r.value <= 100.0
    ensures r.None? <==> max == min && x == min
  {
    if max != min then Some(Max(0.0, Min(100.0, (x - min) / (max - min) * 100.0)))
    else if x > min then Some(100.0)
    else if x < min then Some(0.0)
    else None
  }

  /** `normalizeToScale(value, min, max)` (js/app.js:211-215): 0 for a value
      that is null or undefined (`Undef`), NaN for NaN, else the clamped
      position of the value in the range.  A string is not a value the
      function is given. */
  function NormalizeToScale(value: Value, min: real, max: real): (r: Option<real>)
    requires !value.Str?
    ensures value.Undef? ==> r == Some(0.0)
    ensures value.Num? && value.n.None? ==> r.None?
    ensures r.Some? ==> 0.0 <= r.value <= 100.0
  {
    match value
    case Undef => Some(0.0)
    case Num(n) => if n.None? then None else ScaleClamped(n.value, min, max)
  }

  /** With a proper range every number lands in [0, 100]; inside the range
      it is its linear position, outside it is the nearer end. */
  lemma ScaleInRange(x: real, min: real, max: real)
    requires min < max
    ensures NormalizeToScale(Num(Some(x)), min, max).Some?
    ensures var r := NormalizeToScale(Num(Some(x)), min, max).value;
      && (min <= x <= max ==> r == (x - min) / (max - min) * 100.0)
      && (x <= min ==> r == 0.0)
      && (max <= x ==> r == 100.0)
  {
    Fraction(x - min, max - min);
  }

  /** Where `a / d` falls for a positive `d`. */
  lemma Fraction(a: real, d: real)
    requires d > 0.0
    ensures 0.0 <= a <= d ==> 0.0 <= a / d <= 1.0
    ensures a <= 0.0 ==> a / d <= 0.0
    ensures a >= d ==> a / d >= 1.0
  {
    var q := a / d;
    assert q * d == a;
    if q < 0.0 {
      assert q * d < 0.0;
    }
    if q > 1.0 {
      assert q * d > d;
    }
    if q < 1.0 {
      assert q * d < d;
    }
  }

  /** With a proper range the scale keeps the order of the values. */
  lemma ScaleMonotone(x: real, y: real, min: real, max: real)
    requires min < max && x <= y
    ensures NormalizeToScale(Num(Some(x)), min, max).value <= NormalizeToScale(Num(Some(y)), min, max).value
  {
    ScaleInRange(x, min, max);
    ScaleInRange(y, min, max);
    Fraction(y - x, max - min);
    Difference(x - min, y - min, max - min);
  }

  lemma Difference(a: real, b: real, d: real)
    requires d > 0.0
    ensures b / d - a / d == (b - a) / d
  {
  }

  // ---------------------------------------------------------------------
  // getImpactLabel
  // ---------------------------------------------------------------------

  datatype Tier = Tier(threshold: real, name: string)

  /** The table of tiers per metric (js/app.js:221-264), best first; a
      metric not in the table has no tiers. */
  function Tiers(metric: string): seq<Tier> {
    if metric == "AST/TOV" then
      [Tier(4.0, "Excellent"), Tier(2.5, "Très bon"), Tier(1.5, "Bon"), Tier(0.0, "À améliorer")]
    else if metric == "PER" then
      [Tier(25.0, "MVP"), Tier(20.0, "Excellent"), Tier(15.0, "Très bon"), Tier(10.0, "Bon"), Tier(0.0, "Moyen")]
    else if metric == "BPM" then
      [Tier(8.0, "Elite"), Tier(4.0, "Excellent"), Tier(2.0, "Très bon"), Tier(-2.0, "Neutre"), Tier(-100.0, "Négatif")]
    else if metric == "OBPM" || metric == "DBPM" then
      [Tier(5.0, "Elite"), Tier(2.0, "Excellent"), Tier(0.0, "Bon"), Tier(-2.0, "Moyen"), Tier(-100.0, "Faible")]
    else if metric == "WS" then
      [Tier(10.0, "Elite"), Tier(5.0, "Excellent"), Tier(3.0, "Très bon"), Tier(1.0, "Bon"), Tier(0.0, "Moyen")]
    else []
  }

  /** `value >= threshold` in JavaScript: false for NaN. */
  predicate Reaches(value: Option<real>, t: Tier) {
    value.Some? && value.value >= t.threshold
  }

  /** The position of the first tier `value` reaches, or `|tiers|`. */
  function TierIndex(tiers: seq<Tier>, value: Option<real>): (i: nat)
    ensures i <= |tiers|
  {
    if tiers == [] then 0
    else if Reaches(value, tiers[0]) then 0
    else 1 + TierIndex(tiers[1..], value)
  }

  /** The label of the first tier reached, or '-'. */
  function ImpactLabel(metric: string, value: Option<real>): string {
    var tiers := Tiers(metric);
    var i := TierIndex(tiers, value);
    if i < |tiers| then tiers[i].name else "-"
  }

  /** `getImpactLabel(metricName, value)` (js/app.js:220-272): the scan
      over the metric's tiers that returns at the first one reached. */
  method GetImpactLabel(metric: string, value: Option<real>) returns (text: string)
    ensures text == ImpactLabel(metric, value)
  {
    var tiers := Tiers(metric);
    for i := 0 to |tiers|
      invariant TierIndex(tiers, value) == i + TierIndex(tiers[i..], value)
    {
      TierIndexStep(tiers, value, i);
      if Reaches(value, tiers[i]) {
        assert tiers[i..][0] == tiers[i];
        return tiers[i].name;
      }
    }
    assert tiers[|tiers|..] == [];
    text := "-";
  }

  lemma TierIndexStep(tiers: seq<Tier>, value: Option<real>, i: nat)
    requires i < |tiers|
    ensures tiers[i..][1..] == tiers[i + 1..]
    ensures tiers[i..][0] == tiers[i]
  {
  }

  /** `TierIndex` is the first tier reached: none before it is, and it is
      unless it is past the end. */
  lemma {:induction false} TierIndexFirst(tiers: seq<Tier>, value: Option<real>)
    ensures forall j | 0 <= j < TierIndex(tiers, value) :: !Reaches(value, tiers[j])
    ensures TierIndex(tiers, value) < |tiers| ==> Reaches(value, tiers[TierIndex(tiers, value)])
  {
    if tiers != [] && !Reaches(value, tiers[0]) {
      TierIndexFirst(tiers[1..], value);
      forall j | 0 <= j < TierIndex(tiers, value) ensures !Reaches(value, tiers[j]) {
        if j > 0 {
          assert tiers[j] == tiers[1..][j - 1];
        }
      }
    }
  }

  /** A greater value reaches a tier at least as good. */
  lemma {:induction false} TierIndexMonotone(tiers: seq<Tier>, x: real, y: real)
    requires x <= y
    ensures TierIndex(tiers, Some(y)) <= TierIndex(tiers, Some(x))
  {
    if tiers != [] && !Reaches(Some(y), tiers[0]) {
      TierIndexMonotone(tiers[1..], x, y);
    }
  }

  /** The label is '-' exactly when the value (NaN included) reaches no
      tier, which is the case for every value of an unknown metric;
      otherwise it is the label of the first tier reached. */
  lemma ImpactLabelMeaning(metric: string, value: Option<real>)
    ensures ImpactLabel(metric, value) == "-" <==> forall t | t in Tiers(metric) :: !Reaches(value, t)
    ensures ImpactLabel(metric, value) != "-" ==>
      exists i | 0 <= i < |Tiers(metric)| ::
        && Reaches(value, Tiers(metric)[i])
        && ImpactLabel(metric, value) == Tiers(metric)[i].name
        && forall j | 0 <= j < i :: !Reaches(value, Tiers(metric)[j])
  {
    var tiers := Tiers(metric);
    TierIndexFirst(tiers, value);
    LabelsAreWords(metric);
    var i := TierIndex(tiers, value);
    if i == |tiers| {
      forall t | t in tiers ensures !Reaches(value, t) {
        var j :| 0 <= j < |tiers| && tiers[j] == t;
      }
    }
  }

  /** No tier's label is '-'. */
  lemma LabelsAreWords(metric: string)
    ensures forall t | t in Tiers(metric) :: t.name != "-"
  {
  }

  /** Every table lists its thresholds from the highest down. */
  lemma TiersDescending(metric: string)
    ensures forall i, j | 0 <= i < j < |Tiers(metric)| :: Tiers(metric)[j].threshold < Tiers(metric)[i].threshold
  {
  }

  /** A greater value never earns a lower tier of the same table. */
  lemma ImpactLabelMonotone(metric: string, x: real, y: real)
    requires x <= y
    ensures TierIndex(Tiers(metric), Some(y)) <= TierIndex(Tiers(metric), Some(x))
  {
    TierIndexMonotone(Tiers(metric), x, y);
  }

  /** A PER of 25 is an MVP's; just under it is not. */
  lemma PerExamples()
    ensures ImpactLabel("PER", Some(25.0)) == "MVP"
    ensures ImpactLabel("PER", Some(24.9)) == "Excellent"
  {
    var tiers := Tiers("PER");
    assert tiers[0] == Tier(25.0, "MVP") && tiers[1] == Tier(20.0, "Excellent");
    assert TierIndex(tiers, Some(24.9)) == 1 + TierIndex(tiers[1..], Some(24.9));
  }

  /** A BPM of -100 is still a tier, below it there is none; NaN reaches no
      tier either. */
  lemma BpmExamples()
    ensures ImpactLabel("BPM", Some(-100.0)) == "Négatif"
    ensures ImpactLabel("BPM", Some(-100.5)) == "-"
    ensures ImpactLabel("BPM", None) == "-"
  {
    var tiers := Tiers("BPM");
    ImpactLabelMeaning("BPM", Some(-100.0));
    ImpactLabelMeaning("BPM", Some(-100.5));
    ImpactLabelMeaning("BPM", None);
    TierIndexFirst(tiers, Some(-100.0));
    assert Reaches(Some(-100.0), tiers[4]);
  }

  /** A metric without a table earns no label. */
  lemma UnknownMetric(metric: string, value: Option<real>)
    requires metric !in {"AST/TOV", "PER", "BPM", "OBPM", "DBPM", "WS"}
    ensures ImpactLabel(metric, value) == "-"
  {
  }

  // ---------------------------------------------------------------------
  // calculateVerdict
  // ---------------------------------------------------------------------

  const Points: string := "PTS_per_game"
  const Rebounds: string := "REB_per_game"
  const Assists: string := "AST_per_game"
  const Bpm: string := "BPM"
  const WinShares: string := "WS"
  const Per: string := "PER"
  const PlayerName: string := "Player"

  /** What the verdict reads of a record without string coercion: the six
      statistics and the numeric salary are numbers, '' or undefined, and
      the name is text or undefined. */
  predicate Scorable(player: map<string, Value>) {
    && NumberLike(Get(player, Points)) && NumberLike(Get(player, Rebounds))
    && NumberLike(Get(player, Assists)) && NumberLike(Get(player, Bpm))
    && NumberLike(Get(player, WinShares)) && NumberLike(Get(player, Per))
    && !Get(player, Normalize.SalaryNumeric).Str?
    && !Get(player, PlayerName).Num?
  }

  /** The weighted performance score (js/app.js:622-629), each statistic
      read as 0 when missing, empty or NaN. */
  function PerformanceScore(player: map<string, Value>): real
    requires Scorable(player)
  {
    OrZero(Get(player, Points)) * 2.0 + OrZero(Get(player, Rebounds)) * 1.2
      + OrZero(Get(player, Assists)) * 1.5 + OrZero(Get(player, Bpm)) * 2.0
      + OrZero(Get(player, WinShares)) * 1.5 + OrZero(Get(player, Per)) * 1.0
  }

  /** `SalaryNumeric > 0`: false for NaN and undefined. */
  function PaidSalary(player: map<string, Value>): (r: real)
    ensures r >= 0.0
    ensures r > 0.0 <==> Get(player, Normalize.SalaryNumeric).Num? && Get(player, Normalize.SalaryNumeric).n.Some?
                          && Get(player, Normalize.SalaryNumeric).n.value > 0.0
  {
    var s := Get(player, Normalize.SalaryNumeric);
    if s.Num? && s.n.Some? && s.n.value > 0.0 then s.n.value else 0.0
  }

  /** The value index (js/app.js:632-635): the score per million of salary,
      and 0 without a positive salary. */
  function ValueIndex(player: map<string, Value>): (r: real)
    requires Scorable(player)
    ensures PaidSalary(player) == 0.0 ==> r == 0.0
    ensures PaidSalary(player) > 0.0 ==> r * PaidSalary(player) == PerformanceScore(player) * 1000000.0
  {
    var millions := if PaidSalary(player) > 0.0 then PaidSalary(player) / 1000000.0 else 0.0;
    if millions > 0.0 then PerformanceScore(player) / millions else 0.0
  }

  datatype Pastille = Green | Yellow | Red

  /** The image file of each pastille. */
  function PastilleFile(p: Pastille): string {
    match p
    case Green => "pastille_verte.svg"
    case Yellow => "pastille_jaune.svg"
    case Red => "pastille_rouge.svg"
  }

  /** The five bands of the verdict, best value first. */
  datatype Band = Bargain | GreatValue | FairValue | SlightlyOverpaid | Overpaid

  function BandPastille(b: Band): Pastille {
    match b
    case Bargain => Green
    case GreatValue => Green
    case FairValue => Yellow
    case SlightlyOverpaid => Yellow
    case Overpaid => Red
  }

  /** The sentence shown for a band, after the player's name. */
  function BandSentence(b: Band): string {
    match b
    case Bargain => " est largement sous-payé ! C'est une excellente affaire pour son équipe."
    case GreatValue => " offre un excellent rapport qualité/prix. Une belle acquisition."
    case FairValue => " a un rapport qualité/prix correct, avec une légère sur-évaluation salariale."
    case SlightlyOverpaid => " est un peu surpayé relativement à ses performances."
    case Overpaid => " est clairement surpayé pour ses performances actuelles."
  }

  /** The lower bounds of the bands, each one strict, best band first; an
      index above none of them is `Overpaid`. */
  const Bounds: seq<(real, Band)> := [(3.5, Bargain), (2.2, GreatValue), (1.5, FairValue), (1.0, SlightlyOverpaid)]

  /** The first band whose bound `index` exceeds. */
  function BandFrom(bounds: seq<(real, Band)>, index: real): Band {
    if bounds == [] then Overpaid
    else if index > bounds[0].0 then bounds[0].1
    else BandFrom(bounds[1..], index)
  }

  function BandOf(index: real): Band {
    BandFrom(Bounds, index)
  }

  /** `${player.Player}`: the name, or "undefined" without one. */
  function NameText(player: map<string, Value>): string
    requires Scorable(player)
  {
    match Get(player, PlayerName)
    case Str(s) => s
    case Undef => "undefined"
  }

  /** A verdict's text: a fixed phrase, or the player's name followed by
      the sentence of a band. */
  datatype Sentence = Phrase(s: string) | About(name: string, band: Band)

  function Render(t: Sentence): string {
    match t
    case Phrase(s) => s
    case About(name, band) => name + BandSentence(band)
  }

  datatype Verdict = Verdict(pastille: Pastille, text: string, index: real)

  /** `calculateVerdict(player)` (js/app.js:620-663): the score, the value
      index, then the chain of strict comparisons that picks the pastille
      and the sentence. */
  method CalculateVerdict(player: map<string, Value>) returns (verdict: Verdict)
    requires Scorable(player)
    ensures verdict.index == ValueIndex(player)
    ensures verdict.pastille == BandPastille(BandOf(verdict.index))
    ensures verdict.text == NameText(player) + BandSentence(BandOf(verdict.index))
  {
    var pts := OrZero(Get(player, Points));
    var reb := OrZero(Get(player, Rebounds));
    var ast := OrZero(Get(player, Assists));
    var bpm := OrZero(Get(player, Bpm));
    var ws := OrZero(Get(player, WinShares));
    var per := OrZero(Get(player, Per));
    var performanceScore := pts * 2.0 + reb * 1.2 + ast * 1.5 + bpm * 2.0 + ws * 1.5 + per * 1.0;
    var salary := Get(player, Normalize.SalaryNumeric);
    var salaryMillions := if salary.Num? && salary.n.Some? && salary.n.value > 0.0 then salary.n.value / 1000000.0 else 0.0;
    assert performanceScore == PerformanceScore(player);
    assert salaryMillions == if PaidSalary(player) > 0.0 then PaidSalary(player) / 1000000.0 else 0.0;
    var valueIndex := if salaryMillions > 0.0 then performanceScore / salaryMillions else 0.0;
    var pastille, text := Classify(valueIndex, NameText(player));
    verdict := Verdict(pastille, Render(text), valueIndex);
  }

  /** The chain of strict comparisons of `calculateVerdict`
      (js/app.js:638-656) that picks the pastille and the sentence, after
      the defaults it starts from. */
  method Classify(valueIndex: real, name: string) returns (pastille: Pastille, text: Sentence)
    ensures pastille == BandPastille(BandOf(valueIndex))
    ensures text == About(name, BandOf(valueIndex))
  {
    BandOfUnrolled(valueIndex);
    pastille := Yellow;
    text := Phrase("Bon rapport qualité/prix");
    if valueIndex > 3.5 {
      pastille := Green;
      text := About(name, Bargain);
    } else if valueIndex > 2.2 {
      pastille := Green;
      text := About(name, GreatValue);
    } else if valueIndex > 1.5 {
      pastille := Yellow;
      text := About(name, FairValue);
    } else if valueIndex > 1.0 {
      pastille := Yellow;
      text := About(name, SlightlyOverpaid);
    } else {
      pastille := Red;
      text := About(name, Overpaid);
    }
  }

  /** The bands in terms of the index: each bound is strict, so 3.5 is not
      a bargain and 1.0 is overpaid; green above 2.2, yellow in (1.0, 2.2],
      red at 1.0 and below. */
  lemma BandBounds(index: real)
    ensures BandOf(index) == Bargain <==> index > 3.5
    ensures BandOf(index) == GreatValue <==> 2.2 < index <= 3.5
    ensures BandOf(index) == FairValue <==> 1.5 < index <= 2.2
    ensures BandOf(index) == SlightlyOverpaid <==> 1.0 < index <= 1.5
    ensures BandOf(index) == Overpaid <==> index <= 1.0
    ensures BandPastille(BandOf(index)) == Green <==> index > 2.2
    ensures BandPastille(BandOf(index)) == Yellow <==> 1.0 < index <= 2.2
    ensures BandPastille(BandOf(index)) == Red <==> index <= 1.0
  {
    BandOfUnrolled(index);
  }

  /** `BandOf` written out bound by bound. */
  lemma BandOfUnrolled(index: real)
    ensures BandOf(index) == (if index > 3.5 then Bargain else if index > 2.2 then GreatValue
      else if index > 1.5 then FairValue else if index > 1.0 then SlightlyOverpaid else Overpaid)
  {
    var b0 := Bounds;
    var b1 := b0[1..];
    var b2 := b1[1..];
    var b3 := b2[1..];
    assert b0[0] == (3.5, Bargain) && b1[0] == (2.2, GreatValue);
    assert b2[0] == (1.5, FairValue) && b3[0] == (1.0, SlightlyOverpaid);
    assert b3[1..] == [];
    assert BandFrom(b0, index) == if index > 3.5 then Bargain else BandFrom(b1, index);
    assert BandFrom(b1, index) == if index > 2.2 then GreatValue else BandFrom(b2, index);
    assert BandFrom(b2, index) == if index > 1.5 then FairValue else BandFrom(b3, index);
    assert BandFrom(b3, index) == if index > 1.0 then SlightlyOverpaid else BandFrom(b3[1..], index);
  }

  function BandRank(b: Band): nat {
    match b
    case Bargain => 0
    case GreatValue => 1
    case FairValue => 2
    case SlightlyOverpaid => 3
    case Overpaid => 4
  }

  /** A greater index never earns a worse band. */
  lemma BandMonotone(x: real, y: real)
    requires x <= y
    ensures BandRank(BandOf(y)) <= BandRank(BandOf(x))
  {
    BandBounds(x);
    BandBounds(y);
  }

  /** Without a positive salary the index is 0 and the verdict is red. */
  lemma UnpaidIsRed(player: map<string, Value>)
    requires Scorable(player) && PaidSalary(player) == 0.0
    ensures ValueIndex(player) == 0.0 && BandPastille(BandOf(ValueIndex(player))) == Red
  {
    BandBounds(0.0);
  }

  /** Every record `normalizePlayer` builds can be scored. */
  lemma NormalizedScorable(raw: map<string, string>)
    ensures Scorable(Normalize.Normalized(raw))
  {
    var p := Normalize.Normalized(raw);
    Normalize.NormalizedAdded(raw);
    forall k | k in [Points, Rebounds, Assists, Bpm, WinShares, Per]
      ensures NumberLike(Get(p, k))
    {
      StatListed(k);
      if k in raw {
        NormalizedStat(raw, k);
      }
    }
    if PlayerName in raw {
      PlayerNameUnlisted();
      Normalize.UnlistedUnchanged(raw, PlayerName);
    }
  }

  lemma StatListed(k: string)
    requires k in [Points, Rebounds, Assists, Bpm, WinShares, Per]
    ensures k in Normalize.DecimalFields && k != Normalize.Age && k !in Normalize.Added
  {
  }

  lemma PlayerNameUnlisted()
    ensures PlayerName !in Normalize.Added && PlayerName !in Normalize.DecimalFields
    ensures PlayerName !in Normalize.PercentFields
  {
  }

  lemma NormalizedStat(raw: map<string, string>, k: string)
    requires k in raw && k in Normalize.DecimalFields && k != Normalize.Age && k !in Normalize.Added
    ensures NumberLike(Normalize.Normalized(raw)[k])
  {
    Normalize.NormalizedColumn(raw, k);
  }

  // ---------------------------------------------------------------------
  // The offensive/defensive split of updateOffDefChart
  // ---------------------------------------------------------------------

  /** The two percentages of the doughnut (js/app.js:859-865): the
      offensive score is OBPM plus a tenth of PER, the defensive score
      DBPM plus 2, each at least 0 and each input read as 0 when missing
      or NaN; each is its share of their total, which is taken as 1 when
      it is 0. */
  function OffDefSplit(obpm: Value, dbpm: Value, per: Value): (r: (real, real))
    requires NumberLike(obpm) && NumberLike(dbpm) && NumberLike(per)
    ensures 0.0 <= r.0 <= 100.0 && 0.0 <= r.1 <= 100.0
  {
    var offensive := Max(0.0, OrZero(obpm) + OrZero(per) / 10.0);
    var defensive := Max(0.0, OrZero(dbpm) + 2.0);
    var total := if offensive + defensive != 0.0 then offensive + defensive else 1.0;
    Fraction(offensive, total);
    Fraction(defensive, total);
    (offensive / total * 100.0, defensive / total * 100.0)
  }

  /** The two shares make up the whole doughnut, unless both scores are 0,
      and then both shares are 0. */
  lemma OffDefShares(obpm: Value, dbpm: Value, per: Value)
    requires NumberLike(obpm) && NumberLike(dbpm) && NumberLike(per)
    ensures var offensive := Max(0.0, OrZero(obpm) + OrZero(per) / 10.0);
      var defensive := Max(0.0, OrZero(dbpm) + 2.0);
      var r := OffDefSplit(obpm, dbpm, per);
      && (offensive + defensive > 0.0 ==> r.0 + r.1 == 100.0)
      && (offensive + defensive == 0.0 ==> r == (0.0, 0.0))
  {
    var offensive := Max(0.0, OrZero(obpm) + OrZero(per) / 10.0);
    var defensive := Max(0.0, OrZero(dbpm) + 2.0);
    var total := offensive + defensive;
    if total > 0.0 {
      Shares(offensive, defensive);
    }
  }

  lemma Shares(a: real, b: real)
    requires a + b > 0.0
    ensures a / (a + b) * 100.0 + b / (a + b) * 100.0 == 100.0
  {
    var t := a + b;
    SumOfQuotients(a, b, t);
    assert (a + b) / t == 1.0;
    assert a / t * 100.0 + b / t * 100.0 == (a / t + b / t) * 100.0;
  }

  lemma SumOfQuotients(a: real, b: real, t: real)
    requires t != 0.0
    ensures a / t + b / t == (a + b) / t
  {
  }
}
