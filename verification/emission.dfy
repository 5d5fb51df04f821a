/** Unit conversion, per-ingredient emission and recipe evaluation
    (`convert_units`, `calculate_total_emission_individual`,
    `create_ghg_label`, `evaluate_recipe`). */
module Emission {
  import opened Wrappers
  import opened Tables
  import Text
  import Sequences

  /** Per-meal baseline in kg CO2e: household food and beverage emissions
      (31368 + 12577 kt) over 15.3 million households, per day, per person
      of a three-person household. */
  const Baseline: real := ((31368.0 * 1000000000.0) + (12577.0 * 1000000000.0)) / (15.3 * 1000000.0) / 365.0 / 3.0 / 1000.0

  lemma BaselineValue()
    ensures 2.623 < Baseline < 2.6231
  {
  }

  /** `i` is the first unit row named exactly `unit`. */
  ghost predicate FirstUnitRow(units: seq<UnitRow>, unit: string, i: int) {
    && 0 <= i < |units|
    && units[i].fromUnit == unit
    && forall j :: 0 <= j < i ==> units[j].fromUnit != unit
  }

  /** A quantity times a rate: amount times grams per unit, or grams times kg
      CO2e per kg. */
  function Scaled(quantity: real, rate: real): real {
    quantity * rate
  }

  /** The factor of the first unit row named exactly `unit`, if any. */
  function UnitFactor(units: seq<UnitRow>, unit: string): (r: Option<real>)
    ensures r.None? <==> forall j :: 0 <= j < |units| ==> units[j].fromUnit != unit
    ensures r.Some? ==> exists i :: FirstUnitRow(units, unit, i) && units[i].factor == r.value
  {
    match UnitIndex(units, unit)
    case None => None
    case Some(i) =>
      assert FirstUnitRow(units, unit, i);
      Some(units[i].factor)
  }

  /** Quantity in grams: the amount times the factor of the first unit row
      with that exact name; an unknown unit is an error, never a default. */
  function ConvertUnits(units: seq<UnitRow>, amount: real, unit: string): (r: Result<real, Error>)
    ensures r.Failure? <==> forall j :: 0 <= j < |units| ==> units[j].fromUnit != unit
    ensures r.Failure? ==> r.error == UnknownUnit
    ensures r.Success? ==> UnitFactor(units, unit).Some? && r.value == Scaled(amount, UnitFactor(units, unit).value)
  {
    match UnitFactor(units, unit)
    case None => Failure(UnknownUnit)
    case Some(k) => Success(Scaled(amount, k))
  }

  /** The emission factor the lenient lookup uses: that of the first row whose
      lower-cased, stripped description equals the lower-cased, stripped food
      name, or `None` when there is no such row or its cell is NaN. */
  function LenientFactor(ingredients: seq<IngredientRow>, food: string): (r: Option<real>)
    ensures r.Some? ==>
              exists j :: 0 <= j < |ingredients| && Text.Normalize(ingredients[j].description) == Text.Normalize(food)
                          && ingredients[j].factor == r
    ensures (forall j :: 0 <= j < |ingredients| ==> Text.Normalize(ingredients[j].description) != Text.Normalize(food))
            ==> r.None?
    ensures NormalizedIndex(ingredients, food).Some? ==> r == ingredients[NormalizedIndex(ingredients, food).value].factor
  {
    match NormalizedIndex(ingredients, food)
    case None => None
    case Some(i) => ingredients[i].factor
  }

  /** Emission of `amount` `unit` of `food`, in grams times kg CO2e per kg (the
      caller divides by 1000). The unit is converted first, so an unknown unit
      fails whatever the food; an unknown food or a NaN factor gives 0. */
  function IndividualEmission(ref: Reference, food: string, amount: real, unit: string): (r: Result<real, Error>)
    ensures r.Failure? <==> forall j :: 0 <= j < |ref.units| ==> ref.units[j].fromUnit != unit
    ensures r.Failure? ==> r.error == UnknownUnit
    ensures r.Success? && LenientFactor(ref.ingredients, food).None? ==> r.value == 0.0
    ensures r.Success? && LenientFactor(ref.ingredients, food).Some? ==>
              r.value == Scaled(ConvertUnits(ref.units, amount, unit).value, LenientFactor(ref.ingredients, food).value)
  {
    var grams :- ConvertUnits(ref.units, amount, unit);
    match LenientFactor(ref.ingredients, food)
    case None => Success(0.0)
    case Some(f) => Success(Scaled(grams, f))
  }

  /** Case and surrounding whitespace in the food name do not matter. */
  lemma EmissionIgnoresCaseAndPadding(ref: Reference, a: string, b: string, amount: real, unit: string)
    requires Text.Normalize(a) == Text.Normalize(b)
    ensures IndividualEmission(ref, a, amount, unit) == IndividualEmission(ref, b, amount, unit)
  {
    LenientFactorNormalized(ref.ingredients, a, b);
  }

  lemma LenientFactorNormalized(ingredients: seq<IngredientRow>, a: string, b: string)
    requires Text.Normalize(a) == Text.Normalize(b)
    ensures LenientFactor(ingredients, a) == LenientFactor(ingredients, b)
  {
    assert NormalizedIndex(ingredients, a) == KeyIndex(ingredients, Text.Normalize(a));
    assert NormalizedIndex(ingredients, b) == KeyIndex(ingredients, Text.Normalize(b));
  }

  lemma ScaledNonNegative(x: real, y: real)
    requires x >= 0.0 && y >= 0.0
    ensures Scaled(x, y) >= 0.0
  {
  }

  /** With non-negative amounts, unit factors and emission factors the
      emission is non-negative. */
  lemma EmissionNonNegative(ref: Reference, food: string, amount: real, unit: string)
    requires amount >= 0.0
    requires forall j :: 0 <= j < |ref.units| ==> ref.units[j].factor >= 0.0
    requires forall j :: 0 <= j < |ref.ingredients| && ref.ingredients[j].factor.Some? ==> ref.ingredients[j].factor.value >= 0.0
    ensures IndividualEmission(ref, food, amount, unit).Success? ==> IndividualEmission(ref, food, amount, unit).value >= 0.0
  {
    var r := IndividualEmission(ref, food, amount, unit);
    if r.Success? && LenientFactor(ref.ingredients, food).Some? {
      var f := LenientFactor(ref.ingredients, food).value;
      var k := UnitFactor(ref.units, unit).value;
      var g := ConvertUnits(ref.units, amount, unit).value;
      assert f >= 0.0;
      assert k >= 0.0;
      ScaledNonNegative(amount, k);
      assert g >= 0.0;
      ScaledNonNegative(g, f);
      assert r.value == Scaled(g, f);
    }
  }

  /** The three impact labels. */
  datatype Label = HighImpact | MediumImpact | LowImpact

  /** Position of a label on the impact scale. */
  function Severity(l: Label): nat {
    match l
    case LowImpact => 0
    case MediumImpact => 1
    case HighImpact => 2
  }

  /** Classification of a total against a baseline: above it is high, above
      half of it is medium, and at or below half of it is low. */
  function GhgLabel(total: real, baseline: real): (l: Label)
    ensures l == HighImpact <==> total > baseline
    ensures l == MediumImpact <==> baseline * 0.5 < total <= baseline
    ensures l == LowImpact <==> total <= baseline * 0.5 && total <= baseline
  {
    if total > baseline then HighImpact
    else if total > baseline * 0.5 then MediumImpact
    else LowImpact
  }

  /** A larger total never gets a milder label. */
  lemma {:induction false} LabelMonotone(t1: real, t2: real, baseline: real)
    requires t1 <= t2
    ensures Severity(GhgLabel(t1, baseline)) <= Severity(GhgLabel(t2, baseline))
  {
  }

  /** Sum of the recipe's emission column. */
  function Total(recipe: seq<RecipeLine>): (t: real)
    ensures |recipe| == 0 ==> t == 0.0
    ensures |recipe| == 1 ==> t == recipe[0].emission
  {
    if |recipe| == 0 then 0.0 else recipe[0].emission + Total(recipe[1..])
  }

  /** Lines that each emit a non-negative amount sum to a non-negative total. */
  lemma {:induction false} TotalNonNegative(recipe: seq<RecipeLine>)
    requires forall i :: 0 <= i < |recipe| ==> recipe[i].emission >= 0.0
    ensures Total(recipe) >= 0.0
  {
    if |recipe| > 0 {
      assert forall i :: 0 <= i < |recipe[1..]| ==> recipe[1..][i] == recipe[i + 1];
      TotalNonNegative(recipe[1..]);
    }
  }

  lemma {:induction false} TotalAppend(a: seq<RecipeLine>, b: seq<RecipeLine>)
    ensures Total(a + b) == Total(a) + Total(b)
  {
    if |a| == 0 {
      assert a + b == b;
    } else {
      assert (a + b)[1..] == a[1..] + b;
      TotalAppend(a[1..], b);
    }
  }

  /** Taking line `i` out of a recipe lowers the total by its emission. */
  lemma TotalRemove(b: seq<RecipeLine>, i: int)
    requires 0 <= i < |b|
    ensures Total(b) == b[i].emission + Total(b[..i] + b[i + 1..])
  {
    var pre, post := b[..i], b[i + 1..];
    var mid := [b[i]] + post;
    assert mid[1..] == post;
    assert Total(mid) == b[i].emission + Total(post);
    assert b == pre + mid;
    TotalAppend(pre, mid);
    TotalAppend(pre, post);
  }

  /** The total does not depend on the order of the lines. */
  lemma {:induction false} TotalPermutation(a: seq<RecipeLine>, b: seq<RecipeLine>)
    requires multiset(a) == multiset(b)
    ensures Total(a) == Total(b)
  {
    if |a| == 0 {
      assert |b| == |multiset(b)| == 0;
    } else {
      var x := a[0];
      assert x in multiset(b);
      var i :| 0 <= i < |b| && b[i] == x;
      var rest := b[..i] + b[i + 1..];
      Sequences.PermutationRemoveMatch(a, b, i);
      TotalPermutation(a[1..], rest);
      TotalRemove(b, i);
    }
  }

  /** Outcome of evaluating a recipe. */
  datatype Evaluation = Evaluation(totalKg: real, impact: Label)

  /** The recipe's summed emission and that sum's label against the baseline. */
  function EvaluateRecipe(recipe: seq<RecipeLine>): (e: Evaluation)
    ensures e.totalKg == Total(recipe)
    ensures e.impact == HighImpact <==> e.totalKg > Baseline
    ensures e.impact == MediumImpact <==> Baseline * 0.5 < e.totalKg <= Baseline
    ensures e.impact == LowImpact <==> e.totalKg <= Baseline * 0.5
    ensures |recipe| == 0 ==> e == Evaluation(0.0, LowImpact)
  {
    Evaluation(Total(recipe), GhgLabel(Total(recipe), Baseline))
  }

  /** Reordering the lines changes neither the total nor the label. */
  lemma EvaluatePermutation(a: seq<RecipeLine>, b: seq<RecipeLine>)
    requires multiset(a) == multiset(b)
    ensures EvaluateRecipe(a) == EvaluateRecipe(b)
  {
    TotalPermutation(a, b);
  }
}
