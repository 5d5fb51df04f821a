/** Category eligibility (`map_category`, `find_eligible_category`): the
    ingredient categories whose footprint label emits strictly less per kg
    than a given food. */
module Eligibility {
  import opened Wrappers
  import opened Sequences
  import opened Tables

  /** The many-to-one alias map from ingredient-table food groups to
      footprint-table labels, in the map's own order. */
  const CategoryAliases: seq<(string, string)> := [
    ("Dairy and Egg Products", "Dairy Products"),
    ("Spices and Herbs", "Species"),
    ("Fats and Oils", "Oils"),
    ("Poultry Products", "Poultry Meat"),
    ("Soups, Sauces and Gravies", "Sauces"),
    ("Sausages and Luncheon meats", "Pig Meat"),
    ("Breakfast cereals", "Cereals"),
    ("Fruits and fruit juices", "Fruits"),
    ("Pork Products", "Pig Meat"),
    ("Vegetables and Vegetable Products", "Other Vegetables"),
    ("Nuts and Seeds", "Nuts"),
    ("Beef Products", "Beef (dairy herd)"),
    ("Finfish and Shellfish Products", "Fish (farmed)"),
    ("Legumes and Legume Products", "Legumes"),
    ("Lamb, Veal and Game", "Lamb & Mutton"),
    ("Baked Products", "Wheat & Rye"),
    ("Sweets", "Sweets"),
    ("Beverages", "Beverages"),
    ("Cereals, Grains and Pasta", "Cereals")
  ]

  /** The map's keys, in order. */
  function AliasKeys(aliases: seq<(string, string)>): (r: seq<string>)
    ensures |r| == |aliases|
    ensures forall i :: 0 <= i < |aliases| ==> r[i] == aliases[i].0
  {
    seq(|aliases|, i requires 0 <= i < |aliases| => aliases[i].0)
  }

  /** The map's values, in order (`map_category.values()`). */
  function AliasValues(aliases: seq<(string, string)>): (r: seq<string>)
    ensures |r| == |aliases|
    ensures forall i :: 0 <= i < |aliases| ==> r[i] == aliases[i].1
  {
    seq(|aliases|, i requires 0 <= i < |aliases| => aliases[i].1)
  }

  /** The footprint table lists `label` with a known figure strictly below `f`. */
  ghost predicate Cheaper(footprints: seq<FootprintRow>, entity: string, f: real) {
    exists j :: 0 <= j < |footprints| && footprints[j].entity == entity
                && footprints[j].perKg.Some? && footprints[j].perKg.value < f
  }

  /** Labels whose figure is strictly below `f`, in table order; a NaN figure
      never qualifies. */
  function CheaperEntities(footprints: seq<FootprintRow>, f: real): (r: seq<string>)
    ensures forall e :: e in r <==> Cheaper(footprints, e, f)
  {
    if |footprints| == 0 then []
    else
      var rest := CheaperEntities(footprints[1..], f);
      assert forall e :: Cheaper(footprints, e, f) <==>
          (footprints[0].entity == e && footprints[0].perKg.Some? && footprints[0].perKg.value < f)
          || Cheaper(footprints[1..], e, f) by {
        forall e | Cheaper(footprints, e, f)
          ensures (footprints[0].entity == e && footprints[0].perKg.Some? && footprints[0].perKg.value < f)
                  || Cheaper(footprints[1..], e, f)
        {
          var j :| 0 <= j < |footprints| && footprints[j].entity == e
                   && footprints[j].perKg.Some? && footprints[j].perKg.value < f;
          if j > 0 {
            assert footprints[1..][j - 1] == footprints[j];
          }
        }
        forall e | Cheaper(footprints[1..], e, f)
          ensures Cheaper(footprints, e, f)
        {
          var j :| 0 <= j < |footprints[1..]| && footprints[1..][j].entity == e
                   && footprints[1..][j].perKg.Some? && footprints[1..][j].perKg.value < f;
          assert footprints[j + 1] == footprints[1..][j];
        }
      }
      if footprints[0].perKg.Some? && footprints[0].perKg.value < f then [footprints[0].entity] + rest
      else rest
  }

  /** The labels of `labels` that some category aliases to (line 81). */
  function AliasedLabels(labels: seq<string>, aliases: seq<(string, string)>): (r: seq<string>)
    ensures forall l :: l in r <==> l in labels && exists i :: 0 <= i < |aliases| && aliases[i].1 == l
    ensures IsSubsequence(r, labels)
  {
    var values := AliasValues(aliases);
    Filter(labels, (l: string) => l in values)
  }

  /** Some entry of `aliases` maps key `k` to one of `labels`. */
  ghost predicate MapsInto(aliases: seq<(string, string)>, k: string, labels: seq<string>) {
    exists i :: 0 <= i < |aliases| && aliases[i].0 == k && aliases[i].1 in labels
  }

  /** The keys of `aliases` whose value is among `labels`, in map order
      (line 82). */
  function KeysFor(aliases: seq<(string, string)>, labels: seq<string>): (r: seq<string>)
    ensures forall k :: k in r <==> MapsInto(aliases, k, labels)
    ensures IsSubsequence(r, AliasKeys(aliases))
  {
    if |aliases| == 0 then []
    else
      var rest := KeysFor(aliases[1..], labels);
      assert AliasKeys(aliases) == [aliases[0].0] + AliasKeys(aliases[1..]);
      assert forall k :: MapsInto(aliases, k, labels) <==>
          (aliases[0].0 == k && aliases[0].1 in labels) || MapsInto(aliases[1..], k, labels) by {
        forall k | MapsInto(aliases, k, labels)
          ensures (aliases[0].0 == k && aliases[0].1 in labels) || MapsInto(aliases[1..], k, labels)
        {
          var i :| 0 <= i < |aliases| && aliases[i].0 == k && aliases[i].1 in labels;
          if i > 0 {
            assert aliases[1..][i - 1] == aliases[i];
          }
        }
        forall k | MapsInto(aliases[1..], k, labels)
          ensures MapsInto(aliases, k, labels)
        {
          var i :| 0 <= i < |aliases[1..]| && aliases[1..][i].0 == k && aliases[1..][i].1 in labels;
          assert aliases[i + 1] == aliases[1..][i];
        }
      }
      if aliases[0].1 in labels then
        [aliases[0].0] + rest
      else
        SubsequenceCons(rest, AliasKeys(aliases[1..]), aliases[0].0);
        rest
  }

  /** Every key occurs once in the map. */
  predicate DistinctKeys(aliases: seq<(string, string)>) {
    forall i, j :: 0 <= i < j < |aliases| ==> aliases[i].0 != aliases[j].0
  }

  /** A subsequence of a duplicate-free sequence is duplicate-free. */
  lemma {:induction false} SubsequenceNoDuplicates(a: seq<string>, b: seq<string>)
    requires IsSubsequence(a, b) && NoDuplicates(b)
    ensures NoDuplicates(a)
    decreases |b|
  {
    if |a| > 0 {
      assert NoDuplicates(b[1..]) by {
        forall i, j | 0 <= i < j < |b[1..]| ensures b[1..][i] != b[1..][j] {
          assert b[1..][i] == b[i + 1] && b[1..][j] == b[j + 1];
        }
      }
      if a[0] == b[0] {
        SubsequenceNoDuplicates(a[1..], b[1..]);
        SubsequenceMembers(a[1..], b[1..]);
        forall j | 0 < j < |a| ensures a[0] != a[j] {
          assert a[j] == a[1..][j - 1];
          assert a[j] in b[1..];
        }
      } else {
        SubsequenceNoDuplicates(a, b[1..]);
      }
    }
  }

  /** Every element of a subsequence is an element of the whole. */
  lemma {:induction false} SubsequenceMembers(a: seq<string>, b: seq<string>)
    requires IsSubsequence(a, b)
    ensures forall x :: x in a ==> x in b
    decreases |b|
  {
    if |a| > 0 {
      if a[0] == b[0] {
        SubsequenceMembers(a[1..], b[1..]);
        assert forall x :: x in a ==> x == a[0] || x in a[1..];
      } else {
        SubsequenceMembers(a, b[1..]);
      }
    }
  }

  /** The keys of a map without repeated keys have no duplicates. */
  lemma DistinctKeysNoDuplicates(aliases: seq<(string, string)>)
    requires DistinctKeys(aliases)
    ensures NoDuplicates(AliasKeys(aliases))
  {
    var keys := AliasKeys(aliases);
    forall i, j | 0 <= i < j < |keys| ensures keys[i] != keys[j] {
      assert keys[i] == aliases[i].0 && keys[j] == aliases[j].0;
    }
  }

  lemma CategoryAliasKeysDistinct()
    ensures DistinctKeys(CategoryAliases)
    ensures NoDuplicates(AliasKeys(CategoryAliases))
  {
    forall i, j | 0 <= i < j < |CategoryAliases| ensures CategoryAliases[i].0 != CategoryAliases[j].0 {
      var a, b := CategoryAliases[i].0, CategoryAliases[j].0;
      if |a| == |b| {
        assert a[0] != b[0];
      }
    }
    DistinctKeysNoDuplicates(CategoryAliases);
  }

  /** The eligible category names for a food whose factor is `f`: the keys of
      the alias map whose label the footprint table lists strictly below `f`,
      in map order, each once. */
  function EligibleKeys(footprints: seq<FootprintRow>, f: real): (r: seq<string>)
    ensures forall k :: k in r <==>
              exists i :: 0 <= i < |CategoryAliases| && CategoryAliases[i].0 == k && Cheaper(footprints, CategoryAliases[i].1, f)
    ensures IsSubsequence(r, AliasKeys(CategoryAliases))
    ensures NoDuplicates(r)
  {
    var labels := AliasedLabels(CheaperEntities(footprints, f), CategoryAliases);
    var r := KeysFor(CategoryAliases, labels);
    CategoryAliasKeysDistinct();
    SubsequenceNoDuplicates(r, AliasKeys(CategoryAliases));
    r
  }

  /** `find_eligible_category`: fails when the food has no row in the
      ingredient table (exact description match); a NaN factor makes no
      category eligible. */
  function FindEligibleCategory(ref: Reference, food: string): (r: Result<seq<string>, Error>)
    ensures r.Failure? <==> forall j :: 0 <= j < |ref.ingredients| ==> ref.ingredients[j].description != food
    ensures r.Failure? ==> r.error == IngredientNotFound
    ensures r.Success? && FactorOf(ref.ingredients, food).None? ==> r.value == []
    ensures r.Success? && FactorOf(ref.ingredients, food).Some? ==>
              r.value == EligibleKeys(ref.footprints, FactorOf(ref.ingredients, food).value)
  {
    match ExactIndex(ref.ingredients, food)
    case None => Failure(IngredientNotFound)
    case Some(i) =>
      match ref.ingredients[i].factor
      case None => Success([])
      case Some(f) => Success(EligibleKeys(ref.footprints, f))
  }

  /** A lower food factor makes no new category eligible. */
  lemma EligibleMonotone(footprints: seq<FootprintRow>, f1: real, f2: real)
    requires f1 <= f2
    ensures forall k :: k in EligibleKeys(footprints, f1) ==> k in EligibleKeys(footprints, f2)
  {
  }

  /** A food at or below every known footprint figure has no eligible category. */
  lemma NothingBelowMinimum(footprints: seq<FootprintRow>, f: real)
    requires forall j :: 0 <= j < |footprints| && footprints[j].perKg.Some? ==> f <= footprints[j].perKg.value
    ensures EligibleKeys(footprints, f) == []
  {
    var r := EligibleKeys(footprints, f);
    if |r| > 0 {
      HeadIsMember(r);
      assert false;
    }
  }

  /** Two categories sharing a label are eligible together or not at all. */
  lemma SharedLabelTogether(footprints: seq<FootprintRow>, f: real, i: int, j: int)
    requires 0 <= i < |CategoryAliases| && 0 <= j < |CategoryAliases|
    requires CategoryAliases[i].1 == CategoryAliases[j].1
    ensures CategoryAliases[i].0 in EligibleKeys(footprints, f) <==> CategoryAliases[j].0 in EligibleKeys(footprints, f)
  {
    CategoryAliasKeysDistinct();
    EligibleByLabel(footprints, f, i);
    EligibleByLabel(footprints, f, j);
  }

  /** A category is eligible exactly when its own label is cheaper. */
  lemma EligibleByLabel(footprints: seq<FootprintRow>, f: real, i: int)
    requires 0 <= i < |CategoryAliases|
    ensures CategoryAliases[i].0 in EligibleKeys(footprints, f) <==> Cheaper(footprints, CategoryAliases[i].1, f)
  {
    CategoryAliasKeysDistinct();
    var a := CategoryAliases;
    if a[i].0 in EligibleKeys(footprints, f) {
      var i' :| 0 <= i' < |a| && a[i'].0 == a[i].0 && Cheaper(footprints, a[i'].1, f);
      assert i' == i;
    }
  }

  /** Pork and sausages share "Pig Meat"; both cereal groups share "Cereals". */
  lemma SharedLabelExamples(footprints: seq<FootprintRow>, f: real)
    ensures "Pork Products" in EligibleKeys(footprints, f) <==> "Sausages and Luncheon meats" in EligibleKeys(footprints, f)
    ensures "Breakfast cereals" in EligibleKeys(footprints, f) <==> "Cereals, Grains and Pasta" in EligibleKeys(footprints, f)
  {
    SharedLabelTogether(footprints, f, 8, 5);
    SharedLabelTogether(footprints, f, 6, 18);
  }
}
