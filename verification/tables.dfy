/** The four read-only reference tables the engine consults, the recipe line
    the session edits, and the first-row lookups the source performs with a
    boolean mask followed by `.values[0]`. A missing (NaN) cell is `None`. */
module Tables {
  import opened Wrappers
  import opened Sequences
  import Text

  /** A row of the ingredient table: description, food group name and
      kg CO2e emitted per kg of food. */
  datatype IngredientRow = IngredientRow(description: string, group: string, factor: Option<real>)

  /** The ten nutrient columns the nutrient-distance search compares. */
  datatype Nutrients = Nutrients(
    alcohol: Option<real>,
    caffeine: Option<real>,
    calcium: Option<real>,
    carbohydrate: Option<real>,
    cholesterol: Option<real>,
    lipid: Option<real>,
    polyunsaturated: Option<real>,
    saturated: Option<real>,
    iron: Option<real>,
    lactose: Option<real>)

  /** A row of the nutrient table. */
  datatype NutrientRow = NutrientRow(description: string, group: string, nutrients: Nutrients)

  /** A row of the unit table: a unit name and its factor to grams. */
  datatype UnitRow = UnitRow(fromUnit: string, factor: real)

  /** A row of the category footprint table: a footprint label ("Entity") and
      its kg CO2e per kg. */
  datatype FootprintRow = FootprintRow(entity: string, perKg: Option<real>)

  /** The reference data, loaded once and never changed by the engine. */
  datatype Reference = Reference(
    ingredients: seq<IngredientRow>,
    nutrients: seq<NutrientRow>,
    units: seq<UnitRow>,
    footprints: seq<FootprintRow>)

  /** A row of the user's recipe table; `emission` is in kg CO2e. */
  datatype RecipeLine = RecipeLine(category: string, ingredient: string, amount: real, unit: string, emission: real)

  /** The exceptions the source lets escape, named by their cause. */
  datatype Error =
    | UnknownUnit         // no unit row: `.values[0]` on an empty selection
    | IngredientNotFound  // `find_eligible_category` returns an unbound name
    | NotInRecipe         // the swapped ingredient has no row in the recipe
    | RowNotFound         // dropping a recipe position that does not exist

  /** The first unit row named exactly `u`. */
  function UnitIndex(units: seq<UnitRow>, u: string): (r: Option<nat>)
    ensures r.Some? ==> r.value < |units| && units[r.value].fromUnit == u
    ensures r.Some? ==> forall j :: 0 <= j < r.value ==> units[j].fromUnit != u
    ensures r.None? <==> forall j :: 0 <= j < |units| ==> units[j].fromUnit != u
  {
    FirstIndex(units, (row: UnitRow) => row.fromUnit == u)
  }

  /** The first ingredient row whose description equals `d` exactly. */
  function ExactIndex(ingredients: seq<IngredientRow>, d: string): (r: Option<nat>)
    ensures r.Some? ==> r.value < |ingredients| && ingredients[r.value].description == d
    ensures r.Some? ==> forall j :: 0 <= j < r.value ==> ingredients[j].description != d
    ensures r.None? <==> forall j :: 0 <= j < |ingredients| ==> ingredients[j].description != d
  {
    FirstIndex(ingredients, (row: IngredientRow) => row.description == d)
  }

  /** The first ingredient row whose description equals `d` once both are
      lower-cased and stripped. */
  function NormalizedIndex(ingredients: seq<IngredientRow>, d: string): (r: Option<nat>)
    ensures r.Some? ==>
              r.value < |ingredients| && Text.Normalize(ingredients[r.value].description) == Text.Normalize(d)
    ensures r.Some? ==> forall j :: 0 <= j < r.value ==>
      Text.Normalize(ingredients[j].description) != Text.Normalize(d)
    ensures r.None? <==> forall j :: 0 <= j < |ingredients| ==>
      Text.Normalize(ingredients[j].description) != Text.Normalize(d)
  {
    KeyIndex(ingredients, Text.Normalize(d))
  }

  /** The first ingredient row whose normalised description is `key`. */
  function KeyIndex(ingredients: seq<IngredientRow>, key: string): (r: Option<nat>)
    ensures r.Some? ==> r.value < |ingredients| && Text.Normalize(ingredients[r.value].description) == key
    ensures r.Some? ==> forall j :: 0 <= j < r.value ==> Text.Normalize(ingredients[j].description) != key
    ensures r.None? <==> forall j :: 0 <= j < |ingredients| ==> Text.Normalize(ingredients[j].description) != key
  {
    FirstIndex(ingredients, (row: IngredientRow) => Text.Normalize(row.description) == key)
  }

  /** The first nutrient row whose description equals `d` exactly. */
  function NutrientIndex(rows: seq<NutrientRow>, d: string): (r: Option<nat>)
    ensures r.Some? ==> r.value < |rows| && rows[r.value].description == d
    ensures r.Some? ==> forall j :: 0 <= j < r.value ==> rows[j].description != d
    ensures r.None? <==> forall j :: 0 <= j < |rows| ==> rows[j].description != d
  {
    FirstIndex(rows, (row: NutrientRow) => row.description == d)
  }

  /** The first recipe line whose ingredient is `d`. */
  function LineIndex(recipe: seq<RecipeLine>, d: string): (r: Option<nat>)
    ensures r.Some? ==> r.value < |recipe| && recipe[r.value].ingredient == d
    ensures r.Some? ==> forall j :: 0 <= j < r.value ==> recipe[j].ingredient != d
    ensures r.None? <==> forall j :: 0 <= j < |recipe| ==> recipe[j].ingredient != d
  {
    FirstIndex(recipe, (line: RecipeLine) => line.ingredient == d)
  }

  /** The emission factor of the first row described exactly `d`; `None`
      both when there is no such row and when its cell is NaN. */
  function FactorOf(ingredients: seq<IngredientRow>, d: string): (r: Option<real>)
    ensures r.Some? ==>
              exists j :: 0 <= j < |ingredients| && ingredients[j].description == d && ingredients[j].factor == r
    ensures ExactIndex(ingredients, d).None? ==> r.None?
    ensures ExactIndex(ingredients, d).Some? ==> r == ingredients[ExactIndex(ingredients, d).value].factor
  {
    match ExactIndex(ingredients, d)
    case None => None
    case Some(i) => ingredients[i].factor
  }
}
