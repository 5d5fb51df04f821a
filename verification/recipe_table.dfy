/** The recipe table the session edits: add a line, remove the ticked lines,
    reset, swap in an accepted alternative, ask for another suggestion, and the
    savings summary shown on finalising. */
module RecipeTable {
  import opened Wrappers
  import opened Sequences
  import opened Tables
  import opened Emission
  import Equivalence

  /** An ingredient's emission in kg CO2e: the individual emission over
      1000. It fails, as that computation raises, when the unit is unknown. */
  function EmissionKg(ref: Reference, food: string, amount: real, unit: string): (r: Result<real, Error>)
    ensures r.Failure? <==> IndividualEmission(ref, food, amount, unit).Failure?
    ensures r.Failure? ==> r.error == UnknownUnit
    ensures r.Success? ==> r.value * 1000.0 == IndividualEmission(ref, food, amount, unit).value
  {
    var e :- IndividualEmission(ref, food, amount, unit);
    Success(e / 1000.0)
  }

  /** "Add Ingredient": one new line at the end carrying the ingredient's
      emission in kg, every earlier line as it was. When that emission cannot
      be computed the page stops before the button is reached, so nothing is
      added. */
  function AddIngredient(ref: Reference, recipe: seq<RecipeLine>, category: string, ingredient: string,
                         amount: real, unit: string): (r: Result<seq<RecipeLine>, Error>)
    ensures r.Failure? <==> EmissionKg(ref, ingredient, amount, unit).Failure?
    ensures r.Success? ==>
              && |r.value| == |recipe| + 1
              && r.value[..|recipe|] == recipe
              && r.value[|recipe|] == RecipeLine(category, ingredient, amount, unit, EmissionKg(ref, ingredient, amount, unit).value)
              && Total(r.value) == Total(recipe) + EmissionKg(ref, ingredient, amount, unit).value
  {
    var kg :- EmissionKg(ref, ingredient, amount, unit);
    var line := RecipeLine(category, ingredient, amount, unit, kg);
    TotalAppend(recipe, [line]);
    Success(recipe + [line])
  }

  /** The positions below `n` that are not selected, ascending. */
  function KeptPositions(n: nat, selected: set<nat>): (r: seq<nat>)
    ensures forall k :: 0 <= k < |r| ==> r[k] < n && r[k] !in selected
    ensures forall i :: 0 <= i < n && i !in selected ==> i in r
    ensures forall k, l :: 0 <= k < l < |r| ==> r[k] < r[l]
  {
    if n == 0 then []
    else
      var prev := KeptPositions(n - 1, selected);
      if n - 1 in selected then prev else prev + [n - 1]
  }

  /** "Remove Selected Items": drops the lines at the selected positions and
      keeps the others in order. Dropping a position the table does not have
      raises, as pandas' `drop` does. */
  function RemoveSelected(recipe: seq<RecipeLine>, selected: set<nat>): (r: Result<seq<RecipeLine>, Error>)
    ensures r.Failure? <==> exists i :: i in selected && i >= |recipe|
    ensures r.Failure? ==> r.error == RowNotFound
    ensures r.Success? ==> |r.value| == |KeptPositions(|recipe|, selected)|
    ensures r.Success? ==> forall k :: 0 <= k < |r.value| ==> r.value[k] == recipe[KeptPositions(|recipe|, selected)[k]]
  {
    if exists i :: i in selected && i >= |recipe| then Failure(RowNotFound)
    else
      var kept := KeptPositions(|recipe|, selected);
      Success(seq(|kept|, k requires 0 <= k < |kept| => recipe[kept[k]]))
  }

  /** The count of kept positions is `n` less the selected ones below `n`. */
  lemma {:induction false} KeptCount(n: nat, selected: set<nat>)
    requires forall i :: i in selected ==> i < n
    ensures |KeptPositions(n, selected)| == n - |selected|
    decreases n, 1
  {
    if n == 0 {
      assert selected == {};
    } else if n - 1 in selected {
      KeptCountSelectedLast(n, selected);
    } else {
      KeptCountKeptLast(n, selected);
    }
  }

  lemma {:induction false} KeptCountSelectedLast(n: nat, selected: set<nat>)
    requires n > 0 && n - 1 in selected
    requires forall i :: i in selected ==> i < n
    ensures |KeptPositions(n, selected)| == n - |selected|
    decreases n, 0
  {
    var rest := selected - {n - 1};
    assert forall i :: i in rest ==> i in selected && i != n - 1;
    KeptCount(n - 1, rest);
    KeptDropsSelected(n, selected, rest);
  }

  lemma {:induction false} KeptCountKeptLast(n: nat, selected: set<nat>)
    requires n > 0 && n - 1 !in selected
    requires forall i :: i in selected ==> i < n
    ensures |KeptPositions(n, selected)| == n - |selected|
    decreases n, 0
  {
    KeptCount(n - 1, selected);
    assert |KeptPositions(n, selected)| == |KeptPositions(n - 1, selected)| + 1;
  }

  /** A selected last position contributes nothing. */
  lemma KeptDropsSelected(n: nat, selected: set<nat>, rest: set<nat>)
    requires n > 0 && n - 1 in selected && rest == selected - {n - 1}
    ensures |rest| == |selected| - 1
    ensures KeptPositions(n, selected) == KeptPositions(n - 1, rest)
  {
    KeptIgnoresAbove(n - 1, selected, rest);
  }

  /** Only selections below `n` matter to the kept positions below `n`. */
  lemma {:induction false} KeptIgnoresAbove(n: nat, a: set<nat>, b: set<nat>)
    requires forall i :: 0 <= i < n ==> (i in a <==> i in b)
    ensures KeptPositions(n, a) == KeptPositions(n, b)
  {
    if n > 0 {
      KeptIgnoresAbove(n - 1, a, b);
    }
  }

  /** Removing removes exactly as many lines as are selected. */
  lemma RemoveCount(recipe: seq<RecipeLine>, selected: set<nat>)
    requires forall i :: i in selected ==> i < |recipe|
    ensures RemoveSelected(recipe, selected).Success?
    ensures |RemoveSelected(recipe, selected).value| == |recipe| - |selected|
  {
    KeptCount(|recipe|, selected);
  }

  /** With nothing selected every position is kept, in order. */
  lemma {:induction false} KeptNone(n: nat)
    ensures |KeptPositions(n, {})| == n
    ensures forall k :: 0 <= k < n ==> KeptPositions(n, {})[k] == k
  {
    if n > 0 {
      KeptNone(n - 1);
      assert KeptPositions(n, {}) == KeptPositions(n - 1, {}) + [n - 1];
    }
  }

  /** With nothing selected the recipe is unchanged. */
  lemma RemoveNothing(recipe: seq<RecipeLine>)
    ensures RemoveSelected(recipe, {}) == Success(recipe)
  {
    KeptNone(|recipe|);
    var r := RemoveSelected(recipe, {}).value;
    assert |r| == |recipe|;
    assert forall k :: 0 <= k < |r| ==> r[k] == recipe[k];
    assert r == recipe;
  }

  /** Selecting only the position just past `n` keeps every position below it. */
  lemma KeptLastSelected(n: nat)
    ensures KeptPositions(n + 1, {n}) == KeptPositions(n, {})
  {
    assert KeptPositions(n + 1, {n}) == KeptPositions(n, {n});
    KeptIgnoresAbove(n, {n}, {});
  }

  /** Selecting only the last line removes just that line. */
  lemma RemoveLast(t: seq<RecipeLine>)
    requires |t| > 0
    ensures RemoveSelected(t, {|t| - 1}) == Success(t[..|t| - 1])
  {
    var n := |t| - 1;
    var kept := KeptPositions(n + 1, {n});
    KeptLastSelected(n);
    KeptNone(n);
    var r := RemoveSelected(t, {n}).value;
    assert |r| == n;
    forall k | 0 <= k < n ensures r[k] == t[..n][k] {
      assert kept[k] == k;
    }
    assert r == t[..n];
  }

  /** Adding a line and then removing it restores the recipe. */
  lemma AddThenRemove(ref: Reference, recipe: seq<RecipeLine>, category: string, ingredient: string,
                      amount: real, unit: string)
    ensures AddIngredient(ref, recipe, category, ingredient, amount, unit).Success? ==>
              RemoveSelected(AddIngredient(ref, recipe, category, ingredient, amount, unit).value, {|recipe|}) == Success(recipe)
  {
    var added := AddIngredient(ref, recipe, category, ingredient, amount, unit);
    if added.Success? {
      RemoveLast(added.value);
    }
  }

  /** "Reset My Recipe!": an empty table. */
  function ResetRecipe(): (r: seq<RecipeLine>)
    ensures |r| == 0
    ensures EvaluateRecipe(r) == Evaluation(0.0, LowImpact)
  {
    []
  }

  /** The lines of `recipe` whose ingredient is not `d`, in order. */
  function Without(recipe: seq<RecipeLine>, d: string): (r: seq<RecipeLine>)
    ensures forall k :: 0 <= k < |r| ==> r[k].ingredient != d && r[k] in recipe
    ensures forall j :: 0 <= j < |recipe| && recipe[j].ingredient != d ==> recipe[j] in r
    ensures forall j :: 0 <= j < |recipe| && recipe[j].ingredient != d ==> multiset(r)[recipe[j]] == multiset(recipe)[recipe[j]]
    ensures IsSubsequence(r, recipe)
  {
    Filter(recipe, (line: RecipeLine) => line.ingredient != d)
  }

  /** The lines of `recipe` whose ingredient is `d`, in order. */
  function Only(recipe: seq<RecipeLine>, d: string): (r: seq<RecipeLine>)
    ensures forall k :: 0 <= k < |r| ==> r[k].ingredient == d && r[k] in recipe
    ensures forall j :: 0 <= j < |recipe| && recipe[j].ingredient == d ==> recipe[j] in r
    ensures forall j :: 0 <= j < |recipe| && recipe[j].ingredient == d ==> multiset(r)[recipe[j]] == multiset(recipe)[recipe[j]]
    ensures IsSubsequence(r, recipe)
  {
    Filter(recipe, (line: RecipeLine) => line.ingredient == d)
  }

  /** The total splits between the lines of `d` and the others. */
  lemma {:induction false} TotalSplit(recipe: seq<RecipeLine>, d: string)
    ensures Total(recipe) == Total(Without(recipe, d)) + Total(Only(recipe, d))
  {
    if |recipe| > 0 {
      TotalSplit(recipe[1..], d);
    }
  }

  /** The original line's emission, recomputed from the first line holding
      `original`, in kg. */
  function OriginalEmissionKg(ref: Reference, recipe: seq<RecipeLine>, original: string): (r: Result<real, Error>)
    ensures LineIndex(recipe, original).None? ==> r == Failure(NotInRecipe)
    ensures LineIndex(recipe, original).Some? ==>
              var line := recipe[LineIndex(recipe, original).value];
              match IndividualEmission(ref, original, line.amount, line.unit)
              case Failure(e) => r == Failure(e)
              case Success(v) => r.Success? && r.value * 1000.0 == v
  {
    match LineIndex(recipe, original)
    case None => Failure(NotInRecipe)
    case Some(i) => EmissionKg(ref, original, recipe[i].amount, recipe[i].unit)
  }

  /** "Save Ingredient". An amount of 0 changes nothing. Otherwise, when the
      replacement's emission for `amount` grams is strictly below the
      original's recomputed emission, every line of `original` is dropped and
      one line of `alternative` in grams is appended; if not, nothing changes.
      Either lookup raising leaves the table as it was. */
  function SaveIngredient(ref: Reference, recipe: seq<RecipeLine>, original: string, alternative: string,
                          amount: real, category: string): (r: Result<seq<RecipeLine>, Error>)
    ensures amount == 0.0 ==> r == Success(recipe)
    ensures amount != 0.0 ==>
              (r.Failure? <==> OriginalEmissionKg(ref, recipe, original).Failure?
                               || EmissionKg(ref, alternative, amount, "g").Failure?)
    ensures r.Success? && r.value != recipe ==>
              && amount != 0.0
              && EmissionKg(ref, alternative, amount, "g").value < OriginalEmissionKg(ref, recipe, original).value
              && r.value == Without(recipe, original)
                            + [RecipeLine(category, alternative, amount, "g", EmissionKg(ref, alternative, amount, "g").value)]
    ensures r.Success? && amount != 0.0
            && EmissionKg(ref, alternative, amount, "g").value < OriginalEmissionKg(ref, recipe, original).value ==>
              |r.value| > 0 && r.value[|r.value| - 1].ingredient == alternative
              && forall k :: 0 <= k < |r.value| - 1 ==> r.value[k].ingredient != original
    ensures r.Success? && amount != 0.0
            && EmissionKg(ref, alternative, amount, "g").value < OriginalEmissionKg(ref, recipe, original).value ==>
              r.value == Without(recipe, original)
                         + [RecipeLine(category, alternative, amount, "g", EmissionKg(ref, alternative, amount, "g").value)]
  {
    if amount == 0.0 then Success(recipe)
    else
      var before :- OriginalEmissionKg(ref, recipe, original);
      var after :- EmissionKg(ref, alternative, amount, "g");
      if after < before then
        Success(Without(recipe, original) + [RecipeLine(category, alternative, amount, "g", after)])
      else
        Success(recipe)
  }

  /** After a swap the total is the untouched lines' total plus the new
      line: the original's lines leave it, the alternative's line joins it. */
  lemma SwapTotal(recipe: seq<RecipeLine>, original: string, line: RecipeLine)
    ensures Total(Without(recipe, original) + [line]) == Total(recipe) - Total(Only(recipe, original)) + line.emission
  {
    TotalAppend(Without(recipe, original), [line]);
    assert Total([line]) == line.emission;
    TotalSplit(recipe, original);
  }

  /** When `original` sits on exactly one line and the new line emits less
      than it, a swap strictly lowers the recipe total. */
  lemma SwapLowersTotal(recipe: seq<RecipeLine>, original: string, line: RecipeLine)
    requires |Only(recipe, original)| == 1
    requires line.emission < Only(recipe, original)[0].emission
    ensures Total(Without(recipe, original) + [line]) < Total(recipe)
  {
    SwapTotal(recipe, original, line);
    var only := Only(recipe, original);
    assert only == [only[0]];
    assert Total(only) == only[0].emission;
  }

  /** What a session remembers between reruns: the recipe table, the
      "Another Selection" counter and the total recorded at the last
      evaluation. */
  datatype Session = Session(recipe: seq<RecipeLine>, attempt: nat, evaluatedKg: Option<real>)

  /** The session a new visitor starts with. */
  const Start: Session := Session([], 0, None)

  /** The user actions that touch the recipe table or the counter. */
  datatype Action =
    | Add(category: string, ingredient: string, amount: real, unit: string)
    | Remove(selected: set<nat>)
    | Reset
    | Evaluate
    | AnotherSelection
    | Save(original: string, alternative: string, amount: real, swapCategory: string)

  /** One action. An action that raises leaves the session as it was. */
  function Step(ref: Reference, s: Session, a: Action): (t: Session)
    ensures a.AnotherSelection? ==> t.attempt == s.attempt + 1
    ensures !a.AnotherSelection? ==> t.attempt == s.attempt
    ensures a.Reset? ==> t.recipe == [] && t.evaluatedKg == s.evaluatedKg
    ensures a.Evaluate? ==> t.evaluatedKg == Some(Total(s.recipe)) && t.recipe == s.recipe
    ensures !a.Evaluate? ==> t.evaluatedKg == s.evaluatedKg
    ensures a.AnotherSelection? ==> t.recipe == s.recipe
    ensures a.Add? && AddIngredient(ref, s.recipe, a.category, a.ingredient, a.amount, a.unit).Failure? ==> t == s
    ensures a.Remove? && RemoveSelected(s.recipe, a.selected).Failure? ==> t == s
    ensures a.Save? && SaveIngredient(ref, s.recipe, a.original, a.alternative, a.amount, a.swapCategory).Failure? ==> t == s
    ensures a.Add? && AddIngredient(ref, s.recipe, a.category, a.ingredient, a.amount, a.unit).Success? ==>
              t.recipe == AddIngredient(ref, s.recipe, a.category, a.ingredient, a.amount, a.unit).value
    ensures a.Remove? && RemoveSelected(s.recipe, a.selected).Success? ==>
              t.recipe == RemoveSelected(s.recipe, a.selected).value
    ensures a.Save? && SaveIngredient(ref, s.recipe, a.original, a.alternative, a.amount, a.swapCategory).Success? ==>
              t.recipe == SaveIngredient(ref, s.recipe, a.original, a.alternative, a.amount, a.swapCategory).value
  {
    match a
    case Add(c, i, amt, u) =>
      (match AddIngredient(ref, s.recipe, c, i, amt, u)
       case Success(r) => s.(recipe := r)
       case Failure(_) => s)
    case Remove(sel) =>
      (match RemoveSelected(s.recipe, sel)
       case Success(r) => s.(recipe := r)
       case Failure(_) => s)
    case Reset => s.(recipe := ResetRecipe())
    case Evaluate => s.(evaluatedKg := Some(EvaluateRecipe(s.recipe).totalKg))
    case AnotherSelection => s.(attempt := s.attempt + 1)
    case Save(o, alt, amt, c) =>
      (match SaveIngredient(ref, s.recipe, o, alt, amt, c)
       case Success(r) => s.(recipe := r)
       case Failure(_) => s)
  }

  function Run(ref: Reference, s: Session, actions: seq<Action>): Session
    decreases |actions|
  {
    if |actions| == 0 then s else Run(ref, Step(ref, s, actions[0]), actions[1..])
  }

  function CountAnother(actions: seq<Action>): nat {
    if |actions| == 0 then 0 else (if actions[0].AnotherSelection? then 1 else 0) + CountAnother(actions[1..])
  }

  /** The suggestion index only ever counts "Another Selection" presses from
      0; nothing, not even a reset, brings it back down. */
  lemma {:induction false} AttemptCountsPresses(ref: Reference, s: Session, actions: seq<Action>)
    ensures Run(ref, s, actions).attempt == s.attempt + CountAnother(actions)
    decreases |actions|
  {
    if |actions| > 0 {
      AttemptCountsPresses(ref, Step(ref, s, actions[0]), actions[1..]);
    }
  }

  lemma AttemptFromStart(ref: Reference, actions: seq<Action>)
    ensures Run(ref, Start, actions).attempt == CountAnother(actions)
  {
    AttemptCountsPresses(ref, Start, actions);
  }

  /** Every line carries the emission its own ingredient, amount and unit
      give: what "Add Ingredient" and "Save Ingredient" write. */
  ghost predicate Recorded(ref: Reference, recipe: seq<RecipeLine>) {
    forall k :: 0 <= k < |recipe| ==>
      EmissionKg(ref, recipe[k].ingredient, recipe[k].amount, recipe[k].unit) == Success(recipe[k].emission)
  }

  /** An added line records its own emission; earlier lines are untouched. */
  lemma AddKeepsRecorded(ref: Reference, recipe: seq<RecipeLine>, category: string, ingredient: string,
                         amount: real, unit: string)
    requires Recorded(ref, recipe)
    ensures AddIngredient(ref, recipe, category, ingredient, amount, unit).Success? ==>
              Recorded(ref, AddIngredient(ref, recipe, category, ingredient, amount, unit).value)
  {
    var r := AddIngredient(ref, recipe, category, ingredient, amount, unit);
    if r.Success? {
      var t := r.value;
      forall k | 0 <= k < |t|
        ensures EmissionKg(ref, t[k].ingredient, t[k].amount, t[k].unit) == Success(t[k].emission)
      {
        if k < |recipe| {
          assert t[k] == t[..|recipe|][k] == recipe[k];
        }
      }
    }
  }

  /** Removing lines keeps the others as they were. */
  lemma RemoveKeepsRecorded(ref: Reference, recipe: seq<RecipeLine>, selected: set<nat>)
    requires Recorded(ref, recipe)
    ensures RemoveSelected(recipe, selected).Success? ==> Recorded(ref, RemoveSelected(recipe, selected).value)
  {
    var r := RemoveSelected(recipe, selected);
    if r.Success? {
      var kept := KeptPositions(|recipe|, selected);
      forall k | 0 <= k < |r.value|
        ensures EmissionKg(ref, r.value[k].ingredient, r.value[k].amount, r.value[k].unit) == Success(r.value[k].emission)
      {
        assert r.value[k] == recipe[kept[k]];
      }
    }
  }

  /** A swap keeps recorded lines and appends a line that records its own
      emission. */
  lemma SaveKeepsRecorded(ref: Reference, recipe: seq<RecipeLine>, original: string, alternative: string,
                          amount: real, category: string)
    requires Recorded(ref, recipe)
    ensures SaveIngredient(ref, recipe, original, alternative, amount, category).Success? ==>
              Recorded(ref, SaveIngredient(ref, recipe, original, alternative, amount, category).value)
  {
    var r := SaveIngredient(ref, recipe, original, alternative, amount, category);
    if r.Success? && r.value != recipe {
      var kept := Without(recipe, original);
      var t := r.value;
      assert t == kept + [t[|t| - 1]];
      forall k | 0 <= k < |t|
        ensures EmissionKg(ref, t[k].ingredient, t[k].amount, t[k].unit) == Success(t[k].emission)
      {
        if k < |kept| {
          assert t[k] == kept[k];
          assert kept[k] in recipe;
        }
      }
    }
  }

  /** Every action keeps the recorded emissions in step with the lines. */
  lemma StepKeepsRecorded(ref: Reference, s: Session, a: Action)
    requires Recorded(ref, s.recipe)
    ensures Recorded(ref, Step(ref, s, a).recipe)
  {
    match a
    case Add(c, i, amt, u) => AddKeepsRecorded(ref, s.recipe, c, i, amt, u);
    case Remove(sel) => RemoveKeepsRecorded(ref, s.recipe, sel);
    case Reset =>
    case Evaluate =>
    case AnotherSelection =>
    case Save(o, alt, amt, c) => SaveKeepsRecorded(ref, s.recipe, o, alt, amt, c);
  }

  /** A session reached from a new one by any actions has its emissions
      recorded line by line. */
  lemma {:induction false} RunKeepsRecorded(ref: Reference, s: Session, actions: seq<Action>)
    requires Recorded(ref, s.recipe)
    ensures Recorded(ref, Run(ref, s, actions).recipe)
    decreases |actions|
  {
    if |actions| > 0 {
      StepKeepsRecorded(ref, s, actions[0]);
      RunKeepsRecorded(ref, Step(ref, s, actions[0]), actions[1..]);
    }
  }

  /** On a recorded recipe the recomputed original emission is the one its
      first line carries. */
  lemma RecordedOriginal(ref: Reference, recipe: seq<RecipeLine>, original: string)
    requires Recorded(ref, recipe)
    requires LineIndex(recipe, original).Some?
    ensures OriginalEmissionKg(ref, recipe, original) == Success(recipe[LineIndex(recipe, original).value].emission)
  {
    var i := LineIndex(recipe, original).value;
    assert EmissionKg(ref, recipe[i].ingredient, recipe[i].amount, recipe[i].unit) == Success(recipe[i].emission);
  }

  /** When `original` sits on one line, that line is the first one holding it. */
  lemma SingleLineIsFirst(recipe: seq<RecipeLine>, original: string)
    requires |Only(recipe, original)| == 1
    ensures LineIndex(recipe, original).Some?
    ensures recipe[LineIndex(recipe, original).value] == Only(recipe, original)[0]
  {
    var only := Only(recipe, original);
    assert only[0] in recipe;
    var i := LineIndex(recipe, original).value;
    assert recipe[i] in only;
    assert only == [only[0]];
  }

  /** On a recipe whose emissions are recorded and where `original` sits on
      one line, an accepted save strictly lowers the recipe total. */
  lemma SaveLowersTotal(ref: Reference, recipe: seq<RecipeLine>, original: string, alternative: string,
                        amount: real, category: string)
    requires Recorded(ref, recipe)
    requires |Only(recipe, original)| == 1
    ensures SaveIngredient(ref, recipe, original, alternative, amount, category).Success?
            && SaveIngredient(ref, recipe, original, alternative, amount, category).value != recipe ==>
              Total(SaveIngredient(ref, recipe, original, alternative, amount, category).value) < Total(recipe)
  {
    var r := SaveIngredient(ref, recipe, original, alternative, amount, category);
    if r.Success? && r.value != recipe {
      SingleLineIsFirst(recipe, original);
      RecordedOriginal(ref, recipe, original);
      var line := RecipeLine(category, alternative, amount, "g", EmissionKg(ref, alternative, amount, "g").value);
      assert line.emission < Only(recipe, original)[0].emission;
      SwapLowersTotal(recipe, original, line);
    }
  }

  /** In any session reached from a new one, a "Save Ingredient" that changes
      the table lowers its total when the original sat on a single line. */
  lemma SessionSaveLowersTotal(ref: Reference, actions: seq<Action>, original: string, alternative: string,
                               amount: real, category: string)
    requires |Only(Run(ref, Start, actions).recipe, original)| == 1
    ensures var s := Run(ref, Start, actions);
            var t := Step(ref, s, Save(original, alternative, amount, category));
            t.recipe != s.recipe ==> Total(t.recipe) < Total(s.recipe)
  {
    RunKeepsRecorded(ref, Start, actions);
    SaveStepLowersTotal(ref, Run(ref, Start, actions), original, alternative, amount, category);
  }

  /** The same for one "Save Ingredient" step from a recorded session. */
  lemma SaveStepLowersTotal(ref: Reference, s: Session, original: string, alternative: string,
                            amount: real, category: string)
    requires Recorded(ref, s.recipe)
    requires |Only(s.recipe, original)| == 1
    ensures var t := Step(ref, s, Save(original, alternative, amount, category));
            t.recipe != s.recipe ==> Total(t.recipe) < Total(s.recipe)
  {
    SaveLowersTotal(ref, s.recipe, original, alternative, amount, category);
  }

  /** Which message the final panel shows. */
  datatype Verdict = Reduced | HoldOn | NoMessage

  /** The figures of the final panel. */
  datatype Summary = Summary(currentKg: real, savedKg: real, vehicleKm: real, trees: int, verdict: Verdict)

  /** The final panel as written: success when the current total is below the
      evaluated one; otherwise "Hold On" only when the current total is at least
      `previewKg`, the emission last shown in the add panel. */
  function FinalizeAsWritten(recipe: seq<RecipeLine>, evaluatedKg: real, previewKg: real): (s: Summary)
    ensures s.currentKg == Total(recipe) && s.savedKg == evaluatedKg - s.currentKg
    ensures s.verdict == Reduced <==> s.currentKg < evaluatedKg
    ensures s.verdict == NoMessage <==> evaluatedKg <= s.currentKg < previewKg
    ensures s.vehicleKm * Equivalence.VehicleBase == s.savedKg
    ensures s.trees as real - 1.0 < s.savedKg / Equivalence.TreeCutoff <= s.trees as real
  {
    var current := Total(recipe);
    var saved := evaluatedKg - current;
    var verdict := if current < evaluatedKg then Reduced else if current >= previewKg then HoldOn else NoMessage;
    Summary(current, saved, Equivalence.CompareToVehicle(saved), Equivalence.Ceil(Equivalence.NumTrees(saved)), verdict)
  }

  /** An unchanged recipe whose add panel last previewed a heavier
      ingredient gets neither message. */
  lemma FinalizeAsWrittenSilent()
    ensures FinalizeAsWritten([RecipeLine("Beef Products", "Beef", 500.0, "g", 5.0)], 5.0, 6.0).verdict == NoMessage
  {
    var recipe := [RecipeLine("Beef Products", "Beef", 500.0, "g", 5.0)];
    assert Total(recipe) == 5.0 by {
      assert recipe[1..] == [];
    }
  }

  /** The final panel with the "Hold On" test made against the evaluated
      total: saved = evaluated - current, success exactly when the current
      total is lower, otherwise "Hold On"; the tree count is the saving over
      one tree-day, rounded up. */
  function Finalize(recipe: seq<RecipeLine>, evaluatedKg: real): (s: Summary)
    ensures s.currentKg == Total(recipe) && s.savedKg == evaluatedKg - s.currentKg
    ensures s.verdict == Reduced <==> s.currentKg < evaluatedKg
    ensures s.verdict == HoldOn <==> s.currentKg >= evaluatedKg
    ensures s.verdict != NoMessage
    ensures s.vehicleKm * Equivalence.VehicleBase == s.savedKg
    ensures s.trees as real - 1.0 < s.savedKg / Equivalence.TreeCutoff <= s.trees as real
    ensures s.verdict == Reduced ==> s.trees >= 1
  {
    var current := Total(recipe);
    var saved := evaluatedKg - current;
    var verdict := if current < evaluatedKg then Reduced else HoldOn;
    Summary(current, saved, Equivalence.CompareToVehicle(saved), Equivalence.Ceil(Equivalence.NumTrees(saved)), verdict)
  }
}
