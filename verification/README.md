# Sustainachoice recipe engine in Dafny

This project models the engine behind Sustainachoice. The app lets a user build a recipe from a Canadian ingredient table. It rates the recipe's carbon footprint against a per-meal baseline and suggests lower-emission substitutes with similar nutrients.

The model covers two parts:

- The engine functions of `app_functions.py`:
  - unit conversion;
  - per-ingredient emission;
  - the High/Medium/Low impact label;
  - category eligibility through the category alias map;
  - the nearest-nutrient alternative search;
  - the vehicle and tree equivalences.
- The recipe-table transitions in `streamlit_app.py`:
  - add an ingredient;
  - remove the ticked lines;
  - reset;
  - swap an ingredient on "Save Ingredient" when the swap lowers the emission;
  - the "Another Selection" counter;
  - the savings summary on "Finalize My Recipe!".

Modelling conventions:

- The four CSV tables are given immutable sequences of rows, held in `Tables.Reference`.
- Quantities are `real`.
- A pandas NaN cell is an `Option` that is `None`. A comparison involving NaN is false, and a NaN score sorts last.
- A Python exception the code does not catch is a `Result` failure. Each failure carries the reason:
  - a unit missing from the unit table;
  - a food missing from the ingredient table;
  - a recipe line that is not there;
  - a row position the table does not have.

Modules follow the program's structure:

| module | contents |
|---|---|
| `Wrappers` | `Option` and `Result` |
| `Sequences` | first-match search, filtering, subsequences |
| `Text` | Python's `lower()` and `strip()` |
| `Tables` | the row types and exact/normalised lookups |
| `Emission` | `convert_units`, `calculate_total_emission_individual`, `create_ghg_label`, `evaluate_recipe` |
| `Eligibility` | `map_category` and `find_eligible_category` |
| `Alternative` | `find_closest_alternative` and its inner `compute_ols` |
| `Equivalence` | `compare_to_vehicle`, `calculate_num_trees`, `math.ceil` |
| `RecipeTable` | the session's recipe table, its transitions and the final summary |

## Model

| member | source | states |
|---|---|---|
| Tables.UnitIndex | app_functions.py:14 | the first unit row whose name equals the unit exactly; `None` exactly when no row has that name |
| Tables.ExactIndex | app_functions.py:76 | the first ingredient row whose description equals the food exactly; `None` exactly when there is none |
| Tables.NormalizedIndex | app_functions.py:20 | the first ingredient row whose lower-cased, stripped description equals the lower-cased, stripped food name; `None` exactly when there is none |
| Tables.NutrientIndex | app_functions.py:94-95 | the first nutrient row with that exact description; `None` exactly when the food has no nutrient row |
| Tables.LineIndex | streamlit_app.py:458-461 | the first recipe line holding the ingredient; `None` exactly when the recipe has none |
| Tables.FactorOf | app_functions.py:145-146 | the factor cell of the first exactly matching ingredient row, and of no later duplicate; `None` when the food is absent or the cell is NaN |
| Text.Lower | app_functions.py:20 | same length; every character is mapped by `LowerChar`, which moves A-Z 32 code points up to a-z, leaves every other character alone and keeps whitespace as whitespace |
| Text.Strip | app_functions.py:20 | the result is a contiguous slice with only whitespace cut away on either side, and it neither starts nor ends with whitespace |
| Text.StripIdempotent | app_functions.py:20 | stripping twice is stripping once |
| Text.NormalizeIdempotent | app_functions.py:20 | lower-and-strip applied to its own output changes nothing |
| Sequences.Filter | app_functions.py:81 | sound (every kept element is in the input and passes), complete (every passing element is kept), order-preserving subsequence; a kept element occurs exactly as often as in the input |
| Emission.BaselineValue | app_functions.py:9 | the household-derived per-meal baseline lies between 2.623 and 2.6231 kg |
| Emission.UnitFactor | app_functions.py:14 | the factor of the first row named exactly as the unit; `None` exactly when no row has that name |
| Emission.ConvertUnits | app_functions.py:13-15 | fails with `UnknownUnit` exactly when no row has the unit's name (never a default); otherwise amount times that row's factor |
| Emission.LenientFactor | app_functions.py:20-30 | the factor cell of the first row matching after lower-casing and stripping; with no such row the factor is absent |
| Emission.IndividualEmission | app_functions.py:17-34 | fails exactly when the unit is unknown, whatever the food; otherwise 0 for a missing food or NaN factor, else grams times factor, with no division by 1000 |
| Emission.EmissionIgnoresCaseAndPadding | app_functions.py:20 | two names that agree after lower-casing and stripping have the same emission |
| Emission.EmissionNonNegative | app_functions.py:17-34 | non-negative amounts, unit factors and emission factors give a non-negative emission |
| Emission.GhgLabel | app_functions.py:36-42 | High iff total > baseline; Medium iff half the baseline < total ≤ baseline; Low iff total ≤ half the baseline, including exactly half |
| Emission.LabelMonotone | app_functions.py:36-42 | a larger total never gets a milder label |
| Emission.Total | app_functions.py:45 | the emission column sum: 0 for an empty table and the line's own emission for a single line; with `TotalAppend` and `TotalPermutation` it is the sum of the column in any order |
| Emission.TotalNonNegative | app_functions.py:45 | lines with non-negative emissions have a non-negative total |
| Emission.TotalAppend | app_functions.py:45 | the emission sum of two concatenated tables is the sum of their sums |
| Emission.TotalPermutation | app_functions.py:45 | any reordering of the lines has the same emission sum |
| Emission.EvaluateRecipe | app_functions.py:44-47 | the total is the sum of the emission column; the label is High, Medium or Low according to the summed total against the fixed baseline; an empty recipe is 0 kg and Low |
| Emission.EvaluatePermutation | app_functions.py:44-47 | reordering the lines changes neither the total nor the label |
| Eligibility.CheaperEntities | app_functions.py:78-79 | an entity is listed iff some footprint row for it has a defined value strictly below the food's factor |
| Eligibility.AliasedLabels | app_functions.py:80-81 | keeps exactly the cheaper entities that are values of the alias map, in footprint order |
| Eligibility.KeysFor | app_functions.py:82 | a key is listed iff its alias is among the labels; the keys come out in alias-map order |
| Eligibility.CategoryAliasKeysDistinct | app_functions.py:49-67 | no key occurs twice in the alias map, so every key has one alias |
| Eligibility.EligibleKeys | app_functions.py:76-82 | a key is returned iff its alias is an entity with a defined footprint strictly below the factor; keys are in map order, each once |
| Eligibility.FindEligibleCategory | app_functions.py:74-85 | fails exactly when no ingredient row has the exact description; a NaN factor makes nothing eligible; otherwise the eligible keys for the factor |
| Eligibility.EligibleMonotone | app_functions.py:78 | a lower food factor gives a subset of the eligible keys |
| Eligibility.NothingBelowMinimum | app_functions.py:78-82 | a factor at or below every defined footprint value makes no category eligible |
| Eligibility.EligibleByLabel | app_functions.py:82 | a category is eligible exactly when its own alias is cheaper than the factor |
| Eligibility.SharedLabelTogether | app_functions.py:82 | two keys that share an alias are eligible together or not at all |
| Eligibility.SharedLabelExamples | app_functions.py:54-67 | the pork and sausage groups ("Pig Meat") and the two cereal groups ("Cereals") are always eligible together |
| Alternative.SquaredError | app_functions.py:120-135 | defined iff every field on both sides is defined (NaN propagates); a defined value is ≥ 0 and at least every single squared difference; one pair gives exactly its squared difference |
| Alternative.SquaredErrorAppend | app_functions.py:131-135 | the error value of two lists laid end to end is the sum of theirs, NaN if either is; with the one-pair case this makes it the sum of the squared differences |
| Alternative.Score | app_functions.py:119-135 | the error value: defined iff both rows are complete, that is all ten fields of both are defined (a NaN anywhere makes it NaN), and then ≥ 0 and at least the squared difference of each of the ten fields |
| Alternative.ScoreSelf | app_functions.py:119-135 | a complete row scores 0 against itself |
| Alternative.ScoreSymmetric | app_functions.py:119-135 | the score does not depend on which row is the original |
| Alternative.InGroup | app_functions.py:117 | exactly the nutrient rows whose food group equals the category, each as often as in the table |
| Alternative.Candidates | app_functions.py:117-138 | one candidate per row of the group, in group order, each scored against the original; every row of the group appears |
| Alternative.InsertSorted | app_functions.py:141 | inserting into an ascending list keeps it ascending |
| Alternative.Rank | app_functions.py:141 | ascending by score with NaN last, and a permutation of the candidates |
| Alternative.RankedCandidates | app_functions.py:94-141 | `None` exactly when the food has no nutrient row; otherwise a reordering of the group's candidates scored against the food's own nutrient row, sorted ascending with NaN last, with non-negative scores |
| Alternative.Pick | app_functions.py:143-164 | a result exactly when the index is in range and the candidate's factor is defined and strictly below the original's; the result is that candidate's name |
| Alternative.FindClosestAlternative | app_functions.py:91-167 | fails exactly when the food has no exact ingredient row; `None` without a nutrient row or with an out-of-range index; a success is `Pick` of the ranked candidates at that attempt; a returned name is a nutrient row of the category, at that rank, with a strictly lower factor, and never the food itself |
| Alternative.AttemptsMoveAway | app_functions.py:141-144 | a later attempt never reaches a candidate with a smaller error value |
| Alternative.FootprintsIgnored | app_functions.py:92 | the footprint table does not affect the search, because the eligibility list restricts nothing |
| Equivalence.CompareToVehicle | app_functions.py:169-171 | the km times 0.65 is the mass; a non-negative mass gives a non-negative distance |
| Equivalence.NumTrees | app_functions.py:87-89 | the tree count times 0.0685 is the mass; a non-negative mass gives a non-negative count |
| Equivalence.Ceil | streamlit_app.py:385 | the least integer not below the argument |
| Equivalence.EquivalencesLinearMonotone | app_functions.py:10-11 | both equivalents are additive and homogeneous, map 0 to 0 and preserve order |
| Equivalence.FourKilograms | app_functions.py:10-11 | 4 kg is about 6.154 km of driving and 59 tree-days |
| RecipeTable.EmissionKg | streamlit_app.py:110-111 | the individual emission over 1000; fails with `UnknownUnit` exactly when computing that emission raises |
| RecipeTable.AddIngredient | streamlit_app.py:109-127 | fails exactly when the emission cannot be computed, since line 119 then raises before the button is drawn; otherwise exactly one line appended at the end with the given fields and that emission; earlier lines untouched; total grows by the new emission |
| RecipeTable.KeptPositions | streamlit_app.py:176-180 | strictly ascending positions below the table length, exactly those not ticked |
| RecipeTable.RemoveSelected | streamlit_app.py:174-185 | fails iff a ticked position is past the end; otherwise the lines at the unticked positions, in their original order |
| RecipeTable.RemoveCount | streamlit_app.py:180-181 | removal drops exactly as many lines as were ticked |
| RecipeTable.RemoveNothing | streamlit_app.py:178-185 | ticking nothing leaves the recipe unchanged |
| RecipeTable.RemoveLast | streamlit_app.py:174-185 | ticking only the last line removes exactly that line and keeps the rest in order |
| RecipeTable.AddThenRemove | streamlit_app.py:174-185 | after a successful add, removing the added line restores the recipe |
| RecipeTable.ResetRecipe | streamlit_app.py:134-141 | the table is empty and evaluates to 0 kg, Low |
| RecipeTable.Only | streamlit_app.py:482-483 | exactly the lines whose ingredient is the original, in order, each as often as in the recipe: the lines the swap drops |
| RecipeTable.Without | streamlit_app.py:482-483 | exactly the lines whose ingredient differs, in order, each as often as in the recipe |
| RecipeTable.TotalSplit | streamlit_app.py:482-483 | the total is the removed lines' total plus the kept lines' total |
| RecipeTable.OriginalEmissionKg | streamlit_app.py:456-462 | recomputed from the first line of the original; missing line is `NotInRecipe`; a unit failure propagates; otherwise emission over 1000 |
| RecipeTable.SaveIngredient | streamlit_app.py:446-506 | amount 0 changes nothing; otherwise fails iff a lookup raises; the table changes only when the new emission is strictly lower, and whenever it is, every line of the original goes and one gram line of the alternative is appended last |
| RecipeTable.SwapTotal | streamlit_app.py:480-495 | the swapped table's total is the old total, less every line of the original, plus the appended line |
| RecipeTable.SwapLowersTotal | streamlit_app.py:480-495 | when the original sits on one line and the appended line emits less than it, the swap strictly lowers the total |
| RecipeTable.AddKeepsRecorded | streamlit_app.py:110-126 | an added line carries the emission its own ingredient, amount and unit give, and earlier lines stay as they were |
| RecipeTable.RemoveKeepsRecorded | streamlit_app.py:174-185 | removal keeps every remaining line's recorded emission |
| RecipeTable.SaveKeepsRecorded | streamlit_app.py:470-495 | a swap keeps the other lines and appends a line carrying the alternative's own emission for its gram amount |
| RecipeTable.RecordedOriginal | streamlit_app.py:456-462 | on a table whose lines carry their own emissions, the recomputed original emission is the one its first line carries |
| RecipeTable.SingleLineIsFirst | streamlit_app.py:458-461 | when the original sits on one line, the first line holding it is that line |
| RecipeTable.SaveLowersTotal | streamlit_app.py:480-495 | on such a table with the original on one line, a save that changes the table strictly lowers its total |
| RecipeTable.Step | streamlit_app.py:123-210 | a successful add, remove or save replaces the table by its result; a failing one leaves the session as it was; evaluate records the current total and nothing else; reset empties the table; only "Another Selection" moves the counter, by one |
| RecipeTable.AttemptCountsPresses | streamlit_app.py:323-328 | after any actions the counter has risen by exactly the number of "Another Selection" presses |
| RecipeTable.StepKeepsRecorded | streamlit_app.py:123-506 | every action keeps each line's emission equal to what its own ingredient, amount and unit give |
| RecipeTable.RunKeepsRecorded | streamlit_app.py:123-506 | so does any sequence of actions |
| RecipeTable.SaveStepLowersTotal | streamlit_app.py:446-506 | from a session whose lines carry their own emissions, with the original on one line, a save step that changes the table strictly lowers its total |
| RecipeTable.SessionSaveLowersTotal | streamlit_app.py:446-506 | in any session reached from a new one, a "Save Ingredient" that changes the table strictly lowers its total when the original sat on one line |
| RecipeTable.AttemptFromStart | streamlit_app.py:323-328 | from a new session the counter equals the number of presses; no action lowers it |
| RecipeTable.FinalizeAsWritten | streamlit_app.py:356-392 | saved = evaluated − current; success iff current < evaluated; no message iff evaluated ≤ current < the last add-panel preview; km and trees are the saving's equivalents, trees = ceil(saved / 0.0685) |
| RecipeTable.FinalizeAsWrittenSilent | streamlit_app.py:392 | an unchanged 5 kg recipe after a 6 kg preview shows neither message |
| RecipeTable.Finalize | streamlit_app.py:356-385 | saved = evaluated − current; success iff current < evaluated, else "Hold On", never silent; km and trees are the saving's equivalents; trees = ceil(saved / 0.0685), at least 1 on success |

## Left out

- Streamlit widgets, layout, images, messages and UI flags (`eval_button`, `show_alternative_panel`, `swap_category`, `hold_on_df`, `success_message`) are not modelled. Only the recipe table, the attempt counter and the evaluated total are kept.
- `google_search_image` (streamlit_app.py:55-66) is not modelled: it is an HTTP fetch.
- `send_email` (streamlit_app.py:331-346) is not modelled: it uses SMTP.
- CSV loading (app_functions.py:4-7, streamlit_app.py:27-30) is not modelled. The tables are parameters.
- `change_dataframe` (streamlit_app.py:281-312) is not modelled: nothing invokes it.
- `category_mapper` (app_functions.py:69-72) is not modelled: nothing calls it.
- `find_closest_alternative` writes an "Error Value" column (app_functions.py:112) and rewrites the caller's ingredient table (app_functions.py:153-154). Neither side effect changes the returned value, so the function is modelled as pure. In the app the rewritten table is re-read from CSV on every rerun.
- Debug prints (app_functions.py:22-29, streamlit_app.py:448-477) and the "Total Amount of Food in Kg" metric (streamlit_app.py:112, 119) are not modelled as output. When the unit conversion raised, line 119 reads the unbound `total_amount` and the rerun stops there, so the "Add Ingredient" button is never reached: `RecipeTable.AddIngredient` fails and `RecipeTable.Step` leaves the table unchanged. The fallback `total_emission = 0` at line 114 is a local that no later line reads on that path, and the preview kept in the session at line 111 is not updated.
- The final panel's use of `all_total_emission` before any evaluation raises in the app. `RecipeTable.Finalize` takes the evaluated total as an argument instead.
- IEEE-754 arithmetic, `round` and number formatting (streamlit_app.py:212-214, 373, 383-387) are not modelled. Quantities are exact reals.
- `alternative_recipe_app.py` and `climate_impact_analyzer.py` are not modelled. The first duplicates the add-ingredient UI; the second only draws a chart.
- Text.Lower: only A-Z are lowered. Python's `str.lower` also folds non-ASCII letters, which the model leaves unchanged.
- Alternative.Rank: the sort is stable, giving ties in table order. pandas' default quicksort leaves tie order unspecified, and every proved property holds for any tie order. `FindClosestAlternative` therefore fixes one admissible order where the source picks among tied candidates arbitrarily.
- RecipeTable.RemoveSelected: the ticked rows are a set of positions, as after `reset_index(drop=True)`. The data editor never offers a position past the end, so the failure path does not occur in the app.

Behaviour worth noting:

- A total of exactly half the baseline is Low, not Medium.
- A food missing from the ingredient table makes `find_eligible_category` raise, not return an empty list. The `except: pass` leaves the result name unbound. The failure propagates out of `find_closest_alternative`.
- The ranking sort is not stable.

## Findings

| source | as written | input that shows it | evidently intended | confidence | as-written member | corrected member |
|---|---|---|---|---|---|---|
| streamlit_app.py:392 | "Hold On" is shown only when the current total is at least `st.session_state.total_emission`, the last add-panel preview, not the evaluated total | evaluated total 5 kg, recipe unchanged at 5 kg, last preview 6 kg: neither "Success!" nor "Hold On" appears | compare against `all_total_emission`, as lines 361-368 do, so every non-reduction shows "Hold On" | not executed | RecipeTable.FinalizeAsWrittenSilent | RecipeTable.Finalize |
