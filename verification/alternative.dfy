/** Nutrient-distance search for a lower-emission substitute
    (`find_closest_alternative` and its inner `compute_ols`). */
module Alternative {
  import opened Wrappers
  import opened Sequences
  import opened Tables
  import Eligibility

  /** The ten compared nutrient values, in the source's order. */
  function Fields(n: Nutrients): (r: seq<Option<real>>)
    ensures |r| == 10
  {
    [n.alcohol, n.caffeine, n.calcium, n.carbohydrate, n.cholesterol,
     n.lipid, n.polyunsaturated, n.saturated, n.iron, n.lactose]
  }

  function Square(d: real): (r: real)
    ensures r >= 0.0
  {
    d * d
  }

  /** Sum of squared differences of two equally long value lists. A missing
      value on either side makes the whole sum NaN (`None`). */
  function SquaredError(xs: seq<Option<real>>, ys: seq<Option<real>>): (r: Option<real>)
    requires |xs| == |ys|
    ensures r.Some? <==> forall i :: 0 <= i < |xs| ==> xs[i].Some? && ys[i].Some?
    ensures r.Some? ==> r.value >= 0.0
    ensures r.Some? ==> forall i :: 0 <= i < |xs| ==> Square(xs[i].value - ys[i].value) <= r.value
    ensures r.Some? && |xs| == 1 ==> r.value == Square(xs[0].value - ys[0].value)
  {
    if |xs| == 0 then Some(0.0)
    else
      var rest := SquaredError(xs[1..], ys[1..]);
      assert forall i :: 1 <= i < |xs| ==> xs[i] == xs[1..][i - 1] && ys[i] == ys[1..][i - 1];
      if xs[0].Some? && ys[0].Some? && rest.Some? then
        Some(Square(xs[0].value - ys[0].value) + rest.value)
      else
        None
  }

  /** The error value of a candidate row against the original food. */
  function Score(candidate: Nutrients, original: Nutrients): (r: Option<real>)
    ensures r.Some? <==> Complete(candidate) && Complete(original)
    ensures r.Some? ==> r.value >= 0.0
    ensures r.Some? ==> forall i :: 0 <= i < 10 ==> Square(Fields(candidate)[i].value - Fields(original)[i].value) <= r.value
  {
    SquaredError(Fields(candidate), Fields(original))
  }

  /** Every one of the ten values is present. */
  predicate Complete(n: Nutrients) {
    forall i :: 0 <= i < 10 ==> Fields(n)[i].Some?
  }

  /** The error value of two lists laid end to end is the sum of their error
      values, and NaN when either is NaN. */
  lemma {:induction false} SquaredErrorAppend(xs: seq<Option<real>>, ys: seq<Option<real>>,
                                              us: seq<Option<real>>, vs: seq<Option<real>>)
    requires |xs| == |ys| && |us| == |vs|
    ensures SquaredError(xs + us, ys + vs)
            == if SquaredError(xs, ys).Some? && SquaredError(us, vs).Some?
               then Some(SquaredError(xs, ys).value + SquaredError(us, vs).value)
               else None
  {
    if |xs| == 0 {
      assert xs + us == us && ys + vs == vs;
    } else {
      assert (xs + us)[1..] == xs[1..] + us && (ys + vs)[1..] == ys[1..] + vs;
      SquaredErrorAppend(xs[1..], ys[1..], us, vs);
    }
  }

  lemma {:induction false} SquaredErrorSelf(xs: seq<Option<real>>)
    requires forall i :: 0 <= i < |xs| ==> xs[i].Some?
    ensures SquaredError(xs, xs) == Some(0.0)
  {
    if |xs| > 0 {
      assert forall i :: 0 <= i < |xs[1..]| ==> xs[1..][i] == xs[i + 1];
      SquaredErrorSelf(xs[1..]);
    }
  }

  lemma {:induction false} SquaredErrorSymmetric(xs: seq<Option<real>>, ys: seq<Option<real>>)
    requires |xs| == |ys|
    ensures SquaredError(xs, ys) == SquaredError(ys, xs)
  {
    if |xs| > 0 {
      SquaredErrorSymmetric(xs[1..], ys[1..]);
      if xs[0].Some? && ys[0].Some? {
        assert Square(xs[0].value - ys[0].value) == Square(ys[0].value - xs[0].value);
      }
    }
  }

  /** A food with all ten values is at distance 0 from itself. */
  lemma ScoreSelf(n: Nutrients)
    requires Complete(n)
    ensures Score(n, n) == Some(0.0)
  {
    SquaredErrorSelf(Fields(n));
  }

  /** The distance does not depend on which side is the original. */
  lemma ScoreSymmetric(a: Nutrients, b: Nutrients)
    ensures Score(a, b) == Score(b, a)
  {
    SquaredErrorSymmetric(Fields(a), Fields(b));
  }

  /** A candidate row with its error value. */
  datatype Candidate = Candidate(row: NutrientRow, score: Option<real>)

  /** The order of pandas' ascending `sort_values`: numbers ascending, NaN last. */
  predicate ScoreLe(a: Option<real>, b: Option<real>) {
    match (a, b)
    case (Some(x), Some(y)) => x <= y
    case (_, None) => true
    case (None, Some(_)) => false
  }

  ghost predicate Sorted(s: seq<Candidate>) {
    forall i, j :: 0 <= i < j < |s| ==> ScoreLe(s[i].score, s[j].score)
  }

  /** The nutrient rows of one food group, in table order. */
  function InGroup(rows: seq<NutrientRow>, category: string): (r: seq<NutrientRow>)
    ensures forall i :: 0 <= i < |r| ==> r[i] in rows && r[i].group == category
    ensures forall j :: 0 <= j < |rows| && rows[j].group == category ==> rows[j] in r
    ensures forall j :: 0 <= j < |rows| && rows[j].group == category ==> multiset(r)[rows[j]] == multiset(rows)[rows[j]]
  {
    Filter(rows, (row: NutrientRow) => row.group == category)
  }

  /** Every row of the group, scored against the original's values. */
  function Candidates(rows: seq<NutrientRow>, category: string, original: Nutrients): (r: seq<Candidate>)
    ensures |r| == |InGroup(rows, category)|
    ensures forall i :: 0 <= i < |r| ==> r[i].row == InGroup(rows, category)[i]
    ensures forall i :: 0 <= i < |r| ==>
              r[i].row in rows && r[i].row.group == category && r[i].score == Score(r[i].row.nutrients, original)
    ensures forall j :: 0 <= j < |rows| && rows[j].group == category ==>
              Candidate(rows[j], Score(rows[j].nutrients, original)) in r
  {
    var group := InGroup(rows, category);
    var r := seq(|group|, i requires 0 <= i < |group| => Candidate(group[i], Score(group[i].nutrients, original)));
    CandidatesCover(rows, category, original, group, r);
    r
  }

  /** Scoring every row of a complete group leaves no row of it out. */
  lemma CandidatesCover(rows: seq<NutrientRow>, category: string, original: Nutrients,
                        group: seq<NutrientRow>, r: seq<Candidate>)
    requires forall j :: 0 <= j < |rows| && rows[j].group == category ==> rows[j] in group
    requires |r| == |group|
    requires forall i :: 0 <= i < |r| ==> r[i] == Candidate(group[i], Score(group[i].nutrients, original))
    ensures forall j :: 0 <= j < |rows| && rows[j].group == category ==>
              Candidate(rows[j], Score(rows[j].nutrients, original)) in r
  {
    forall j | 0 <= j < |rows| && rows[j].group == category
      ensures Candidate(rows[j], Score(rows[j].nutrients, original)) in r
    {
      var i :| 0 <= i < |group| && group[i] == rows[j];
      assert r[i] == Candidate(rows[j], Score(rows[j].nutrients, original));
    }
  }

  /** Inserts `x` before the first element it does not exceed. */
  function Insert(x: Candidate, s: seq<Candidate>): (r: seq<Candidate>)
    ensures multiset(r) == multiset(s) + multiset{x}
  {
    if |s| == 0 then [x]
    else if ScoreLe(x.score, s[0].score) then [x] + s
    else
      assert s == [s[0]] + s[1..];
      [s[0]] + Insert(x, s[1..])
  }

  lemma ScoreLeTransitive(a: Option<real>, b: Option<real>, c: Option<real>)
    requires ScoreLe(a, b) && ScoreLe(b, c)
    ensures ScoreLe(a, c)
  {
  }

  /** Prepending an element no larger than any other keeps a list sorted. */
  lemma ConsSorted(h: Candidate, t: seq<Candidate>)
    requires Sorted(t)
    requires forall k :: 0 <= k < |t| ==> ScoreLe(h.score, t[k].score)
    ensures Sorted([h] + t)
  {
    var r := [h] + t;
    forall i, j | 0 <= i < j < |r| ensures ScoreLe(r[i].score, r[j].score) {
      assert r[j] == t[j - 1];
      if i > 0 {
        assert r[i] == t[i - 1];
      }
    }
  }

  lemma SortedTail(s: seq<Candidate>)
    requires Sorted(s) && |s| > 0
    ensures Sorted(s[1..])
  {
    var tail := s[1..];
    forall i, j | 0 <= i < j < |tail| ensures ScoreLe(tail[i].score, tail[j].score) {
      assert tail[i] == s[i + 1] && tail[j] == s[j + 1];
    }
  }

  lemma {:induction false} InsertSorted(x: Candidate, s: seq<Candidate>)
    requires Sorted(s)
    ensures Sorted(Insert(x, s))
  {
    if |s| == 0 {
    } else if ScoreLe(x.score, s[0].score) {
      forall k | 0 <= k < |s| ensures ScoreLe(x.score, s[k].score) {
        if k > 0 {
          ScoreLeTransitive(x.score, s[0].score, s[k].score);
        }
      }
      ConsSorted(x, s);
    } else {
      var tail := s[1..];
      SortedTail(s);
      InsertSorted(x, tail);
      var t := Insert(x, tail);
      forall k | 0 <= k < |t| ensures ScoreLe(s[0].score, t[k].score) {
        assert t[k] in multiset(t);
        if t[k] != x {
          assert t[k] in multiset(tail);
          var m :| 0 <= m < |tail| && tail[m] == t[k];
          assert s[m + 1] == t[k];
        }
      }
      ConsSorted(s[0], t);
    }
  }

  /** The candidates in ascending order of error value, NaN last. Ties keep
      table order here; pandas' default sort leaves their order unspecified,
      and nothing below depends on it. */
  function Rank(s: seq<Candidate>): (r: seq<Candidate>)
    ensures Sorted(r)
    ensures multiset(r) == multiset(s)
  {
    if |s| == 0 then []
    else
      var rest := Rank(s[1..]);
      InsertSorted(s[0], rest);
      assert s == [s[0]] + s[1..];
      Insert(s[0], rest)
  }

  /** The ranked candidates for `food` within `category`, or `None` when the
      food has no nutrient row. */
  function RankedCandidates(ref: Reference, category: string, food: string): (r: Option<seq<Candidate>>)
    ensures r.None? <==> forall j :: 0 <= j < |ref.nutrients| ==> ref.nutrients[j].description != food
    ensures r.Some? ==> Sorted(r.value)
    ensures r.Some? ==> |r.value| == |InGroup(ref.nutrients, category)|
    ensures r.Some? ==>
              && NutrientIndex(ref.nutrients, food).Some?
              && multiset(r.value)
                 == multiset(Candidates(ref.nutrients, category, ref.nutrients[NutrientIndex(ref.nutrients, food).value].nutrients))
    ensures r.Some? ==> forall i :: 0 <= i < |r.value| ==>
              r.value[i].row in ref.nutrients && r.value[i].row.group == category
              && (r.value[i].score.Some? ==> r.value[i].score.value >= 0.0)
  {
    match NutrientIndex(ref.nutrients, food)
    case None => None
    case Some(n) =>
      var cands := Candidates(ref.nutrients, category, ref.nutrients[n].nutrients);
      var ranked := Rank(cands);
      PermutationMembers(cands, ranked);
      Some(ranked)
  }

  /** A permutation has the same length and draws every element from the
      original. */
  lemma PermutationMembers(a: seq<Candidate>, b: seq<Candidate>)
    requires multiset(a) == multiset(b)
    ensures |b| == |a|
    ensures forall i :: 0 <= i < |b| ==> b[i] in a
  {
    assert |b| == |multiset(b)| == |multiset(a)| == |a|;
    forall i | 0 <= i < |b| ensures b[i] in a {
      assert b[i] in multiset(a);
    }
  }

  /** `a < b` on two emission factors; NaN on either side compares false. */
  predicate StrictlyLower(a: Option<real>, b: Option<real>) {
    a.Some? && b.Some? && a.value < b.value
  }

  /** The candidate at position `attempt`, kept only if its factor is strictly
      lower than the original's; an out-of-range position gives `None`. */
  function Pick(ranked: seq<Candidate>, attempt: nat, ingredients: seq<IngredientRow>, food: string): (r: Option<string>)
    ensures r.Some? <==> attempt < |ranked|
                         && StrictlyLower(FactorOf(ingredients, ranked[attempt].row.description), FactorOf(ingredients, food))
    ensures r.Some? ==> r.value == ranked[attempt].row.description
  {
    if attempt >= |ranked| then None
    else
      var alt := ranked[attempt].row.description;
      if StrictlyLower(FactorOf(ingredients, alt), FactorOf(ingredients, food)) then Some(alt) else None
  }

  /** `find_closest_alternative`: the `attempt`-th nearest row of `category`
      by nutrient distance, if it emits strictly less per kg than `food`. It
      fails like `find_eligible_category` when `food` has no ingredient row,
      although that function's result restricts nothing. */
  function FindClosestAlternative(ref: Reference, category: string, food: string, attempt: nat): (r: Result<Option<string>, Error>)
    ensures r.Failure? <==> forall j :: 0 <= j < |ref.ingredients| ==> ref.ingredients[j].description != food
    ensures r.Failure? ==> r.error == IngredientNotFound
    ensures r.Success? && RankedCandidates(ref, category, food).Some? ==>
              r.value == Pick(RankedCandidates(ref, category, food).value, attempt, ref.ingredients, food)
    ensures r.Success? && (forall j :: 0 <= j < |ref.nutrients| ==> ref.nutrients[j].description != food) ==> r.value.None?
    ensures r.Success? && attempt >= |InGroup(ref.nutrients, category)| ==> r.value.None?
    ensures r.Success? && r.value.Some? ==>
              exists j :: 0 <= j < |ref.nutrients| && ref.nutrients[j].description == r.value.value
                          && ref.nutrients[j].group == category
    ensures r.Success? && r.value.Some? ==>
              StrictlyLower(FactorOf(ref.ingredients, r.value.value), FactorOf(ref.ingredients, food))
    ensures r.Success? && r.value.Some? ==> r.value.value != food
    ensures r.Success? && r.value.Some? ==>
              RankedCandidates(ref, category, food).Some? && attempt < |RankedCandidates(ref, category, food).value|
              && r.value.value == RankedCandidates(ref, category, food).value[attempt].row.description
  {
    var eligible :- Eligibility.FindEligibleCategory(ref, food);
    match RankedCandidates(ref, category, food)
    case None => Success(None)
    case Some(ranked) => Success(Pick(ranked, attempt, ref.ingredients, food))
  }

  /** A later attempt never lands on a nearer candidate. */
  lemma AttemptsMoveAway(ref: Reference, category: string, food: string, a1: nat, a2: nat)
    requires RankedCandidates(ref, category, food).Some?
    requires a1 <= a2 < |RankedCandidates(ref, category, food).value|
    ensures ScoreLe(RankedCandidates(ref, category, food).value[a1].score, RankedCandidates(ref, category, food).value[a2].score)
  {
  }

  /** The footprint table only decides the eligibility list, which the search
      ignores: replacing it changes nothing. */
  lemma FootprintsIgnored(ref: Reference, footprints: seq<FootprintRow>, category: string, food: string, attempt: nat)
    ensures FindClosestAlternative(ref, category, food, attempt)
            == FindClosestAlternative(ref.(footprints := footprints), category, food, attempt)
  {
    var ref' := ref.(footprints := footprints);
    assert Eligibility.FindEligibleCategory(ref, food).Failure? == Eligibility.FindEligibleCategory(ref', food).Failure?;
    assert RankedCandidates(ref, category, food) == RankedCandidates(ref', category, food);
  }
}
