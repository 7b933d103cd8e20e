/** Stepwise (forward/backward) feature selection driven by p-value thresholds,
    as `compute_stepwise` performs it. The OLS fit that yields each p-value is a
    foreign call over floats; here it is an uninterpreted oracle. */
module Stepwise {
  import opened Wrappers
  import opened Sequences

  /** A column name of the candidate-predictor table X. */
  type Column = string

  /** `pval(design, c)`: the p-value of the coefficient of `c` in an OLS fit of y
      on the columns `design` of X plus an intercept. */
  type PValueOracle = (seq<Column>, Column) -> real

  /** What one call of `compute_stepwise(X, y, threshold_in, threshold_out)` works on. */
  datatype Problem = Problem(columns: seq<Column>, pval: PValueOracle,
                             thresholdIn: real, thresholdOut: real)

  /** The list after one forward or backward step (or one whole iteration), and
      whether the step set the `changed` flag. */
  datatype Step = Step(next: seq<Column>, changed: bool)

  predicate Distinct(s: seq<Column>) {
    forall i, j :: 0 <= i < j < |s| ==> s[i] != s[j]
  }

  /** `included` holds only columns of X, and none of them twice. */
  predicate WellFormed(columns: seq<Column>, included: seq<Column>) {
    Distinct(included) && forall c :: c in included ==> c in columns
  }

  /** `list(set(X.columns) - set(included))`. A Python set has no defined order;
      this model lists the candidates in column order, each once. */
  function Excluded(columns: seq<Column>, included: seq<Column>): (r: seq<Column>)
    ensures Distinct(r)
    ensures forall c :: c in r <==> c in columns && c !in included
    decreases |columns|
  {
    if columns == [] then []
    else if columns[0] in included then Excluded(columns[1..], included)
    else
      var rest := Excluded(columns[1..], included + [columns[0]]);
      assert columns[0] !in rest;
      [columns[0]] + rest
  }

  /** The candidates keep the relative order of the columns of X, so "first in
      candidate order" is "first in column order". */
  lemma {:induction false} ExcludedKeepsColumnOrder(columns: seq<Column>, included: seq<Column>)
    ensures IsSubsequence(Excluded(columns, included), columns)
    decreases |columns|
  {
    if columns != [] {
      if columns[0] in included {
        ExcludedKeepsColumnOrder(columns[1..], included);
        SubsequenceOfTail(Excluded(columns[1..], included), columns);
      } else {
        ExcludedKeepsColumnOrder(columns[1..], included + [columns[0]]);
        SubsequenceCons(Excluded(columns[1..], included + [columns[0]]), columns);
      }
    }
  }

  /** Forward score of a candidate: its own p-value when it is fitted together
      with the included columns. */
  function ForwardScore(p: Problem, included: seq<Column>, c: Column): real {
    p.pval(included + [c], c)
  }

  /** The `new_pval` Series, indexed like `candidates`. */
  function ForwardScores(p: Problem, included: seq<Column>, candidates: seq<Column>): seq<real> {
    seq(|candidates|, i requires 0 <= i < |candidates| => ForwardScore(p, included, candidates[i]))
  }

  /** Backward score of the i-th included column: its p-value in the fit on all
      included columns (the intercept's p-value is not among them). */
  function BackwardScore(p: Problem, included: seq<Column>, i: nat): real
    requires i < |included|
  {
    p.pval(included, included[i])
  }

  /** `model.pvalues.iloc[1:]`, in the order of `included`. */
  function BackwardScores(p: Problem, included: seq<Column>): seq<real> {
    seq(|included|, i requires 0 <= i < |included| => BackwardScore(p, included, i))
  }

  /** Position of the first smallest entry, as `Series.argmin`. */
  function ArgMin(s: seq<real>): (k: nat)
    requires |s| > 0
    ensures k < |s|
    ensures forall j :: 0 <= j < |s| ==> s[k] <= s[j]
    ensures forall j :: 0 <= j < k ==> s[k] < s[j]
  {
    if |s| == 1 then 0
    else
      var k := ArgMin(s[..|s| - 1]);
      if s[|s| - 1] < s[k] then |s| - 1 else k
  }

  /** Position of the first largest entry, as `Series.argmax`. */
  function ArgMax(s: seq<real>): (k: nat)
    requires |s| > 0
    ensures k < |s|
    ensures forall j :: 0 <= j < |s| ==> s[j] <= s[k]
    ensures forall j :: 0 <= j < k ==> s[j] < s[k]
  {
    if |s| == 1 then 0
    else
      var k := ArgMax(s[..|s| - 1]);
      if s[k] < s[|s| - 1] then |s| - 1 else k
  }

  /** `Series.min()`: NaN (here `None`) for an empty Series. */
  function Min(s: seq<real>): (r: Option<real>)
    ensures r.None? <==> s == []
    ensures r.Some? ==> r.value in s && forall x :: x in s ==> r.value <= x
  {
    if s == [] then None else Some(s[ArgMin(s)])
  }

  /** `Series.max()`: NaN (here `None`) for an empty Series. */
  function Max(s: seq<real>): (r: Option<real>)
    ensures r.None? <==> s == []
    ensures r.Some? ==> r.value in s && forall x :: x in s ==> x <= r.value
  {
    if s == [] then None else Some(s[ArgMax(s)])
  }

  /** `x < t`, false when x is NaN. */
  predicate Below(x: Option<real>, t: real) {
    x.Some? && x.value < t
  }

  /** `x > t`, false when x is NaN. */
  predicate Above(x: Option<real>, t: real) {
    x.Some? && x.value > t
  }

  /** The list without its k-th element. */
  function RemoveAt(s: seq<Column>, k: nat): (r: seq<Column>)
    requires k < |s|
    ensures |r| == |s| - 1
  {
    s[..k] + s[k + 1..]
  }

  lemma RemoveAtKeepsWellFormed(columns: seq<Column>, s: seq<Column>, k: nat)
    requires k < |s| && WellFormed(columns, s)
    ensures WellFormed(columns, RemoveAt(s, k))
    ensures s[k] !in RemoveAt(s, k)
  {
    var r := RemoveAt(s, k);
    forall i, j | 0 <= i < j < |r| ensures r[i] != r[j] {
      var i' := if i < k then i else i + 1;
      var j' := if j < k then j else j + 1;
      assert r[i] == s[i'] && r[j] == s[j'] && i' < j';
    }
    forall c | c in r ensures c in s && c != s[k] {
      var i :| 0 <= i < |r| && r[i] == c;
      var i' := if i < k then i else i + 1;
      assert r[i] == s[i'] && i' != k;
    }
  }

  /** The forward step of one iteration (lines 236-249), intended meaning. */
  function Forward(p: Problem, included: seq<Column>): Step {
    var excluded := Excluded(p.columns, included);
    var newPval := ForwardScores(p, included, excluded);
    if Below(Min(newPval), p.thresholdIn)
    then Step(included + [excluded[ArgMin(newPval)]], true)
    else Step(included, false)
  }

  /** The backward step of one iteration (lines 252-260): the drop the code
      intends, by position; `BackwardAsWritten` is what it actually does. */
  function Backward(p: Problem, included: seq<Column>): Step {
    var pvalues := BackwardScores(p, included);
    if Above(Max(pvalues), p.thresholdOut)
    then Step(RemoveAt(included, ArgMax(pvalues)), true)
    else Step(included, false)
  }

  /** One pass of the `while True` body. */
  function Iteration(p: Problem, included: seq<Column>): Step {
    var f := Forward(p, included);
    var b := Backward(p, f.next);
    Step(b.next, f.changed || b.changed)
  }

  /** The `while True` loop around an iteration body, started from `included`
      and allowed at most `fuel` iterations; `None` when it has not returned
      within them. */
  function Loop(body: seq<Column> -> Step, included: seq<Column>, fuel: nat): Option<seq<Column>>
    decreases fuel
  {
    if fuel == 0 then None
    else
      var it := body(included);
      if !it.changed then Some(included) else Loop(body, it.next, fuel - 1)
  }

  /** The selection loop of `compute_stepwise`, started from `included`. */
  function Run(p: Problem, included: seq<Column>, fuel: nat): Option<seq<Column>> {
    Loop(x => Iteration(p, x), included, fuel)
  }

  /** The forward step adds a column exactly when some candidate scores
      strictly below `threshold_in`; otherwise it leaves the list alone. */
  lemma ForwardAddsWhenBelow(p: Problem, included: seq<Column>)
    ensures var ex := Excluded(p.columns, included);
            Forward(p, included).changed <==>
              exists c :: c in ex && ForwardScore(p, included, c) < p.thresholdIn
    ensures !Forward(p, included).changed ==> Forward(p, included).next == included
  {
    var ex := Excluded(p.columns, included);
    var scores := ForwardScores(p, included, ex);
    if Forward(p, included).changed {
      var k := ArgMin(scores);
      assert ex[k] in ex && ForwardScore(p, included, ex[k]) == scores[k];
    } else {
      forall c | c in ex ensures ForwardScore(p, included, c) >= p.thresholdIn {
        var j :| 0 <= j < |ex| && ex[j] == c;
        assert scores[j] in scores;
      }
    }
  }

  /** What the forward step appends: one candidate, the one at the smallest
      score, and the first in candidate order among those tied with it. */
  lemma ForwardAppendsMinimum(p: Problem, included: seq<Column>)
    requires Forward(p, included).changed
    ensures var f := Forward(p, included);
            var ex := Excluded(p.columns, included);
            && |f.next| == |included| + 1
            && f.next[..|included|] == included
            && var c := f.next[|included|];
               && c in ex
               && ForwardScore(p, included, c) < p.thresholdIn
               && (forall d :: d in ex ==> ForwardScore(p, included, c) <= ForwardScore(p, included, d))
               && (forall j :: 0 <= j < |ex| && ForwardScore(p, included, ex[j]) == ForwardScore(p, included, c)
                     ==> c in ex[..j + 1])
  {
    var ex := Excluded(p.columns, included);
    var scores := ForwardScores(p, included, ex);
    var k := ArgMin(scores);
    var c := ex[k];
    assert Forward(p, included).next == included + [c];
    assert (included + [c])[..|included|] == included;
    forall d | d in ex ensures ForwardScore(p, included, c) <= ForwardScore(p, included, d) {
      var j :| 0 <= j < |ex| && ex[j] == d;
      assert scores[k] <= scores[j];
    }
    forall j | 0 <= j < |ex| && ForwardScore(p, included, ex[j]) == ForwardScore(p, included, c)
      ensures c in ex[..j + 1]
    {
      assert scores[j] == scores[k];
      assert ex[..j + 1][k] == c;
    }
  }

  /** With every column already included there is no candidate, the minimum is
      NaN, and the forward step changes nothing. */
  lemma ForwardSaturated(p: Problem, included: seq<Column>)
    requires forall c :: c in p.columns ==> c in included
    ensures Forward(p, included) == Step(included, false)
  {
    NothingExcluded(p.columns, included);
  }

  lemma {:induction false} NothingExcluded(columns: seq<Column>, included: seq<Column>)
    requires forall c :: c in columns ==> c in included
    ensures Excluded(columns, included) == []
    decreases |columns|
  {
    if columns != [] {
      assert columns[0] in columns;
      NothingExcluded(columns[1..], included);
    }
  }

  /** The backward step removes at most one column; it removes one exactly when
      some included column scores strictly above `threshold_out`, and then the
      one with the largest score, the first in list order on a tie. The other
      columns keep their order. Nothing is removed from an empty list. */
  lemma BackwardDropsWorst(p: Problem, included: seq<Column>)
    ensures var b := Backward(p, included);
            && (b.changed <==> exists i :: 0 <= i < |included| && BackwardScore(p, included, i) > p.thresholdOut)
            && (!b.changed ==> b.next == included)
            && (included == [] ==> !b.changed)
            && (b.changed ==>
                  exists k :: 0 <= k < |included|
                    && b.next == included[..k] + included[k + 1..]
                    && BackwardScore(p, included, k) > p.thresholdOut
                    && (forall j :: 0 <= j < |included| ==> BackwardScore(p, included, j) <= BackwardScore(p, included, k))
                    && (forall j :: 0 <= j < k ==> BackwardScore(p, included, j) < BackwardScore(p, included, k)))
  {
    var scores := BackwardScores(p, included);
    if Above(Max(scores), p.thresholdOut) {
      var k := ArgMax(scores);
      assert Backward(p, included).next == included[..k] + included[k + 1..];
      forall j | 0 <= j < |included|
        ensures BackwardScore(p, included, j) <= BackwardScore(p, included, k)
        ensures j < k ==> BackwardScore(p, included, j) < BackwardScore(p, included, k)
      {
        assert scores[j] == BackwardScore(p, included, j);
      }
      assert BackwardScore(p, included, k) > p.thresholdOut;
    } else {
      forall i | 0 <= i < |included| ensures BackwardScore(p, included, i) <= p.thresholdOut {
        assert scores[i] in scores;
      }
    }
  }

  /** The number of positions of X whose column is not yet included. */
  function Pending(columns: seq<Column>, included: seq<Column>): (n: nat)
    ensures n <= |columns|
  {
    if columns == [] then 0
    else (if columns[0] in included then 0 else 1) + Pending(columns[1..], included)
  }

  lemma {:induction false} PendingNoGrow(columns: seq<Column>, included: seq<Column>, c: Column)
    ensures Pending(columns, included + [c]) <= Pending(columns, included)
  {
    if columns != [] {
      PendingNoGrow(columns[1..], included, c);
    }
  }

  /** Including a column of X that was not included leaves fewer pending. */
  lemma {:induction false} PendingShrinks(columns: seq<Column>, included: seq<Column>, c: Column)
    requires c in columns && c !in included
    ensures Pending(columns, included + [c]) < Pending(columns, included)
  {
    if columns[0] == c {
      PendingNoGrow(columns[1..], included, c);
    } else {
      assert c in columns[1..];
      PendingShrinks(columns[1..], included, c);
    }
  }

  /** The forward step keeps `included` well formed, and a step that adds a
      column leaves fewer columns pending. */
  lemma ForwardProgress(p: Problem, included: seq<Column>)
    requires WellFormed(p.columns, included)
    ensures WellFormed(p.columns, Forward(p, included).next)
    ensures Forward(p, included).changed ==>
              Pending(p.columns, Forward(p, included).next) < Pending(p.columns, included)
    ensures !Forward(p, included).changed ==> Forward(p, included).next == included
  {
    var f := Forward(p, included);
    var ex := Excluded(p.columns, included);
    if f.changed {
      var c := ex[ArgMin(ForwardScores(p, included, ex))];
      assert f.next == included + [c];
      assert c in ex;
      forall i, j | 0 <= i < j < |f.next| ensures f.next[i] != f.next[j] {
        if j == |included| {
          assert f.next[i] == included[i];
        }
      }
      PendingShrinks(p.columns, included, c);
    }
  }

  /** An iteration keeps `included` a duplicate-free list of columns of X. */
  lemma IterationKeepsWellFormed(p: Problem, included: seq<Column>)
    requires WellFormed(p.columns, included)
    ensures WellFormed(p.columns, Iteration(p, included).next)
  {
    ForwardProgress(p, included);
    var f := Forward(p, included);
    var pvalues := BackwardScores(p, f.next);
    if Above(Max(pvalues), p.thresholdOut) {
      RemoveAtKeepsWellFormed(p.columns, f.next, ArgMax(pvalues));
    }
  }

  /** An iteration leaves the `changed` flag unset exactly when no candidate
      scores below `threshold_in` and no included column scores above
      `threshold_out`; the list is then unchanged. */
  lemma StableIff(p: Problem, included: seq<Column>)
    ensures !Iteration(p, included).changed <==>
              && (forall c :: c in Excluded(p.columns, included) ==> ForwardScore(p, included, c) >= p.thresholdIn)
              && (forall i :: 0 <= i < |included| ==> BackwardScore(p, included, i) <= p.thresholdOut)
    ensures !Iteration(p, included).changed ==> Iteration(p, included).next == included
  {
    ForwardAddsWhenBelow(p, included);
    var f := Forward(p, included);
    if !f.changed {
      BackwardDropsWorst(p, included);
    }
  }

  /** The loop returns only a list on which its body reports no change. */
  lemma {:induction false} LoopReturnsStable(body: seq<Column> -> Step, included: seq<Column>, fuel: nat, r: seq<Column>)
    requires Loop(body, included, fuel) == Some(r)
    ensures !body(r).changed
    decreases fuel
  {
    if body(included).changed {
      LoopReturnsStable(body, body(included).next, fuel - 1, r);
    }
  }

  /** Fuel is only a bound: once the loop has returned within some number of
      iterations, more iterations give the same list. */
  lemma {:induction false} LoopFuelMonotone(body: seq<Column> -> Step, included: seq<Column>, fuel: nat, more: nat)
    requires fuel <= more
    requires Loop(body, included, fuel).Some?
    ensures Loop(body, included, more) == Loop(body, included, fuel)
    decreases fuel
  {
    if body(included).changed {
      LoopFuelMonotone(body, body(included).next, fuel - 1, more - 1);
    }
  }

  /** A property that every iteration preserves holds of the returned list. */
  lemma {:induction false} LoopKeeps(body: seq<Column> -> Step, inv: seq<Column> -> bool,
                                     included: seq<Column>, fuel: nat, r: seq<Column>)
    requires inv(included)
    requires forall x :: inv(x) ==> inv(body(x).next)
    requires Loop(body, included, fuel) == Some(r)
    ensures inv(r)
    decreases fuel
  {
    if body(included).changed {
      LoopKeeps(body, inv, body(included).next, fuel - 1, r);
    }
  }

  /** The selection loop returns only a list on which a further iteration would
      change nothing, and that list is still a duplicate-free list of columns. */
  lemma RunConverged(p: Problem, included: seq<Column>, fuel: nat, r: seq<Column>)
    requires WellFormed(p.columns, included)
    requires Run(p, included, fuel) == Some(r)
    ensures WellFormed(p.columns, r)
    ensures !Iteration(p, r).changed && Iteration(p, r).next == r
  {
    var body := x => Iteration(p, x);
    var inv := x => WellFormed(p.columns, x);
    forall x | inv(x) ensures inv(body(x).next) {
      IterationKeepsWellFormed(p, x);
    }
    LoopKeeps(body, inv, included, fuel, r);
    LoopReturnsStable(body, included, fuel, r);
    assert body(r) == Iteration(p, r);
    StableIff(p, r);
  }

  /** The computation of `new_pval` and the forward step, lines 236-249. */
  method ForwardStep(p: Problem, included: seq<Column>) returns (next: seq<Column>, added: bool)
    ensures Step(next, added) == Forward(p, included)
  {
    var excluded := Excluded(p.columns, included);
    var newPval: seq<real> := [];
    for i := 0 to |excluded|
      invariant newPval == ForwardScores(p, included, excluded)[..i]
    {
      var newColumn := excluded[i];
      newPval := newPval + [p.pval(included + [newColumn], newColumn)];
    }
    assert newPval == ForwardScores(p, included, excluded);
    var bestPval := Min(newPval);
    if Below(bestPval, p.thresholdIn) {
      var bestFeature := excluded[ArgMin(newPval)];
      next, added := included + [bestFeature], true;
    } else {
      next, added := included, false;
    }
  }

  /** `compute_stepwise`, lines 232-265. The `while True` loop is bounded by
      `fuel`; `None` means it had not returned after `fuel` iterations. */
  method ComputeStepwise(p: Problem, fuel: nat) returns (outcome: Option<seq<Column>>)
    ensures outcome == Run(p, [], fuel)
    ensures outcome.Some? ==>
              && WellFormed(p.columns, outcome.value)
              && !Iteration(p, outcome.value).changed
  {
    var included: seq<Column> := [];
    var remaining := fuel;
    while remaining > 0
      invariant Run(p, included, remaining) == Run(p, [], fuel)
      invariant WellFormed(p.columns, included)
      decreases remaining
    {
      ghost var before := included;
      var changed := false;
      var added;
      included, added := ForwardStep(p, included);
      if added {
        changed := true;
      }
      var pvalues := BackwardScores(p, included);
      var worstPval := Max(pvalues);
      if Above(worstPval, p.thresholdOut) {
        changed := true;
        var worstFeature := ArgMax(pvalues);
        included := RemoveAt(included, worstFeature);
      }
      assert Step(included, changed) == Iteration(p, before);
      IterationKeepsWellFormed(p, before);
      if !changed {
        StableIff(p, before);
        return Some(included);
      }
      remaining := remaining - 1;
    }
    return None;
  }

  /** How the original backward step fails: `pvalues.argmax()` is a position,
      so `included.remove(worst_feature)` looks for an integer among column
      names and raises ValueError (and if it did not, the undefined name
      `verbose` on the next line would raise NameError). */
  datatype Fault = DropRaises

  /** Lines 252-262 as written: every drop ends in an exception. */
  function BackwardAsWritten(p: Problem, included: seq<Column>): Result<Step, Fault> {
    var pvalues := BackwardScores(p, included);
    if Above(Max(pvalues), p.thresholdOut) then Failure(DropRaises)
    else Success(Step(included, false))
  }

  /** As written, the backward step raises exactly when the intended step would
      drop a column, and otherwise agrees with it. */
  lemma AsWrittenRaisesOnEveryDrop(p: Problem, included: seq<Column>)
    ensures BackwardAsWritten(p, included).Failure? <==> Backward(p, included).changed
    ensures BackwardAsWritten(p, included).Failure? <==>
              exists i :: 0 <= i < |included| && BackwardScore(p, included, i) > p.thresholdOut
    ensures BackwardAsWritten(p, included).Success? ==>
              BackwardAsWritten(p, included).value == Backward(p, included)
  {
    BackwardDropsWorst(p, included);
  }

  /** A concrete input: "Age" included with p-value 0.9 and `threshold_out`
      0.25. The intended step drops it; the step as written raises. */
  lemma AsWrittenDropExample()
    ensures var p := Problem(["Age"], (design: seq<Column>, c: Column) => 9.0 / 10.0, 1.0 / 4.0, 1.0 / 4.0);
            && BackwardAsWritten(p, ["Age"]) == Failure(DropRaises)
            && Backward(p, ["Age"]) == Step([], true)
  {
    var p := Problem(["Age"], (design: seq<Column>, c: Column) => 9.0 / 10.0, 1.0 / 4.0, 1.0 / 4.0);
    var pvalues := BackwardScores(p, ["Age"]);
    assert pvalues == [9.0 / 10.0];
    assert ArgMax(pvalues) == 0;
  }

  /** One pass of the `while True` body as written: `Failure` when its
      backward step raises. */
  function IterationAsWritten(p: Problem, included: seq<Column>): Result<Step, Fault> {
    var f := Forward(p, included);
    match BackwardAsWritten(p, f.next)
    case Failure(e) => Failure(e)
    case Success(b) => Success(Step(b.next, f.changed || b.changed))
  }

  /** A `while True` loop whose body may raise: `Failure` when an iteration
      raises, `Success(None)` when it has neither returned nor raised within
      `fuel` iterations. */
  function LoopOrRaise(body: seq<Column> -> Result<Step, Fault>, included: seq<Column>, fuel: nat)
    : Result<Option<seq<Column>>, Fault>
    decreases fuel
  {
    if fuel == 0 then Success(None)
    else
      match body(included)
      case Failure(e) => Failure(e)
      case Success(it) => if !it.changed then Success(Some(included)) else LoopOrRaise(body, it.next, fuel - 1)
  }

  /** The selection loop as written, started from `included`. */
  function RunAsWritten(p: Problem, included: seq<Column>, fuel: nat): Result<Option<seq<Column>>, Fault> {
    LoopOrRaise(x => IterationAsWritten(p, x), included, fuel)
  }

  /** An iteration as written raises exactly when the intended one drops a
      column, and otherwise is the intended iteration. */
  lemma IterationAsWrittenAgrees(p: Problem, included: seq<Column>)
    ensures IterationAsWritten(p, included).Failure? <==> Backward(p, Forward(p, included).next).changed
    ensures IterationAsWritten(p, included).Success? ==> IterationAsWritten(p, included).value == Iteration(p, included)
  {
    AsWrittenRaisesOnEveryDrop(p, Forward(p, included).next);
  }

  /** A loop whose body may raise ends, by returning or raising, when some
      measure drops with every changing iteration. */
  lemma {:induction false} LoopOrRaiseEnds(body: seq<Column> -> Result<Step, Fault>, inv: seq<Column> -> bool,
                                           measure: seq<Column> -> nat, included: seq<Column>, fuel: nat)
    requires inv(included)
    requires forall x :: inv(x) && body(x).Success? && body(x).value.changed ==>
               inv(body(x).value.next) && measure(body(x).value.next) < measure(x)
    requires fuel > measure(included)
    ensures LoopOrRaise(body, included, fuel) != Success(None)
    decreases fuel
  {
    if body(included).Success? && body(included).value.changed {
      LoopOrRaiseEnds(body, inv, measure, body(included).value.next, fuel - 1);
    }
  }

  /** A loop that may raise, and that never raises where a loop that cannot
      differs from it, returns what that loop returns. */
  lemma {:induction false} LoopOrRaiseAgrees(raising: seq<Column> -> Result<Step, Fault>, body: seq<Column> -> Step,
                                             included: seq<Column>, fuel: nat, r: seq<Column>)
    requires forall x :: raising(x).Success? ==> raising(x).value == body(x)
    requires LoopOrRaise(raising, included, fuel) == Success(Some(r))
    ensures Loop(body, included, fuel) == Some(r)
    decreases fuel
  {
    if raising(included).value.changed {
      LoopOrRaiseAgrees(raising, body, raising(included).value.next, fuel - 1, r);
    }
  }

  /** An iteration as written that goes on has added a column: the list stays
      well formed and fewer columns are pending. */
  lemma IterationAsWrittenProgress(p: Problem, included: seq<Column>)
    requires WellFormed(p.columns, included)
    ensures var it := IterationAsWritten(p, included);
            it.Success? && it.value.changed ==>
              WellFormed(p.columns, it.value.next) && Pending(p.columns, it.value.next) < Pending(p.columns, included)
  {
    ForwardProgress(p, included);
    AsWrittenRaisesOnEveryDrop(p, Forward(p, included).next);
  }

  /** As written, the run from `included` ends, by returning or raising,
      within one iteration more than there are columns pending: each
      iteration raises, returns, or adds a column. */
  lemma AsWrittenEnds(p: Problem, included: seq<Column>, fuel: nat)
    requires WellFormed(p.columns, included)
    requires fuel > Pending(p.columns, included)
    ensures RunAsWritten(p, included, fuel) != Success(None)
  {
    var body := x => IterationAsWritten(p, x);
    var inv := x => WellFormed(p.columns, x);
    var measure := x => Pending(p.columns, x);
    forall x | inv(x) && body(x).Success? && body(x).value.changed
      ensures inv(body(x).value.next) && measure(body(x).value.next) < measure(x)
    {
      IterationAsWrittenProgress(p, x);
    }
    LoopOrRaiseEnds(body, inv, measure, included, fuel);
  }

  /** From the empty list, `|X.columns| + 1` iterations are enough for the
      written program to return or raise. */
  lemma AsWrittenEndsFromEmpty(p: Problem, fuel: nat)
    requires fuel > |p.columns|
    ensures RunAsWritten(p, [], fuel) != Success(None)
  {
    AsWrittenEnds(p, [], fuel);
  }

  /** When the written program returns a selection, the corrected loop
      returns the same one. */
  lemma AsWrittenAgreesWhenItReturns(p: Problem, included: seq<Column>, fuel: nat, r: seq<Column>)
    requires RunAsWritten(p, included, fuel) == Success(Some(r))
    ensures Run(p, included, fuel) == Some(r)
  {
    var raising := x => IterationAsWritten(p, x);
    var body := x => Iteration(p, x);
    forall x | raising(x).Success? ensures raising(x).value == body(x) {
      IterationAsWrittenAgrees(p, x);
    }
    LoopOrRaiseAgrees(raising, body, included, fuel, r);
  }

  /** A column is "beaten" in a design when its rival is fitted with it:
      Weight beats Height, Age beats Weight, Height beats Age. */
  predicate Beaten(design: seq<Column>, c: Column) {
    || (c == "Height" && "Weight" in design)
    || (c == "Weight" && "Age" in design)
    || (c == "Age" && "Height" in design)
  }

  /** An oracle that depends only on which columns are fitted, not on their
      order: 0.9 for a beaten column, 0.1 otherwise. */
  function CyclingPValue(design: seq<Column>, c: Column): real {
    if Beaten(design, c) then 9.0 / 10.0 else 1.0 / 10.0
  }

  function CyclingProblem(): Problem {
    Problem(["Height", "Weight", "Age"], CyclingPValue, 1.0 / 4.0, 1.0 / 4.0)
  }

  lemma CyclingForwardFromEmpty()
    ensures Forward(CyclingProblem(), []) == Step(["Height"], true)
  {
    var lo := 1.0 / 10.0;
    assert !Beaten(["Height"], "Height") && !Beaten(["Weight"], "Weight") && !Beaten(["Age"], "Age");
    assert Excluded(CyclingProblem().columns, []) == ["Height", "Weight", "Age"];
    assert ForwardScores(CyclingProblem(), [], ["Height", "Weight", "Age"]) == [lo, lo, lo];
    assert ArgMin([lo, lo, lo]) == 0;
  }

  lemma CyclingForwardFromHeight()
    ensures Forward(CyclingProblem(), ["Height"]) == Step(["Height", "Weight"], true)
  {
    var lo, hi := 1.0 / 10.0, 9.0 / 10.0;
    assert !Beaten(["Height", "Weight"], "Weight") && Beaten(["Height", "Age"], "Age");
    assert Excluded(CyclingProblem().columns, ["Height"]) == ["Weight", "Age"];
    assert ForwardScores(CyclingProblem(), ["Height"], ["Weight", "Age"]) == [lo, hi];
    assert ArgMin([lo, hi]) == 0;
  }

  lemma CyclingForwardFromWeight()
    ensures Forward(CyclingProblem(), ["Weight"]) == Step(["Weight", "Age"], true)
  {
    var lo, hi := 1.0 / 10.0, 9.0 / 10.0;
    assert Beaten(["Weight", "Height"], "Height") && !Beaten(["Weight", "Age"], "Age");
    assert Excluded(CyclingProblem().columns, ["Weight"]) == ["Height", "Age"];
    assert ForwardScores(CyclingProblem(), ["Weight"], ["Height", "Age"]) == [hi, lo];
    assert ArgMin([hi, lo]) == 1;
  }

  lemma CyclingForwardFromAge()
    ensures Forward(CyclingProblem(), ["Age"]) == Step(["Age", "Height"], true)
  {
    var lo, hi := 1.0 / 10.0, 9.0 / 10.0;
    assert !Beaten(["Age", "Height"], "Height") && Beaten(["Age", "Weight"], "Weight");
    assert Excluded(CyclingProblem().columns, ["Age"]) == ["Height", "Weight"];
    assert ForwardScores(CyclingProblem(), ["Age"], ["Height", "Weight"]) == [lo, hi];
    assert ArgMin([lo, hi]) == 0;
  }

  lemma CyclingBackwardKeeps()
    ensures Backward(CyclingProblem(), ["Height"]) == Step(["Height"], false)
  {
    assert !Beaten(["Height"], "Height");
    assert BackwardScores(CyclingProblem(), ["Height"]) == [1.0 / 10.0];
  }

  /** With two columns fitted, the first is beaten and dropped. */
  lemma CyclingBackwardDrops(a: Column, b: Column)
    requires [a, b] in {["Height", "Weight"], ["Weight", "Age"], ["Age", "Height"]}
    ensures Backward(CyclingProblem(), [a, b]) == Step([b], true)
  {
    var lo, hi := 1.0 / 10.0, 9.0 / 10.0;
    assert Beaten([a, b], a) && !Beaten([a, b], b);
    assert BackwardScores(CyclingProblem(), [a, b]) == [hi, lo];
    assert ArgMax([hi, lo]) == 0;
    assert RemoveAt([a, b], 0) == [b];
  }

  lemma CyclingSteps()
    ensures Iteration(CyclingProblem(), []) == Step(["Height"], true)
    ensures Iteration(CyclingProblem(), ["Height"]) == Step(["Weight"], true)
    ensures Iteration(CyclingProblem(), ["Weight"]) == Step(["Age"], true)
    ensures Iteration(CyclingProblem(), ["Age"]) == Step(["Height"], true)
  {
    CyclingForwardFromEmpty();
    CyclingBackwardKeeps();
    CyclingForwardFromHeight();
    CyclingBackwardDrops("Height", "Weight");
    CyclingForwardFromWeight();
    CyclingBackwardDrops("Weight", "Age");
    CyclingForwardFromAge();
    CyclingBackwardDrops("Age", "Height");
  }

  /** A loop whose body leads from a to b to c and back to a, each time
      reporting a change, never returns. */
  lemma {:induction false} LoopCycleNeverReturns(body: seq<Column> -> Step, a: seq<Column>, b: seq<Column>,
                                                 c: seq<Column>, fuel: nat)
    requires body(a) == Step(b, true) && body(b) == Step(c, true) && body(c) == Step(a, true)
    ensures Loop(body, a, fuel) == None
    ensures Loop(body, b, fuel) == None
    ensures Loop(body, c, fuel) == None
    decreases fuel
  {
    if fuel > 0 {
      LoopCycleNeverReturns(body, a, b, c, fuel - 1);
    }
  }

  /** The selection loop started on a three-step cycle never returns; neither
      does one started on a list whose first iteration leads into the cycle.
      `CyclingNeverReturns` supplies inputs that meet these requires. */
  lemma RunCycleNeverReturns(p: Problem, start: seq<Column>, a: seq<Column>, b: seq<Column>,
                             c: seq<Column>, fuel: nat)
    requires Iteration(p, start) == Step(a, true)
    requires Iteration(p, a) == Step(b, true) && Iteration(p, b) == Step(c, true)
    requires Iteration(p, c) == Step(a, true)
    ensures Run(p, start, fuel) == None
  {
    var body := x => Iteration(p, x);
    assert body(start) == Iteration(p, start);
    assert body(a) == Iteration(p, a) && body(b) == Iteration(p, b) && body(c) == Iteration(p, c);
    if fuel > 0 {
      LoopCycleNeverReturns(body, a, b, c, fuel - 1);
    }
  }

  /** With the intended backward step the loop need not terminate, even with
      `threshold_in == threshold_out` (0.25, the values the script uses) and
      an oracle that ignores column order: from the empty list it cycles
      Height, Weight, Age for ever. The problem is a parameter pinned by the
      requires rather than written into the ensures, so that the unfolding of
      the loop works on an abstract problem and draws only on the step facts
      of `CyclingSteps`. */
  lemma CyclingNeverReturns(p: Problem, fuel: nat)
    requires p == CyclingProblem()
    ensures Run(p, [], fuel) == None
  {
    CyclingSteps();
    RunCycleNeverReturns(p, [], ["Height"], ["Weight"], ["Age"], fuel);
  }

  /** The written loop, started where an iteration goes on to a list on
      which the next iteration raises, raises. */
  lemma RunAsWrittenRaisesSecond(p: Problem, start: seq<Column>, a: seq<Column>, fuel: nat)
    requires IterationAsWritten(p, start) == Success(Step(a, true))
    requires IterationAsWritten(p, a).Failure?
    requires fuel >= 2
    ensures RunAsWritten(p, start, fuel) == Failure(DropRaises)
  {
    var body := x => IterationAsWritten(p, x);
    assert body(start) == IterationAsWritten(p, start);
    assert body(a) == IterationAsWritten(p, a);
    assert IterationAsWritten(p, a).error == DropRaises;
    assert LoopOrRaise(body, a, fuel - 1) == Failure(DropRaises);
    assert LoopOrRaise(body, start, fuel) == LoopOrRaise(body, a, fuel - 1);
  }

  /** The program as written does not cycle on that oracle: its second
      iteration fits Height and Weight, must drop Height, and raises. */
  lemma CyclingAsWrittenRaises(p: Problem, fuel: nat)
    requires p == CyclingProblem()
    requires fuel >= 2
    ensures RunAsWritten(p, [], fuel) == Failure(DropRaises)
  {
    CyclingForwardFromEmpty();
    CyclingBackwardKeeps();
    CyclingForwardFromHeight();
    CyclingBackwardDrops("Height", "Weight");
    IterationAsWrittenAgrees(p, []);
    IterationAsWrittenAgrees(p, ["Height"]);
    assert Iteration(p, []) == Step(["Height"], true);
    RunAsWrittenRaisesSecond(p, [], ["Height"], fuel);
  }
}
