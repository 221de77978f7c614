/** Pure specification of the adaptive-step hill-climbing sweep.

    The optimiser keeps, per dimension of a parameter vector, a step size, and
    in each sweep tries five moves per dimension: `step * cand[j]` for the
    candidate multipliers `cand = [-accel, -1/accel, 0, 1/accel, accel]`.
    This module describes one dimension's step (`StepDim`), a whole sweep
    (`Sweep`) and repeated sweeps (`Run`) as functions on values, and proves
    what the algorithm promises about them. The class in module HillClimbing
    is proved to compute exactly these functions. */
module Search {

  /** double.MaxValue: the "nothing scored yet" sentinel for the best error. */
  const MaxValue: real := 1.7976931348623157e308

  /** The objective: a deterministic function of the whole parameter vector. */
  type Scorer = seq<real> -> real

  /** The optimiser's state as values: parameter vector, step sizes, best error. */
  datatype State = State(params: seq<real>, steps: seq<real>, lastError: real)

  /** Outcome of trying the candidates of one dimension: index of the winner
      (-1 when none beat the sentinel) and its score. */
  datatype Choice = Choice(best: int, bestScore: real)

  /** One step size per parameter. */
  predicate Shaped(st: State)
  {
    |st.params| == |st.steps|
  }

  /** A candidate table has five entries and the middle one ("stay put") is 0. */
  predicate WellFormedTable(cand: seq<real>)
  {
    |cand| == 5 && cand[2] == 0.0
  }

  /** The vector `v` with `delta` added to dimension `i`: what the scorer
      sees while a candidate move is tried, and what is kept once it wins. */
  function Moved(v: seq<real>, i: nat, delta: real): seq<real>
    requires i < |v|
  {
    v[i := v[i] + delta]
  }

  /** The vector the scorer sees while multiplier `c` is tried in dimension `i`. */
  function Trial(v: seq<real>, i: nat, step: real, c: real): seq<real>
    requires i < |v|
  {
    Moved(v, i, step * c)
  }

  /** The trial vector is the vector with dimension `i` replaced by the moved
      value. Stated once here so that the candidate loop of
      HillClimb.TryCandidates need not unfold the product inside a sequence
      update, which keeps its proof stable across solver seeds. */
  lemma TrialIsUpdate(v: seq<real>, i: nat, step: real, c: real, x: real)
    requires i < |v| && x == v[i] + step * c
    ensures Trial(v, i, step, c) == v[i := x]
  {
  }

  /** The scores of the candidates of dimension `i`, in table order. */
  function TrialScores(score: Scorer, v: seq<real>, i: nat, step: real, cand: seq<real>): seq<real>
    requires i < |v|
  {
    seq(|cand|, j requires 0 <= j < |cand| => score(Trial(v, i, step, cand[j])))
  }

  /** The selection the candidate loop performs over the scores seen so far:
      keep the first score strictly below everything before it, starting from
      the sentinel. SelectIsFirstMinimum says what it picks. */
  function Select(scores: seq<real>): (c: Choice)
    ensures -1 <= c.best < |scores|
    ensures c.best == -1 ==> c.bestScore == MaxValue
    ensures c.best != -1 ==> c.bestScore == scores[c.best] < MaxValue
    decreases |scores|
  {
    if scores == [] then Choice(-1, MaxValue)
    else
      var prev := Select(scores[..|scores| - 1]);
      var last := scores[|scores| - 1];
      if last < prev.bestScore then Choice(|scores| - 1, last) else prev
  }

  /** The selection finds the first minimum of the scores, provided that
      minimum is below the sentinel, and "none" (-1) exactly when every score
      is at least the sentinel. */
  lemma {:induction false} SelectIsFirstMinimum(scores: seq<real>)
    ensures var c := Select(scores);
      && (c.best == -1 <==> forall k :: 0 <= k < |scores| ==> scores[k] >= MaxValue)
      && (c.best != -1 ==> forall k :: 0 <= k < |scores| ==> c.bestScore <= scores[k])
      && (c.best != -1 ==> forall k :: 0 <= k < c.best ==> c.bestScore < scores[k])
    decreases |scores|
  {
    if scores != [] {
      var init := scores[..|scores| - 1];
      SelectIsFirstMinimum(init);
      assert forall k :: 0 <= k < |init| ==> init[k] == scores[k];
    }
  }

  /** One dimension of a sweep: try every candidate, then apply the winning
      move and scale the step by the winning multiplier. */
  function StepDim(score: Scorer, cand: seq<real>, st: State, i: nat): (r: State)
    requires Shaped(st) && i < |st.params|
    ensures Shaped(r) && |r.params| == |st.params|
    ensures forall d :: 0 <= d < |st.params| && d != i ==> r.params[d] == st.params[d] && r.steps[d] == st.steps[d]
  {
    var s := TrialScores(score, st.params, i, st.steps[i], cand);
    var c := Select(s);
    if c.best == -1 then st
    else
      var step := st.steps[i] * cand[c.best];
      State(Moved(st.params, i, step), st.steps[i := step], c.bestScore)
  }

  /** The first `k` dimensions of a sweep, applied in order 0, 1, ..., k-1. */
  function SweepTo(score: Scorer, cand: seq<real>, st: State, k: nat): (r: State)
    requires Shaped(st) && k <= |st.params|
    ensures Shaped(r) && |r.params| == |st.params|
    ensures forall d :: k <= d < |st.params| ==> r.params[d] == st.params[d] && r.steps[d] == st.steps[d]
    decreases k
  {
    if k == 0 then st
    else StepDim(score, cand, SweepTo(score, cand, st, k - 1), k - 1)
  }

  /** One full sweep over every dimension (one call of Iteration). */
  function Sweep(score: Scorer, cand: seq<real>, st: State): (r: State)
    requires Shaped(st)
    ensures Shaped(r) && |r.params| == |st.params|
  {
    SweepTo(score, cand, st, |st.params|)
  }

  /** `m` sweeps in a row. */
  function Run(score: Scorer, cand: seq<real>, st: State, m: nat): (r: State)
    requires Shaped(st)
    ensures Shaped(r) && |r.params| == |st.params|
    decreases m
  {
    if m == 0 then st else Sweep(score, cand, Run(score, cand, st, m - 1))
  }

  // ---------------------------------------------------------------------
  // Selection and the update of one dimension

  /** The update of one dimension stated through the first minimum of the
      trial scores rather than through the selection loop: when every trial
      scores at least the sentinel nothing changes; otherwise, for the
      earliest index `b` holding the minimum, the parameter moves by
      `step * cand[b]`, the step becomes `step * cand[b]` and the best error
      becomes that minimum. */
  lemma StepDimUpdate(score: Scorer, cand: seq<real>, st: State, i: nat, b: int)
    requires Shaped(st) && i < |st.params|
    requires var s := TrialScores(score, st.params, i, st.steps[i], cand);
      (b == -1 && forall k :: 0 <= k < |s| ==> s[k] >= MaxValue) ||
      (0 <= b < |s| && s[b] < MaxValue &&
       (forall k :: 0 <= k < |s| ==> s[b] <= s[k]) &&
       (forall k :: 0 <= k < b ==> s[b] < s[k]))
    ensures var r := StepDim(score, cand, st, i);
      if b == -1 then r == st
      else
        && r.params == st.params[i := st.params[i] + st.steps[i] * cand[b]]
        && r.steps == st.steps[i := st.steps[i] * cand[b]]
        && r.lastError == TrialScores(score, st.params, i, st.steps[i], cand)[b]
  {
    var s := TrialScores(score, st.params, i, st.steps[i], cand);
    var c := Select(s);
    SelectIsFirstMinimum(s);
    if b != -1 {
      // Two earliest minima coincide.
      assert c.best == b;
      var r := StepDim(score, cand, st, i);
      assert r.params[i] == st.params[i] + st.steps[i] * cand[b];
    }
  }

  /** StepDim once the selection is known: the explicit new state, with the
      winning move `move` and the moved parameter value `moved`. */
  lemma StepDimApplies(score: Scorer, cand: seq<real>, st: State, i: nat, best: int, bestScore: real, move: real, moved: real)
    requires Shaped(st) && i < |st.params|
    requires Choice(best, bestScore) == Select(TrialScores(score, st.params, i, st.steps[i], cand))
    requires best != -1 ==> move == st.steps[i] * cand[best] && moved == st.params[i] + move
    ensures StepDim(score, cand, st, i) ==
      if best == -1 then st else State(st.params[i := moved], st.steps[i := move], bestScore)
  {
    var r := StepDim(score, cand, st, i);
    if best != -1 {
      assert r.steps[i] == move;
      assert r.params[i] == moved;
    }
  }

  /** What a dimension update can do: either nothing at all, or move the
      parameter by exactly the new step size and record as best error the
      score of the vector it keeps, which is below the sentinel. */
  lemma StepDimOutcome(score: Scorer, cand: seq<real>, st: State, i: nat)
    requires Shaped(st) && i < |st.params|
    ensures var r := StepDim(score, cand, st, i);
      r == st ||
      (r.params[i] == st.params[i] + r.steps[i] && r.lastError < MaxValue && r.lastError == score(r.params))
  {
    var s := TrialScores(score, st.params, i, st.steps[i], cand);
    var c := Select(s);
    if c.best != -1 {
      var r := StepDim(score, cand, st, i);
      assert r.params[i] == st.params[i] + st.steps[i] * cand[c.best];
      assert r.params == Trial(st.params, i, st.steps[i], cand[c.best]);
    }
  }

  /** Tie-break: when all five trials of a dimension score the same value
      below the sentinel, candidate 0 (`-accel`) wins, so the parameter does
      move and the step becomes `cand[0] * step`; when that common score is
      not below the sentinel, the dimension is left alone. */
  lemma AllTiedPicksFirst(score: Scorer, cand: seq<real>, st: State, i: nat, tie: real)
    requires Shaped(st) && i < |st.params| && WellFormedTable(cand)
    requires forall j :: 0 <= j < 5 ==> score(Trial(st.params, i, st.steps[i], cand[j])) == tie
    ensures var r := StepDim(score, cand, st, i);
      if tie < MaxValue then
        r.params[i] == st.params[i] + st.steps[i] * cand[0] && r.steps[i] == st.steps[i] * cand[0] && r.lastError == tie
      else r == st
  {
    var s := TrialScores(score, st.params, i, st.steps[i], cand);
    assert forall k :: 0 <= k < |s| ==> s[k] == tie;
    SelectIsFirstMinimum(s);
    if tie < MaxValue {
      StepDimUpdate(score, cand, st, i, 0);
    } else {
      StepDimUpdate(score, cand, st, i, -1);
    }
  }

  /** A scorer that ignores its input: one sweep moves every dimension by
      `cand[0] * step` and multiplies every step by `cand[0]` when the
      constant is below the sentinel, and changes no parameter and no step
      otherwise. */
  lemma ConstantScorerSweep(score: Scorer, cand: seq<real>, st: State, tie: real)
    requires Shaped(st) && WellFormedTable(cand)
    requires forall v :: ScoresAs(score, v, tie)
    ensures var r := Sweep(score, cand, st);
      tie < MaxValue ==>
        forall d :: 0 <= d < |st.params| ==>
          r.params[d] == st.params[d] + st.steps[d] * cand[0] && r.steps[d] == st.steps[d] * cand[0]
    ensures tie >= MaxValue ==> Sweep(score, cand, st) == st
  {
    if tie < MaxValue {
      forall d | 0 <= d < |st.params|
        ensures var r := Sweep(score, cand, st);
          r.params[d] == st.params[d] + st.steps[d] * cand[0] && r.steps[d] == st.steps[d] * cand[0]
      {
        ConstantScorerMovesAt(score, cand, st, |st.params|, d, tie);
      }
    } else {
      ConstantScorerStaysTo(score, cand, st, |st.params|, tie);
    }
  }

  /** Dimension `d` after the first `k` dimensions of a sweep under a
      constant scorer below the sentinel. */
  lemma {:induction false} ConstantScorerMovesAt(score: Scorer, cand: seq<real>, st: State, k: nat, d: nat, tie: real)
    requires Shaped(st) && d < k <= |st.params| && WellFormedTable(cand)
    requires forall v :: ScoresAs(score, v, tie)
    requires tie < MaxValue
    ensures SweepTo(score, cand, st, k).params[d] == st.params[d] + st.steps[d] * cand[0]
    ensures SweepTo(score, cand, st, k).steps[d] == st.steps[d] * cand[0]
    decreases k
  {
    if d == k - 1 {
      ConstantScorerMovesLast(score, cand, st, k, tie);
    } else {
      ConstantScorerMovesAt(score, cand, st, k - 1, d, tie);
      var prev := SweepTo(score, cand, st, k - 1);
      assert SweepTo(score, cand, st, k) == StepDim(score, cand, prev, k - 1);
    }
  }

  /** The dimension a constant scorer's `k`-th step handles. */
  lemma ConstantScorerMovesLast(score: Scorer, cand: seq<real>, st: State, k: nat, tie: real)
    requires Shaped(st) && 0 < k <= |st.params| && WellFormedTable(cand)
    requires forall v :: ScoresAs(score, v, tie)
    requires tie < MaxValue
    ensures SweepTo(score, cand, st, k).params[k - 1] == st.params[k - 1] + st.steps[k - 1] * cand[0]
    ensures SweepTo(score, cand, st, k).steps[k - 1] == st.steps[k - 1] * cand[0]
  {
    var prev := SweepTo(score, cand, st, k - 1);
    assert prev.params[k - 1] == st.params[k - 1] && prev.steps[k - 1] == st.steps[k - 1];
    ConstantScorerStep(score, cand, prev, k - 1, tie);
  }

  /** The first `k` dimensions of a sweep under a constant scorer that does
      not beat the sentinel change nothing. */
  lemma {:induction false} ConstantScorerStaysTo(score: Scorer, cand: seq<real>, st: State, k: nat, tie: real)
    requires Shaped(st) && k <= |st.params| && WellFormedTable(cand)
    requires forall v :: ScoresAs(score, v, tie)
    requires tie >= MaxValue
    ensures SweepTo(score, cand, st, k) == st
    decreases k
  {
    if k > 0 {
      ConstantScorerStaysTo(score, cand, st, k - 1, tie);
      ConstantScorerStep(score, cand, st, k - 1, tie);
    }
  }

  /** `score` gives `v` the score `tie`; a constant scorer does so for every `v`. */
  predicate ScoresAs(score: Scorer, v: seq<real>, tie: real)
  {
    score(v) == tie
  }

  /** The constant-scorer case of one dimension. */
  lemma ConstantScorerStep(score: Scorer, cand: seq<real>, st: State, i: nat, tie: real)
    requires Shaped(st) && i < |st.params| && WellFormedTable(cand)
    requires forall v :: ScoresAs(score, v, tie)
    ensures tie < MaxValue ==> StepDim(score, cand, st, i).params[i] == st.params[i] + st.steps[i] * cand[0]
    ensures tie < MaxValue ==> StepDim(score, cand, st, i).steps[i] == st.steps[i] * cand[0]
    ensures tie >= MaxValue ==> StepDim(score, cand, st, i) == st
  {
    forall j | 0 <= j < 5
      ensures score(Trial(st.params, i, st.steps[i], cand[j])) == tie
    {
      assert ScoresAs(score, Trial(st.params, i, st.steps[i], cand[j]), tie);
    }
    AllTiedPicksFirst(score, cand, st, i, tie);
  }

  // ---------------------------------------------------------------------
  // Sequential composition within a sweep

  /** Once dimension `d` has had its turn, later dimensions of the same sweep
      leave its parameter and step alone. */
  lemma {:induction false} SweepFreezesDone(score: Scorer, cand: seq<real>, st: State, d: nat, k: nat)
    requires Shaped(st) && d < k <= |st.params|
    ensures SweepTo(score, cand, st, k).params[d] == SweepTo(score, cand, st, d + 1).params[d]
    ensures SweepTo(score, cand, st, k).steps[d] == SweepTo(score, cand, st, d + 1).steps[d]
    decreases k
  {
    if k > d + 1 {
      SweepFreezesDone(score, cand, st, d, k - 1);
    }
  }

  /** The trials of dimension `k` score a vector in which every earlier
      dimension already holds the value its own turn in this sweep gave it,
      and every later dimension still holds its value from before the sweep. */
  lemma TrialsSeeEarlierMoves(score: Scorer, cand: seq<real>, st: State, k: nat)
    requires Shaped(st) && k < |st.params|
    ensures var v := SweepTo(score, cand, st, k).params;
      && (forall d :: 0 <= d < k ==> v[d] == StepDim(score, cand, SweepTo(score, cand, st, d), d).params[d])
      && (forall d :: k <= d < |v| ==> v[d] == st.params[d])
  {
    forall d | 0 <= d < k
      ensures SweepTo(score, cand, st, k).params[d] == StepDim(score, cand, SweepTo(score, cand, st, d), d).params[d]
    {
      SweepFreezesDone(score, cand, st, d, k);
    }
  }

  // ---------------------------------------------------------------------
  // The absorbing zero step

  /** A dimension whose step is exactly 0 keeps its parameter and its step
      through one dimension update, whichever candidate wins. */
  lemma ZeroStepDimStays(score: Scorer, cand: seq<real>, st: State, i: nat, d: nat)
    requires Shaped(st) && i < |st.params| && d < |st.params| && st.steps[d] == 0.0
    ensures StepDim(score, cand, st, i).params[d] == st.params[d]
    ensures StepDim(score, cand, st, i).steps[d] == 0.0
  {
  }

  /** ... and so through the first `k` dimensions of a sweep. */
  lemma {:induction false} ZeroStepSweepToStays(score: Scorer, cand: seq<real>, st: State, k: nat, d: nat)
    requires Shaped(st) && k <= |st.params| && d < |st.params| && st.steps[d] == 0.0
    ensures SweepTo(score, cand, st, k).params[d] == st.params[d]
    ensures SweepTo(score, cand, st, k).steps[d] == 0.0
    decreases k
  {
    if k > 0 {
      ZeroStepSweepToStays(score, cand, st, k - 1, d);
      ZeroStepDimStays(score, cand, SweepTo(score, cand, st, k - 1), k - 1, d);
    }
  }

  /** Absorbing zero: once a step size is exactly 0, no number of further
      sweeps changes that dimension's parameter or step, for any scorer. */
  lemma {:induction false} ZeroStepAbsorbing(score: Scorer, cand: seq<real>, st: State, m: nat, d: nat)
    requires Shaped(st) && d < |st.params| && st.steps[d] == 0.0
    ensures Run(score, cand, st, m).params[d] == st.params[d]
    ensures Run(score, cand, st, m).steps[d] == 0.0
    decreases m
  {
    if m > 0 {
      ZeroStepAbsorbing(score, cand, st, m - 1, d);
      var prev := Run(score, cand, st, m - 1);
      ZeroStepSweepToStays(score, cand, prev, |prev.params|, d);
    }
  }

  // ---------------------------------------------------------------------
  // The best error never increases

  /** The best error is either the sentinel or the score of the current
      vector: the winning trial vector is exactly the vector that is kept. */
  predicate Consistent(score: Scorer, st: State)
  {
    st.lastError == MaxValue || st.lastError == score(st.params)
  }

  /** One dimension update keeps the best error consistent and never raises
      it: the "stay put" candidate re-scores the current vector, so the
      winner scores at most what the vector already scored. */
  lemma StepDimNonIncreasing(score: Scorer, cand: seq<real>, st: State, i: nat)
    requires Shaped(st) && i < |st.params| && WellFormedTable(cand)
    requires Consistent(score, st)
    ensures Consistent(score, StepDim(score, cand, st, i))
    ensures StepDim(score, cand, st, i).lastError <= st.lastError
  {
    var s := TrialScores(score, st.params, i, st.steps[i], cand);
    assert Trial(st.params, i, st.steps[i], cand[2]) == st.params;
    assert s[2] == score(st.params);
    SelectIsFirstMinimum(s);
    StepDimOutcome(score, cand, st, i);
  }

  /** Across every dimension boundary of a sweep the best error stays
      consistent and does not increase. */
  lemma {:induction false} SweepToNonIncreasing(score: Scorer, cand: seq<real>, st: State, k: nat)
    requires Shaped(st) && k <= |st.params| && WellFormedTable(cand)
    requires Consistent(score, st)
    ensures Consistent(score, SweepTo(score, cand, st, k))
    ensures SweepTo(score, cand, st, k).lastError <= st.lastError
    ensures k > 0 ==> SweepTo(score, cand, st, k).lastError <= SweepTo(score, cand, st, k - 1).lastError
    decreases k
  {
    if k > 0 {
      SweepToNonIncreasing(score, cand, st, k - 1);
      StepDimNonIncreasing(score, cand, SweepTo(score, cand, st, k - 1), k - 1);
    }
  }

  /** Across sweeps: after more sweeps the best error is never larger. */
  lemma {:induction false} RunNonIncreasing(score: Scorer, cand: seq<real>, st: State, m: nat, m': nat)
    requires Shaped(st) && WellFormedTable(cand) && Consistent(score, st)
    requires m <= m'
    ensures Consistent(score, Run(score, cand, st, m'))
    ensures Run(score, cand, st, m').lastError <= Run(score, cand, st, m).lastError
    decreases m'
  {
    if m' > 0 {
      var prev := Run(score, cand, st, m' - 1);
      if m < m' {
        RunNonIncreasing(score, cand, st, m, m' - 1);
      } else {
        RunNonIncreasing(score, cand, st, m' - 1, m' - 1);
      }
      SweepToNonIncreasing(score, cand, prev, |prev.params|);
      assert Run(score, cand, st, m') == Sweep(score, cand, prev);
    }
  }
}
