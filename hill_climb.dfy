/** The hill-climbing optimiser as an object whose fields are updated in place.

    `params` is the network's parameter vector (its long-term memory): the
    optimiser does not own it but reads and writes it directly. `stepSize`
    (one step per parameter), `candidate` (the five multipliers) and
    `lastError` (the best score recorded so far) belong to the optimiser.
    Every method is proved against the functions of module Search. */
module HillClimbing {
  import opened Search

  class HillClimb {
    const params: array<real>
    const score: Scorer
    const stepSize: array<real>
    const candidate: seq<real>
    var lastError: real

    /** The object invariant: one step per parameter, the step array is the
        optimiser's own, the candidate table has its "stay put" entry in the
        middle, and the best error never exceeds the sentinel. */
    ghost predicate Valid()
      reads this
    {
      stepSize.Length == params.Length && stepSize != params &&
      WellFormedTable(candidate) && lastError <= MaxValue
    }

    /** The state as values, for stating what the methods compute. */
    ghost function Abstract(): (st: State)
      reads this, params, stepSize
      requires Valid()
      ensures Shaped(st)
    {
      State(params[..], stepSize[..], lastError)
    }

    /** Builds the optimiser over `params`: every step is `initialStep`, the
        candidate table is `[-accel, -1/accel, 0, 1/accel, accel]` and the
        best error is the sentinel. */
    constructor (params: array<real>, score: Scorer, accel: real, initialStep: real)
      requires accel != 0.0
      ensures Valid()
      ensures this.params == params && this.score == score && fresh(stepSize)
      ensures stepSize.Length == params.Length
      ensures forall i :: 0 <= i < stepSize.Length ==> stepSize[i] == initialStep
      ensures candidate == [-accel, -(1.0 / accel), 0.0, 1.0 / accel, accel]
      ensures lastError == MaxValue
    {
      this.params := params;
      this.score := score;
      var steps := new real[params.Length];
      for i := 0 to steps.Length
        invariant forall k :: 0 <= k < i ==> steps[k] == initialStep
      {
        steps[i] := initialStep;
      }
      stepSize := steps;
      candidate := [-accel, -(1.0 / accel), 0.0, 1.0 / accel, accel];
      lastError := MaxValue;
    }

    /** The best error recorded so far; the sentinel until some trial beats it. */
    function LastError(): (e: real)
      reads this
      requires Valid()
      ensures e <= MaxValue
    {
      lastError
    }

    /** The candidate loop of one dimension: add each candidate move, score the
        whole vector, take the move back, and keep the first strict
        improvement. The vector is the same afterwards as before, and the
        winner is the first minimum of the trial scores. */
    method TryCandidates(i: nat) returns (best: int, bestScore: real)
      requires Valid() && i < params.Length
      modifies params, this`lastError
      ensures Valid()
      ensures params[..] == old(params[..])
      ensures Choice(best, bestScore) == Select(TrialScores(score, params[..], i, stepSize[i], candidate))
      ensures lastError == if best == -1 then old(lastError) else bestScore
    {
      ghost var v, step := params[..], stepSize[i];
      ghost var scores := TrialScores(score, v, i, step, candidate);
      best, bestScore := -1, MaxValue;
      for j := 0 to |candidate|
        invariant params[..] == v
        invariant Choice(best, bestScore) == Select(scores[..j])
        invariant lastError == if best == -1 then old(lastError) else bestScore
        invariant Valid()
      {
        var delta := stepSize[i] * candidate[j];
        assert params[i] == v[i] && delta == step * candidate[j];
        var trial := params[i] + delta;
        params[i] := trial;
        assert params[..] == v[i := trial];
        TrialIsUpdate(v, i, step, candidate[j], trial);
        var temp := score(params[..]);
        params[i] := params[i] - delta;
        assert params[..] == v;
        assert scores[..j + 1][..j] == scores[..j];
        if temp < bestScore {
          bestScore := temp;
          best := j;
          lastError := bestScore;
        }
      }
      assert scores[..|candidate|] == scores;
    }

    /** One dimension's turn: try the candidates, then apply the winning move
        to the parameter and scale the step by the winning multiplier; when
        no trial beats the best error, nothing changes. */
    method StepDimension(i: nat)
      requires Valid() && i < params.Length
      modifies params, stepSize, this`lastError
      ensures Valid()
      ensures Abstract() == StepDim(score, candidate, old(Abstract()), i)
    {
      ghost var cur := Abstract();
      var best, bestScore := TryCandidates(i);
      assert params[..] == cur.params && stepSize[..] == cur.steps;
      var move, moved := 0.0, 0.0;
      if best != -1 {
        move := stepSize[i] * candidate[best];
        moved := params[i] + move;
        params[i] := moved;
        stepSize[i] := move;
        assert params[..] == cur.params[i := moved] && stepSize[..] == cur.steps[i := move];
      }
      StepDimApplies(score, candidate, cur, i, best, bestScore, move, moved);
    }

    /** One sweep: every dimension in turn tries its candidates against the
        vector that already carries the earlier dimensions' moves, applies the
        winner and scales its step by the winning multiplier. If the best
        error was consistent with the vector before, it still is, and it has
        not increased. */
    method Iteration()
      requires Valid()
      modifies params, stepSize, this`lastError
      ensures Valid()
      ensures Abstract() == Sweep(score, candidate, old(Abstract()))
      ensures old(Consistent(score, Abstract())) ==> Consistent(score, Abstract()) && lastError <= old(lastError)
    {
      ghost var start := Abstract();
      for i := 0 to params.Length
        invariant Valid()
        invariant Abstract() == SweepTo(score, candidate, start, i)
      {
        StepDimension(i);
      }
      if Consistent(score, start) {
        SweepToNonIncreasing(score, candidate, start, |start.params|);
      }
    }
  }
}
