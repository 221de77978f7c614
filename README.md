# Hill climbing with adaptive step size, in Dafny

This project models the training core of the HillClimbing repository: the
optimiser `HillClimb` that tunes the parameter vector of a radial-basis-function
network (its "long-term memory") against a scorer, and the driver loops of
`Program` that run it and read its results.

One call of `Iteration` sweeps the parameter vector one dimension at a time.
For each dimension it tries the five candidate multipliers
`[-accel, -1/accel, 0, 1/accel, accel]` in that order. Each try adds
`step * multiplier` to the parameter, scores the whole vector, and takes the
move back. The first candidate whose score is strictly below everything seen
(starting from `double.MaxValue`) wins. The winning move is applied, and the
dimension's step is multiplied by the winning multiplier.

Files:

- `search.dfy` (module `Search`) states the algorithm as functions on values:
  - `Select` is the selection loop;
  - `StepDim` is one dimension;
  - `SweepTo` and `Sweep` are one sweep;
  - `Run` is several sweeps.
  It also holds the lemmas: tie-break, sequential composition, absorbing zero
  step, and non-increasing best error.
- `hill_climb.dfy` (module `HillClimbing`) is the class `HillClimb`. Its fields
  are updated in place: `params` (the network's array, shared and not owned),
  `stepSize`, `candidate` and `lastError`. `Iteration` is a nested loop proved
  to compute `Sweep`.
- `program.dfy` (module `Program`) holds `GetMax`, the do-while loop of
  `Iterate`, and the species-dictionary inversion.

Modelling choices:

- Numbers are `real`, so arithmetic is exact.
- `double.MaxValue` is the constant `Search.MaxValue` (1.7976931348623157e308).
  `double.MinValue` is `Program.MinValue`, which is `-MaxValue`.
- The scorer is a parameter: a total, deterministic function from the whole
  parameter vector to a real number (`Search.Scorer`).
- The network is only its parameter array.
- The body of the dimension loop of `Iteration` is its own method,
  `HillClimb.StepDimension`, and the candidate loop inside it is another,
  `HillClimb.TryCandidates`. This lets "trial then undo" and "apply the
  winner" be stated as contracts.
- `Iterate` returns the number of sweeps it ran. The original keeps that count
  in a local variable.
- Behaviour of the code worth noting:
  - Step sizes can become negative, because a `-accel` or `-1/accel` candidate
    can win.
  - When all five trials tie below `MaxValue`, the `-accel` candidate wins and
    the parameter does move by `-accel * step` (`AllTiedPicksFirst`).
  - The selection starts from `double.MaxValue`, not from an infinite value. A
    dimension whose every trial scores at least `MaxValue` is therefore left
    alone.

## Model

| member | source | states |
|---|---|---|
| `Search.Select` | HillClimbing/HillClimb.cs:51-67 | The selection loop over the scores seen so far. The winner index is -1 or a valid index. With no winner the score is the `MaxValue` sentinel. A winner's score is the score at its index and lies below `MaxValue`. |
| `Search.SelectIsFirstMinimum` | HillClimbing/HillClimb.cs:51-67 | Characterises the selection. The result is -1 exactly when every score is at least `MaxValue`. Otherwise the winner's score is the minimum, and every earlier score is strictly larger, so the winner is the first minimum. |
| `Search.StepDim` | HillClimbing/HillClimb.cs:51-75 | One dimension's update keeps one step per parameter and changes no other dimension's parameter or step. |
| `Search.StepDimUpdate` | HillClimbing/HillClimb.cs:63-75 | States the update through the first minimum of the trial scores. If every trial scores at least `MaxValue`, the state is unchanged. Otherwise, for the first minimum `b`: the parameter becomes `p + step*cand[b]`, the step becomes `step*cand[b]`, the best error becomes the minimum, and nothing else changes. |
| `Search.StepDimOutcome` | HillClimbing/HillClimb.cs:58-75 | A dimension update either changes nothing, or does all of the following: moves the parameter by exactly the new step, and records as best error the score of the vector it keeps, which is below `MaxValue`. |
| `Search.AllTiedPicksFirst` | HillClimbing/HillClimb.cs:55-75 | Tie-break. If all five trials score the same value below `MaxValue`, candidate 0 wins: the parameter moves by `step*cand[0]` and the step becomes `step*cand[0]`. If the common value is not below `MaxValue`, nothing changes. |
| `Search.ConstantScorerStep` | HillClimbing/HillClimb.cs:55-75 | The same outcome for a scorer that returns one constant for every vector. |
| `Search.ConstantScorerSweep` | HillClimbing/HillClimb.cs:49-75 | Under a constant scorer below `MaxValue`, one sweep moves every parameter by `cand[0]*step` and multiplies every step by `cand[0]`. Under a constant at or above `MaxValue`, the sweep changes nothing. |
| `Search.ConstantScorerStaysTo` | HillClimbing/HillClimb.cs:49-75 | A constant scorer at or above `MaxValue` leaves every prefix of a sweep unchanged. |
| `Search.SweepTo` | HillClimbing/HillClimb.cs:49-76 | After the first `k` dimensions of a sweep, every dimension from `k` on still has its parameter and step from before the sweep. |
| `Search.Sweep` | HillClimbing/HillClimb.cs:46-77 | A sweep keeps the vector length and one step per parameter. |
| `Search.Run` | HillClimbing/Program.cs:50-61 | Repeated sweeps keep the vector length and one step per parameter. |
| `Search.SweepFreezesDone` | HillClimbing/HillClimb.cs:49-75 | Once dimension `d` has had its turn, later dimensions of the same sweep leave its parameter and step alone. |
| `Search.TrialsSeeEarlierMoves` | HillClimbing/HillClimb.cs:49-73 | Sequential composition. Dimension `k` is scored against a vector in which each earlier dimension holds the value its own turn in this sweep gave it. Dimensions `k` and later still hold their values from before the sweep. |
| `Search.ZeroStepDimStays` | HillClimbing/HillClimb.cs:58-74 | A dimension whose step is exactly 0 keeps its parameter and its step through any dimension update. |
| `Search.ZeroStepSweepToStays` | HillClimbing/HillClimb.cs:49-76 | The same through any prefix of a sweep. |
| `Search.ZeroStepAbsorbing` | HillClimbing/HillClimb.cs:58-74 | Absorbing zero. Once a step is exactly 0, any number of further sweeps leaves that parameter and step unchanged, for any scorer. |
| `Search.StepDimNonIncreasing` | HillClimbing/HillClimb.cs:58-75 | Takes a state whose best error is `MaxValue` or the score of the current vector. A dimension update keeps that property and does not raise the best error. The reason is that the 0 candidate re-scores the current vector. |
| `Search.SweepToNonIncreasing` | HillClimbing/HillClimb.cs:49-76 | The best error stays consistent with the vector and does not rise across any dimension boundary of a sweep. |
| `Search.RunNonIncreasing` | HillClimbing/HillClimb.cs:46-77 | Across sweeps, more sweeps never give a larger best error. |
| `HillClimbing.HillClimb.constructor` | HillClimbing/HillClimb.cs:25-41 | Sets up a fresh step array as long as the parameter vector, with every entry equal to the initial step. The candidate table is exactly `[-accel, -1/accel, 0, 1/accel, accel]`, and the best error is `MaxValue`. |
| `HillClimbing.HillClimb.LastError` | HillClimbing/HillClimb.cs:14-16 | The best error read by the driver is never above the `MaxValue` sentinel. |
| `HillClimbing.HillClimb.TryCandidates` | HillClimbing/HillClimb.cs:51-68 | Trial then undo. After the candidate loop the parameter vector is identical to before. `(best, bestScore)` is the selection over the five trial scores. The best error is updated to `bestScore` exactly when a candidate won. |
| `HillClimbing.HillClimb.StepDimension` | HillClimbing/HillClimb.cs:51-75 | One dimension's turn of the sweep loop. The new parameters, steps and best error are exactly `StepDim` of the old ones. |
| `HillClimbing.HillClimb.Iteration` | HillClimbing/HillClimb.cs:46-77 | The new parameters, steps and best error equal `Sweep` of the old ones. If the old best error was `MaxValue` or the score of the vector, that still holds afterwards and the best error has not risen. |
| `Program.GetMax` | HillClimbing/Program.cs:95-107 | Returns -1 exactly when no entry is above `MinValue`, which includes the empty array. Otherwise it returns a valid index of a largest entry, and every earlier entry is strictly smaller, so the first of equal maxima wins. |
| `Program.Iterate` | HillClimbing/Program.cs:45-62 | At least one sweep runs, and at most `max(1, numIterations)`. The final state is that many sweeps of the initial one. The loop stops at the first sweep count that reaches `numIterations` or leaves the best error below `minScore`. When the best error starts consistent with the vector, it stays consistent and does not rise, so calls can be chained. |
| `Program.InvertSpecies` | HillClimbing/Program.cs:72-76 | The inverted dictionary has exactly the class indices of `species` as keys. Each maps to a name that `species` maps back to that index. When `species` is injective, `invSpecies[species[k]] == k`. |

## Left out

- Network, Scorer, DataSet and Record are not part of this model. The network
  is reduced to its parameter array. The scorer is an arbitrary deterministic
  function of that array's contents.
- The scorer is modelled as total: it always returns a score. A scorer that
  fails (throws) at HillClimbing/HillClimb.cs:59 would skip the undo at line 60,
  leaving `params[i]` at its trial value and `lastError` possibly already
  lowered at line 66, with the failure reaching `Iterate`. That behaviour is
  not captured.
- Radial-basis-function evaluation and `ComputeRegression` are not modelled.
  They are external computations (HillClimbing/Program.cs:81).
- `Program.Run` is not modelled. It loads the iris resource stream, parses
  CSV, encodes one-of-N, and uses the fixed settings `accel = 1.2`, step `1`,
  100 iterations and minimum score 0.01. All of this is I/O and set-up
  (HillClimbing/Program.cs:14-36).
- Console output is not modelled (HillClimbing/Program.cs:60, 86).
- The per-record reporting loop of `QueryOneOfN` is not modelled
  (HillClimbing/Program.cs:79-87). It only prints the names found through
  `GetMax` and the inverted dictionary.
- IEEE-754 behaviour is not modelled:
  - rounding, so the undo `x + s*c - s*c` is exact here;
  - infinities and NaN scores, which never pass `<`;
  - `-Infinity` and NaN entries in `GetMax`.
- HillClimbing.HillClimb.constructor: requires `accel != 0`. The C# code
  divides by it unchecked, which would put infinities into the candidate
  table.
- HillClimbing.HillClimb.TryCandidates: computes each trial move once into a
  local and subtracts that same value. The source computes
  `_stepSize[i] * _candidate[j]` twice, which gives the same value.
- Program.InvertSpecies: the dictionary's key enumeration order is left
  unspecified. When two names share an index, the model does not say which name
  the inverted dictionary keeps.
- Convergence on a particular objective is not claimed; it depends on the objective
  and is not a promise of the code.
