/** The driver's loops: the iteration loop with its stopping rule, the
    inversion of the species dictionary, and the first-argmax used to read a
    one-of-N output. */
module Program {
  import opened Search
  import opened HillClimbing

  /** double.MinValue, the starting "maximum" of GetMax. */
  const MinValue: real := -MaxValue

  /** Index of the first largest entry of `da` that is above the sentinel
      MinValue, or -1 when there is none (in particular when `da` is empty).
      The comparison is strict, so among equal maxima the first wins. */
  method GetMax(da: array<real>) returns (result: int)
    ensures -1 <= result < da.Length
    ensures result == -1 <==> forall k :: 0 <= k < da.Length ==> da[k] <= MinValue
    ensures da.Length == 0 ==> result == -1
    ensures result != -1 ==> forall k :: 0 <= k < da.Length ==> da[k] <= da[result]
    ensures result != -1 ==> forall k :: 0 <= k < result ==> da[k] < da[result]
  {
    result := -1;
    var max := MinValue;
    for i := 0 to da.Length
      invariant -1 <= result < i
      invariant result == -1 ==> max == MinValue
      invariant result != -1 ==> max == da[result] && max > MinValue
      invariant forall k :: 0 <= k < i ==> da[k] <= max
      invariant result != -1 ==> forall k :: 0 <= k < result ==> da[k] < max
    {
      if da[i] > max {
        max := da[i];
        result := i;
      }
    }
  }

  /** Runs sweeps of `hc` until the iteration count reaches `numIterations`
      or the best error falls below `minScore`; at least one sweep always
      runs. Returns how many sweeps ran. The best error does not rise. */
  method Iterate(hc: HillClimb, numIterations: int, minScore: real) returns (iterations: nat)
    requires hc.Valid()
    modifies hc, hc.params, hc.stepSize
    ensures hc.Valid()
    ensures 1 <= iterations && (iterations == 1 || iterations <= numIterations)
    ensures hc.Abstract() == Run(hc.score, hc.candidate, old(hc.Abstract()), iterations)
    ensures iterations >= numIterations || hc.lastError < minScore
    ensures forall m :: 1 <= m < iterations ==>
      m < numIterations && Run(hc.score, hc.candidate, old(hc.Abstract()), m).lastError >= minScore
    ensures old(Consistent(hc.score, hc.Abstract())) ==>
      Consistent(hc.score, hc.Abstract()) && hc.lastError <= old(hc.lastError)
  {
    ghost var start := hc.Abstract();
    var iterationNumber := 0;
    var done := false;
    while !done
      invariant hc.Valid()
      invariant 0 <= iterationNumber
      invariant hc.Abstract() == Run(hc.score, hc.candidate, start, iterationNumber)
      invariant forall m :: 1 <= m < iterationNumber ==>
        m < numIterations && Run(hc.score, hc.candidate, start, m).lastError >= minScore
      invariant !done ==>
        iterationNumber == 0 || (iterationNumber < numIterations && hc.lastError >= minScore)
      invariant done ==>
        && 1 <= iterationNumber
        && (iterationNumber == 1 || iterationNumber <= numIterations)
        && (iterationNumber >= numIterations || hc.lastError < minScore)
      decreases !done, if numIterations > iterationNumber then numIterations - iterationNumber else 0
    {
      iterationNumber := iterationNumber + 1;
      hc.Iteration();
      if iterationNumber >= numIterations || hc.LastError() < minScore {
        done := true;
      }
    }
    iterations := iterationNumber;
    if Consistent(hc.score, start) {
      RunNonIncreasing(hc.score, hc.candidate, start, 0, iterations);
    }
  }

  /** Inverts the species dictionary (name to class index) into one from
      class index to name. Keys are visited in an unspecified order and a
      later key overwrites an earlier one with the same index. */
  method InvertSpecies(species: map<string, int>) returns (invSpecies: map<int, string>)
    ensures invSpecies.Keys == species.Values
    ensures forall v :: v in invSpecies ==> invSpecies[v] in species && species[invSpecies[v]] == v
    ensures Injective(species) ==> forall k :: k in species ==> invSpecies[species[k]] == k
  {
    invSpecies := map[];
    var remaining := species.Keys;
    while remaining != {}
      invariant remaining <= species.Keys
      invariant invSpecies.Keys == set k | k in species.Keys - remaining :: species[k]
      invariant forall v :: v in invSpecies ==> invSpecies[v] in species.Keys - remaining && species[invSpecies[v]] == v
      decreases remaining
    {
      var key :| key in remaining;
      var value := species[key];
      invSpecies := invSpecies[value := key];
      remaining := remaining - {key};
    }
  }

  /** No two names share a class index. */
  ghost predicate Injective(species: map<string, int>)
  {
    forall k, k' :: k in species && k' in species && species[k] == species[k'] ==> k == k'
  }
}
