/**
 * The termination rule of the BOA main loop: after the statistics of a
 * generation are computed, the run stops for the first criterion met, in
 * the order: share of optimal strings, optimum found, converged
 * frequencies, number of generations.
 */
module Boa {
  import opened Bits
  import opened Fitness
  import opened Statistics

  /** The termination reasons. */
  const NO_TERMINATION := 0
  const MAXGENERATIONS_TERMINATION := 1
  const EPSILON_TERMINATION := 2
  const MAXOPTIMAL_TERMINATION := 3
  const OPTIMUMFOUND_TERMINATION := 4

  /**
   * The termination fields of the BOA parameters. A negative maxOptimal,
   * epsilon or maxGenerations, or a false stopWhenFoundOptimum, switches
   * that criterion off.
   */
  datatype StopParams = StopParams(maxOptimal: real, stopWhenFoundOptimum: bool, epsilon: real, maxGenerations: int)

  /** The percentage of optimal strings reached maxOptimal. */
  predicate ShareReached(p: StopParams, numOptimal: int, N: int)
    requires 0 < N
  {
    p.maxOptimal >= 0.0 && (numOptimal * 100) as real / N as real >= p.maxOptimal
  }

  /** Stopping on the optimum is on, the fitness has an optimality test, and the best string passes it. */
  ghost predicate OptimumFound(p: StopParams, number: int, bestX: seq<Bit>, n: int)
    requires Fits(number, n) && (p.stopWhenFoundOptimum && HasOptimum(number) ==> n <= |bestX|)
  {
    p.stopWhenFoundOptimum && HasOptimum(number) && Optimal(number, bestX[..n])
  }

  /** The epsilon criterion is on and every frequency is below epsilon or above one minus epsilon. */
  ghost predicate Converged(p: StopParams, p1: seq<real>)
  {
    p.epsilon >= 0.0 && forall k :: 0 <= k < |p1| ==> p1[k] < p.epsilon || p1[k] > 1.0 - p.epsilon
  }

  /** The generation limit is on and has been reached. */
  predicate OutOfGenerations(p: StopParams, generation: int)
  {
    p.maxGenerations >= 0 && generation >= p.maxGenerations
  }

  /**
   * terminationCriteria: the number of the first criterion met, or 0.
   * The optimality test is only consulted when stopping on the optimum
   * is on and the fitness has one, and then the best string holds n bits.
   */
  method TerminationCriteria(p: StopParams, stats: BasicStatistics, fit: FitnessInUse) returns (result: int)
    requires 0 < stats.N && 0 <= stats.n <= stats.p1.Length
    requires fit.Selected() && Fits(fit.number, stats.n)
    requires p.stopWhenFoundOptimum && HasOptimum(fit.number) ==> stats.n <= |stats.bestX|
    ensures NO_TERMINATION <= result <= OPTIMUMFOUND_TERMINATION
    ensures result == MAXOPTIMAL_TERMINATION <==> ShareReached(p, stats.numOptimal, stats.N)
    ensures result == OPTIMUMFOUND_TERMINATION <==>
      !ShareReached(p, stats.numOptimal, stats.N) && OptimumFound(p, fit.number, stats.bestX, stats.n)
    ensures result == EPSILON_TERMINATION <==>
      !ShareReached(p, stats.numOptimal, stats.N) && !OptimumFound(p, fit.number, stats.bestX, stats.n) &&
      Converged(p, stats.p1[..stats.n])
    ensures result == MAXGENERATIONS_TERMINATION <==>
      !ShareReached(p, stats.numOptimal, stats.N) && !OptimumFound(p, fit.number, stats.bestX, stats.n) &&
      !Converged(p, stats.p1[..stats.n]) && OutOfGenerations(p, stats.generation)
    ensures p.maxOptimal < 0.0 && !p.stopWhenFoundOptimum && p.epsilon < 0.0 && p.maxGenerations < 0 ==>
      result == NO_TERMINATION
  {
    result := NO_TERMINATION;
    if result == NO_TERMINATION && p.maxOptimal >= 0.0 {
      result := if (stats.numOptimal * 100) as real / stats.N as real >= p.maxOptimal then MAXOPTIMAL_TERMINATION else 0;
    }
    if result == NO_TERMINATION && p.stopWhenFoundOptimum {
      if HasOptimum(fit.number) {
        var opt := fit.IsOptimal(stats.bestX, stats.n);
        result := if opt then OPTIMUMFOUND_TERMINATION else 0;
      }
    }
    if result == NO_TERMINATION && p.epsilon >= 0.0 {
      var epsilon1 := 1.0 - p.epsilon;
      result := EPSILON_TERMINATION;
      var k := 0;
      while k < stats.n
        invariant 0 <= k <= stats.n
        invariant result == EPSILON_TERMINATION || result == NO_TERMINATION
        invariant result == EPSILON_TERMINATION <==>
          forall j :: 0 <= j < k ==> stats.p1[j] < p.epsilon || stats.p1[j] > epsilon1
      {
        if stats.p1[k] >= p.epsilon && stats.p1[k] <= epsilon1 {
          result := NO_TERMINATION;
        }
        k := k + 1;
      }
      assert Converged(p, stats.p1[..stats.n]) <==> result == EPSILON_TERMINATION;
    }
    if result == NO_TERMINATION && p.maxGenerations >= 0 {
      result := if stats.generation >= p.maxGenerations then MAXGENERATIONS_TERMINATION else 0;
    }
  }
}
