/**
 * The basic statistics of a population (fitness extremes and average, the
 * number of optimal strings, univariate frequencies, the best string) and
 * the population bias string built from the frequencies.
 */
module Statistics {
  import opened Bits
  import opened Fitness
  import opened Populations

  function Sum(s: seq<real>): real
  {
    if s == [] then 0.0 else Sum(s[..|s| - 1]) + s[|s| - 1]
  }

  /** The number of rows that pass the optimality test of fitness `number`. */
  ghost function CountOptimal(number: int, rows: seq<seq<Bit>>, n: int): (r: nat)
    requires Fits(number, n) && forall i :: 0 <= i < |rows| ==> |rows[i]| == n
    ensures r <= |rows|
  {
    if rows == [] then 0
    else CountOptimal(number, rows[..|rows| - 1], n) + (if Optimal(number, rows[|rows| - 1]) then 1 else 0)
  }

  /** The average of values lies between their least and their greatest. */
  lemma {:induction false} SumBetween(s: seq<real>, lo: real, hi: real)
    requires forall i :: 0 <= i < |s| ==> lo <= s[i] <= hi
    ensures |s| as real * lo <= Sum(s) <= |s| as real * hi
  {
    if s != [] {
      var k := |s| - 1;
      SumBetween(s[..k], lo, hi);
      assert |s| as real * lo == k as real * lo + lo;
      assert |s| as real * hi == k as real * hi + hi;
    }
  }

  lemma AverageBetween(s: seq<real>, lo: real, hi: real)
    requires |s| > 0 && forall i :: 0 <= i < |s| ==> lo <= s[i] <= hi
    ensures lo <= Sum(s) / |s| as real <= hi
  {
    SumBetween(s, lo, hi);
    var m := |s| as real;
    assert Sum(s) / m - lo == (Sum(s) - m * lo) / m;
    assert hi - Sum(s) / m == (m * hi - Sum(s)) / m;
  }

  /** What the statistics loop promises about its outputs. */
  ghost predicate Summary(f: seq<real>, minF: real, maxF: real, max: int)
  {
    0 <= max < |f| && f[max] == maxF &&
    (forall i :: 0 <= i < |f| ==> minF <= f[i] <= maxF) &&
    (exists i :: 0 <= i < |f| && f[i] == minF) &&
    (forall i :: 0 <= i < max ==> f[i] < maxF)
  }

  /**
   * The loop of computeBasicStatistics: start from the first string, then
   * for each further one add its fitness, lower the minimum or else raise
   * the maximum (strictly, so the first maximal index is kept), and count
   * it when it is optimal.
   */
  method SummaryLoop(f: seq<real>, rows: seq<seq<Bit>>, n: int, fit: FitnessInUse)
    returns (minF: real, maxF: real, max: int, sum: real, numOptimal: int)
    requires 0 < |f| == |rows| && forall i :: 0 <= i < |rows| ==> |rows[i]| == n
    requires fit.Selected() && Fits(fit.number, n)
    ensures Summary(f, minF, maxF, max) && sum == Sum(f)
    ensures HasOptimum(fit.number) ==> numOptimal == CountOptimal(fit.number, rows, n)
  {
    max, numOptimal := 0, 0;
    minF, maxF, sum := f[0], f[0], f[0];
    ghost var min := 0;
    assert rows[..1][..0] == [] && f[..1][..0] == [];
    if HasOptimum(fit.number) {
      var opt := fit.IsOptimal(rows[0], n);
      assert rows[0][..n] == rows[0];
      numOptimal := if opt then 1 else 0;
    }
    var i := 1;
    while i < |f|
      invariant 1 <= i <= |f| && 0 <= min < i && f[min] == minF && 0 <= max < i && f[max] == maxF
      invariant forall j :: 0 <= j < i ==> minF <= f[j] <= maxF
      invariant forall j :: 0 <= j < max ==> f[j] < maxF
      invariant sum == Sum(f[..i])
      invariant HasOptimum(fit.number) ==> numOptimal == CountOptimal(fit.number, rows[..i], n)
    {
      assert f[..i + 1][..i] == f[..i] && rows[..i + 1][..i] == rows[..i];
      sum := sum + f[i];
      if f[i] < minF {
        minF := f[i];
        min := i;
      } else {
        if f[i] > maxF {
          maxF := f[i];
          max := i;
        }
      }
      if HasOptimum(fit.number) {
        var opt := fit.IsOptimal(rows[i], n);
        assert rows[i][..n] == rows[i];
        if opt {
          numOptimal := numOptimal + 1;
        }
      }
      i := i + 1;
    }
    assert f[..i] == f && rows[..i] == rows;
  }

  /**
   * The fitness statistics of the fitness values f of the strings rows:
   * the extremes, the first maximal index, the average (between the
   * extremes) and, when the fitness has an optimality test, the number of
   * optimal strings.
   */
  ghost predicate Outcome(f: seq<real>, rows: seq<seq<Bit>>, n: int, number: int,
                          minF: real, maxF: real, max: int, avgF: real, numOptimal: int)
    requires Fits(number, n) && forall i :: 0 <= i < |rows| ==> |rows[i]| == n
  {
    Summary(f, minF, maxF, max) && avgF == Sum(f) / |f| as real && minF <= avgF <= maxF &&
    (HasOptimum(number) ==> numOptimal == CountOptimal(number, rows, n))
  }

  class BasicStatistics {
    var generation: int
    var N: int
    var n: int
    var minF: real
    var maxF: real
    var avgF: real
    var numOptimal: int
    var max: int
    /** The univariate frequencies, one per position. */
    var p1: array<real>
    var bestX: seq<Bit>
    var guidanceThreshold: real

    /** intializeBasicStatistics: room for n frequencies. */
    constructor Initialize(n: int)
      requires 0 <= n
      ensures p1.Length == n && fresh(p1)
    {
      p1 := new real[n];
    }

    /** The fitness part of the statistics of generation t of pop under the fitness `number`. */
    ghost predicate Summarised(t: int, pop: Population, threshold: real, number: int)
      reads this, pop, pop.x, pop.f
      requires pop.Valid() && Fits(number, pop.n)
    {
      N == pop.N && n == pop.n && generation == t && guidanceThreshold == threshold &&
      Outcome(pop.f[..], pop.x[..], n, number, minF, maxF, max, avgF, numOptimal)
    }

    /** The statistics describe generation t of pop under the fitness `number`. */
    ghost predicate Describes(t: int, pop: Population, threshold: real, number: int)
      reads this, p1, pop, pop.x, pop.f
      requires pop.Valid() && Fits(number, pop.n)
    {
      Summarised(t, pop, threshold, number) && n <= p1.Length &&
      (forall k :: 0 <= k < n ==> Wide(pop.x[..], k) && p1[k] == OnesAt(pop.x[..], k) as real / N as real) &&
      (HasOptimum(number) ==> bestX == pop.x[max])
    }

    /** The loop part of computeBasicStatistics, up to the average. */
    method Summarise(pop: Population, fit: FitnessInUse)
      requires pop.Valid() && 0 < pop.N
      requires fit.Selected() && Fits(fit.number, pop.n)
      modifies this`minF, this`maxF, this`max, this`avgF, this`numOptimal
      ensures Outcome(pop.f[..], pop.x[..], pop.n, fit.number, minF, maxF, max, avgF, numOptimal)
      ensures !HasOptimum(fit.number) ==> numOptimal == old(numOptimal)
    {
      var f, rows := pop.f[..], pop.x[..];
      var lo, hi, best, sum, count := SummaryLoop(f, rows, pop.n, fit);
      AverageBetween(f, lo, hi);
      minF, maxF, max, avgF := lo, hi, best, sum / pop.N as real;
      if HasOptimum(fit.number) {
        numOptimal := count;
      }
    }

    /**
     * computeBasicStatistics: the extremes, first maximal index, average
     * and (when the fitness has an optimality test) the number of optimal
     * strings and the best string; then the univariate frequencies.
     */
    method ComputeBasicStatistics(t: int, pop: Population, threshold: real, fit: FitnessInUse)
      requires pop.Valid() && 0 < pop.N && pop.n <= p1.Length && p1 != pop.f
      requires fit.Selected() && Fits(fit.number, pop.n)
      modifies this, p1
      ensures Describes(t, pop, threshold, fit.number) && p1 == old(p1)
      ensures !HasOptimum(fit.number) ==> numOptimal == old(numOptimal) && bestX == old(bestX)
    {
      N, n, generation, guidanceThreshold := pop.N, pop.n, t, threshold;
      Summarise(pop, fit);
      pop.ComputeUnivariateFrequencies(p1);
      if HasOptimum(fit.number) {
        bestX := pop.x[max];
      }
    }
  }

  /**
   * printGuidance, as the string it prints: per position '0' when the
   * frequency is below the threshold, else '1' when it is above one minus
   * the threshold, else '.'.
   */
  method Guidance(p1: seq<real>, n: int, threshold: real) returns (s: string)
    requires 0 <= n <= |p1|
    ensures |s| == n
    ensures forall k :: 0 <= k < n ==> (s[k] == '0' <==> p1[k] < threshold)
    ensures forall k :: 0 <= k < n ==> (s[k] == '1' <==> threshold <= p1[k] && p1[k] > 1.0 - threshold)
    ensures forall k :: 0 <= k < n ==> s[k] in "01."
  {
    var threshold1 := 1.0 - threshold;
    s := "";
    var k := 0;
    while k < n
      invariant 0 <= k <= n && |s| == k
      invariant forall j :: 0 <= j < k ==> (s[j] == '0' <==> p1[j] < threshold)
      invariant forall j :: 0 <= j < k ==> (s[j] == '1' <==> threshold <= p1[j] && p1[j] > threshold1)
      invariant forall j :: 0 <= j < k ==> s[j] in "01."
    {
      if p1[k] < threshold {
        s := s + "0";
      } else if p1[k] > threshold1 {
        s := s + "1";
      } else {
        s := s + ".";
      }
      k := k + 1;
    }
  }
}
