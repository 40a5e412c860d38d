/**
 * A population of N binary strings of length n with their fitness values:
 * allocation, univariate frequencies, copying and swapping individuals, and
 * evaluation.
 */
module Populations {
  import opened Bits
  import opened Fitness

  /** s with the entries at i and j exchanged. */
  function Swapped<T>(s: seq<T>, i: int, j: int): (r: seq<T>)
    requires 0 <= i < |s| && 0 <= j < |s|
    ensures |r| == |s| && r[i] == s[j] && r[j] == s[i]
    ensures forall k :: 0 <= k < |s| && k != i && k != j ==> r[k] == s[k]
  {
    s[i := s[j]][j := s[i]]
  }

  /** Swapping twice restores the sequence; swapping an entry with itself changes nothing. */
  lemma SwappedTwice<T>(s: seq<T>, i: int, j: int)
    requires 0 <= i < |s| && 0 <= j < |s|
    ensures Swapped(Swapped(s, i, j), i, j) == s
    ensures Swapped(s, i, i) == s
  {
    assert Swapped(Swapped(s, i, j), i, j) == s by {
      forall k | 0 <= k < |s| ensures Swapped(Swapped(s, i, j), i, j)[k] == s[k] {
      }
    }
  }

  /** A swap only reorders: the multiset of entries is kept. */
  lemma SwappedPermutes<T>(s: seq<T>, i: int, j: int)
    requires 0 <= i < |s| && 0 <= j < |s|
    ensures multiset(Swapped(s, i, j)) == multiset(s)
  {
    if i != j {
      calc {
        multiset(s[i := s[j]][j := s[i]]);
        multiset(s[i := s[j]]) - multiset{s[i := s[j]][j]} + multiset{s[i]};
        multiset(s) - multiset{s[i]} + multiset{s[j]} - multiset{s[j]} + multiset{s[i]};
      }
    }
  }

  class Population {
    /** The population size and the string length. */
    var N: int
    var n: int
    /** The strings, one row of n bits each, and their fitness values. */
    var x: array<seq<Bit>>
    var f: array<real>

    ghost predicate Valid()
      reads this, x
    {
      0 <= n && x.Length == N && f.Length == N && forall i :: 0 <= i < N ==> |x[i]| == n
    }

    /** allocatePopulation: N rows of n zero bits, every fitness 0. */
    constructor Allocate(N: int, n: int)
      requires 0 <= N && 0 <= n
      ensures Valid() && this.N == N && this.n == n
      ensures forall i :: 0 <= i < N ==> x[i] == ZeroBits(n) && f[i] == 0.0
      ensures fresh(x) && fresh(f)
    {
      this.N := N;
      this.n := n;
      x := new seq<Bit>[N];
      f := new real[N](_ => 0.0);
      new;
      var i := 0;
      while i < N
        invariant 0 <= i <= N && forall k :: 0 <= k < i ==> x[k] == ZeroBits(n)
        modifies x
      {
        x[i] := ZeroBits(n);
        i := i + 1;
      }
    }

    /** One row of the counting loop: count1[k] grows by the bit of `row` at k. */
    static method CountRow(count1: array<int>, row: seq<Bit>, ghost before: seq<seq<Bit>>)
      requires |row| == count1.Length
      requires forall k :: 0 <= k < count1.Length ==> Wide(before, k) && count1[k] == OnesAt(before, k)
      modifies count1
      ensures forall k :: 0 <= k < count1.Length ==> Wide(before + [row], k) && count1[k] == OnesAt(before + [row], k)
    {
      var k := 0;
      while k < count1.Length
        invariant 0 <= k <= count1.Length
        invariant forall j :: 0 <= j < k ==> Wide(before + [row], j) && count1[j] == OnesAt(before + [row], j)
        invariant forall j :: k <= j < count1.Length ==> count1[j] == old(count1[j])
      {
        assert (before + [row])[..|before|] == before;
        if row[k] != 0 {
          count1[k] := count1[k] + 1;
        }
        k := k + 1;
      }
    }

    /** The counting loops of computeUnivariateFrequencies: count1[k] is the number of rows with a 1 at k. */
    static method UnivariateCounts(rows: seq<seq<Bit>>, n: int) returns (count1: array<int>)
      requires 0 <= n && forall i :: 0 <= i < |rows| ==> |rows[i]| == n
      ensures fresh(count1) && count1.Length == n
      ensures forall k :: 0 <= k < n ==> Wide(rows, k) && count1[k] == OnesAt(rows, k)
    {
      count1 := new int[n];
      var k := 0;
      while k < n
        invariant 0 <= k <= n && forall j :: 0 <= j < k ==> count1[j] == 0
        modifies count1
      {
        count1[k] := 0;
        k := k + 1;
      }
      var i := 0;
      while i < |rows|
        invariant 0 <= i <= |rows|
        invariant forall j :: 0 <= j < n ==> Wide(rows[..i], j) && count1[j] == OnesAt(rows[..i], j)
        modifies count1
      {
        assert rows[..i + 1] == rows[..i] + [rows[i]];
        CountRow(count1, rows[i], rows[..i]);
        i := i + 1;
      }
      assert rows[..i] == rows;
    }

    /**
     * computeUnivariateFrequencies: p1[k] becomes the share of strings with
     * a 1 at position k; p1 must already hold n entries.
     */
    method ComputeUnivariateFrequencies(p1: array<real>)
      requires Valid() && 0 < N && n <= p1.Length
      modifies p1
      ensures forall k :: 0 <= k < n ==> Wide(x[..], k) && p1[k] == OnesAt(x[..], k) as real / N as real
      ensures forall k :: n <= k < p1.Length ==> p1[k] == old(p1[k])
    {
      var rows := x[..];
      var count1 := UnivariateCounts(rows, n);
      var k := 0;
      while k < n
        invariant 0 <= k <= n
        invariant forall j :: 0 <= j < k ==> p1[j] == OnesAt(rows, j) as real / N as real
        invariant forall j :: k <= j < p1.Length ==> p1[j] == old(p1[j])
        modifies p1
      {
        p1[k] := count1[k] as real / N as real;
        k := k + 1;
      }
      assert rows == x[..];
    }

    /** copyIndividual: row `where` becomes the first n bits of y, with fitness fy. */
    method CopyIndividual(where: int, y: seq<Bit>, fy: real)
      requires Valid() && 0 <= where < N && n <= |y|
      modifies x, f
      ensures Valid()
      ensures x[..] == old(x[..])[where := y[..n]] && f[..] == old(f[..])[where := fy]
    {
      x[where] := y[..n];
      f[where] := fy;
    }

    /** swapIndividuals: the rows and fitness values at first and second change places. */
    method SwapIndividuals(first: int, second: int)
      requires Valid() && 0 <= first < N && 0 <= second < N
      modifies x, f
      ensures Valid()
      ensures x[..] == Swapped(old(x[..]), first, second) && f[..] == Swapped(old(f[..]), first, second)
    {
      var auxX := x[first];
      x[first] := x[second];
      x[second] := auxX;
      var auxF := f[first];
      f[first] := f[second];
      f[second] := auxF;
    }

    /** evaluatePopulation: every string gets the fitness in use, one counted call each. */
    method EvaluatePopulation(fit: FitnessInUse, num: Numerics)
      requires Valid() && fit.Selected() && Fits(fit.number, n)
      modifies f, fit
      ensures Valid() && fit.number == old(fit.number) && fit.calls == old(fit.calls) + N
      ensures forall i :: 0 <= i < N ==> f[i] == FitnessValue(fit.number, x[i], num)
    {
      var i := 0;
      while i < N
        invariant 0 <= i <= N && fit.number == old(fit.number) && fit.calls == old(fit.calls) + i
        invariant forall k :: 0 <= k < i ==> f[k] == FitnessValue(fit.number, x[k], num)
      {
        assert x[i][..n] == x[i];
        f[i] := fit.GetFitnessValue(x[i], n, num);
        i := i + 1;
      }
    }
  }
}
