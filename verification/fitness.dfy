/**
 * The benchmark fitness functions over binary strings, their optimality
 * tests, the table that pairs them, and the fitness in use together with
 * the count of fitness evaluations.
 */
module Fitness {
  import opened Bits

  /** The numbers of the functions in the fitness table. */
  const ONEMAX := 0
  const QUADRATIC := 1
  const F3_DECEPTIVE := 2
  const TRAP5 := 3
  const F3_DECEPTIVE_BIPOLAR := 4
  const F3_DECEPTIVE_OVERLAPPING := 5
  const WIND_FARM_LAYOUT := 6
  const NUM_FITNESS := 7

  /** The number of turbines a wind-farm layout must place. */
  const TURBINES := 30
  /** The spacing of the 10 x 10 grid of turbine sites. */
  const GRID_SPACING := 300

  /**
   * What the model does not compute: the float-valued benchmarks (numbers
   * 1, 2, 4 and 5) and the power of a turbine layout.
   */
  datatype Numerics = Numerics(floatFitness: (int, seq<Bit>) -> real, farmPower: seq<int> -> real)

  // ---------------------------------------------------------------- trap-5

  /** The trap of one 5-bit block with u ones: deceptive towards 0, optimal at 5. */
  function TrapBlock(u: nat): (r: nat)
    requires u <= 5
    ensures r <= 5 && (r == 5 <==> u == 5)
  {
    if u < 5 then 4 - u else 5
  }

  /** The sum of the traps of the consecutive 5-bit blocks of x. */
  function TrapValue(x: seq<Bit>): nat
    requires |x| % 5 == 0
  {
    if x == [] then 0 else TrapValue(x[..|x| - 5]) + TrapBlock(Ones(x[|x| - 5..]))
  }

  ghost predicate AllOnes(x: seq<Bit>)
  {
    forall k :: 0 <= k < |x| ==> x[k] == 1
  }

  lemma OnesFive(b: seq<Bit>)
    requires |b| == 5
    ensures Ones(b) == b[0] as int + b[1] + b[2] + b[3] + b[4]
  {
    assert b[..4][..3] == b[..3] && b[..3][..2] == b[..2] && b[..2][..1] == b[..1] && b[..1][..0] == [];
    assert Ones(b[..1]) == b[0];
    assert Ones(b[..2]) == b[0] as int + b[1];
    assert Ones(b[..3]) == b[0] as int + b[1] + b[2];
    assert Ones(b[..4]) == b[0] as int + b[1] + b[2] + b[3];
  }

  /** Trap-5 never exceeds the string length and reaches it only on the all-ones string. */
  lemma {:induction false} TrapOptimum(x: seq<Bit>)
    requires |x| % 5 == 0
    ensures TrapValue(x) <= |x|
    ensures TrapValue(x) == |x| <==> AllOnes(x)
  {
    if x != [] {
      var p, b := x[..|x| - 5], x[|x| - 5..];
      TrapOptimum(p);
      OnesAllOne(b);
      assert x == p + b;
      if AllOnes(p) && AllOnes(b) {
        forall k | 0 <= k < |x| ensures x[k] == 1 {
          if k < |p| { assert x[k] == p[k]; } else { assert x[k] == b[k - |p|]; }
        }
      }
      if AllOnes(x) {
        assert forall k :: 0 <= k < |p| ==> p[k] == x[k];
        assert forall k :: 0 <= k < |b| ==> b[k] == x[|p| + k];
      }
    }
  }

  // ---------------------------------------------------------- bipolar test

  /** The 6-bit block starting at s is all zeros or all ones. */
  ghost predicate Uniform(x: seq<Bit>, s: int)
    requires 0 <= s && s + 6 <= |x|
  {
    forall j :: s <= j < s + 6 ==> x[j] == x[s]
  }

  /** The first m blocks of six are each uniform. */
  ghost predicate BlocksUniform(x: seq<Bit>, m: int)
    requires 0 <= m && 6 * m <= |x|
  {
    forall b :: 0 <= b < m ==> Uniform(x, 6 * b)
  }

  // -------------------------------------------------------- wind-farm grid

  /** The positions of the 1 bits of x, in increasing order. */
  function SetPositions(x: seq<Bit>): (r: seq<int>)
    ensures |r| == Ones(x)
  {
    if x == [] then []
    else SetPositions(x[..|x| - 1]) + (if x[|x| - 1] == 1 then [|x| - 1] else [])
  }

  /** The c-th entry of SetPositions(x) is the position of the c-th 1 bit. */
  lemma {:induction false} SetPositionsSpec(x: seq<Bit>)
    ensures forall c :: 0 <= c < |SetPositions(x)| ==>
      0 <= SetPositions(x)[c] < |x| && x[SetPositions(x)[c]] == 1 && Ones(x[..SetPositions(x)[c]]) == c
    ensures forall c, d :: 0 <= c < d < |SetPositions(x)| ==> SetPositions(x)[c] < SetPositions(x)[d]
  {
    if x != [] {
      var m := |x| - 1;
      var p := x[..m];
      SetPositionsSpec(p);
      var P := SetPositions(p);
      forall c | 0 <= c < |P|
        ensures x[..P[c]] == p[..P[c]] && x[P[c]] == p[P[c]]
      {
      }
      if x[m] == 1 {
        assert p == x[..m];
      }
    }
  }

  /**
   * The turbine vector of a 30-turbine layout: turbine c stands at grid row
   * i / 10 and column i % 10 of the c-th set bit i, spaced 300 apart; the
   * first 30 entries hold the row coordinates, the last 30 the columns.
   */
  function Layout(P: seq<int>): (r: seq<int>)
    requires |P| == TURBINES
    ensures |r| == 2 * TURBINES
  {
    seq(2 * TURBINES, k requires 0 <= k < 2 * TURBINES =>
      if k < TURBINES then GRID_SPACING * (P[k] / 10) else GRID_SPACING * (P[k - TURBINES] % 10))
  }

  /**
   * wflofitness: a string that does not place exactly 30 turbines scores
   * minus the squared distance from 30; otherwise the power of its layout.
   */
  function WfloValue(x: seq<Bit>, farmPower: seq<int> -> real): real
  {
    var count := Ones(x);
    if count != TURBINES then (-1 * ((count - TURBINES) * (count - TURBINES))) as real
    else farmPower(Layout(SetPositions(x)))
  }

  /** The c-th set bit at position i puts turbine c at (300 * (i / 10), 300 * (i % 10)). */
  lemma TurbineAt(x: seq<Bit>, c: int)
    requires Ones(x) == TURBINES && 0 <= c < TURBINES
    ensures var i := SetPositions(x)[c];
      0 <= i < |x| && x[i] == 1 && Ones(x[..i]) == c &&
      Layout(SetPositions(x))[c] == GRID_SPACING * (i / 10) &&
      Layout(SetPositions(x))[c + TURBINES] == GRID_SPACING * (i % 10)
  {
    SetPositionsSpec(x);
  }

  // ---------------------------------------------------------- fitness table

  /** The string lengths this model covers for fitness `number`: trap-5 reads whole blocks of five
      and the bipolar test whole blocks of six. For other lengths the source reads past the end
      of the string, which is not modelled. */
  predicate Fits(number: int, n: int)
  {
    0 <= n && (number == TRAP5 ==> n % 5 == 0) && (number == F3_DECEPTIVE_BIPOLAR ==> n % 6 == 0)
  }

  /** The value of fitness `number` on x. */
  function FitnessValue(number: int, x: seq<Bit>, num: Numerics): real
    requires 0 <= number < NUM_FITNESS && Fits(number, |x|)
  {
    if number == ONEMAX then Ones(x) as real
    else if number == TRAP5 then TrapValue(x) as real
    else if number == WIND_FARM_LAYOUT then WfloValue(x, num.farmPower)
    else num.floatFitness(number, x)
  }

  /** Every fitness but the wind-farm layout comes with an optimality test. */
  predicate HasOptimum(number: int)
  {
    number != WIND_FARM_LAYOUT
  }

  /** The optimality test of fitness `number`: uniform 6-blocks for bipolar, else all ones. */
  ghost predicate Optimal(number: int, x: seq<Bit>)
    requires Fits(number, |x|)
  {
    if number == F3_DECEPTIVE_BIPOLAR then BlocksUniform(x, |x| / 6) else AllOnes(x)
  }

  /**
   * For the integer benchmarks the table's optimality test recognises
   * exactly the strings of maximal fitness, which is the string length.
   */
  lemma OptimaRecognised(number: int, x: seq<Bit>, num: Numerics)
    requires (number == ONEMAX || number == TRAP5) && Fits(number, |x|)
    ensures FitnessValue(number, x, num) <= |x| as real
    ensures FitnessValue(number, x, num) == |x| as real <==> Optimal(number, x)
  {
    if number == ONEMAX {
      OnesAllOne(x);
    } else {
      TrapOptimum(x);
    }
  }

  // ------------------------------------------------------------ the methods

  /** onemax: the number of 1 bits among the first n. */
  method Onemax(x: seq<Bit>, n: int) returns (r: real)
    requires 0 <= n <= |x|
    ensures r == Ones(x[..n]) as real
  {
    var s: int := 0;
    var i := 0;
    while i < n
      invariant 0 <= i <= n && s == Ones(x[..i])
    {
      assert x[..i + 1][..i] == x[..i];
      s := s + x[i];
      i := i + 1;
    }
    r := s as real;
  }

  /** A 5-block starting at a multiple of 5 below n, itself a multiple of 5, ends by n. */
  lemma BlockFits(i: int, n: int)
    requires 0 <= i < n && i % 5 == 0 && n % 5 == 0
    ensures i + 5 <= n
  {
  }

  /** The trap value of the first i + 5 bits adds the trap of the block at i. */
  lemma TrapStep(x: seq<Bit>, i: int)
    requires 0 <= i && i + 5 <= |x| && i % 5 == 0
    ensures TrapValue(x[..i + 5]) == TrapValue(x[..i]) + TrapBlock(x[i] as int + x[i + 1] + x[i + 2] + x[i + 3] + x[i + 4])
  {
    var b := x[..i + 5][i..];
    assert x[..i + 5][..i] == x[..i] && b == x[i..i + 5];
    OnesFive(b);
  }

  /** trap5: the trap of each block of five, summed. */
  method Trap5(x: seq<Bit>, n: int) returns (r: real)
    requires 0 <= n <= |x| && n % 5 == 0
    ensures r == TrapValue(x[..n]) as real
  {
    var s: int := 0;
    var i := 0;
    while i < n
      invariant 0 <= i <= n && i % 5 == 0 && s == TrapValue(x[..i])
    {
      BlockFits(i, n);
      var u: int := x[i];
      u := u + x[i + 1];
      u := u + x[i + 2];
      u := u + x[i + 3];
      u := u + x[i + 4];
      TrapStep(x, i);
      if u < 5 {
        s := s + 4 - u;
      } else {
        s := s + 5;
      }
      i := i + 5;
    }
    r := s as real;
  }

  /** areAllGenesOne: scan while the bits are 1; optimal iff the scan reaches n. */
  method AreAllGenesOne(x: seq<Bit>, n: int) returns (r: bool)
    requires 0 <= n <= |x|
    ensures r <==> AllOnes(x[..n])
  {
    var i := 0;
    while i < n && x[i] == 1
      invariant 0 <= i <= n && forall k :: 0 <= k < i ==> x[k] == 1
    {
      i := i + 1;
    }
    r := i == n;
  }

  /** One block of areBlocks6ZeroOrOne: the five bits after s must repeat x[s]. */
  method CheckBlock(x: seq<Bit>, s: int, ok: bool) returns (ok': bool)
    requires 0 <= s && s + 6 <= |x|
    ensures ok' <==> ok && Uniform(x, s)
  {
    ok' := ok;
    var i := s + 1;
    var j := 1;
    if x[s] == 0 {
      while j < 6
        invariant 1 <= j <= 6 && i == s + j
        invariant ok' <==> ok && forall k :: s <= k < i ==> x[k] == x[s]
      {
        if x[i] != 0 {
          ok' := false;
        }
        i := i + 1;
        j := j + 1;
      }
    } else {
      while j < 6
        invariant 1 <= j <= 6 && i == s + j
        invariant ok' <==> ok && forall k :: s <= k < i ==> x[k] == x[s]
      {
        if x[i] != 1 {
          ok' := false;
        }
        i := i + 1;
        j := j + 1;
      }
    }
  }

  /** areBlocks6ZeroOrOne: every block of six bits is 0...0 or 1...1. */
  method AreBlocks6ZeroOrOne(x: seq<Bit>, n: int) returns (r: bool)
    requires 0 <= n <= |x| && n % 6 == 0
    ensures r <==> BlocksUniform(x[..n], n / 6)
  {
    var ok := true;
    var i := 0;
    while i < n
      invariant 0 <= i <= n && i % 6 == 0
      invariant ok <==> BlocksUniform(x, i / 6)
    {
      ok := CheckBlock(x, i, ok);
      assert 6 * (i / 6) == i && (i + 6) / 6 == i / 6 + 1;
      assert BlocksUniform(x, i / 6 + 1) <==> BlocksUniform(x, i / 6) && Uniform(x, i);
      i := i + 6;
    }
    forall b | 0 <= b < n / 6
      ensures Uniform(x, 6 * b) <==> Uniform(x[..n], 6 * b)
    {
      assert forall j :: 6 * b <= j < 6 * b + 6 ==> x[..n][j] == x[j];
    }
    r := ok;
  }

  /**
   * The grid part of wflofitness, for a string with exactly 30 set bits:
   * the c-th set bit i places turbine c at row i / 10 and column i % 10.
   */
  method PlaceTurbines(x: seq<Bit>, n: int) returns (layout: seq<int>)
    requires 0 <= n <= |x| && Ones(x[..n]) == TURBINES
    ensures layout == Layout(SetPositions(x[..n]))
  {
    var turbines := new int[2 * TURBINES];
    var count := 0;
    var i := 0;
    while i < n
      invariant 0 <= i <= n && count == |SetPositions(x[..i])|
      invariant forall c :: 0 <= c < count && c < TURBINES ==>
        turbines[c] == GRID_SPACING * (SetPositions(x[..i])[c] / 10) &&
        turbines[c + TURBINES] == GRID_SPACING * (SetPositions(x[..i])[c] % 10)
    {
      assert x[..i + 1][..i] == x[..i];
      if x[i] == 1 {
        var row, col;
        if i < 10 {
          row := 0;
          col := i;
        } else {
          col := i % 10;
          row := (i - col) / 10;
        }
        assert row == i / 10 && col == i % 10;
        if count < TURBINES {
          turbines[count] := row * GRID_SPACING;
          turbines[count + TURBINES] := col * GRID_SPACING;
        }
        count := count + 1;
      }
      i := i + 1;
    }
    layout := turbines[..];
  }

  /**
   * The count and grid part of wflofitness: count the set bits; with other
   * than 30, return the penalty; otherwise fill the turbine vector from the
   * set bits in order and return the power of that layout.
   */
  method WfloFitness(x: seq<Bit>, n: int, farmPower: seq<int> -> real) returns (f: real)
    requires 0 <= n <= |x|
    ensures f == WfloValue(x[..n], farmPower)
  {
    var turs := TURBINES;
    var count := 0;
    var i := 0;
    while i < n
      invariant 0 <= i <= n && count == Ones(x[..i])
    {
      assert x[..i + 1][..i] == x[..i];
      if x[i] == 1 {
        count := count + 1;
      }
      i := i + 1;
    }
    if count != turs {
      return (-1 * ((count - turs) * (count - turs))) as real;
    }
    var layout := PlaceTurbines(x, n);
    f := farmPower(layout);
  }

  /**
   * The fitness in use and the count of fitness evaluations: the globals
   * `fitness` (a pointer into the table, NULL until setFitness) and
   * `fitnessCalls_`.
   */
  class FitnessInUse {
    /** The number of the fitness in use, or -1 before any is set. */
    var number: int
    var calls: int

    constructor ()
      ensures number == -1 && calls == 0
    {
      number := -1;
      calls := 0;
    }

    predicate Selected()
      reads this
    {
      0 <= number < NUM_FITNESS
    }

    /** setFitness: select fitness n of the table; any other n is an error that ends the run. */
    method SetFitness(n: int) returns (ok: bool)
      modifies this
      ensures ok <==> 0 <= n < NUM_FITNESS
      ensures number == (if ok then n else old(number)) && calls == old(calls)
    {
      ok := 0 <= n < NUM_FITNESS;
      if ok {
        number := n;
      }
    }

    /** resetFitnessCalls */
    method ResetFitnessCalls() returns (r: int)
      modifies this
      ensures r == 0 && calls == 0 && number == old(number)
    {
      calls := 0;
      r := 0;
    }

    /** fitnessCalled: the count before this call, which it then raises by one. */
    method FitnessCalled() returns (r: int)
      modifies this
      ensures r == old(calls) && calls == old(calls) + 1 && number == old(number)
    {
      r := calls;
      calls := calls + 1;
    }

    /** getFitnessValue: count one evaluation and compute the fitness in use. */
    method GetFitnessValue(x: seq<Bit>, n: int, num: Numerics) returns (r: real)
      requires Selected() && n <= |x| && Fits(number, n)
      modifies this
      ensures calls == old(calls) + 1 && number == old(number)
      ensures r == FitnessValue(number, x[..n], num)
    {
      var _ := FitnessCalled();
      if number == ONEMAX {
        r := Onemax(x, n);
      } else if number == TRAP5 {
        r := Trap5(x, n);
      } else if number == WIND_FARM_LAYOUT {
        r := WfloFitness(x, n, num.farmPower);
      } else {
        r := num.floatFitness(number, x[..n]);
      }
    }

    /** isOptimal: the optimality test of the fitness in use. */
    method IsOptimal(x: seq<Bit>, n: int) returns (r: bool)
      requires Selected() && HasOptimum(number) && n <= |x| && Fits(number, n)
      ensures r <==> Optimal(number, x[..n])
    {
      if number == F3_DECEPTIVE_BIPOLAR {
        r := AreBlocks6ZeroOrOne(x, n);
      } else {
        r := AreAllGenesOne(x, n);
      }
    }
  }
}
