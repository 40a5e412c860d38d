/**
 * A decision graph whose leaves hold frequencies of the rows of a
 * population. Unbound (myPosition = -1), a leaf holds in value[0] the share
 * of rows that reach it; bound to a position, value[b] is the share of rows
 * that reach it and have bit b at that position.
 */
module FrequencyDecisionGraphs {
  import opened Bits
  import opened LabeledTreeNode
  import opened Collections
  import opened LeafList
  import opened DecisionGraphs

  /** The value slot a row counts toward: its bit at myPosition when bound, else 0. */
  function Slot(s: seq<Bit>, myPosition: int): Bit
    requires myPosition < |s|
  {
    if myPosition >= 0 then s[myPosition] else 0
  }

  /** The number of rows i with dest[i] == c whose slot is b. */
  function Tally(dest: seq<int>, slots: seq<Bit>, c: int, b: Bit): (r: nat)
    requires |slots| == |dest|
    ensures r <= |dest|
  {
    if dest == [] then 0
    else
      var m := |dest| - 1;
      Tally(dest[..m], slots[..m], c, b) + (if dest[m] == c && slots[m] == b then 1 else 0)
  }

  /** Both tallies summed over the nodes in L. */
  function TallyOver(dest: seq<int>, slots: seq<Bit>, L: seq<int>): nat
    requires |slots| == |dest|
  {
    if L == [] then 0
    else
      var c := L[|L| - 1];
      TallyOver(dest, slots, L[..|L| - 1]) + Tally(dest, slots, c, 0) + Tally(dest, slots, c, 1)
  }

  /** How often d occurs in L. */
  function Occurrences(L: seq<int>, d: int): nat
  {
    if L == [] then 0 else Occurrences(L[..|L| - 1], d) + (if L[|L| - 1] == d then 1 else 0)
  }

  /** The number of rows i reaching x whose bit at `label` is `side` and whose slot is b. */
  function SplitTally(dest: seq<int>, rows: seq<seq<Bit>>, slots: seq<Bit>, x: int, k: int, side: Bit, b: Bit): (r: nat)
    requires |rows| == |dest| && |slots| == |dest| && Wide(rows, k)
    ensures r <= Tally(dest, slots, x, b)
  {
    if dest == [] then 0
    else
      var m := |dest| - 1;
      assert 0 <= k < |rows[m]|;
      SplitTally(dest[..m], rows[..m], slots[..m], x, k, side, b) +
      (if dest[m] == x && rows[m][k] == side && slots[m] == b then 1 else 0)
  }

  /** value[b] summed over the nodes in L. */
  function Mass(nodes: seq<Node>, L: seq<int>, b: Bit): real
    requires forall t :: 0 <= t < |L| ==> 0 <= L[t] < |nodes|
  {
    if L == [] then 0.0 else Mass(nodes, L[..|L| - 1], b) + nodes[L[|L| - 1]].Value(b)
  }

  lemma {:induction false} OccurrencesAbsent(L: seq<int>, d: int)
    requires d !in L
    ensures Occurrences(L, d) == 0
  {
    if L != [] {
      OccurrencesAbsent(L[..|L| - 1], d);
    }
  }

  lemma {:induction false} OccurrencesDistinct(L: seq<int>, d: int)
    requires Distinct(L) && d in L
    ensures Occurrences(L, d) == 1
  {
    var init := L[..|L| - 1];
    if L[|L| - 1] == d {
      assert d !in init;
      OccurrencesAbsent(init, d);
    } else {
      assert d in init;
      OccurrencesDistinct(init, d);
    }
  }

  lemma {:induction false} TallyOverEmpty(L: seq<int>)
    ensures TallyOver([], [], L) == 0
  {
    if L != [] {
      TallyOverEmpty(L[..|L| - 1]);
    }
  }

  /** One more row adds one to the tallies of every occurrence of its leaf. */
  lemma {:induction false} TallyOverStep(dest: seq<int>, slots: seq<Bit>, L: seq<int>, d: int, b: Bit)
    requires |slots| == |dest|
    ensures TallyOver(dest + [d], slots + [b], L) == TallyOver(dest, slots, L) + Occurrences(L, d)
  {
    if L != [] {
      TallyOverStep(dest, slots, L[..|L| - 1], d, b);
      var c := L[|L| - 1];
      assert (dest + [d])[..|dest|] == dest && (slots + [b])[..|dest|] == slots;
      assert Tally(dest + [d], slots + [b], c, 0) + Tally(dest + [d], slots + [b], c, 1) ==
             Tally(dest, slots, c, 0) + Tally(dest, slots, c, 1) + (if d == c then 1 else 0);
    }
  }

  /** When every row reaches one of the distinct nodes in L, the tallies over L count every row once. */
  lemma {:induction false} TallyTotal(dest: seq<int>, slots: seq<Bit>, L: seq<int>)
    requires |slots| == |dest| && Distinct(L)
    requires forall i :: 0 <= i < |dest| ==> dest[i] in L
    ensures TallyOver(dest, slots, L) == |dest|
  {
    if dest == [] {
      TallyOverEmpty(L);
    } else {
      var m := |dest| - 1;
      TallyTotal(dest[..m], slots[..m], L);
      TallyOverStep(dest[..m], slots[..m], L, dest[m], slots[m]);
      assert dest[..m] + [dest[m]] == dest && slots[..m] + [slots[m]] == slots;
      OccurrencesDistinct(L, dest[m]);
    }
  }

  /** No row counts toward slot 1 when every slot is 0. */
  lemma {:induction false} TallyUnbound(dest: seq<int>, slots: seq<Bit>, c: int)
    requires |slots| == |dest| && forall i :: 0 <= i < |slots| ==> slots[i] == 0
    ensures Tally(dest, slots, c, 1) == 0
  {
    if dest != [] {
      TallyUnbound(dest[..|dest| - 1], slots[..|dest| - 1], c);
    }
  }

  /** The four split tallies of a label k partition the rows that reach x. */
  lemma {:induction false} SplitTallyTotal(dest: seq<int>, rows: seq<seq<Bit>>, slots: seq<Bit>, x: int, k: int)
    requires |rows| == |dest| && |slots| == |dest| && Wide(rows, k)
    ensures SplitTally(dest, rows, slots, x, k, 0, 0) + SplitTally(dest, rows, slots, x, k, 0, 1) +
            SplitTally(dest, rows, slots, x, k, 1, 0) + SplitTally(dest, rows, slots, x, k, 1, 1) ==
            Tally(dest, slots, x, 0) + Tally(dest, slots, x, 1)
  {
    if dest != [] {
      var m := |dest| - 1;
      assert 0 <= k < |rows[m]|;
      SplitTallyTotal(dest[..m], rows[..m], slots[..m], x, k);
    }
  }

  /** No row counts toward slot 1 of a split when every slot is 0. */
  lemma {:induction false} SplitTallyUnbound(dest: seq<int>, rows: seq<seq<Bit>>, slots: seq<Bit>, x: int, k: int, side: Bit)
    requires |rows| == |dest| && |slots| == |dest| && Wide(rows, k)
    requires forall i :: 0 <= i < |slots| ==> slots[i] == 0
    ensures SplitTally(dest, rows, slots, x, k, side, 1) == 0
  {
    if dest != [] {
      var m := |dest| - 1;
      assert 0 <= k < |rows[m]|;
      SplitTallyUnbound(dest[..m], rows[..m], slots[..m], x, k, side);
    }
  }

  /**
   * Splitting on the bound position itself: a row goes left exactly when its
   * slot is 0, so the left 1-tally and the right 0-tally are empty.
   */
  lemma {:induction false} SplitTallyOwnLabel(dest: seq<int>, rows: seq<seq<Bit>>, slots: seq<Bit>, x: int, k: int)
    requires |rows| == |dest| && |slots| == |dest| && Wide(rows, k)
    requires forall i :: 0 <= i < |rows| ==> 0 <= k < |rows[i]| && slots[i] == rows[i][k]
    ensures SplitTally(dest, rows, slots, x, k, 0, 1) == 0
    ensures SplitTally(dest, rows, slots, x, k, 1, 0) == 0
  {
    if dest != [] {
      var m := |dest| - 1;
      assert 0 <= k < |rows[m]|;
      SplitTallyOwnLabel(dest[..m], rows[..m], slots[..m], x, k);
    }
  }

  lemma {:induction false} MassConcat(nodes: seq<Node>, A: seq<int>, B: seq<int>, b: Bit)
    requires forall t :: 0 <= t < |A| ==> 0 <= A[t] < |nodes|
    requires forall t :: 0 <= t < |B| ==> 0 <= B[t] < |nodes|
    ensures forall t :: 0 <= t < |A + B| ==> 0 <= (A + B)[t] < |nodes|
    ensures Mass(nodes, A + B, b) == Mass(nodes, A, b) + Mass(nodes, B, b)
  {
    if B != [] {
      var init := B[..|B| - 1];
      MassConcat(nodes, A, init, b);
      assert (A + B)[..|A + B| - 1] == A + init;
    } else {
      assert A + B == A;
    }
  }

  /** The mass of L depends only on value[b] of its members. */
  lemma {:induction false} MassSame(n0: seq<Node>, n1: seq<Node>, L: seq<int>, b: Bit)
    requires forall t :: 0 <= t < |L| ==> 0 <= L[t] < |n0| && 0 <= L[t] < |n1| && n1[L[t]].Value(b) == n0[L[t]].Value(b)
    ensures Mass(n1, L, b) == Mass(n0, L, b)
  {
    if L != [] {
      MassSame(n0, n1, L[..|L| - 1], b);
    }
  }

  /** With every value a tally over N, the mass of L is the tally over L over N. */
  lemma {:induction false} MassOfTallies(nodes: seq<Node>, L: seq<int>, dest: seq<int>, slots: seq<Bit>, N: real)
    requires N > 0.0 && |slots| == |dest|
    requires forall t :: 0 <= t < |L| ==> 0 <= L[t] < |nodes|
    requires forall t :: 0 <= t < |L| ==>
               nodes[L[t]].value0 == Tally(dest, slots, L[t], 0) as real / N &&
               nodes[L[t]].value1 == Tally(dest, slots, L[t], 1) as real / N
    ensures Mass(nodes, L, 0) + Mass(nodes, L, 1) == TallyOver(dest, slots, L) as real / N
  {
    if L != [] {
      var init, c := L[..|L| - 1], L[|L| - 1];
      MassOfTallies(nodes, init, dest, slots, N);
      var a, t0, t1 := TallyOver(dest, slots, init) as real, Tally(dest, slots, c, 0) as real, Tally(dest, slots, c, 1) as real;
      SharesAdd(a, t0, t1, N);
    }
  }

  /** Shares over a common total add up. */
  lemma SharesAdd(a: real, b: real, c: real, N: real)
    requires N > 0.0
    ensures a / N + b / N + c / N == (a + b + c) / N
  {
  }

  lemma {:induction false} OccurrencesConcat(A: seq<int>, B: seq<int>, d: int)
    ensures Occurrences(A + B, d) == Occurrences(A, d) + Occurrences(B, d)
  {
    if B != [] {
      OccurrencesConcat(A, B[..|B| - 1], d);
      assert (A + B)[..|A + B| - 1] == A + B[..|B| - 1];
    } else {
      assert A + B == A;
    }
  }

  /** Raising value[b] of x by d raises the mass of L by d for each occurrence of x. */
  lemma {:induction false} MassBump(n0: seq<Node>, n1: seq<Node>, L: seq<int>, x: int, d: real, b: Bit)
    requires forall t :: 0 <= t < |L| ==> 0 <= L[t] < |n0| && 0 <= L[t] < |n1|
    requires forall t :: 0 <= t < |L| && L[t] != x ==> n1[L[t]].Value(b) == n0[L[t]].Value(b)
    requires 0 <= x < |n0| && 0 <= x < |n1| && n1[x].Value(b) == n0[x].Value(b) + d
    ensures Mass(n1, L, b) == Mass(n0, L, b) + Occurrences(L, x) as real * d
  {
    if L != [] {
      MassBump(n0, n1, L[..|L| - 1], x, d, b);
    }
  }

  /**
   * Merging the i-th listed leaf into the listed leaf x: x's value[b] grows
   * by the other's and the other leaves the list, so the mass of the list is kept.
   */
  lemma MergeKeepsMass(n0: seq<Node>, n1: seq<Node>, L: seq<int>, i: int, L1: seq<int>, x: int, b: Bit)
    requires Distinct(L) && 0 <= i < |L| && x in L && x != L[i] && L1 == L[..i] + L[i + 1..]
    requires forall t :: 0 <= t < |L| ==> 0 <= L[t] < |n0|
    requires |n1| == |n0| && 0 <= x < |n0|
    requires forall p :: 0 <= p < |n0| && p != x ==> n1[p].Value(b) == n0[p].Value(b)
    requires n1[x].Value(b) == n0[x].Value(b) + n0[L[i]].Value(b)
    ensures forall t :: 0 <= t < |L1| ==> 0 <= L1[t] < |n1|
    ensures Mass(n1, L1, b) == Mass(n0, L, b)
  {
    var A, y, B := L[..i], L[i], L[i + 1..];
    DropRanges(L, i, |n0|);
    DistinctDrop(L, i);
    DropMembers(L, i);
    MassSplice(n0, A, y, B, b);
    MergeBump(n0, n1, A + B, x, y, b);
  }

  /** Every entry of L indexes a sequence of length N. */
  ghost predicate Below(L: seq<int>, N: int)
  {
    forall t :: 0 <= t < |L| ==> 0 <= L[t] < N
  }

  /** Cutting L around its i-th entry keeps every entry in range. */
  lemma DropRanges(L: seq<int>, i: int, N: int)
    requires Below(L, N) && 0 <= i < |L|
    ensures L == L[..i] + [L[i]] + L[i + 1..]
    ensures Below(L[..i], N) && Below(L[i + 1..], N) && Below(L[..i] + L[i + 1..], N)
  {
    assert L == L[..i] + [L[i]] + L[i + 1..];
    var B := L[i + 1..];
    forall t | 0 <= t < |B| ensures 0 <= B[t] < N {
      assert B[t] == L[i + 1 + t];
    }
  }

  /** The mass of A + [y] + B is that of A + B plus y's value. */
  lemma MassSplice(nodes: seq<Node>, A: seq<int>, y: int, B: seq<int>, b: Bit)
    requires forall t :: 0 <= t < |A| ==> 0 <= A[t] < |nodes|
    requires forall t :: 0 <= t < |B| ==> 0 <= B[t] < |nodes|
    requires 0 <= y < |nodes|
    ensures forall t :: 0 <= t < |A + [y] + B| ==> 0 <= (A + [y] + B)[t] < |nodes|
    ensures Mass(nodes, A + [y] + B, b) == Mass(nodes, A + B, b) + nodes[y].Value(b)
  {
    MassConcat(nodes, A, [y], b);
    MassConcat(nodes, A + [y], B, b);
    assert Mass(nodes, [y], b) == nodes[y].Value(b) by {
      assert [y][..0] == [];
    }
    MassConcat(nodes, A, B, b);
  }

  /** Adding y's value to the one listed x adds it to the mass. */
  lemma MergeBump(n0: seq<Node>, n1: seq<Node>, L: seq<int>, x: int, y: int, b: Bit)
    requires Distinct(L) && x in L
    requires forall t :: 0 <= t < |L| ==> 0 <= L[t] < |n0|
    requires |n1| == |n0| && 0 <= y < |n0| && 0 <= x < |n0|
    requires forall p :: 0 <= p < |n0| && p != x ==> n1[p].Value(b) == n0[p].Value(b)
    requires n1[x].Value(b) == n0[x].Value(b) + n0[y].Value(b)
    ensures Mass(n1, L, b) == Mass(n0, L, b) + n0[y].Value(b)
  {
    var d := n0[y].Value(b);
    OccurrencesDistinct(L, x);
    MassBump(n0, n1, L, x, d, b);
    assert Occurrences(L, x) as real * d == d;
  }

  /** The leaf each row reaches from the root. */
  ghost function Destinations(nodes: seq<Node>, stamp: seq<nat>, clock: nat, root: int, rows: seq<seq<Bit>>): (r: seq<int>)
    requires Ranked(nodes, stamp, clock) && 0 <= root < |nodes|
    requires forall i :: 0 <= i < |rows| ==> LabelsBelow(nodes, |rows[i]|)
    ensures |r| == |rows|
    ensures forall i :: 0 <= i < |rows| ==> r[i] == Route(nodes, stamp, clock, root, rows[i])
  {
    seq(|rows|, i requires 0 <= i < |rows| => Route(nodes, stamp, clock, root, rows[i]))
  }

  /** The slot of each row. */
  function SlotsOf(rows: seq<seq<Bit>>, myPosition: int): (r: seq<Bit>)
    requires forall i :: 0 <= i < |rows| ==> myPosition < |rows[i]|
    ensures |r| == |rows| && forall i :: 0 <= i < |rows| ==> r[i] == Slot(rows[i], myPosition)
  {
    seq(|rows|, i requires 0 <= i < |rows| => Slot(rows[i], myPosition))
  }

  /**
   * The per-node buffers a frequency graph relies on: an ancestor vector of
   * length n, all zero at depth 0 (the root).
   */
  ghost predicate Prepared(v: Node, n: int)
  {
    |v.ancestors| == n && v.depth >= 0 && (v.depth == 0 ==> v.ancestors == ZeroBits(n))
  }

  /** Every split label is a position and every node is Prepared. */
  ghost predicate Fit(nodes: seq<Node>, n: int)
  {
    LabelsBelow(nodes, n) && forall p :: 0 <= p < |nodes| ==> Prepared(nodes[p], n)
  }

  /** The split node x of n1 with both children carrying ancestor vector a. */
  ghost predicate SplitMarked(n0: seq<Node>, n2: seq<Node>, x: int, k: int, newItem: int, a: seq<Bit>)
  {
    var l := |n0|;
    0 <= x < l && |n2| == l + 2 &&
    n2[x] == n0[x].(which := SplitNode, splitLabel := k, left := l, right := l + 1, leavesItem := NULL) &&
    (forall i :: 0 <= i < l && i != x ==> n2[i] == n0[i]) &&
    n2[l] == NewNode(LeafNode).(depth := n0[x].depth + 1, parents := [x], leavesItem := n0[x].leavesItem, ancestors := a) &&
    n2[l + 1] == NewNode(LeafNode).(depth := n0[x].depth + 1, parents := [x], leavesItem := newItem, ancestors := a)
  }

  /**
   * The children of a split get the parent's ancestor vector with the split
   * label marked; the parent's vector is all zero at depth 0, so copying it
   * only when the depth is positive gives the same vector.
   */
  lemma SplitFit(n0: seq<Node>, n1: seq<Node>, n2: seq<Node>, x: int, k: int, newItem: int, n: int, a: seq<Bit>)
    requires Fit(n0, n) && 0 <= k < n && SplitNodes(n0, n1, x, k, newItem)
    requires a == (if n0[x].depth > 0 then n0[x].ancestors else ZeroBits(n))[k := 1]
    requires n2 == n1[|n0| := n1[|n0|].(ancestors := a)][|n0| + 1 := n1[|n0| + 1].(ancestors := a)]
    ensures Fit(n2, n) && SplitMarked(n0, n2, x, k, newItem, n0[x].ancestors[k := 1])
  {
    assert Prepared(n0[x], n);
    forall p | 0 <= p < |n2| && n2[p].which == SplitNode
      ensures 0 <= n2[p].splitLabel < n
    {
      if p != x { assert n2[p] == n0[p]; }
    }
    forall p | 0 <= p < |n2|
      ensures Prepared(n2[p], n)
    {
      if p < |n0| && p != x {
        assert n2[p] == n0[p];
      }
    }
  }

  /** A merge changes only links and parent lists. */
  lemma MergedPayload(n0: seq<Node>, n1: seq<Node>, x: int, y: int, p: int)
    requires MergedNodes(n0, n1, x, y) && 0 <= p < |n0|
    ensures n1[p] == n0[p].(left := n1[p].left, right := n1[p].right, parents := n1[p].parents)
  {
  }

  /** A merge keeps the split labels, depths and ancestor vectors. */
  lemma MergedFit(n0: seq<Node>, n1: seq<Node>, x: int, y: int, n: int)
    requires MergedNodes(n0, n1, x, y) && Fit(n0, n)
    ensures Fit(n1, n)
  {
    forall p | 0 <= p < |n0|
      ensures n1[p] == n0[p].(left := n1[p].left, right := n1[p].right, parents := n1[p].parents)
    {
      MergedPayload(n0, n1, x, y, p);
    }
  }

  /** A merge keeps every value. */
  lemma MergedValues(n0: seq<Node>, n1: seq<Node>, x: int, y: int)
    requires MergedNodes(n0, n1, x, y)
    ensures forall p :: 0 <= p < |n0| ==> n1[p].value0 == n0[p].value0 && n1[p].value1 == n0[p].value1
  {
    forall p | 0 <= p < |n0|
      ensures n1[p] == n0[p].(left := n1[p].left, right := n1[p].right, parents := n1[p].parents)
    {
      MergedPayload(n0, n1, x, y, p);
    }
  }

  /** Node vx after merge adds in vy's value[0], and its value[1] when bound. */
  function Absorbed(vx: Node, vy: Node, bound: bool): (r: Node)
    ensures r.value0 == vx.value0 + vy.value0
    ensures r.value1 == if bound then vx.value1 + vy.value1 else vx.value1
    ensures r == vx.(value0 := r.value0, value1 := r.value1)
  {
    vx.(value0 := vx.value0 + vy.value0, value1 := if bound then vx.value1 + vy.value1 else vx.value1)
  }

  /** The mass of value[0], and of value[1] when bound, is the same over (n2, L2) as over (n0, L0). */
  ghost predicate MassKept(n0: seq<Node>, L0: seq<int>, n2: seq<Node>, L2: seq<int>, bound: bool)
    requires Below(L0, |n0|) && Below(L2, |n2|)
  {
    Mass(n2, L2, 0) == Mass(n0, L0, 0) && (bound ==> Mass(n2, L2, 1) == Mass(n0, L0, 1))
  }

  /**
   * The values moved into x by a merge make up for y leaving the leaf list:
   * the mass of value[0], and of value[1] when bound, is kept.
   */
  lemma MergeMass(n0: seq<Node>, n1: seq<Node>, n2: seq<Node>, L0: seq<int>, L2: seq<int>, x: int, y: int, bound: bool)
    requires Distinct(L0) && x in L0 && y in L0 && x != y
    requires forall t :: 0 <= t < |L0| ==> 0 <= L0[t] < |n0|
    requires 0 <= x < |n0| && n1 == n0[x := Absorbed(n0[x], n0[y], bound)]
    requires MergedNodes(n1, n2, x, y)
    requires L2 == L0[..IndexOf(L0, y)] + L0[IndexOf(L0, y) + 1..]
    ensures forall t :: 0 <= t < |L2| ==> 0 <= L2[t] < |n2|
    ensures MassKept(n0, L0, n2, L2, bound)
  {
    AbsorbedValues(n0, n1, n2, x, y, bound);
    MergeKeepsMass(n0, n2, L0, IndexOf(L0, y), L2, x, 0);
    if bound {
      MergeKeepsMass(n0, n2, L0, IndexOf(L0, y), L2, x, 1);
    }
  }

  /** After merge, x holds the sum of both values (value[1] only when bound); other values are kept. */
  lemma AbsorbedValues(n0: seq<Node>, n1: seq<Node>, n2: seq<Node>, x: int, y: int, bound: bool)
    requires 0 <= x < |n0| && 0 <= y < |n0| && n1 == n0[x := Absorbed(n0[x], n0[y], bound)]
    requires MergedNodes(n1, n2, x, y)
    ensures |n2| == |n0|
    ensures forall p :: 0 <= p < |n0| && p != x ==> n2[p].Value(0) == n0[p].Value(0) && n2[p].Value(1) == n0[p].Value(1)
    ensures n2[x].Value(0) == n0[x].Value(0) + n0[y].Value(0)
    ensures bound ==> n2[x].Value(1) == n0[x].Value(1) + n0[y].Value(1)
  {
    MergedValues(n1, n2, x, y);
  }

  /** n1 differs from n0 in values only. */
  ghost predicate ValuesOnly(n0: seq<Node>, n1: seq<Node>)
  {
    |n1| == |n0| && forall p :: 0 <= p < |n0| ==> n1[p] == n0[p].(value0 := n1[p].value0, value1 := n1[p].value1)
  }

  /** Arenas of the same shape send every row to the same leaf. */
  lemma ShapeKeepsDests(n0: seq<Node>, n1: seq<Node>, stamp: seq<nat>, clock: nat, root: int, rows: seq<seq<Bit>>)
    requires SameShapes(n0, n1) && Ranked(n0, stamp, clock) && 0 <= root < |n0|
    requires forall i :: 0 <= i < |rows| ==> LabelsBelow(n0, |rows[i]|)
    ensures Ranked(n1, stamp, clock) && forall i :: 0 <= i < |rows| ==> LabelsBelow(n1, |rows[i]|)
    ensures Destinations(n1, stamp, clock, root, rows) == Destinations(n0, stamp, clock, root, rows)
  {
    ShapeKeepsRanked(n0, n1, stamp, clock, 0);
    forall i | 0 <= i < |rows|
      ensures LabelsBelow(n1, |rows[i]|)
      ensures Route(n1, stamp, clock, root, rows[i]) == Route(n0, stamp, clock, root, rows[i])
    {
      RouteSameShape(n0, n1, stamp, clock, root, rows[i]);
    }
  }

  /** Changing values only keeps the leaf every row reaches. */
  lemma ValuesOnlyRoutes(n0: seq<Node>, n1: seq<Node>, stamp: seq<nat>, clock: nat, root: int, rows: seq<seq<Bit>>)
    requires ValuesOnly(n0, n1) && Ranked(n0, stamp, clock) && 0 <= root < |n0|
    requires forall i :: 0 <= i < |rows| ==> LabelsBelow(n0, |rows[i]|)
    ensures SameShapes(n0, n1) && Ranked(n1, stamp, clock)
    ensures forall i :: 0 <= i < |rows| ==> LabelsBelow(n1, |rows[i]|)
    ensures Destinations(n1, stamp, clock, root, rows) == Destinations(n0, stamp, clock, root, rows)
  {
    assert SameShapes(n0, n1) by {
      forall p | 0 <= p < |n0| ensures SameShape(n0[p], n1[p]) {
        assert n1[p] == n0[p].(value0 := n1[p].value0, value1 := n1[p].value1);
      }
    }
    ShapeKeepsRanked(n0, n1, stamp, clock, 0);
    forall i | 0 <= i < |rows|
      ensures LabelsBelow(n1, |rows[i]|)
      ensures Route(n1, stamp, clock, root, rows[i]) == Route(n0, stamp, clock, root, rows[i])
    {
      RouteSameShape(n0, n1, stamp, clock, root, rows[i]);
    }
  }

  /**
   * With every row reaching one of the distinct leaves L and each value the
   * leaf's tally over N, the values of L add up to 1.
   */
  lemma FrequenciesTotal(nodes: seq<Node>, L: seq<int>, dest: seq<int>, slots: seq<Bit>)
    requires |dest| > 0 && |slots| == |dest| && Distinct(L)
    requires forall i :: 0 <= i < |dest| ==> dest[i] in L
    requires forall t :: 0 <= t < |L| ==> 0 <= L[t] < |nodes|
    requires forall t :: 0 <= t < |L| ==>
               nodes[L[t]].value0 == Tally(dest, slots, L[t], 0) as real / |dest| as real &&
               nodes[L[t]].value1 == Tally(dest, slots, L[t], 1) as real / |dest| as real
    ensures Mass(nodes, L, 0) + Mass(nodes, L, 1) == 1.0
  {
    MassOfTallies(nodes, L, dest, slots, |dest| as real);
    TallyTotalShare(dest, slots, L);
  }

  lemma TallyTotalShare(dest: seq<int>, slots: seq<Bit>, L: seq<int>)
    requires |dest| > 0 && |slots| == |dest| && Distinct(L)
    requires forall i :: 0 <= i < |dest| ==> dest[i] in L
    ensures TallyOver(dest, slots, L) as real / |dest| as real == 1.0
  {
    TallyTotal(dest, slots, L);
    WholeShare(|dest| as real, TallyOver(dest, slots, L) as real);
  }

  lemma WholeShare(N: real, a: real)
    requires N > 0.0 && a == N
    ensures a / N == 1.0
  {
  }

  /** A count of at most N out of N is a share between 0 and 1. */
  lemma ShareBounds(c: real, N: real)
    requires 0.0 <= c <= N && N > 0.0
    ensures 0.0 <= c / N <= 1.0
  {
  }

  /** What a walk over the leaf list does to each leaf: clear both values, or divide by N. */
  datatype LeafOp = Clear | Scale(N: real, bound: bool)

  /**
   * The leaf after the walk: Clear sets both values to 0; Scale divides
   * value[0], and value[1] too when the graph is bound.
   */
  function Apply(op: LeafOp, v: Node): (r: Node)
    requires op.Scale? ==> op.N > 0.0
    ensures r == v.(value0 := r.value0, value1 := r.value1)
  {
    match op
    case Clear => v.(value0 := 0.0, value1 := 0.0)
    case Scale(N, bound) => v.(value0 := v.value0 / N, value1 := if bound then v.value1 / N else v.value1)
  }

  /** n0 with op applied to the nodes L[..j]. */
  ghost function OnLeaves(n0: seq<Node>, L: seq<int>, j: int, op: LeafOp): (r: seq<Node>)
    requires 0 <= j <= |L| && (op.Scale? ==> op.N > 0.0)
    ensures |r| == |n0|
  {
    seq(|n0|, p requires 0 <= p < |n0| => if p in L[..j] then Apply(op, n0[p]) else n0[p])
  }

  /** One more step of a walk over the distinct leaves L. */
  lemma OnLeavesStep(n0: seq<Node>, L: seq<int>, j: int, op: LeafOp)
    requires Distinct(L) && 0 <= j < |L| && 0 <= L[j] < |n0| && (op.Scale? ==> op.N > 0.0)
    ensures OnLeaves(n0, L, j, op)[L[j]] == n0[L[j]]
    ensures OnLeaves(n0, L, j + 1, op) == OnLeaves(n0, L, j, op)[L[j] := Apply(op, n0[L[j]])]
  {
    assert L[..j + 1] == L[..j] + [L[j]];
  }

  /** n0 with the tallies of the rows added to the values of the nodes in L. */
  ghost function Tallied(n0: seq<Node>, L: seq<int>, dest: seq<int>, slots: seq<Bit>): (r: seq<Node>)
    requires |slots| == |dest|
    ensures |r| == |n0|
  {
    seq(|n0|, p requires 0 <= p < |n0| =>
      if p in L then
        n0[p].(value0 := n0[p].value0 + Tally(dest, slots, p, 0) as real,
               value1 := n0[p].value1 + Tally(dest, slots, p, 1) as real)
      else n0[p])
  }

  /**
   * Before row i is counted, the nodes differ from n0 in values only, so
   * the row still reaches dest[i]; counting it bumps that node.
   */
  lemma CountStep(n0: seq<Node>, L: seq<int>, D: seq<int>, S: seq<Bit>, stamp: seq<nat>, clock: nat, root: int,
                  rows: seq<seq<Bit>>, i: int)
    requires Ranked(n0, stamp, clock) && 0 <= root < |n0|
    requires forall r :: 0 <= r < |rows| ==> LabelsBelow(n0, |rows[r]|)
    requires D == Destinations(n0, stamp, clock, root, rows) && |S| == |D| && 0 <= i < |D|
    requires forall r :: 0 <= r < |D| ==> D[r] in L
    ensures var t := Tallied(n0, L, D[..i], S[..i]);
            Ranked(t, stamp, clock) && LabelsBelow(t, |rows[i]|) && Route(t, stamp, clock, root, rows[i]) == D[i] &&
            Tallied(n0, L, D[..i + 1], S[..i + 1]) == t[D[i] := Bump(t[D[i]], S[i])]
  {
    var t := Tallied(n0, L, D[..i], S[..i]);
    assert SameShapes(n0, t) by {
      forall p | 0 <= p < |n0| ensures SameShape(n0[p], t[p]) {
      }
    }
    RouteSameShape(n0, t, stamp, clock, root, rows[i]);
    TalliedStep(n0, L, D, S, i);
  }

  /** value[b]++ */
  function Bump(v: Node, b: Bit): (r: Node)
    ensures r == v.(value0 := r.value0, value1 := r.value1)
  {
    v.WithValue(b, v.Value(b) + 1.0)
  }

  /** Row i, reaching the listed node dest[i], adds one to its value[slots[i]]. */
  lemma TalliedStep(n0: seq<Node>, L: seq<int>, dest: seq<int>, slots: seq<Bit>, i: int)
    requires |slots| == |dest| && 0 <= i < |dest| && dest[i] in L && 0 <= dest[i] < |n0|
    ensures var t := Tallied(n0, L, dest[..i], slots[..i]); var d, b := dest[i], slots[i];
            Tallied(n0, L, dest[..i + 1], slots[..i + 1]) == t[d := Bump(t[d], b)]
  {
    var d, b := dest[i], slots[i];
    var t := Tallied(n0, L, dest[..i], slots[..i]);
    var u := Tallied(n0, L, dest[..i + 1], slots[..i + 1]);
    assert dest[..i + 1][..i] == dest[..i] && slots[..i + 1][..i] == slots[..i];
    forall p | 0 <= p < |n0|
      ensures u[p] == t[d := Bump(t[d], b)][p]
    {
    }
  }

  /**
   * The nodes computeFrequencies leaves behind: every node of L holds in
   * value[b] the share of the rows that reach it with slot b; every other
   * node is n0's.
   */
  ghost function Frequencies(n0: seq<Node>, L: seq<int>, dest: seq<int>, slots: seq<Bit>): (r: seq<Node>)
    requires |slots| == |dest| && |dest| > 0
    ensures |r| == |n0|
  {
    var N := |dest| as real;
    seq(|n0|, p requires 0 <= p < |n0| =>
      if p in L then
        n0[p].(value0 := Tally(dest, slots, p, 0) as real / N, value1 := Tally(dest, slots, p, 1) as real / N)
      else n0[p])
  }

  /**
   * The three walks of computeFrequencies (clear the leaves, count every
   * row at its leaf, divide by N) end in Frequencies. Unbound, value[1] is
   * never counted nor divided, and stays 0 because no slot is 1.
   */
  lemma FrequencyWalks(n0: seq<Node>, L: seq<int>, dest: seq<int>, slots: seq<Bit>, bound: bool)
    requires |slots| == |dest| && |dest| > 0
    requires !bound ==> forall i :: 0 <= i < |slots| ==> slots[i] == 0
    ensures var N := |dest| as real;
            OnLeaves(Tallied(OnLeaves(n0, L, |L|, Clear), L, dest, slots), L, |L|, Scale(N, bound)) ==
            Frequencies(n0, L, dest, slots)
  {
    var N := |dest| as real;
    var n1 := OnLeaves(n0, L, |L|, Clear);
    var n2 := Tallied(n1, L, dest, slots);
    var n3 := OnLeaves(n2, L, |L|, Scale(N, bound));
    var F := Frequencies(n0, L, dest, slots);
    assert L[..|L|] == L;
    forall p | 0 <= p < |n0| ensures n3[p] == F[p] {
      if p in L {
        if !bound {
          TallyUnbound(dest, slots, p);
        }
      }
    }
  }

  /** The values of the distinct leaves L that every row reaches add up to 1. */
  lemma FrequenciesSumToOne(n0: seq<Node>, L: seq<int>, dest: seq<int>, slots: seq<Bit>)
    requires |slots| == |dest| && |dest| > 0 && Distinct(L)
    requires forall i :: 0 <= i < |dest| ==> dest[i] in L
    requires Below(L, |n0|)
    ensures Mass(Frequencies(n0, L, dest, slots), L, 0) + Mass(Frequencies(n0, L, dest, slots), L, 1) == 1.0
  {
    var F := Frequencies(n0, L, dest, slots);
    FrequenciesTotal(F, L, dest, slots);
  }

  /** Unbound, every value[1] of the leaves stays 0 after computeFrequencies. */
  lemma FrequenciesUnbound(n0: seq<Node>, L: seq<int>, dest: seq<int>, slots: seq<Bit>)
    requires |slots| == |dest| && |dest| > 0
    requires forall i :: 0 <= i < |slots| ==> slots[i] == 0
    ensures forall p :: 0 <= p < |n0| && p in L ==> Frequencies(n0, L, dest, slots)[p].value1 == 0.0
  {
    forall p | 0 <= p < |n0| && p in L
      ensures Frequencies(n0, L, dest, slots)[p].value1 == 0.0
    {
      TallyUnbound(dest, slots, p);
    }
  }

  /**
   * The counters of a row's pass over the labels, done up to (not
   * including) label `upto`: the counter of label k grows by 1 when the
   * row's bit at k is `side` and its slot is b.
   */
  function Bucketed(c: seq<real>, s: seq<Bit>, side: Bit, b: Bit, slot: Bit, upto: int): (r: seq<real>)
    requires 0 <= upto <= |c| <= |s|
    ensures |r| == |c|
  {
    seq(|c|, k requires 0 <= k < |c| => if k < upto && s[k] == side && slot == b then c[k] + 1.0 else c[k])
  }

  /** One more label of a row's pass changes only that label's counter. */
  lemma BucketedStep(c: seq<real>, s: seq<Bit>, side: Bit, b: Bit, slot: Bit, upto: int)
    requires 0 <= upto < |c| <= |s|
    ensures Bucketed(c, s, side, b, slot, upto + 1) ==
            Bucketed(c, s, side, b, slot, upto)[upto := if s[upto] == side && slot == b then c[upto] + 1.0 else c[upto]]
  {
  }

  /** For every label k < n: the rows among the first i that reach x with bit `side` at k and slot b. */
  function SplitCounts(dest: seq<int>, rows: seq<seq<Bit>>, slots: seq<Bit>, x: int, side: Bit, b: Bit, i: int, n: nat): (r: seq<real>)
    requires |rows| == |dest| && |slots| == |dest| && 0 <= i <= |dest|
    requires forall r :: 0 <= r < |rows| ==> |rows[r]| == n
    ensures |r| == n
  {
    seq(n, k requires 0 <= k < n => SplitTally(dest[..i], rows[..i], slots[..i], x, k, side, b) as real)
  }

  /** Row i adds its pass over the labels to the counters when it reaches x, and nothing otherwise. */
  lemma SplitCountsStep(dest: seq<int>, rows: seq<seq<Bit>>, slots: seq<Bit>, x: int, side: Bit, b: Bit, i: int, n: nat)
    requires |rows| == |dest| && |slots| == |dest| && 0 <= i < |dest|
    requires forall r :: 0 <= r < |rows| ==> |rows[r]| == n
    ensures var c := SplitCounts(dest, rows, slots, x, side, b, i, n);
            SplitCounts(dest, rows, slots, x, side, b, i + 1, n) ==
            if dest[i] == x then Bucketed(c, rows[i], side, b, slots[i], n) else c
  {
    assert dest[..i + 1][..i] == dest[..i] && rows[..i + 1][..i] == rows[..i] && slots[..i + 1][..i] == slots[..i];
    var c := SplitCounts(dest, rows, slots, x, side, b, i, n);
    var c' := SplitCounts(dest, rows, slots, x, side, b, i + 1, n);
    forall k | 0 <= k < n
      ensures c'[k] == (if dest[i] == x then Bucketed(c, rows[i], side, b, slots[i], n) else c)[k]
    {
      assert Wide(rows[..i + 1], k) && Wide(rows[..i], k);
    }
  }

  /** No row counted yet: every counter is 0. */
  lemma SplitCountsNone(dest: seq<int>, rows: seq<seq<Bit>>, slots: seq<Bit>, x: int, side: Bit, b: Bit, n: nat)
    requires |rows| == |dest| && |slots| == |dest|
    requires forall r :: 0 <= r < |rows| ==> |rows[r]| == n
    ensures SplitCounts(dest, rows, slots, x, side, b, 0, n) == seq(n, k => 0.0)
  {
    assert dest[..0] == [];
  }

  /** c with its first j entries divided by N. */
  function Divided(c: seq<real>, N: real, j: int): (r: seq<real>)
    requires 0 <= j <= |c| && N > 0.0
    ensures |r| == |c|
  {
    seq(|c|, k requires 0 <= k < |c| => if k < j then c[k] / N else c[k])
  }

  /**
   * What computeSplitFrequencies leaves in the array for (side, b): for each
   * label k < n, the share of the rows that reach x with bit `side` at k and
   * slot b.
   */
  ghost function SplitShares(dest: seq<int>, rows: seq<seq<Bit>>, slots: seq<Bit>, x: int, side: Bit, b: Bit, n: nat): (r: seq<real>)
    requires |rows| == |dest| && |slots| == |dest| && |dest| > 0
    requires forall r :: 0 <= r < |rows| ==> |rows[r]| == n
    ensures |r| == n
  {
    seq(n, k requires 0 <= k < n => SplitTally(dest, rows, slots, x, k, side, b) as real / |dest| as real)
  }

  /** Dividing the full counts gives the shares; unbound, the undivided counts of slot 1 are the shares too (all 0). */
  lemma SplitCountsShares(dest: seq<int>, rows: seq<seq<Bit>>, slots: seq<Bit>, x: int, side: Bit, b: Bit, n: nat, divided: bool)
    requires |rows| == |dest| && |slots| == |dest| && |dest| > 0
    requires forall r :: 0 <= r < |rows| ==> |rows[r]| == n
    requires !divided ==> b == 1 && forall i :: 0 <= i < |slots| ==> slots[i] == 0
    ensures var c := SplitCounts(dest, rows, slots, x, side, b, |dest|, n);
            (if divided then Divided(c, |dest| as real, n) else c) == SplitShares(dest, rows, slots, x, side, b, n)
  {
    assert dest[..|dest|] == dest && rows[..|dest|] == rows && slots[..|dest|] == slots;
    if !divided {
      forall k | 0 <= k < n
        ensures SplitTally(dest, rows, slots, x, k, side, b) == 0
      {
        assert Wide(rows, k);
        SplitTallyUnbound(dest, rows, slots, x, k, side);
      }
    }
  }

  /**
   * For every label, the four split shares of x add up to x's own share of
   * the rows: the same value whatever the label.
   */
  lemma SplitSharesPartition(dest: seq<int>, rows: seq<seq<Bit>>, slots: seq<Bit>, x: int, n: nat, k: int)
    requires |rows| == |dest| && |slots| == |dest| && |dest| > 0
    requires forall r :: 0 <= r < |rows| ==> |rows[r]| == n
    requires 0 <= k < n
    ensures SplitShares(dest, rows, slots, x, 0, 0, n)[k] + SplitShares(dest, rows, slots, x, 0, 1, n)[k] +
            SplitShares(dest, rows, slots, x, 1, 0, n)[k] + SplitShares(dest, rows, slots, x, 1, 1, n)[k] ==
            (Tally(dest, slots, x, 0) + Tally(dest, slots, x, 1)) as real / |dest| as real
  {
    assert Wide(rows, k);
    SplitTallyTotal(dest, rows, slots, x, k);
    FourShares(SplitTally(dest, rows, slots, x, k, 0, 0), SplitTally(dest, rows, slots, x, k, 0, 1),
               SplitTally(dest, rows, slots, x, k, 1, 0), SplitTally(dest, rows, slots, x, k, 1, 1), |dest|);
  }

  /** Four counts over a common total, as shares, add up to their sum's share. */
  lemma FourShares(a: nat, b: nat, c: nat, d: nat, N: nat)
    requires N > 0
    ensures a as real / N as real + b as real / N as real + c as real / N as real + d as real / N as real ==
            (a + b + c + d) as real / N as real
  {
    SharesAdd(a as real, b as real, c as real, N as real);
    SharesAdd(a as real + b as real + c as real, d as real, 0.0, N as real);
  }

  /** x's own share of the rows is the sum of the two frequencies computeFrequencies gives it. */
  lemma SharesOfFrequency(n0: seq<Node>, L: seq<int>, dest: seq<int>, slots: seq<Bit>, x: int)
    requires |slots| == |dest| && |dest| > 0 && 0 <= x < |n0| && x in L
    ensures (Tally(dest, slots, x, 0) + Tally(dest, slots, x, 1)) as real / |dest| as real ==
            Frequencies(n0, L, dest, slots)[x].value0 + Frequencies(n0, L, dest, slots)[x].value1
  {
    var F := Frequencies(n0, L, dest, slots);
    var a, b := Tally(dest, slots, x, 0), Tally(dest, slots, x, 1);
    assert F[x].value0 == a as real / |dest| as real && F[x].value1 == b as real / |dest| as real;
    TwoShares(a, b, |dest|);
  }

  /** Two counts over a common total, as shares, add up to their sum's share. */
  lemma TwoShares(a: nat, b: nat, N: nat)
    requires N > 0
    ensures (a + b) as real / N as real == a as real / N as real + b as real / N as real
  {
    var x, y, n := a as real, b as real, N as real;
    assert (a + b) as real == x + y;
    assert (x + y) / n == x / n + y / n;
  }

  /** Unbound, the slot-1 split shares (left1 and right1) are all 0. */
  lemma SplitSharesUnbound(dest: seq<int>, rows: seq<seq<Bit>>, slots: seq<Bit>, x: int, side: Bit, n: nat)
    requires |rows| == |dest| && |slots| == |dest| && |dest| > 0
    requires forall r :: 0 <= r < |rows| ==> |rows[r]| == n
    requires forall i :: 0 <= i < |slots| ==> slots[i] == 0
    ensures forall k :: 0 <= k < n ==> SplitShares(dest, rows, slots, x, side, 1, n)[k] == 0.0
  {
    forall k | 0 <= k < n
      ensures SplitShares(dest, rows, slots, x, side, 1, n)[k] == 0.0
    {
      assert Wide(rows, k);
      SplitTallyUnbound(dest, rows, slots, x, k, side);
    }
  }

  /** Bound to position k, a split on k itself leaves left1[k] and right0[k] at 0. */
  lemma SplitSharesOwnLabel(dest: seq<int>, rows: seq<seq<Bit>>, slots: seq<Bit>, x: int, n: nat, k: int)
    requires |rows| == |dest| && |slots| == |dest| && |dest| > 0
    requires forall r :: 0 <= r < |rows| ==> |rows[r]| == n
    requires 0 <= k < n && slots == SlotsOf(rows, k)
    ensures SplitShares(dest, rows, slots, x, 0, 1, n)[k] == 0.0
    ensures SplitShares(dest, rows, slots, x, 1, 0, n)[k] == 0.0
  {
    SplitTallyOwnLabel(dest, rows, slots, x, k);
  }

  /**
   * The inner loop of computeSplitFrequencies for a row that reaches x: for
   * every label, the counter of the row's side of the split and of its slot
   * grows by 1.
   */
  method BucketRow(s: seq<Bit>, slot: Bit, left0: array<real>, left1: array<real>, right0: array<real>, right1: array<real>)
    requires left0.Length == left1.Length == right0.Length == right1.Length == |s|
    requires left0 != left1 && left0 != right0 && left0 != right1 && left1 != right0 && left1 != right1 && right0 != right1
    modifies left0, left1, right0, right1
    ensures left0[..] == Bucketed(old(left0[..]), s, 0, 0, slot, |s|)
    ensures left1[..] == Bucketed(old(left1[..]), s, 0, 1, slot, |s|)
    ensures right0[..] == Bucketed(old(right0[..]), s, 1, 0, slot, |s|)
    ensures right1[..] == Bucketed(old(right1[..]), s, 1, 1, slot, |s|)
  {
    ghost var l0, l1, r0, r1 := left0[..], left1[..], right0[..], right1[..];
    var k := 0;
    while k < |s|
      invariant 0 <= k <= |s|
      invariant left0[..] == Bucketed(l0, s, 0, 0, slot, k)
      invariant left1[..] == Bucketed(l1, s, 0, 1, slot, k)
      invariant right0[..] == Bucketed(r0, s, 1, 0, slot, k)
      invariant right1[..] == Bucketed(r1, s, 1, 1, slot, k)
    {
      BucketedStep(l0, s, 0, 0, slot, k);
      BucketedStep(l1, s, 0, 1, slot, k);
      BucketedStep(r0, s, 1, 0, slot, k);
      BucketedStep(r1, s, 1, 1, slot, k);
      if s[k] == 0 {
        if slot == 1 {
          left1[k] := left1[k] + 1.0;
        } else {
          left0[k] := left0[k] + 1.0;
        }
      } else {
        if slot == 1 {
          right1[k] := right1[k] + 1.0;
        } else {
          right0[k] := right0[k] + 1.0;
        }
      }
      k := k + 1;
    }
  }

  /** The last loop of computeSplitFrequencies: divide every counter by N, the slot-1 ones only when bound. */
  method DivideCounts(left0: array<real>, left1: array<real>, right0: array<real>, right1: array<real>, N: real, bound: bool)
    requires left0.Length == left1.Length == right0.Length == right1.Length && N > 0.0
    requires left0 != left1 && left0 != right0 && left0 != right1 && left1 != right0 && left1 != right1 && right0 != right1
    modifies left0, left1, right0, right1
    ensures left0[..] == Divided(old(left0[..]), N, left0.Length)
    ensures right0[..] == Divided(old(right0[..]), N, left0.Length)
    ensures left1[..] == if bound then Divided(old(left1[..]), N, left0.Length) else old(left1[..])
    ensures right1[..] == if bound then Divided(old(right1[..]), N, left0.Length) else old(right1[..])
  {
    ghost var l0, l1, r0, r1 := left0[..], left1[..], right0[..], right1[..];
    var k := 0;
    if bound {
      while k < left0.Length
        invariant 0 <= k <= left0.Length
        invariant left0[..] == Divided(l0, N, k) && left1[..] == Divided(l1, N, k)
        invariant right0[..] == Divided(r0, N, k) && right1[..] == Divided(r1, N, k)
      {
        left0[k] := left0[k] / N;
        left1[k] := left1[k] / N;
        right0[k] := right0[k] / N;
        right1[k] := right1[k] / N;
        k := k + 1;
      }
    } else {
      while k < left0.Length
        invariant 0 <= k <= left0.Length
        invariant left0[..] == Divided(l0, N, k) && right0[..] == Divided(r0, N, k)
        invariant left1[..] == l1 && right1[..] == r1
      {
        left0[k] := left0[k] / N;
        right0[k] := right0[k] / N;
        k := k + 1;
      }
    }
  }

  /** The first loop of computeSplitFrequencies: every counter starts at 0. */
  method ClearCounts(left0: array<real>, left1: array<real>, right0: array<real>, right1: array<real>)
    requires left0.Length == left1.Length == right0.Length == right1.Length
    modifies left0, left1, right0, right1
    ensures left0[..] == seq(left0.Length, k => 0.0) && left1[..] == seq(left0.Length, k => 0.0)
    ensures right0[..] == seq(left0.Length, k => 0.0) && right1[..] == seq(left0.Length, k => 0.0)
  {
    var k := 0;
    while k < left0.Length
      invariant 0 <= k <= left0.Length
      invariant forall j :: 0 <= j < k ==> left0[j] == 0.0 && left1[j] == 0.0 && right0[j] == 0.0 && right1[j] == 0.0
    {
      left0[k], left1[k], right0[k], right1[k] := 0.0, 0.0, 0.0, 0.0;
      k := k + 1;
    }
  }

  class FrequencyDecisionGraph {
    /** the decision graph itself */
    const g: DecisionGraph
    /** the rows of the bound population (p->x); their number is p->N */
    const rows: seq<seq<Bit>>
    /** the string length p->n */
    const n: int
    /** the position whose bit the leaves count, or -1 */
    const myPosition: int

    ghost predicate Valid()
      reads this, g`nodes, g`items, g`order, g`leaves, g`numLeaves, g`stamp, g`clock
    {
      g.Valid() && |rows| > 0 && -1 <= myPosition < n &&
      (forall i :: 0 <= i < |rows| ==> |rows[i]| == n) &&
      Fit(g.nodes, n)
    }

    /** The leaf each row reaches. */
    ghost function Dests(): seq<int>
      reads this, g
      requires Valid()
    {
      Destinations(g.nodes, g.stamp, g.clock, g.root, rows)
    }

    /** Every row reaches a listed leaf. */
    lemma DestsListed()
      requires Valid()
      ensures forall r :: 0 <= r < |rows| ==> Dests()[r] in g.Leaves()
    {
      var root := g.GetRoot();
      forall r | 0 <= r < |rows|
        ensures Dests()[r] in g.Leaves()
      {
        g.RouteListed(root, rows[r]);
      }
    }

    function Slots(): (r: seq<Bit>)
      reads this
      requires forall i :: 0 <= i < |rows| ==> |rows[i]| == n
      requires myPosition < n
    {
      SlotsOf(rows, myPosition)
    }

    /** FrequencyDecisionGraph(p): an unbound graph whose root holds frequency 1. */
    constructor Unbound(rows: seq<seq<Bit>>, n: nat)
      requires |rows| > 0 && forall i :: 0 <= i < |rows| ==> |rows[i]| == n
      ensures Valid() && fresh(g) && this.rows == rows && this.n == n && myPosition == -1
      ensures g.Leaves() == [g.root] && |g.nodes| == 1
      ensures g.nodes[g.root].ancestors == ZeroBits(n)
      ensures g.nodes[g.root].value0 == 1.0 && g.nodes[g.root].value1 == 0.0
    {
      this.rows, this.n, myPosition := rows, n, -1;
      g := new DecisionGraph();
      new;
      var root := g.GetRoot();
      g.SetPayload(root, AllocateInstanceIndexEntries(g.nodes[root], n));
      g.SetValue(root, 1.0, 0);
    }

    /**
     * FrequencyDecisionGraph(p, myPosition): the root holds the frequencies
     * of 0 and 1 at myPosition.
     */
    constructor Bound(rows: seq<seq<Bit>>, n: nat, myPosition: int)
      requires |rows| > 0 && forall i :: 0 <= i < |rows| ==> |rows[i]| == n
      requires 0 <= myPosition < n
      ensures Valid() && fresh(g) && this.rows == rows && this.n == n && this.myPosition == myPosition
      ensures g.Leaves() == [g.root] && |g.nodes| == 1
      ensures g.nodes[g.root].ancestors == ZeroBits(n)
      ensures var f := OnesAt(rows, myPosition) as real / |rows| as real;
              g.nodes[g.root].value0 == 1.0 - f && g.nodes[g.root].value1 == f
    {
      this.rows, this.n, this.myPosition := rows, n, myPosition;
      g := new DecisionGraph();
      new;
      var root := g.GetRoot();
      g.SetPayload(root, AllocateInstanceIndexEntries(g.nodes[root], n));
      var f := UnivariateFrequency(myPosition);
      g.SetValue(root, 1.0 - f, 0);
      g.SetValue(root, f, 1);
    }

    /** univariateFrequency(k): the share of rows with bit 1 at k. */
    method UnivariateFrequency(k: int) returns (f: real)
      requires |rows| > 0 && 0 <= k < n && forall i :: 0 <= i < |rows| ==> |rows[i]| == n
      ensures f == OnesAt(rows, k) as real / |rows| as real
      ensures 0.0 <= f <= 1.0
    {
      var count: nat := 0;
      var i := 0;
      while i < |rows|
        invariant 0 <= i <= |rows| && count == OnesAt(rows[..i], k)
      {
        assert rows[..i + 1][..i] == rows[..i];
        count := count + rows[i][k];
        i := i + 1;
      }
      assert rows[..i] == rows;
      f := count as real / |rows| as real;
      ShareBounds(count as real, |rows| as real);
    }
  
    /** Replaces the values of node c, keeping everything else about it. */
    method Store(c: int, v: Node)
      requires Valid() && 0 <= c < |g.nodes|
      requires v == g.nodes[c].(value0 := v.value0, value1 := v.value1)
      modifies g`nodes
      ensures Valid() && g.nodes == old(g.nodes)[c := v]
    {
      ghost var n0 := g.nodes;
      g.SetPayload(c, v);
      ShapeKeepsRanked(n0, g.nodes, g.stamp, g.clock, n);
      assert Prepared(n0[c], n);
    }

    /**
     * Replaces the values and the five per-label caches of node c (dArrayTmp
     * and the cached split frequencies), keeping everything else about it.
     */
    method Equip(c: int, v: Node)
      requires Valid() && 0 <= c < |g.nodes|
      requires v == g.nodes[c].(value0 := v.value0, value1 := v.value1, gains := v.gains,
                                rightValue0 := v.rightValue0, rightValue1 := v.rightValue1,
                                leftValue0 := v.leftValue0, leftValue1 := v.leftValue1)
      modifies g`nodes
      ensures Valid() && g.nodes == old(g.nodes)[c := v] && g.Leaves() == old(g.Leaves())
      ensures Dests() == old(Dests())
    {
      ghost var n0 := g.nodes;
      g.SetPayload(c, v);
      ShapeKeepsRanked(n0, g.nodes, g.stamp, g.clock, n);
      assert Prepared(n0[c], n);
      assert SameShapes(n0, g.nodes) by {
        forall p | 0 <= p < |n0| ensures SameShape(n0[p], g.nodes[p]) {
        }
      }
      ShapeKeepsDests(n0, g.nodes, g.stamp, g.clock, g.root, rows);
    }

    /**
     * split: as DecisionGraph::split, and both children get x's ancestor
     * vector with the split label marked. Frequencies are not recomputed.
     */
    method Split(x: int, k: int)
      requires Valid() && x in g.Leaves() && 0 <= k < n
      modifies g`nodes, g`stamp, g`clock, g`items, g`numLeaves, g`order
      ensures Valid()
      ensures SplitMarked(old(g.nodes), g.nodes, x, k, old(|g.items|), old(g.nodes[x].ancestors)[k := 1])
      ensures var i := IndexOf(old(g.Leaves()), x);
              g.Leaves() == old(g.Leaves())[..i] + [old(|g.nodes|), old(|g.nodes|) + 1] + old(g.Leaves())[i + 1..]
    {
      ghost var n0 := g.nodes;
      g.Split(x, k);
      ghost var n1 := g.nodes;
      var l, r := g.nodes[x].left, g.nodes[x].right;
      var vl := AllocateInstanceIndexEntries(g.nodes[l], n);
      var vr := AllocateInstanceIndexEntries(g.nodes[r], n);
      if g.nodes[x].depth > 0 {
        vl := vl.(ancestors := g.nodes[x].ancestors);
        vr := vr.(ancestors := g.nodes[x].ancestors);
      }
      vl := vl.(ancestors := vl.ancestors[k := 1]);
      vr := vr.(ancestors := vr.ancestors[k := 1]);
      MarkChildren(l, r, vl, vr);
      SplitFit(n0, n1, g.nodes, x, k, old(|g.items|), n, vl.ancestors);
    }

    /** Installs the ancestor vectors of both children of a split. */
    method MarkChildren(l: int, r: int, vl: Node, vr: Node)
      requires g.Valid() && 0 <= l < |g.nodes| && 0 <= r < |g.nodes| && l != r
      requires vl == g.nodes[l].(ancestors := vl.ancestors) && vr == g.nodes[r].(ancestors := vr.ancestors)
      modifies g`nodes
      ensures g.Valid() && g.nodes == old(g.nodes)[l := vl][r := vr]
    {
      g.SetPayload(l, vl);
      g.SetPayload(r, vr);
    }

    /**
     * merge: x's value[0] (and value[1] when bound) grows by y's, then
     * DecisionGraph::merge fuses y into x; MergeMass shows the mass of the
     * leaf list is kept.
     */
    method Merge(x: int, y: int)
      requires Valid() && x in g.Leaves() && y in g.Leaves() && x != y
      modifies g`items, g`nodes, g`leaves, g`numLeaves, g`order
      ensures Valid()
      ensures MergedNodes(old(g.nodes)[x := Absorbed(old(g.nodes[x]), old(g.nodes[y]), myPosition >= 0)], g.nodes, x, y)
      ensures var i := IndexOf(old(g.Leaves()), y);
              g.Leaves() == old(g.Leaves())[..i] + old(g.Leaves())[i + 1..]
    {
      ghost var n0, L0 := g.nodes, g.Leaves();
      var v := g.nodes[x].(value0 := g.nodes[x].value0 + g.nodes[y].value0);
      if myPosition >= 0 {
        v := v.(value1 := v.value1 + g.nodes[y].value1);
      }
      assert v == Absorbed(n0[x], n0[y], myPosition >= 0);
      Store(x, v);
      ghost var n1 := g.nodes;
      assert g.Leaves() == L0;
      g.Merge(x, y);
      assert g.Leaves() == L0[..IndexOf(L0, y)] + L0[IndexOf(L0, y) + 1..];
      MergedFit(n1, g.nodes, x, y, n);
      assert n1 == n0[x := Absorbed(n0[x], n0[y], myPosition >= 0)];
      assert MergedNodes(n1, g.nodes, x, y);
    }

    /** The first loop of computeFrequencies: both values of every listed leaf become 0. */
    method ZeroLeaves()
      requires Valid()
      modifies g`nodes
      ensures Valid() && g.nodes == OnLeaves(old(g.nodes), g.Leaves(), |g.Leaves()|, Clear)
    {
      ghost var n0, L := g.nodes, g.Leaves();
      g.LeavesDistinct();
      var numLeaves := g.GetNumLeaves();
      var leafItem := g.leaves;
      var j := 0;
      while j < numLeaves
        invariant Valid() && g.Leaves() == L && 0 <= j <= numLeaves == |L|
        invariant leafItem == if j < |L| then g.order[j] else NULL
        invariant g.nodes == OnLeaves(n0, L, j, Clear)
      {
        assert LinkAt(g.items, g.order, j);
        var c := g.items[leafItem].x;
        OnLeavesStep(n0, L, j, Clear);
        Store(c, g.nodes[c].(value0 := 0.0, value1 := 0.0));
        leafItem := g.items[leafItem].next;
        j := j + 1;
      }
    }

    /**
     * The second loop of computeFrequencies: each row walks from the root to
     * its leaf and adds one to value[s[myPosition]] there (value[0] when unbound).
     */
    method CountRows()
      requires Valid()
      modifies g`nodes
      ensures Valid() && g.nodes == Tallied(old(g.nodes), g.Leaves(), old(Dests()), Slots())
    {
      ghost var n0, L, D, S := g.nodes, g.Leaves(), Dests(), Slots();
      DestsListed();
      var i := 0;
      while i < |rows|
        invariant Valid() && g.Leaves() == L && 0 <= i <= |rows|
        invariant g.nodes == Tallied(n0, L, D[..i], S[..i])
      {
        CountRow(n0, L, D, S, i);
        i := i + 1;
      }
      assert D[..i] == D && S[..i] == S;
    }

    /** One pass of that loop: the leaf row i reaches gets value[slot]++. */
    method CountRow(ghost n0: seq<Node>, ghost L: seq<int>, ghost D: seq<int>, ghost S: seq<Bit>, i: int)
      requires Valid() && g.Leaves() == L && 0 <= i < |rows|
      requires Ranked(n0, g.stamp, g.clock) && 0 <= g.root < |n0| && Fit(n0, n)
      requires D == Destinations(n0, g.stamp, g.clock, g.root, rows) && S == Slots()
      requires forall r :: 0 <= r < |D| ==> D[r] in L
      requires g.nodes == Tallied(n0, L, D[..i], S[..i])
      modifies g`nodes
      ensures Valid() && g.Leaves() == L && g.nodes == Tallied(n0, L, D[..i + 1], S[..i + 1])
    {
      CountStep(n0, L, D, S, g.stamp, g.clock, g.root, rows, i);
      var node := g.Descend(rows[i]);
      Store(node, Bump(g.nodes[node], Slot(rows[i], myPosition)));
    }

    /**
     * The third loop of computeFrequencies: every listed leaf's value[0]
     * (and value[1] when bound) is divided by N.
     */
    method DivideLeaves()
      requires Valid()
      modifies g`nodes
      ensures Valid() && g.nodes == OnLeaves(old(g.nodes), g.Leaves(), |g.Leaves()|, Scale(|rows| as real, myPosition >= 0))
    {
      ghost var n0, L := g.nodes, g.Leaves();
      ghost var op := Scale(|rows| as real, myPosition >= 0);
      g.LeavesDistinct();
      var numLeaves := g.GetNumLeaves();
      var leafItem := g.leaves;
      var N := |rows| as real;
      var j := 0;
      while j < numLeaves
        invariant Valid() && g.Leaves() == L && 0 <= j <= numLeaves == |L|
        invariant leafItem == if j < |L| then g.order[j] else NULL
        invariant g.nodes == OnLeaves(n0, L, j, op)
      {
        assert LinkAt(g.items, g.order, j);
        var c := g.items[leafItem].x;
        OnLeavesStep(n0, L, j, op);
        Store(c, Apply(Scale(N, myPosition >= 0), g.nodes[c]));
        leafItem := g.items[leafItem].next;
        j := j + 1;
      }
    }

    /**
     * computeFrequencies: clears the leaves, routes every row to its leaf
     * and counts it in value[slot], then divides by N. FrequenciesSumToOne
     * shows the result adds up to 1 over the leaf list.
     */
    method ComputeFrequencies()
      requires Valid()
      modifies g`nodes
      ensures Valid() && g.Leaves() == old(g.Leaves()) && Dests() == old(Dests())
      ensures g.nodes == Frequencies(old(g.nodes), g.Leaves(), Dests(), Slots())
    {
      ghost var n0, L, D, S := g.nodes, g.Leaves(), Dests(), Slots();
      ZeroLeaves();
      ghost var n1 := g.nodes;
      assert ValuesOnly(n0, n1);
      ValuesOnlyRoutes(n0, n1, g.stamp, g.clock, g.root, rows);
      CountRows();
      ghost var n2 := g.nodes;
      DivideLeaves();
      FrequencyWalks(n0, L, D, S, myPosition >= 0);
      assert g.nodes == Frequencies(n0, L, D, S);
      assert ValuesOnly(n0, g.nodes);
      ValuesOnlyRoutes(n0, g.nodes, g.stamp, g.clock, g.root, rows);
    }

    /**
     * computeSplitFrequencies(x, left0, left1, right0, right1): for every
     * label k, the shares of the rows reaching x that a split of x on k
     * would send left (bit 0 at k) or right, by slot. SplitSharesPartition,
     * SplitSharesUnbound and SplitSharesOwnLabel state what they add up to.
     */
    method ComputeSplitFrequencies(x: int, left0: array<real>, left1: array<real>, right0: array<real>, right1: array<real>)
      requires Valid()
      requires left0.Length == left1.Length == right0.Length == right1.Length == n
      requires left0 != left1 && left0 != right0 && left0 != right1 && left1 != right0 && left1 != right1 && right0 != right1
      modifies left0, left1, right0, right1
      ensures Valid()
      ensures left0[..] == SplitShares(Dests(), rows, Slots(), x, 0, 0, n)
      ensures left1[..] == SplitShares(Dests(), rows, Slots(), x, 0, 1, n)
      ensures right0[..] == SplitShares(Dests(), rows, Slots(), x, 1, 0, n)
      ensures right1[..] == SplitShares(Dests(), rows, Slots(), x, 1, 1, n)
    {
      ghost var D, S := Dests(), Slots();
      ClearCounts(left0, left1, right0, right1);
      SplitCountsNone(D, rows, S, x, 0, 0, n);
      SplitCountsNone(D, rows, S, x, 0, 1, n);
      SplitCountsNone(D, rows, S, x, 1, 0, n);
      SplitCountsNone(D, rows, S, x, 1, 1, n);
      CountSplitRows(x, left0, left1, right0, right1);
      DivideCounts(left0, left1, right0, right1, |rows| as real, myPosition >= 0);
      SplitCountsShares(D, rows, S, x, 0, 0, n, true);
      SplitCountsShares(D, rows, S, x, 1, 0, n, true);
      SplitCountsShares(D, rows, S, x, 0, 1, n, myPosition >= 0);
      SplitCountsShares(D, rows, S, x, 1, 1, n, myPosition >= 0);
    }

    /** The second loop of computeSplitFrequencies: every row that reaches x makes its pass over the labels. */
    method CountSplitRows(x: int, left0: array<real>, left1: array<real>, right0: array<real>, right1: array<real>)
      requires Valid()
      requires left0.Length == left1.Length == right0.Length == right1.Length == n
      requires left0 != left1 && left0 != right0 && left0 != right1 && left1 != right0 && left1 != right1 && right0 != right1
      requires left0[..] == SplitCounts(Dests(), rows, Slots(), x, 0, 0, 0, n)
      requires left1[..] == SplitCounts(Dests(), rows, Slots(), x, 0, 1, 0, n)
      requires right0[..] == SplitCounts(Dests(), rows, Slots(), x, 1, 0, 0, n)
      requires right1[..] == SplitCounts(Dests(), rows, Slots(), x, 1, 1, 0, n)
      modifies left0, left1, right0, right1
      ensures left0[..] == SplitCounts(Dests(), rows, Slots(), x, 0, 0, |rows|, n)
      ensures left1[..] == SplitCounts(Dests(), rows, Slots(), x, 0, 1, |rows|, n)
      ensures right0[..] == SplitCounts(Dests(), rows, Slots(), x, 1, 0, |rows|, n)
      ensures right1[..] == SplitCounts(Dests(), rows, Slots(), x, 1, 1, |rows|, n)
    {
      ghost var D, S := Dests(), Slots();
      var i := 0;
      while i < |rows|
        invariant 0 <= i <= |rows|
        invariant left0[..] == SplitCounts(D, rows, S, x, 0, 0, i, n)
        invariant left1[..] == SplitCounts(D, rows, S, x, 0, 1, i, n)
        invariant right0[..] == SplitCounts(D, rows, S, x, 1, 0, i, n)
        invariant right1[..] == SplitCounts(D, rows, S, x, 1, 1, i, n)
      {
        CountSplitRow(x, i, left0, left1, right0, right1);
        i := i + 1;
      }
    }

    /** One pass of that loop: row i, when it reaches x, is counted for every label. */
    method CountSplitRow(x: int, i: int, left0: array<real>, left1: array<real>, right0: array<real>, right1: array<real>)
      requires Valid() && 0 <= i < |rows|
      requires left0.Length == left1.Length == right0.Length == right1.Length == n
      requires left0 != left1 && left0 != right0 && left0 != right1 && left1 != right0 && left1 != right1 && right0 != right1
      requires left0[..] == SplitCounts(Dests(), rows, Slots(), x, 0, 0, i, n)
      requires left1[..] == SplitCounts(Dests(), rows, Slots(), x, 0, 1, i, n)
      requires right0[..] == SplitCounts(Dests(), rows, Slots(), x, 1, 0, i, n)
      requires right1[..] == SplitCounts(Dests(), rows, Slots(), x, 1, 1, i, n)
      modifies left0, left1, right0, right1
      ensures left0[..] == SplitCounts(Dests(), rows, Slots(), x, 0, 0, i + 1, n)
      ensures left1[..] == SplitCounts(Dests(), rows, Slots(), x, 0, 1, i + 1, n)
      ensures right0[..] == SplitCounts(Dests(), rows, Slots(), x, 1, 0, i + 1, n)
      ensures right1[..] == SplitCounts(Dests(), rows, Slots(), x, 1, 1, i + 1, n)
    {
      ghost var D, S := Dests(), Slots();
      var node := g.Descend(rows[i]);
      SplitCountsStep(D, rows, S, x, 0, 0, i, n);
      SplitCountsStep(D, rows, S, x, 0, 1, i, n);
      SplitCountsStep(D, rows, S, x, 1, 0, i, n);
      SplitCountsStep(D, rows, S, x, 1, 1, i, n);
      if node == x {
        BucketRow(rows[i], Slot(rows[i], myPosition), left0, left1, right0, right1);
      }
    }
  }
}
