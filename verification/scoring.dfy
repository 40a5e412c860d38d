/**
 * The Bayesian-Dirichlet score of a decision graph and the gains of the
 * split and merge operators on it. The numeric kernels (the table of
 * cumulative logarithms and log2 of the population size) are inputs.
 */
module Scoring {
  import opened Bits
  import opened LabeledTreeNode
  import opened Collections
  import opened LeafList
  import opened DecisionGraphs
  import opened FrequencyDecisionGraphs
  import opened Graph
  import opened Reachability
  import opened Operators

  /** A node whose value[0] or value[1] is at most this is fixed and is not split. */
  const FIXED_THRESHOLD := 0.0

  /** -10E10: the contribution of a node no row reaches. */
  const UNREACHED := -100000000000.0

  /**
   * cumLog(k) is the precomputed entry k of the cumulative-log table (the sum
   * of log i for i = 1..k); log2N is log2 of the population size.
   */
  datatype Metric = Metric(cumLog: int -> real, log2N: real)

  /** logGamma(x): log (x-1)!, read from the table as entry x-1 minus entry 0. */
  function LogGamma(m: Metric, x: int): (r: real)
    ensures x == 1 ==> r == 0.0
  {
    if x == 1 then 0.0 else m.cumLog(x - 1) - m.cumLog(0)
  }

  /** The table holds cumulative logarithms with respect to the function log. */
  ghost predicate CumulativeLog(m: Metric, log: int -> real)
  {
    forall k :: k >= 1 ==> m.cumLog(k) == m.cumLog(k - 1) + log(k)
  }

  /** Over a cumulative-log table, LogGamma satisfies the recurrence of log Gamma: log Gamma(x+1) = log Gamma(x) + log x. */
  lemma LogGammaRecurrence(m: Metric, log: int -> real, x: int)
    requires CumulativeLog(m, log) && x >= 1
    ensures LogGamma(m, x + 1) == LogGamma(m, x) + log(x)
  {
    assert m.cumLog(x) == m.cumLog(x - 1) + log(x);
  }

  /** The cast (long) r: truncation toward zero. */
  function Trunc(r: real): (k: int)
    ensures r >= 0.0 ==> k as real <= r < k as real + 1.0
    ensures r < 0.0 ==> k as real - 1.0 < r <= k as real
  {
    if r >= 0.0 then r.Floor else -((-r).Floor)
  }

  /**
   * nodeContribution: with m0, m1 and mp the truncated products of value[0],
   * value[1] and their sum with N, -logGamma(2+mp) + logGamma(1+m0) +
   * logGamma(1+m1); a node both of whose values are 0 contributes -10E10.
   */
  function NodeContribution(m: Metric, v0: real, v1: real, N: int): (r: real)
    ensures v0 == 0.0 && v1 == 0.0 ==> r == UNREACHED
  {
    var m0 := Trunc(v0 * N as real);
    var m1 := Trunc(v1 * N as real);
    if v0 == 0.0 && v1 == 0.0 then UNREACHED
    else
      var mp := Trunc((v0 + v1) * N as real);
      -LogGamma(m, 2 + mp) + LogGamma(m, 1 + m0) + LogGamma(m, 1 + m1)
  }

  /**
   * On frequencies that are counts c0, c1 over N, the contribution is the
   * node's term of the K2 metric, log (c0! c1! / (c0 + c1 + 1)!).
   */
  lemma ContributionOfCounts(m: Metric, c0: nat, c1: nat, N: nat)
    requires N > 0 && c0 + c1 > 0
    ensures NodeContribution(m, c0 as real / N as real, c1 as real / N as real, N)
            == -LogGamma(m, c0 + c1 + 2) + LogGamma(m, c0 + 1) + LogGamma(m, c1 + 1)
  {
    var n := N as real;
    var v0, v1 := c0 as real / n, c1 as real / n;
    TruncShare(c0, N);
    TruncShare(c1, N);
    TruncShareSum(c0, c1, N);
    ContributionAt(m, v0, v1, N, c0, c1);
  }

  lemma ContributionAt(m: Metric, v0: real, v1: real, N: int, a: int, b: int)
    requires v0 != 0.0 || v1 != 0.0
    requires Trunc(v0 * N as real) == a && Trunc(v1 * N as real) == b && Trunc((v0 + v1) * N as real) == a + b
    ensures NodeContribution(m, v0, v1, N) == -LogGamma(m, a + b + 2) + LogGamma(m, a + 1) + LogGamma(m, b + 1)
  {
  }

  lemma TruncShare(c: nat, N: nat)
    requires N > 0
    ensures Trunc((c as real / N as real) * N as real) == c
  {
    ShareTimes(c as real, N as real);
    TruncWhole(c);
  }

  lemma TruncShareSum(c0: nat, c1: nat, N: nat)
    requires N > 0
    ensures Trunc((c0 as real / N as real + c1 as real / N as real) * N as real) == c0 + c1
  {
    var n := N as real;
    ShareTimes(c0 as real, n);
    ShareTimes(c1 as real, n);
    SumTimes(c0 as real / n, c1 as real / n, n);
    TruncWhole(c0 + c1);
  }

  lemma ShareTimes(c: real, n: real)
    requires n > 0.0
    ensures (c / n) * n == c
  {
  }

  lemma SumTimes(a: real, b: real, n: real)
    ensures (a + b) * n == a * n + b * n
  {
  }

  lemma TruncWhole(k: nat)
    ensures Trunc(k as real) == k
  {
  }

  /** Products are truncated, not rounded: 0.5 and 0.25 of 3 count as 1 and 0, their sum as 2. */
  lemma ContributionTruncates(m: Metric)
    ensures NodeContribution(m, 0.5, 0.25, 3) == -LogGamma(m, 4) + LogGamma(m, 2) + LogGamma(m, 1)
  {
    assert Trunc(0.5 * 3.0) == 1;
    assert Trunc(0.25 * 3.0) == 0;
    assert Trunc((0.5 + 0.25) * 3.0) == 2;
  }

  /** The gain of a split into children with those values, against a parent contributing `before`. */
  function SplitGain(m: Metric, N: int, before: real, l0: real, l1: real, r0: real, r1: real): real
  {
    NodeContribution(m, l0, l1, N) + NodeContribution(m, r0, r1, N) - before - m.log2N / 2.0
  }

  /** A node that is fixed (a value at most the threshold) or at the depth bound gets no split. */
  ghost predicate Fixed(v: Node, maxParents: int)
  {
    v.value0 <= FIXED_THRESHOLD || v.value1 <= FIXED_THRESHOLD || v.depth >= maxParents
  }

  /**
   * A split on label k of a leaf of diagram `node` is considered when k is
   * another variable, is not split on above the leaf, and the edge
   * k -> node is present or may be added: the in-degree bound still allows
   * it and it closes no cycle.
   */
  function Eligible(G: AcyclicOrientedGraph, node: int, ancestors: seq<Bit>, maxParents: int, k: int): (r: bool)
    requires G.Valid() && 0 <= node < G.g.N && 0 <= k < G.g.N && k < |ancestors|
    reads G.Footprint()
    ensures r <==> node != k && ancestors[k] == 0 &&
                   ((k, node) in G.g.Edges || (|G.g.Parents[node]| < maxParents && Acyclic(G.g.Edges + {(k, node)})))
  {
    node != k && ancestors[k] == 0 &&
    (G.g.Connected(k, node) || (G.g.GetNumIn(node) < maxParents && G.CanAddEdge(k, node)))
  }

  /** A fixed node: every cached gain is -1 and the cached split frequencies are kept. */
  ghost predicate GainsCleared(v0: Node, v1: Node, n: int)
    requires Equipped(v0, n)
  {
    v1 == v0.(gains := v1.gains) && |v1.gains| == n && forall k :: 0 <= k < n ==> v1.gains[k] == INELIGIBLE
  }

  /**
   * Label k of node v0 rescored into v1: an eligible label gets the gain of
   * the split with the shares l0, l1, r0, r1 and caches them; any other label
   * gets -1 and keeps its caches.
   */
  ghost predicate LabelRescored(v0: Node, v1: Node, G: AcyclicOrientedGraph, node: int, maxParents: int, m: Metric, N: int,
                                l0: seq<real>, l1: seq<real>, r0: seq<real>, r1: seq<real>, k: int)
    requires G.Valid() && 0 <= node < G.g.N && 0 <= k < G.g.N && |v0.ancestors| == G.g.N
    requires Equipped(v0, G.g.N) && Equipped(v1, G.g.N)
    requires |l0| == |l1| == |r0| == |r1| == G.g.N
    reads G.Footprint()
  {
    if Eligible(G, node, v0.ancestors, maxParents, k) then
      v1.gains[k] == SplitGain(m, N, NodeContribution(m, v0.value0, v0.value1, N), l0[k], l1[k], r0[k], r1[k]) &&
      v1.leftValue0[k] == l0[k] && v1.leftValue1[k] == l1[k] && v1.rightValue0[k] == r0[k] && v1.rightValue1[k] == r1[k]
    else
      v1.gains[k] == INELIGIBLE &&
      v1.leftValue0[k] == v0.leftValue0[k] && v1.leftValue1[k] == v0.leftValue1[k] &&
      v1.rightValue0[k] == v0.rightValue0[k] && v1.rightValue1[k] == v0.rightValue1[k]
  }

  /** v1 differs from v0 only in the five per-label buffers, which keep length n. */
  ghost predicate BuffersOnly(v0: Node, v1: Node, n: int)
  {
    v1 == v0.(gains := v1.gains, rightValue0 := v1.rightValue0, rightValue1 := v1.rightValue1,
              leftValue0 := v1.leftValue0, leftValue1 := v1.leftValue1) &&
    Equipped(v1, n)
  }

  /** Node v0 after recomputeDecisionGraphSplitGains, given the split shares of its rows. */
  ghost predicate Rescored(v0: Node, v1: Node, G: AcyclicOrientedGraph, node: int, maxParents: int, m: Metric, N: int,
                           l0: seq<real>, l1: seq<real>, r0: seq<real>, r1: seq<real>)
    requires G.Valid() && 0 <= node < G.g.N && |v0.ancestors| == G.g.N && Equipped(v0, G.g.N)
    requires |l0| == |l1| == |r0| == |r1| == G.g.N
    reads G.Footprint()
  {
    BuffersOnly(v0, v1, G.g.N) &&
    if Fixed(v0, maxParents) then GainsCleared(v0, v1, G.g.N)
    else forall k :: 0 <= k < G.g.N ==> LabelRescored(v0, v1, G, node, maxParents, m, N, l0, l1, r0, r1, k)
  }

  /** The first two loops of recomputeDecisionGraphSplitGains: every gain becomes -1. */
  method ClearGains(v: Node, n: nat) returns (w: Node)
    requires Equipped(v, n)
    ensures GainsCleared(v, w, n) && BuffersOnly(v, w, n)
  {
    var gains := v.gains;
    var k := 0;
    while k < n
      invariant 0 <= k <= n && |gains| == n
      invariant forall j :: 0 <= j < k ==> gains[j] == INELIGIBLE
    {
      gains := gains[k := -1.0];
      k := k + 1;
    }
    w := v.(gains := gains);
  }

  /** The loop over labels of recomputeDecisionGraphSplitGains, after the split frequencies are known. */
  method RescoreLabels(v: Node, G: AcyclicOrientedGraph, node: int, maxParents: int, m: Metric, N: int,
                       left0: array<real>, left1: array<real>, right0: array<real>, right1: array<real>)
    returns (w: Node)
    requires G.Valid() && 0 <= node < G.g.N && |v.ancestors| == G.g.N && Equipped(v, G.g.N)
    requires left0.Length == left1.Length == right0.Length == right1.Length == G.g.N
    ensures BuffersOnly(v, w, G.g.N)
    ensures forall k :: 0 <= k < G.g.N ==>
              LabelRescored(v, w, G, node, maxParents, m, N, left0[..], left1[..], right0[..], right1[..], k)
  {
    var n := G.g.N;
    var scoreBefore := NodeContribution(m, v.value0, v.value1, N);
    w := v;
    var k := 0;
    while k < n
      invariant 0 <= k <= n && BuffersOnly(v, w, n)
      invariant forall j :: 0 <= j < k ==>
                  LabelRescored(v, w, G, node, maxParents, m, N, left0[..], left1[..], right0[..], right1[..], j)
      invariant forall j :: k <= j < n ==>
                  w.gains[j] == v.gains[j] && w.leftValue0[j] == v.leftValue0[j] && w.leftValue1[j] == v.leftValue1[j] &&
                  w.rightValue0[j] == v.rightValue0[j] && w.rightValue1[j] == v.rightValue1[j]
    {
      ghost var w0 := w;
      if Eligible(G, node, v.ancestors, maxParents, k) {
        var leftContribution := NodeContribution(m, left0[k], left1[k], N);
        var rightContribution := NodeContribution(m, right0[k], right1[k], N);
        var scoreAfter := leftContribution + rightContribution;
        var gain := scoreAfter - scoreBefore - m.log2N / 2.0;
        w := w.(gains := w.gains[k := gain],
                rightValue0 := w.rightValue0[k := right0[k]], rightValue1 := w.rightValue1[k := right1[k]],
                leftValue0 := w.leftValue0[k := left0[k]], leftValue1 := w.leftValue1[k := left1[k]]);
      } else {
        w := w.(gains := w.gains[k := -1.0]);
      }
      assert LabelRescored(v, w, G, node, maxParents, m, N, left0[..], left1[..], right0[..], right1[..], k);
      forall j | 0 <= j < k
        ensures LabelRescored(v, w, G, node, maxParents, m, N, left0[..], left1[..], right0[..], right1[..], j)
      {
        assert LabelRescored(v, w0, G, node, maxParents, m, N, left0[..], left1[..], right0[..], right1[..], j);
      }
      k := k + 1;
    }
  }

  /**
   * Node v1 is node v0 after recomputeDecisionGraphSplitGains, where dest
   * is the leaf each row reaches and slots the rows' bits at the diagram's
   * own position.
   */
  ghost predicate RescoredAt(v0: Node, v1: Node, G: AcyclicOrientedGraph, node: int, maxParents: int, m: Metric, N: int,
                             dest: seq<int>, rows: seq<seq<Bit>>, slots: seq<Bit>, x: int)
    requires G.Valid()
    reads G.Footprint()
  {
    var n := G.g.N;
    0 <= node < n && |v0.ancestors| == n && Equipped(v0, n) &&
    |rows| == |dest| && |slots| == |dest| && |dest| > 0 && (forall r :: 0 <= r < |rows| ==> |rows[r]| == n) &&
    Rescored(v0, v1, G, node, maxParents, m, N,
             SplitShares(dest, rows, slots, x, 0, 0, n), SplitShares(dest, rows, slots, x, 0, 1, n),
             SplitShares(dest, rows, slots, x, 1, 0, n), SplitShares(dest, rows, slots, x, 1, 1, n))
  }

  /**
   * The branch of recomputeDecisionGraphSplitGains for a leaf that is not
   * fixed: the split frequencies of leaf x and the rescored labels.
   */
  method RescoreLeaf(t: FrequencyDecisionGraph, x: int, G: AcyclicOrientedGraph, maxParents: int, node: int, N: int, m: Metric)
    returns (w: Node)
    requires t.Valid() && G.Valid() && t.n == G.g.N && 0 <= node < t.n
    requires 0 <= x < |t.g.nodes| && Equipped(t.g.nodes[x], t.n) && !Fixed(t.g.nodes[x], maxParents)
    ensures RescoredAt(t.g.nodes[x], w, G, node, maxParents, m, N, t.Dests(), t.rows, t.Slots(), x)
  {
    var n := t.n;
    assert Prepared(t.g.nodes[x], n);
    var left0 := new real[n];
    var left1 := new real[n];
    var right0 := new real[n];
    var right1 := new real[n];
    t.ComputeSplitFrequencies(x, left0, left1, right0, right1);
    w := RescoreLabels(t.g.nodes[x], G, node, maxParents, m, N, left0, left1, right0, right1);
    assert Rescored(t.g.nodes[x], w, G, node, maxParents, m, N, left0[..], left1[..], right0[..], right1[..]);
  }

  /**
   * recomputeDecisionGraphSplitGains: for leaf x of diagram `node`, a fixed
   * node or one at the depth bound gets -1 for every label; otherwise the
   * split frequencies are computed and every label rescored.
   */
  method RecomputeSplitGains(t: FrequencyDecisionGraph, x: int, G: AcyclicOrientedGraph, maxParents: int, node: int, N: int, m: Metric)
    requires t.Valid() && G.Valid() && t.n == G.g.N && 0 <= node < t.n
    requires 0 <= x < |t.g.nodes| && Equipped(t.g.nodes[x], t.n)
    modifies t.g`nodes
    ensures t.Valid() && t.g.Leaves() == old(t.g.Leaves()) && t.Dests() == old(t.Dests())
    ensures t.g.nodes == old(t.g.nodes)[x := t.g.nodes[x]] && BuffersOnly(old(t.g.nodes[x]), t.g.nodes[x], t.n)
    ensures RescoredAt(old(t.g.nodes[x]), t.g.nodes[x], G, node, maxParents, m, N, old(t.Dests()), t.rows, t.Slots(), x)
  {
    var n := t.n;
    assert Prepared(t.g.nodes[x], n);
    var v := t.g.nodes[x];
    var w;
    if v.value0 <= FIXED_THRESHOLD || v.value1 <= FIXED_THRESHOLD || v.depth >= maxParents {
      w := ClearGains(v, n);
    } else {
      w := RescoreLeaf(t, x, G, maxParents, node, N, m);
    }
    assert RescoredAt(v, w, G, node, maxParents, m, N, t.Dests(), t.rows, t.Slots(), x);
    assert t.g !in G.Footprint();
    t.Equip(x, w);
  }

  /** The split case of updateGainsAfterOperator: both children l and r are rescored. */
  method RescoreChildren(t: FrequencyDecisionGraph, l: int, r: int, G: AcyclicOrientedGraph, maxParents: int,
                         node: int, N: int, m: Metric)
    requires t.Valid() && G.Valid() && t.n == G.g.N && 0 <= node < t.n
    requires 0 <= l < |t.g.nodes| && 0 <= r < |t.g.nodes| && l != r
    requires Equipped(t.g.nodes[l], t.n) && Equipped(t.g.nodes[r], t.n)
    modifies t.g`nodes
    ensures t.Valid() && t.g.Leaves() == old(t.g.Leaves()) && t.Dests() == old(t.Dests())
    ensures t.g.nodes == old(t.g.nodes)[l := t.g.nodes[l]][r := t.g.nodes[r]]
    ensures BuffersOnly(old(t.g.nodes[l]), t.g.nodes[l], t.n) && BuffersOnly(old(t.g.nodes[r]), t.g.nodes[r], t.n)
    ensures RescoredAt(old(t.g.nodes[l]), t.g.nodes[l], G, node, maxParents, m, N, t.Dests(), t.rows, t.Slots(), l)
    ensures RescoredAt(old(t.g.nodes[r]), t.g.nodes[r], G, node, maxParents, m, N, t.Dests(), t.rows, t.Slots(), r)
  {
    assert t.g !in G.Footprint();
    RecomputeSplitGains(t, l, G, maxParents, node, N, m);
    ghost var vl := t.g.nodes[l];
    assert BuffersOnly(old(t.g.nodes[l]), vl, t.n);
    label rescored:
    RecomputeSplitGains(t, r, G, maxParents, node, N, m);
    assert t.g.nodes[l] == vl && unchanged@rescored(G.Footprint());
  }

  /**
   * updateGainsAfterOperator: after a split of x.node both new children are
   * rescored, after a merge the surviving leaf x.node; any other operator
   * leaves the gains alone. Each rescoring is the one recomputeSplitGains
   * promises, against the unchanged routes of the rows.
   */
  method UpdateGainsAfterOperator(x: Operator, t: FrequencyDecisionGraph, G: AcyclicOrientedGraph, maxParents: int, N: int,
                                  m: Metric)
    requires t.Valid() && G.Valid() && t.n == G.g.N
    requires x.kind == OPERATOR_SPLIT ==>
               0 <= x.where < t.n && 0 <= x.node < |t.g.nodes| &&
               0 <= t.g.nodes[x.node].left < |t.g.nodes| && 0 <= t.g.nodes[x.node].right < |t.g.nodes| &&
               t.g.nodes[x.node].left != t.g.nodes[x.node].right &&
               Equipped(t.g.nodes[t.g.nodes[x.node].left], t.n) && Equipped(t.g.nodes[t.g.nodes[x.node].right], t.n)
    requires x.kind == OPERATOR_MERGE ==> 0 <= x.where < t.n && 0 <= x.node < |t.g.nodes| && Equipped(t.g.nodes[x.node], t.n)
    modifies t.g`nodes
    ensures t.Valid() && t.g.Leaves() == old(t.g.Leaves()) && t.Dests() == old(t.Dests())
    ensures x.kind == OPERATOR_SPLIT ==>
              var l, r := old(t.g.nodes[x.node].left), old(t.g.nodes[x.node].right);
              t.g.nodes == old(t.g.nodes)[l := t.g.nodes[l]][r := t.g.nodes[r]] &&
              BuffersOnly(old(t.g.nodes[l]), t.g.nodes[l], t.n) && BuffersOnly(old(t.g.nodes[r]), t.g.nodes[r], t.n) &&
              RescoredAt(old(t.g.nodes[l]), t.g.nodes[l], G, x.where, maxParents, m, N, t.Dests(), t.rows, t.Slots(), l) &&
              RescoredAt(old(t.g.nodes[r]), t.g.nodes[r], G, x.where, maxParents, m, N, t.Dests(), t.rows, t.Slots(), r)
    ensures x.kind == OPERATOR_MERGE ==>
              t.g.nodes == old(t.g.nodes)[x.node := t.g.nodes[x.node]] &&
              BuffersOnly(old(t.g.nodes[x.node]), t.g.nodes[x.node], t.n) &&
              RescoredAt(old(t.g.nodes[x.node]), t.g.nodes[x.node], G, x.where, maxParents, m, N, t.Dests(), t.rows, t.Slots(), x.node)
    ensures x.kind != OPERATOR_SPLIT && x.kind != OPERATOR_MERGE ==> t.g.nodes == old(t.g.nodes)
  {
    if x.kind == OPERATOR_SPLIT {
      RescoreChildren(t, t.g.nodes[x.node].left, t.g.nodes[x.node].right, G, maxParents, x.where, N, m);
    } else if x.kind == OPERATOR_MERGE {
      RecomputeSplitGains(t, x.node, G, maxParents, x.where, N, m);
    }
  }

  /** The gain of merging leaves with those values: score after, minus both scores before, plus log2(N)/2. */
  function MergeGain(m: Metric, N: int, a: Node, b: Node): real
  {
    NodeContribution(m, a.value0 + b.value0, a.value1 + b.value1, N)
      - (NodeContribution(m, a.value0, a.value1, N) + NodeContribution(m, b.value0, b.value1, N))
      + m.log2N / 2.0
  }

  /** The merge of two leaves with that gain, recorded when the gain is positive. */
  function Recorded(gain: real, ax: int, bx: int): seq<MergeOperator>
  {
    if gain > 0.0 then [MergeOperator(gain, ax, bx)] else []
  }

  /** Entry q: the gain of merging the i-th listed leaf with the q-th. */
  ghost function PairGains(nodes: seq<Node>, L: seq<int>, m: Metric, N: int, i: int): (g: seq<real>)
    requires Below(L, |nodes|) && 0 <= i < |L|
    ensures |g| == |L|
  {
    seq(|L|, q requires 0 <= q < |L| => MergeGain(m, N, nodes[L[i]], nodes[L[q]]))
  }

  /** The merges of the i-th listed leaf with the j-th and later ones, g giving the gain with each. */
  ghost function RowMerges(g: seq<real>, L: seq<int>, i: int, j: int): seq<MergeOperator>
    requires |g| == |L| && 0 <= i < |L| && i < j <= |L|
    decreases |L| - j
  {
    if j == |L| then [] else Recorded(g[j], L[i], L[j]) + RowMerges(g, L, i, j + 1)
  }

  /** The merges recorded for the pairs whose first leaf is the i-th or a later one. */
  ghost function MergesFrom(nodes: seq<Node>, L: seq<int>, m: Metric, N: int, i: nat): seq<MergeOperator>
    requires Below(L, |nodes|)
    decreases |L| - i
  {
    if i + 1 >= |L| then [] else RowMerges(PairGains(nodes, L, m, N, i), L, i, i + 1) + MergesFrom(nodes, L, m, N, i + 1)
  }

  /**
   * recomputeDecisionGraphMergeGains: every pair of listed leaves, the first
   * before the second in list order, whose merge gain is positive.
   */
  method RecomputeMergeGains(t: FrequencyDecisionGraph, N: int, m: Metric) returns (merges: seq<MergeOperator>)
    requires t.Valid()
    ensures Below(t.g.Leaves(), |t.g.nodes|) && merges == MergesFrom(t.g.nodes, t.g.Leaves(), m, N, 0)
  {
    ghost var L := t.g.Leaves();
    ghost var nodes := t.g.nodes;
    t.g.LeavesDistinct();
    assert Below(L, |nodes|);
    var numLeaves := t.g.GetNumLeaves();
    merges := [];
    var a := t.g.leaves;
    var i := 0;
    assert LinkAt(t.g.items, t.g.order, 0);
    while t.g.items[a].next != NULL
      invariant 0 <= i < |L| && a == t.g.order[i]
      invariant merges + MergesFrom(nodes, L, m, N, i) == MergesFrom(nodes, L, m, N, 0)
      decreases |L| - i
    {
      assert LinkAt(t.g.items, t.g.order, i);
      var row := MergeRow(t, N, m, i, a);
      assert MergesFrom(nodes, L, m, N, i) == row + MergesFrom(nodes, L, m, N, i + 1);
      ConcatAssoc(merges, row, MergesFrom(nodes, L, m, N, i + 1));
      merges := merges + row;
      a := t.g.items[a].next;
      i := i + 1;
    }
    assert LinkAt(t.g.items, t.g.order, i);
    assert MergesFrom(nodes, L, m, N, i) == [];
  }

  /** The inner loop of recomputeDecisionGraphMergeGains: the merges of the i-th listed leaf with the later ones. */
  method MergeRow(t: FrequencyDecisionGraph, N: int, m: Metric, i: int, a: int) returns (row: seq<MergeOperator>)
    requires t.Valid() && 0 <= i < |t.g.Leaves()| - 1 && a == t.g.order[i]
    ensures Below(t.g.Leaves(), |t.g.nodes|) && row == RowMerges(PairGains(t.g.nodes, t.g.Leaves(), m, N, i), t.g.Leaves(), i, i + 1)
  {
    ghost var L := t.g.Leaves();
    t.g.LeavesDistinct();
    var nodes := t.g.nodes;
    assert Below(L, |nodes|);
    ghost var g := PairGains(nodes, L, m, N, i);
    assert LinkAt(t.g.items, t.g.order, i);
    row := [];
    var b := t.g.items[a].next;
    var j := i + 1;
    while b != NULL
      invariant i < j <= |L| && b == if j < |L| then t.g.order[j] else NULL
      invariant row + RowMerges(g, L, i, j) == RowMerges(g, L, i, i + 1)
      decreases |L| - j
    {
      assert LinkAt(t.g.items, t.g.order, j);
      var ax, bx := t.g.items[a].x, t.g.items[b].x;
      assert ax == L[i] && bx == L[j];
      row := OfferMerge(nodes, L, m, N, i, j, ax, bx, row);
      b := t.g.items[b].next;
      j := j + 1;
    }
  }

  /** The body of the inner loop of recomputeDecisionGraphMergeGains: the pair of the i-th and j-th listed leaves. */
  method OfferMerge(nodes: seq<Node>, ghost L: seq<int>, m: Metric, N: int, i: int, j: int, ax: int, bx: int,
                    row: seq<MergeOperator>)
    returns (row': seq<MergeOperator>)
    requires Below(L, |nodes|) && 0 <= i < j < |L| && ax == L[i] && bx == L[j]
    ensures row' + RowMerges(PairGains(nodes, L, m, N, i), L, i, j + 1) == row + RowMerges(PairGains(nodes, L, m, N, i), L, i, j)
  {
    ghost var g := PairGains(nodes, L, m, N, i);
    var gain := MergeGain(m, N, nodes[ax], nodes[bx]);
    assert gain == g[j];
    row' := row;
    if gain > 0.0 {
      row' := row + [MergeOperator(gain, ax, bx)];
    }
    assert row' == row + Recorded(g[j], L[i], L[j]);
    ConcatAssoc(row, Recorded(g[j], L[i], L[j]), RowMerges(g, L, i, j + 1));
  }

  lemma ConcatAssoc<T>(a: seq<T>, b: seq<T>, c: seq<T>)
    ensures (a + b) + c == a + (b + c)
  {
  }

  /** Every recorded merge pairs the i-th and j-th listed leaves, i < j, with its positive gain. */
  lemma {:induction false} MergesSound(nodes: seq<Node>, L: seq<int>, m: Metric, N: int, i: nat)
    requires Below(L, |nodes|)
    ensures forall e :: e in MergesFrom(nodes, L, m, N, i) ==>
              e.gain > 0.0 &&
              exists p, q :: i <= p < q < |L| && e == MergeOperator(MergeGain(m, N, nodes[L[p]], nodes[L[q]]), L[p], L[q])
    decreases |L| - i
  {
    if i + 1 < |L| {
      MergesSound(nodes, L, m, N, i + 1);
      RowSound(PairGains(nodes, L, m, N, i), L, i, i + 1);
    }
  }

  lemma {:induction false} RowSound(g: seq<real>, L: seq<int>, i: int, j: int)
    requires |g| == |L| && 0 <= i < |L| && i < j <= |L|
    ensures forall e :: e in RowMerges(g, L, i, j) ==>
              e.gain > 0.0 && exists q :: j <= q < |L| && e == MergeOperator(g[q], L[i], L[q])
    decreases |L| - j
  {
    if j < |L| {
      RowSound(g, L, i, j + 1);
    }
  }

  /** Every pair of listed leaves, first before second, whose merge gain is positive is recorded. */
  lemma MergesComplete(nodes: seq<Node>, L: seq<int>, m: Metric, N: int, i: nat, p: int, q: int)
    requires Below(L, |nodes|) && i <= p < q < |L|
    requires MergeGain(m, N, nodes[L[p]], nodes[L[q]]) > 0.0
    ensures MergeOperator(MergeGain(m, N, nodes[L[p]], nodes[L[q]]), L[p], L[q]) in MergesFrom(nodes, L, m, N, i)
  {
    assert PairGains(nodes, L, m, N, p)[q] == MergeGain(m, N, nodes[L[p]], nodes[L[q]]);
    PairRecorded(nodes, L, m, N, i, p, q, MergeGain(m, N, nodes[L[p]], nodes[L[q]]));
  }

  /** MergesComplete for the gain entry `gain` of the pair (p, q). */
  lemma {:induction false} PairRecorded(nodes: seq<Node>, L: seq<int>, m: Metric, N: int, i: nat, p: int, q: int, gain: real)
    requires Below(L, |nodes|) && i <= p < q < |L|
    requires gain == PairGains(nodes, L, m, N, p)[q] && gain > 0.0
    ensures MergeOperator(gain, L[p], L[q]) in MergesFrom(nodes, L, m, N, i)
    decreases |L| - i
  {
    var row, rest := RowMerges(PairGains(nodes, L, m, N, i), L, i, i + 1), MergesFrom(nodes, L, m, N, i + 1);
    assert MergesFrom(nodes, L, m, N, i) == row + rest;
    if p == i {
      RowComplete(PairGains(nodes, L, m, N, i), L, i, i + 1, q);
      assert MergeOperator(gain, L[p], L[q]) in row;
    } else {
      PairRecorded(nodes, L, m, N, i + 1, p, q, gain);
      assert MergeOperator(gain, L[p], L[q]) in rest;
    }
  }

  lemma {:induction false} RowComplete(g: seq<real>, L: seq<int>, i: int, j: int, q: int)
    requires |g| == |L| && 0 <= i < |L| && i < j <= q < |L| && g[q] > 0.0
    ensures MergeOperator(g[q], L[i], L[q]) in RowMerges(g, L, i, j)
    decreases |L| - j
  {
    if j < q {
      RowComplete(g, L, i, j + 1, q);
    }
  }

  /** At most one merge per pair of leaves: numLeaves * (numLeaves - 1) / 2 in all. */
  lemma {:induction false} MergesCount(nodes: seq<Node>, L: seq<int>, m: Metric, N: int, i: nat)
    requires Below(L, |nodes|) && i <= |L|
    ensures 2 * |MergesFrom(nodes, L, m, N, i)| <= (|L| - i) * (|L| - i - 1)
    decreases |L| - i
  {
    if i + 1 < |L| {
      MergesCount(nodes, L, m, N, i + 1);
      ghost var g := PairGains(nodes, L, m, N, i);
      RowCount(g, L, i, i + 1);
      assert MergesFrom(nodes, L, m, N, i) == RowMerges(g, L, i, i + 1) + MergesFrom(nodes, L, m, N, i + 1);
      PairsStep(|MergesFrom(nodes, L, m, N, i + 1)|, |RowMerges(g, L, i, i + 1)|, |L| - i);
    } else {
      assert MergesFrom(nodes, L, m, N, i) == [];
      NoPairs(|L| - i);
    }
  }

  lemma NoPairs(r: int)
    requires 0 <= r <= 1
    ensures r * (r - 1) == 0
  {
  }

  lemma PairsStep(a: int, b: int, r: int)
    requires 2 * a <= (r - 1) * (r - 2) && b <= r - 1
    ensures 2 * (a + b) <= r * (r - 1)
  {
    assert (r - 1) * (r - 2) + 2 * (r - 1) == r * (r - 1);
  }

  lemma {:induction false} RowCount(g: seq<real>, L: seq<int>, i: int, j: int)
    requires |g| == |L| && 0 <= i < |L| && i < j <= |L|
    ensures |RowMerges(g, L, i, j)| <= |L| - j
    decreases |L| - j
  {
    if j < |L| {
      RowCount(g, L, i, j + 1);
    }
  }}
