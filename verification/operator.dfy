/**
 * Operators on the decision graphs of a Bayesian network: a split of a leaf
 * on a label, or a merge of two leaves. A node pointer is an index into the
 * node arena of the graph the operator belongs to; the graph itself is
 * passed alongside the operator.
 */
module Operators {
  import opened Bits
  import opened LabeledTreeNode
  import opened Collections
  import opened LeafList
  import opened DecisionGraphs
  import opened FrequencyDecisionGraphs
  import opened Graph
  import opened Reachability

  const OPERATOR_NONE := -1
  const OPERATOR_SPLIT := 0
  const OPERATOR_MERGE := 1

  /** The sentinel gain of an operator that may not be applied. */
  const INELIGIBLE := -1.0

  datatype Operator = Operator(gain: real, kind: int, where: int, splitLabel: int, node: int, node2: int)

  datatype MergeOperator = MergeOperator(gain: real, a: int, b: int)

  /** The five per-label buffers of a node (dArrayTmp and the four cached split frequencies) have length n. */
  ghost predicate Equipped(v: Node, n: int)
  {
    |v.gains| == n && |v.rightValue0| == n && |v.rightValue1| == n && |v.leftValue0| == n && |v.leftValue1| == n
  }

  /** Every listed leaf is a node of the arena and carries its buffers. */
  ghost predicate LeavesEquipped(nodes: seq<Node>, L: seq<int>, n: int)
  {
    forall p :: 0 <= p < |L| ==> 0 <= L[p] < |nodes| && Equipped(nodes[L[p]], n)
  }

  /** resetOperator: no operator, with gain -1 and every reference NULL. */
  function ResetOperator(): (r: Operator)
    ensures r.gain == INELIGIBLE && r.kind == OPERATOR_NONE && r.where == -1 && r.splitLabel == -1
    ensures r.node == NULL && r.node2 == NULL
  {
    Operator(-1.0, OPERATOR_NONE, -1, -1, NULL, NULL)
  }

  /** updateBestOperator: x replaces best only when its gain is strictly larger. */
  function UpdateBestOperator(best: Operator, x: Operator): (r: Operator)
    ensures r == best || r == x
    ensures r.gain >= best.gain && r.gain >= x.gain
    ensures x.gain <= best.gain ==> r == best
  {
    if x.gain > best.gain then x else best
  }

  /** The operator left in best after offering it each candidate of c in turn. */
  function Scan(best: Operator, c: seq<Operator>): Operator
  {
    if c == [] then best else UpdateBestOperator(Scan(best, c[..|c| - 1]), c[|c| - 1])
  }

  lemma ScanStep(best: Operator, c: seq<Operator>, y: Operator)
    ensures Scan(best, c + [y]) == UpdateBestOperator(Scan(best, c), y)
  {
    assert (c + [y])[..|c|] == c;
  }

  /** The scan keeps the largest gain, and the winner is best or a candidate. */
  lemma {:induction false} ScanMax(best: Operator, c: seq<Operator>)
    ensures Scan(best, c).gain >= best.gain
    ensures forall k :: 0 <= k < |c| ==> Scan(best, c).gain >= c[k].gain
    ensures Scan(best, c) == best || Scan(best, c) in c
  {
    if c != [] {
      var p := c[..|c| - 1];
      ScanMax(best, p);
      forall k | 0 <= k < |c| - 1
        ensures Scan(best, c).gain >= c[k].gain
      {
        assert c[k] == p[k];
      }
    }
  }

  /** When no candidate beats best, best is kept. */
  lemma {:induction false} ScanNone(best: Operator, c: seq<Operator>)
    requires forall k :: 0 <= k < |c| ==> c[k].gain <= best.gain
    ensures Scan(best, c) == best
  {
    if c != [] {
      ScanNone(best, c[..|c| - 1]);
    }
  }

  /**
   * Ties go to the earliest: a candidate that beats best, is a maximum, and
   * is strictly better than every candidate before it, wins the scan.
   */
  lemma {:induction false} ScanFirst(best: Operator, c: seq<Operator>, k: int)
    requires 0 <= k < |c| && c[k].gain > best.gain
    requires forall j :: 0 <= j < |c| ==> c[j].gain <= c[k].gain
    requires forall j :: 0 <= j < k ==> c[j].gain < c[k].gain
    ensures Scan(best, c) == c[k]
  {
    var p := c[..|c| - 1];
    if k < |c| - 1 {
      assert c[k] == p[k];
      ScanFirst(best, p, k);
    } else {
      ScanMax(best, p);
      if Scan(best, p) != best {
        var j :| 0 <= j < |p| && p[j] == Scan(best, p);
        assert c[j] == p[j];
      }
    }
  }

  /** The split operators of leaf c, one per label, in label order. */
  function LeafSplits(v: Node, c: int, node: int, n: nat): (r: seq<Operator>)
    requires |v.gains| == n
    ensures |r| == n
    ensures forall j :: 0 <= j < n ==> r[j] == Operator(v.gains[j], OPERATOR_SPLIT, node, j, c, NULL)
  {
    seq(n, j requires 0 <= j < n => Operator(v.gains[j], OPERATOR_SPLIT, node, j, c, NULL))
  }

  /** The split operators of every listed leaf, in list order and then label order. */
  ghost function SplitCandidates(nodes: seq<Node>, L: seq<int>, node: int, n: nat): seq<Operator>
    requires LeavesEquipped(nodes, L, n)
  {
    if L == [] then []
    else SplitCandidates(nodes, L[..|L| - 1], node, n) + LeafSplits(nodes[L[|L| - 1]], L[|L| - 1], node, n)
  }

  /** The split on label j of the p-th listed leaf is candidate p * n + j. */
  lemma {:induction false} SplitCandidateAt(nodes: seq<Node>, L: seq<int>, node: int, n: nat, p: int, j: int)
    requires LeavesEquipped(nodes, L, n) && 0 <= p < |L| && 0 <= j < n
    ensures |SplitCandidates(nodes, L, node, n)| == |L| * n
    ensures p * n + j < |L| * n
    ensures SplitCandidates(nodes, L, node, n)[p * n + j] == Operator(nodes[L[p]].gains[j], OPERATOR_SPLIT, node, j, L[p], NULL)
  {
    var init := L[..|L| - 1];
    assert LeavesEquipped(nodes, init, n) by {
      forall q | 0 <= q < |init| ensures 0 <= init[q] < |nodes| && Equipped(nodes[init[q]], n) {
        assert init[q] == L[q];
      }
    }
    SplitCandidatesLength(nodes, init, node, n);
    assert |L| * n == |init| * n + n;
    if p < |L| - 1 {
      assert init[p] == L[p];
      SplitCandidateAt(nodes, init, node, n, p, j);
    } else {
      assert p * n == |init| * n;
    }
  }

  lemma {:induction false} SplitCandidatesLength(nodes: seq<Node>, L: seq<int>, node: int, n: nat)
    requires LeavesEquipped(nodes, L, n)
    ensures |SplitCandidates(nodes, L, node, n)| == |L| * n
  {
    if L != [] {
      var init := L[..|L| - 1];
      assert LeavesEquipped(nodes, init, n) by {
        forall q | 0 <= q < |init| ensures 0 <= init[q] < |nodes| && Equipped(nodes[init[q]], n) {
          assert init[q] == L[q];
        }
      }
      SplitCandidatesLength(nodes, init, node, n);
      assert |L| * n == |init| * n + n;
    }
  }

  /** Every split candidate splits a listed leaf on a label below n, for diagram `node`. */
  lemma {:induction false} SplitCandidateShape(nodes: seq<Node>, L: seq<int>, node: int, n: nat, c: Operator)
    requires LeavesEquipped(nodes, L, n) && c in SplitCandidates(nodes, L, node, n)
    ensures c.kind == OPERATOR_SPLIT && c.where == node && c.node in L && 0 <= c.splitLabel < n
  {
    var init := L[..|L| - 1];
    assert LeavesEquipped(nodes, init, n) by {
      forall q | 0 <= q < |init| ensures 0 <= init[q] < |nodes| && Equipped(nodes[init[q]], n) {
        assert init[q] == L[q];
      }
    }
    if c in SplitCandidates(nodes, init, node, n) {
      SplitCandidateShape(nodes, init, node, n, c);
      assert c.node in init;
    } else {
      var last := LeafSplits(nodes[L[|L| - 1]], L[|L| - 1], node, n);
      var j :| 0 <= j < n && last[j] == c;
    }
  }

  /** The merge operators, in the order recorded. */
  function MergeCandidates(merges: seq<MergeOperator>, node: int): (r: seq<Operator>)
    ensures |r| == |merges|
    ensures forall i :: 0 <= i < |merges| ==> r[i] == Operator(merges[i].gain, OPERATOR_MERGE, node, 0, merges[i].a, merges[i].b)
  {
    seq(|merges|, i requires 0 <= i < |merges| => Operator(merges[i].gain, OPERATOR_MERGE, node, 0, merges[i].a, merges[i].b))
  }

  /** Every operator updateBestNodeOperator considers, in the order it considers them. */
  ghost function NodeCandidates(nodes: seq<Node>, L: seq<int>, merges: seq<MergeOperator>, node: int, n: nat): seq<Operator>
    requires LeavesEquipped(nodes, L, n)
  {
    SplitCandidates(nodes, L, node, n) + MergeCandidates(merges, node)
  }

  /** Offering the candidates of c and then those of d is offering those of c + d. */
  lemma {:induction false} ScanAppend(best: Operator, c: seq<Operator>, d: seq<Operator>)
    ensures Scan(best, c + d) == Scan(Scan(best, c), d)
    decreases |d|
  {
    if d == [] {
      assert c + d == c;
    } else {
      var init := d[..|d| - 1];
      ScanAppend(best, c, init);
      assert (c + d)[..|c + d| - 1] == c + init;
    }
  }

  /** The inner loop of the splits: best offered the split of leaf c on every label. */
  method OfferLeafSplits(best: Operator, v: Node, c: int, node: int, n: nat) returns (x: Operator)
    requires |v.gains| == n
    ensures x == Scan(best, LeafSplits(v, c, node, n))
  {
    ghost var C := LeafSplits(v, c, node, n);
    x := best;
    var j := 0;
    while j < n
      invariant 0 <= j <= n
      invariant x == Scan(best, C[..j])
    {
      ScanStep(best, C[..j], C[j]);
      assert C[..j + 1] == C[..j] + [C[j]];
      if x.gain < v.gains[j] {
        x := Operator(v.gains[j], OPERATOR_SPLIT, node, j, c, NULL);
      }
      j := j + 1;
    }
    assert C[..n] == C;
  }

  /** The loop over the merges: best offered every merge in turn. */
  method OfferMerges(best: Operator, merges: seq<MergeOperator>, node: int) returns (x: Operator)
    ensures x == Scan(best, MergeCandidates(merges, node))
  {
    ghost var M := MergeCandidates(merges, node);
    x := best;
    var i := 0;
    while i < |merges|
      invariant 0 <= i <= |merges|
      invariant x == Scan(best, M[..i])
    {
      ScanStep(best, M[..i], M[i]);
      assert M[..i + 1] == M[..i] + [M[i]];
      if merges[i].gain > x.gain {
        x := Operator(merges[i].gain, OPERATOR_MERGE, node, 0, merges[i].a, merges[i].b);
      }
      i := i + 1;
    }
    assert M[..i] == M;
  }

  /**
   * updateBestNodeOperator: the reset operator offered every split of every
   * listed leaf (list order, then label order) and then every merge.
   */
  method UpdateBestNodeOperator(t: FrequencyDecisionGraph, merges: seq<MergeOperator>, node: int, n: nat) returns (x: Operator)
    requires t.Valid() && LeavesEquipped(t.g.nodes, t.g.Leaves(), n)
    ensures x == Scan(ResetOperator(), NodeCandidates(t.g.nodes, t.g.Leaves(), merges, node, n))
  {
    ghost var L := t.g.Leaves();
    x := ResetOperator();
    var numLeaves := t.g.GetNumLeaves();
    var leafItem := t.g.leaves;
    var i := 0;
    while i < numLeaves
      invariant 0 <= i <= numLeaves == |L|
      invariant leafItem == if i < |L| then t.g.order[i] else NULL
      invariant LeavesEquipped(t.g.nodes, L[..i], n)
      invariant x == Scan(ResetOperator(), SplitCandidates(t.g.nodes, L[..i], node, n))
    {
      assert LinkAt(t.g.items, t.g.order, i);
      var c := t.g.items[leafItem].x;
      assert c == L[i];
      ghost var P := SplitCandidates(t.g.nodes, L[..i], node, n);
      x := OfferLeafSplits(x, t.g.nodes[c], c, node, n);
      ScanAppend(ResetOperator(), P, LeafSplits(t.g.nodes[c], c, node, n));
      assert L[..i + 1][..i] == L[..i] && L[..i + 1][i] == c;
      leafItem := t.g.items[leafItem].next;
      i := i + 1;
    }
    assert L[..i] == L;
    ghost var S := SplitCandidates(t.g.nodes, L, node, n);
    x := OfferMerges(x, merges, node);
    ScanAppend(ResetOperator(), S, MergeCandidates(merges, node));
  }

  /**
   * What updateBestNodeOperator yields: its gain is at least -1, at least
   * every cached split gain of every listed leaf and at least every merge
   * gain; it is the reset operator or one of those candidates.
   */
  lemma BestNodeOperator(nodes: seq<Node>, L: seq<int>, merges: seq<MergeOperator>, node: int, n: nat)
    requires LeavesEquipped(nodes, L, n)
    ensures var x := Scan(ResetOperator(), NodeCandidates(nodes, L, merges, node, n));
            x.gain >= INELIGIBLE &&
            (forall p, j :: 0 <= p < |L| && 0 <= j < n ==> x.gain >= nodes[L[p]].gains[j]) &&
            (forall i :: 0 <= i < |merges| ==> x.gain >= merges[i].gain) &&
            (x == ResetOperator() || x in NodeCandidates(nodes, L, merges, node, n))
  {
    var S, M := SplitCandidates(nodes, L, node, n), MergeCandidates(merges, node);
    var C := S + M;
    ScanMax(ResetOperator(), C);
    SplitCandidatesLength(nodes, L, node, n);
    forall p, j | 0 <= p < |L| && 0 <= j < n
      ensures Scan(ResetOperator(), C).gain >= nodes[L[p]].gains[j]
    {
      SplitCandidateAt(nodes, L, node, n, p, j);
      assert C[p * n + j] == S[p * n + j];
    }
    forall i | 0 <= i < |merges|
      ensures Scan(ResetOperator(), C).gain >= merges[i].gain
    {
      assert C[|S| + i] == M[i];
    }
  }

  /**
   * operatorApplicable: a split of a leaf of graph `where` on `label` is
   * applicable when the edge label -> where is present or can be added; a
   * merge always is; anything else never is.
   */
  function OperatorApplicable(x: Operator, G: AcyclicOrientedGraph): (r: bool)
    requires G.Valid()
    requires x.kind == OPERATOR_SPLIT ==> 0 <= x.splitLabel < G.g.N && 0 <= x.where < G.g.N
    reads G.Footprint()
    ensures r <==> x.kind == OPERATOR_MERGE ||
                   (x.kind == OPERATOR_SPLIT &&
                    ((x.splitLabel, x.where) in G.g.Edges || Acyclic(G.g.Edges + {(x.splitLabel, x.where)})))
    ensures r && x.kind == OPERATOR_SPLIT ==> x.splitLabel != x.where
  {
    if x.kind == OPERATOR_SPLIT then G.g.Connected(x.splitLabel, x.where) || G.CanAddEdge(x.splitLabel, x.where)
    else x.kind == OPERATOR_MERGE
  }

  /** n zeros: a buffer from Calloc. */
  function Zeros(n: nat): (r: seq<real>)
    ensures |r| == n && forall k :: 0 <= k < n ==> r[k] == 0.0
  {
    seq(n, k => 0.0)
  }

  /** A child of a split as applyOperator leaves it: zeroed buffers of length n and the given values. */
  function Seeded(v: Node, v0: real, v1: real, n: nat): (r: Node)
    ensures Equipped(r, n) && r.value0 == v0 && r.value1 == v1
    ensures r == v.(value0 := v0, value1 := v1, gains := r.gains, rightValue0 := r.rightValue0,
                    rightValue1 := r.rightValue1, leftValue0 := r.leftValue0, leftValue1 := r.leftValue1)
    ensures forall k :: 0 <= k < n ==> r.gains[k] == 0.0 && r.leftValue0[k] == 0.0 && r.leftValue1[k] == 0.0 &&
                                       r.rightValue0[k] == 0.0 && r.rightValue1[k] == 0.0
  {
    v.(value0 := v0, value1 := v1, gains := Zeros(n), rightValue0 := Zeros(n), rightValue1 := Zeros(n),
       leftValue0 := Zeros(n), leftValue1 := Zeros(n))
  }

  /** L2 is L0 with leaf x replaced by the two children l and l + 1. */
  ghost predicate LeavesSpliced(L0: seq<int>, L2: seq<int>, x: int, l: int)
  {
    x in L0 && var i := IndexOf(L0, x); L2 == L0[..i] + [l, l + 1] + L0[i + 1..]
  }

  /** L2 is L0 without leaf y. */
  ghost predicate LeavesDropped(L0: seq<int>, L2: seq<int>, y: int)
  {
    y in L0 && var i := IndexOf(L0, y); L2 == L0[..i] + L0[i + 1..]
  }

  /** The arena after frequency-graph merge of y into x: x absorbs y's values, then the node part of the merge. */
  ghost predicate MergeApplied(n0: seq<Node>, n2: seq<Node>, x: int, y: int, bound: bool)
  {
    0 <= x < |n0| && 0 <= y < |n0| && MergedNodes(n0[x := Absorbed(n0[x], n0[y], bound)], n2, x, y)
  }

  /**
   * The arena after applying the split of leaf x on k: x is the split node,
   * its children are fresh leaves one level deeper with x's ancestor vector
   * plus k, zeroed buffers, and as values the split frequencies x cached for
   * label k; every other node is as before.
   */
  ghost predicate SplitApplied(n0: seq<Node>, n2: seq<Node>, x: int, k: int, newItem: int, n: nat)
  {
    var l := |n0|;
    0 <= x < l && |n2| == l + 2 && Equipped(n0[x], n) && 0 <= k < n && k < |n0[x].ancestors| &&
    n2[x] == n0[x].(which := SplitNode, splitLabel := k, left := l, right := l + 1, leavesItem := NULL) &&
    (forall i :: 0 <= i < l && i != x ==> n2[i] == n0[i]) &&
    n2[l] == Seeded(NewNode(LeafNode).(depth := n0[x].depth + 1, parents := [x], leavesItem := n0[x].leavesItem,
                                       ancestors := n0[x].ancestors[k := 1]),
                    n0[x].leftValue0[k], n0[x].leftValue1[k], n) &&
    n2[l + 1] == Seeded(NewNode(LeafNode).(depth := n0[x].depth + 1, parents := [x], leavesItem := newItem,
                                           ancestors := n0[x].ancestors[k := 1]),
                        n0[x].rightValue0[k], n0[x].rightValue1[k], n)
  }

  lemma SeededSplit(n0: seq<Node>, n1: seq<Node>, n2: seq<Node>, x: int, k: int, newItem: int, n: nat)
    requires 0 <= x < |n0| && Equipped(n0[x], n) && 0 <= k < n && k < |n0[x].ancestors|
    requires SplitMarked(n0, n1, x, k, newItem, n0[x].ancestors[k := 1])
    requires var l, v := |n0|, n0[x];
             n2 == n1[l := Seeded(n1[l], v.leftValue0[k], v.leftValue1[k], n)][l + 1 := Seeded(n1[l + 1], v.rightValue0[k], v.rightValue1[k], n)]
    ensures SplitApplied(n0, n2, x, k, newItem, n)
  {
  }

  /** Seeds both children of the split node x from the split frequencies x cached for its label k. */
  method SeedChildren(t: FrequencyDecisionGraph, x: int, k: int, ghost n0: seq<Node>, ghost newItem: int)
    requires t.Valid() && 0 <= x < |n0| && Equipped(n0[x], t.n) && 0 <= k < t.n && k < |n0[x].ancestors|
    requires SplitMarked(n0, t.g.nodes, x, k, newItem, n0[x].ancestors[k := 1])
    modifies t.g`nodes
    ensures t.Valid() && t.g.Leaves() == old(t.g.Leaves())
    ensures SplitApplied(n0, t.g.nodes, x, k, newItem, t.n)
  {
    ghost var n1 := t.g.nodes;
    var l, r := t.g.nodes[x].left, t.g.nodes[x].right;
    var v := t.g.nodes[x];
    t.Equip(l, Seeded(t.g.nodes[l], v.leftValue0[k], v.leftValue1[k], t.n));
    t.Equip(r, Seeded(t.g.nodes[r], v.rightValue0[k], v.rightValue1[k], t.n));
    SeededSplit(n0, n1, t.g.nodes, x, k, newItem, t.n);
  }

  /** The decision-graph part of applying a split: split x on k, then seed both children. */
  method SplitAndSeed(t: FrequencyDecisionGraph, x: int, k: int)
    requires t.Valid() && x in t.g.Leaves() && Equipped(t.g.nodes[x], t.n) && 0 <= k < t.n
    modifies t.g`nodes, t.g`stamp, t.g`clock, t.g`items, t.g`numLeaves, t.g`order
    ensures t.Valid()
    ensures SplitApplied(old(t.g.nodes), t.g.nodes, x, k, old(|t.g.items|), t.n)
    ensures LeavesSpliced(old(t.g.Leaves()), t.g.Leaves(), x, old(|t.g.nodes|))
  {
    assert Prepared(t.g.nodes[x], t.n);
    t.Split(x, k);
    SeedChildren(t, x, k, old(t.g.nodes), old(|t.g.items|));
  }

  /** The split case of applyOperator: split, seed the children, add the edge k -> where. */
  method ApplySplit(t: FrequencyDecisionGraph, G: AcyclicOrientedGraph, x: int, k: int, where: int)
    requires t.Valid() && G.Valid() && G.g.N == t.n
    requires x in t.g.Leaves() && Equipped(t.g.nodes[x], t.n) && 0 <= k < t.n && 0 <= where < t.n
    modifies t.g`nodes, t.g`stamp, t.g`clock, t.g`items, t.g`numLeaves, t.g`order, G.Footprint()
    ensures t.Valid() && G.Valid()
    ensures SplitApplied(old(t.g.nodes), t.g.nodes, x, k, old(|t.g.items|), t.n)
    ensures LeavesSpliced(old(t.g.Leaves()), t.g.Leaves(), x, old(|t.g.nodes|))
    ensures G.g.Edges == old(G.g.Edges) + (if old(G.CanAddEdge(k, where)) then {(k, where)} else {})
  {
    SplitAndSeed(t, x, k);
    ghost var L1 := t.g.Leaves();
    assert t.g !in G.Footprint() && t !in G.Footprint();
    label seeded:
    var _ := G.AddEdge(k, where);
    assert unchanged@seeded(t, t.g);
    assert t.g.Leaves() == L1;
  }

  /** The merge case of applyOperator: fuse leaf y into leaf x. */
  method ApplyMerge(t: FrequencyDecisionGraph, x: int, y: int)
    requires t.Valid() && x in t.g.Leaves() && y in t.g.Leaves() && x != y
    modifies t.g`items, t.g`nodes, t.g`leaves, t.g`numLeaves, t.g`order
    ensures t.Valid() && MergeApplied(old(t.g.nodes), t.g.nodes, x, y, t.myPosition >= 0)
    ensures LeavesDropped(old(t.g.Leaves()), t.g.Leaves(), y)
  {
    t.Merge(x, y);
  }

  /**
   * applyOperator: a split as in ApplySplit; a merge fuses the two leaves
   * and leaves G alone; any other kind changes nothing.
   */
  method ApplyOperator(x: Operator, t: FrequencyDecisionGraph, G: AcyclicOrientedGraph)
    requires t.Valid() && G.Valid() && G.g.N == t.n
    requires x.kind == OPERATOR_SPLIT ==>
               x.node in t.g.Leaves() && Equipped(t.g.nodes[x.node], t.n) &&
               0 <= x.splitLabel < t.n && 0 <= x.where < t.n
    requires x.kind == OPERATOR_MERGE ==> x.node in t.g.Leaves() && x.node2 in t.g.Leaves() && x.node != x.node2
    modifies t.g`nodes, t.g`stamp, t.g`clock, t.g`items, t.g`numLeaves, t.g`order, t.g`leaves, G.Footprint()
    ensures t.Valid() && G.Valid()
    ensures x.kind == OPERATOR_SPLIT ==>
              SplitApplied(old(t.g.nodes), t.g.nodes, x.node, x.splitLabel, old(|t.g.items|), t.n) &&
              G.g.Edges == old(G.g.Edges) + (if old(G.CanAddEdge(x.splitLabel, x.where)) then {(x.splitLabel, x.where)} else {})
    ensures x.kind == OPERATOR_SPLIT ==> LeavesSpliced(old(t.g.Leaves()), t.g.Leaves(), x.node, old(|t.g.nodes|))
    ensures x.kind == OPERATOR_MERGE ==>
              MergeApplied(old(t.g.nodes), t.g.nodes, x.node, x.node2, t.myPosition >= 0) &&
              unchanged(G.Footprint())
    ensures x.kind == OPERATOR_MERGE ==> LeavesDropped(old(t.g.Leaves()), t.g.Leaves(), x.node2)
    ensures x.kind != OPERATOR_SPLIT && x.kind != OPERATOR_MERGE ==> unchanged(t.g) && unchanged(G.Footprint())
  {
    if x.kind == OPERATOR_SPLIT {
      ApplySplit(t, G, x.node, x.splitLabel, x.where);
    } else if x.kind == OPERATOR_MERGE {
      ApplyMerge(t, x.node, x.node2);
    }
  }

  /** deleteOperator: a split's cached gain becomes -1; any other operator changes nothing. */
  method DeleteOperator(x: Operator, t: FrequencyDecisionGraph)
    requires t.Valid()
    requires x.kind == OPERATOR_SPLIT ==> 0 <= x.node < |t.g.nodes| && 0 <= x.splitLabel < |t.g.nodes[x.node].gains|
    modifies t.g`nodes
    ensures t.Valid() && t.g.Leaves() == old(t.g.Leaves())
    ensures x.kind == OPERATOR_SPLIT ==>
              t.g.nodes == old(t.g.nodes)[x.node := old(t.g.nodes[x.node]).(gains := old(t.g.nodes[x.node].gains)[x.splitLabel := INELIGIBLE])]
    ensures x.kind != OPERATOR_SPLIT ==> t.g.nodes == old(t.g.nodes)
  {
    if x.kind == OPERATOR_SPLIT {
      var v := t.g.nodes[x.node];
      t.Equip(x.node, v.(gains := v.gains[x.splitLabel := -1.0]));
    }
  }
}
