/**
 * Building the network and sampling from it: the greedy construction of the
 * decision graphs, the topological ordering of the variables and the walk
 * that generates one new instance.
 */
module Bayesian {
  import opened Bits
  import opened LabeledTreeNode
  import opened Collections
  import opened LeafList
  import opened DecisionGraphs
  import opened FrequencyDecisionGraphs
  import opened Graph
  import opened Reachability
  import opened Operators
  import opened Scoring

  // ---------------------------------------------------------------------------
  // Topological ordering
  // ---------------------------------------------------------------------------

  /** Every parent of a listed vertex is listed at an earlier position. */
  ghost predicate ParentsFirst(s: seq<int>, E: set<Edge>)
  {
    forall p, q :: 0 <= p < |s| && 0 <= q < |s| && (s[q], s[p]) in E ==> q < p
  }

  /** s lists each of the vertices 0..n-1 once, parents before children. */
  ghost predicate TopologicalOrder(s: seq<int>, E: set<Edge>, n: int)
  {
    |s| == n && Distinct(s) && (forall p :: 0 <= p < |s| ==> 0 <= s[p] < n) && ParentsFirst(s, E)
  }

  /** A topological order is a permutation: every vertex 0..n-1 appears in it. */
  lemma OrderCovers(s: seq<int>, E: set<Edge>, n: int, v: int)
    requires TopologicalOrder(s, E, n) && 0 <= v < n
    ensures v in s
  {
    if v !in s {
      DistinctBound(s, n, v);
    }
  }

  /**
   * The state of topologicalOrdering after k vertices were placed: the first
   * k slots of index list distinct vertices, each after all of its parents,
   * and `added` marks exactly those.
   */
  ghost predicate Placed(index: seq<int>, added: seq<bool>, E: set<Edge>, n: int, k: int)
  {
    |index| == n && |added| == n && 0 <= k <= n &&
    Distinct(index[..k]) &&
    (forall p :: 0 <= p < k ==> 0 <= index[p] < n) &&
    (forall v :: 0 <= v < n ==> (added[v] <==> v in index[..k])) &&
    (forall p :: 0 <= p < k ==> forall a :: (a, index[p]) in E ==> a in index[..p])
  }

  /** Among the vertices of U of an acyclic graph, following parents inside U from v ends at one with no parent in U. */
  lemma {:induction false} SourceIn(E: set<Edge>, U: set<int>, v: int) returns (s: int)
    requires Acyclic(E) && v in U
    ensures s in U && forall a :: (a, s) in E ==> a !in U
    decreases |set u | u in U && Reachable(E, u, v)|
  {
    if a :| (a, v) in E && a in U {
      var Rv := set u | u in U && Reachable(E, u, v);
      var Ra := set u | u in U && Reachable(E, u, a);
      forall u | u in Ra
        ensures u in Rv
      {
        ReachEdge(E, a, v);
        ReachTrans(E, u, a, v);
      }
      ReachSelf(E, v);
      assert v in Rv;
      if v in Ra {
        ReachEdge(E, a, v);
        assert false;
      }
      assert Rv == Ra + (Rv - Ra) && Ra * (Rv - Ra) == {} && v in Rv - Ra;
      s := SourceIn(E, U, a);
    } else {
      s := v;
    }
  }

  /** Fewer than n distinct vertices below n miss one of them. */
  lemma Unplaced(s: seq<int>, n: nat) returns (w: int)
    requires Distinct(s) && |s| < n && forall p :: 0 <= p < |s| ==> 0 <= s[p] < n
    ensures 0 <= w < n && w !in s
  {
    if forall u :: 0 <= u < n ==> u in s {
      DistinctCard(s);
      SubsetCard(Range(n), set u | u in s);
      assert false;
    }
    w :| 0 <= w < n && w !in s;
  }

  /**
   * Whether every one of the parents is marked added: the inner loop of
   * topologicalOrdering, which stops at the first unadded parent.
   */
  method AllAdded(added: array<bool>, parents: seq<int>) returns (canAdd: bool)
    requires forall k :: 0 <= k < |parents| ==> 0 <= parents[k] < added.Length
    ensures canAdd <==> forall k :: 0 <= k < |parents| ==> added[parents[k]]
  {
    canAdd := true;
    var j := 0;
    while j < |parents| && canAdd
      invariant 0 <= j <= |parents|
      invariant canAdd <==> forall k :: 0 <= k < j ==> added[parents[k]]
    {
      if !added[parents[j]] {
        canAdd := false;
      }
      j := j + 1;
    }
  }

  /** Places vertex i, all of whose parents are placed, in slot k. */
  method Place(G: AcyclicOrientedGraph, index: array<int>, added: array<bool>, k: int, i: int)
    requires G.Valid() && index != added as object && index !in G.Footprint() && added !in G.Footprint()
    requires Placed(index[..], added[..], G.g.Edges, G.g.N, k) && 0 <= i < G.g.N && !added[i]
    requires forall a :: (a, i) in G.g.Edges ==> added[a]
    modifies index, added
    ensures G.Valid() && Placed(index[..], added[..], G.g.Edges, G.g.N, k + 1) && index[..k] == old(index[..k])
    ensures index[k] == i && added[i]
  {
    var n := G.g.N;
    DistinctBound(index[..k], n, i);
    ghost var s0 := index[..k];
    index[k] := i;
    added[i] := true;
    assert index[..k] == s0 && index[..k + 1] == s0 + [i];
  }

  /** The body of a pass of topologicalOrdering: vertex i is placed if it is not yet and all its parents are. */
  method Visit(G: AcyclicOrientedGraph, index: array<int>, added: array<bool>, k: int, i: int) returns (k': int)
    requires G.Valid() && index != added as object && index !in G.Footprint() && added !in G.Footprint()
    requires Placed(index[..], added[..], G.g.Edges, G.g.N, k) && 0 <= i < G.g.N
    modifies index, added
    ensures Placed(index[..], added[..], G.g.Edges, G.g.N, k') && k <= k' && index[..k] == old(index[..k])
    ensures forall u :: 0 <= u < G.g.N && old(added[u]) ==> added[u]
    ensures (forall a :: (a, i) in G.g.Edges ==> old(added[a])) ==> added[i]
  {
    k' := k;
    if !added[i] {
      var parents := G.g.GetParentList(i);
      assert Within(G.g.Edges, G.g.N) by { assert G.g.Recorded(); }
      assert forall p :: 0 <= p < |parents| ==> (parents[p], i) in G.g.Edges;
      var canAdd := AllAdded(added, parents);
      if canAdd {
        Place(G, index, added, k, i);
        k' := k + 1;
      } else {
        var p :| 0 <= p < |parents| && !added[parents[p]];
        assert (parents[p], i) in G.g.Edges && !old(added[parents[p]]);
      }
    }
  }

  /**
   * One pass of topologicalOrdering over the vertices in increasing order:
   * every vertex whose parents are all placed is placed, and in an acyclic
   * graph that is not yet fully placed at least one vertex is.
   */
  method OrderingPass(G: AcyclicOrientedGraph, index: array<int>, added: array<bool>, k: int) returns (k': int)
    requires G.Valid() && index != added as object && index !in G.Footprint() && added !in G.Footprint()
    requires Placed(index[..], added[..], G.g.Edges, G.g.N, k)
    modifies index, added
    ensures Placed(index[..], added[..], G.g.Edges, G.g.N, k') && k <= k'
    ensures k < G.g.N ==> k < k'
  {
    var n := G.g.N;
    ghost var E := G.g.Edges;
    ghost var v := -1;
    if k < n {
      ghost var U := set u | 0 <= u < n && !added[u];
      var w := Unplaced(index[..k], n);
      assert w in U;
      v := SourceIn(E, U, w);
      forall a | (a, v) in E
        ensures added[a]
      {
        assert 0 <= a < n by { assert Within(E, n) by { assert G.g.Recorded(); } }
      }
    }
    k' := k;
    var i := 0;
    while i < n
      invariant 0 <= i <= n && k <= k'
      invariant Placed(index[..], added[..], E, n, k')
      invariant v >= 0 ==> 0 <= v < n && !old(added[v]) && (forall a :: (a, v) in E ==> added[a])
      invariant v >= 0 && v < i ==> added[v]
      invariant forall u :: 0 <= u < n && old(added[u]) ==> added[u]
      invariant index[..k] == old(index[..k])
    {
      ghost var k0 := k';
      k' := Visit(G, index, added, k', i);
      assert index[..k] == index[..k0][..k];
      i := i + 1;
    }
    if v >= 0 {
      assert v in index[..k'] && v !in index[..k];
    }
  }

  /**
   * topologicalOrdering: fills index with the vertices of the acyclic graph
   * G, each once and every parent before its children.
   */
  method TopologicalOrdering(G: AcyclicOrientedGraph, index: array<int>)
    requires G.Valid() && index.Length == G.g.N && index !in G.Footprint()
    modifies index
    ensures TopologicalOrder(index[..], G.g.Edges, G.g.N)
  {
    var n := G.g.N;
    var added := new bool[n];
    var i := 0;
    while i < n
      invariant 0 <= i <= n && forall u :: 0 <= u < i ==> !added[u]
    {
      added[i] := false;
      i := i + 1;
    }
    var numAdded := 0;
    while numAdded < n
      invariant Placed(index[..], added[..], G.g.Edges, n, numAdded)
      decreases n - numAdded
    {
      numAdded := OrderingPass(G, index, added, numAdded);
    }
    assert index[..numAdded] == index[..];
  }

  // ---------------------------------------------------------------------------
  // Generating an instance
  // ---------------------------------------------------------------------------

  /**
   * The bit drawn at a leaf with frequencies v0 and v1 for the uniform draw
   * d: p1 = 1 - v0 / (v0 + v1) and the bit is 1 iff d < p1. At a leaf no row
   * reached both values are 0, p1 is not a number and every comparison with
   * it is false, so the bit is 0.
   */
  function DrawBit(v0: real, v1: real, d: real): (b: Bit)
    ensures v0 + v1 != 0.0 ==> (b == 1 <==> d < v1 / (v0 + v1))
    ensures v0 + v1 == 0.0 ==> b == 0
  {
    if v0 + v1 == 0.0 then 0
    else
      var p0 := v0 / (v0 + v1);
      var p1 := 1.0 - p0;
      assert p1 == v1 / (v0 + v1) by { ComplementShare(v0, v1); }
      if d < p1 then 1 else 0
  }

  lemma ComplementShare(v0: real, v1: real)
    requires v0 + v1 != 0.0
    ensures 1.0 - v0 / (v0 + v1) == v1 / (v0 + v1)
  {
    var t := v0 + v1;
    assert v0 / t + v1 / t == t / t;
    assert t / t == 1.0;
  }

  /** Every split node of the diagram of variable p tests a parent of p in G. */
  ghost predicate LabelsParents(nodes: seq<Node>, E: set<Edge>, p: int)
  {
    forall r :: 0 <= r < |nodes| && nodes[r].which == SplitNode ==> (nodes[r].splitLabel, p) in E
  }

  /** Two strings that agree at every split label reach the same leaf. */
  lemma {:induction false} RouteAgrees(nodes: seq<Node>, stamp: seq<nat>, clock: nat, v: int, s: seq<Bit>, s': seq<Bit>)
    requires Ranked(nodes, stamp, clock) && LabelsBelow(nodes, |s|) && |s'| == |s| && 0 <= v < |nodes|
    requires forall r :: 0 <= r < |nodes| && nodes[r].which == SplitNode ==> s[nodes[r].splitLabel] == s'[nodes[r].splitLabel]
    ensures Route(nodes, stamp, clock, v, s) == Route(nodes, stamp, clock, v, s')
    decreases Height(nodes, stamp, clock, v)
  {
    if nodes[v].which != LeafNode {
      assert RankedAt(nodes, stamp, clock, v);
      assert Child(nodes, v, s) == Child(nodes, v, s');
      RouteAgrees(nodes, stamp, clock, Child(nodes, v, s), s, s');
    }
  }

  /** The bit that diagram t draws for string s with the draw d: the draw at the leaf s reaches. */
  ghost function Sampled(t: FrequencyDecisionGraph, s: seq<Bit>, d: real): Bit
    reads t, t.g`nodes, t.g`items, t.g`order, t.g`leaves, t.g`numLeaves, t.g`stamp, t.g`clock
    requires t.Valid() && |s| == t.n
  {
    var v := Route(t.g.nodes, t.g.stamp, t.g.clock, t.g.root, s);
    DrawBit(t.g.nodes[v].value0, t.g.nodes[v].value1, d)
  }

  /** Every diagram T[p] is consistent and describes strings of n bits. */
  ghost predicate Diagrams(T: seq<FrequencyDecisionGraph>, n: int)
    reads set p | 0 <= p < |T| :: T[p]
    reads (set p | 0 <= p < |T| :: T[p].g)`nodes, (set p | 0 <= p < |T| :: T[p].g)`items
    reads (set p | 0 <= p < |T| :: T[p].g)`order, (set p | 0 <= p < |T| :: T[p].g)`leaves
    reads (set p | 0 <= p < |T| :: T[p].g)`numLeaves, (set p | 0 <= p < |T| :: T[p].g)`stamp
    reads (set p | 0 <= p < |T| :: T[p].g)`clock
  {
    forall p :: 0 <= p < |T| ==> T[p].Valid() && T[p].n == n
  }

  /** One diagram per variable of a graph with edges E on n variables, each testing only the parents of its variable. */
  ghost predicate Network(E: set<Edge>, n: int, T: seq<FrequencyDecisionGraph>)
    reads set p | 0 <= p < |T| :: T[p]
    reads (set p | 0 <= p < |T| :: T[p].g)`nodes, (set p | 0 <= p < |T| :: T[p].g)`items
    reads (set p | 0 <= p < |T| :: T[p].g)`order, (set p | 0 <= p < |T| :: T[p].g)`leaves
    reads (set p | 0 <= p < |T| :: T[p].g)`numLeaves, (set p | 0 <= p < |T| :: T[p].g)`stamp
    reads (set p | 0 <= p < |T| :: T[p].g)`clock
  {
    |T| == n && Diagrams(T, n) && forall p :: 0 <= p < |T| ==> LabelsParents(T[p].g.nodes, E, p)
  }

  /** The first k positions in index order hold the bit their diagram draws for s itself. */
  ghost predicate SampledPrefix(T: seq<FrequencyDecisionGraph>, index: seq<int>, s: seq<Bit>, draws: seq<real>, k: int)
    reads set p | 0 <= p < |T| :: T[p]
    reads (set p | 0 <= p < |T| :: T[p].g)`nodes, (set p | 0 <= p < |T| :: T[p].g)`items
    reads (set p | 0 <= p < |T| :: T[p].g)`order, (set p | 0 <= p < |T| :: T[p].g)`leaves
    reads (set p | 0 <= p < |T| :: T[p].g)`numLeaves, (set p | 0 <= p < |T| :: T[p].g)`stamp
    reads (set p | 0 <= p < |T| :: T[p].g)`clock
    requires Diagrams(T, |s|) && |index| == |T| == |s| == |draws| && 0 <= k <= |index|
    requires forall j :: 0 <= j < |index| ==> 0 <= index[j] < |s|
  {
    forall j :: 0 <= j < k ==> s[index[j]] == Sampled(T[index[j]], s, draws[j])
  }

  /** Every position of s holds the bit its diagram draws for s itself, with draws[j] at the j-th position in index order. */
  ghost predicate SampledInstance(T: seq<FrequencyDecisionGraph>, index: seq<int>, s: seq<Bit>, draws: seq<real>)
    reads set p | 0 <= p < |T| :: T[p]
    reads (set p | 0 <= p < |T| :: T[p].g)`nodes, (set p | 0 <= p < |T| :: T[p].g)`items
    reads (set p | 0 <= p < |T| :: T[p].g)`order, (set p | 0 <= p < |T| :: T[p].g)`leaves
    reads (set p | 0 <= p < |T| :: T[p].g)`numLeaves, (set p | 0 <= p < |T| :: T[p].g)`stamp
    reads (set p | 0 <= p < |T| :: T[p].g)`clock
    requires Diagrams(T, |s|) && |index| == |T| == |s| == |draws|
    requires forall j :: 0 <= j < |index| ==> 0 <= index[j] < |s|
  {
    SampledPrefix(T, index, s, draws, |index|)
  }

  /** Writing position q, which no split node of t tests, keeps the bit t draws. */
  lemma SampleIgnores(t: FrequencyDecisionGraph, s: seq<Bit>, d: real, q: int, b: Bit)
    requires t.Valid() && |s| == t.n && 0 <= q < |s|
    requires forall r :: 0 <= r < |t.g.nodes| && t.g.nodes[r].which == SplitNode ==> t.g.nodes[r].splitLabel != q
    ensures Sampled(t, s, d) == Sampled(t, s[q := b], d)
  {
    RouteAgrees(t.g.nodes, t.g.stamp, t.g.clock, t.g.root, s, s[q := b]);
  }

  /**
   * A position written before position index[i] is not tested by the
   * diagram of index[i], and conversely: the split labels of a diagram are
   * its G-parents, which the order places first.
   */
  lemma NotTested(E: set<Edge>, index: seq<int>, nodes: seq<Node>, i: int, j: int)
    requires TopologicalOrder(index, E, |index|) && 0 <= i < |index| && 0 <= j < |index|
    requires LabelsParents(nodes, E, index[j]) && j <= i
    ensures forall r :: 0 <= r < |nodes| && nodes[r].which == SplitNode ==> nodes[r].splitLabel != index[i]
  {
  }

  /** Writing the bit drawn for index[i] keeps every earlier position sampled, and samples index[i]. */
  lemma SamplesKept(E: set<Edge>, index: seq<int>, T: seq<FrequencyDecisionGraph>, draws: seq<real>,
                    s: seq<Bit>, i: int, b: Bit)
    requires TopologicalOrder(index, E, |T|) && Network(E, |T|, T)
    requires |s| == |draws| == |T| && 0 <= i < |T| && SampledPrefix(T, index, s, draws, i)
    requires b == Sampled(T[index[i]], s, draws[i])
    ensures SampledPrefix(T, index, s[index[i] := b], draws, i + 1)
  {
    forall j | 0 <= j <= i
      ensures s[index[i] := b][index[j]] == Sampled(T[index[j]], s[index[i] := b], draws[j])
    {
      NotTested(E, index, T[index[j]].g.nodes, i, j);
      SampleIgnores(T[index[j]], s, draws[j], index[i], b);
      if j < i {
        assert index[j] != index[i];
      }
    }
  }

  /** The bit one diagram draws: follow s from the root, then toss with the leaf's counts. */
  method DrawAt(t: FrequencyDecisionGraph, s: seq<Bit>, d: real) returns (b: Bit)
    requires t.Valid() && |s| == t.n
    modifies t.g`iter
    ensures t.Valid() && b == Sampled(t, s, d)
  {
    t.g.IteratorFollowInstanceFromRoot(s);
    var p0 := t.g.nodes[t.g.iter].value0;
    var p1 := t.g.nodes[t.g.iter].value1;
    b := DrawBit(p0, p1, d);
  }

  /** Writes the bit the diagram of index[i] draws, extending the sampled prefix by one position. */
  method SampleNext(x: array<Bit>, ghost E: set<Edge>, index: array<int>, T: seq<FrequencyDecisionGraph>, draws: seq<real>, i: int)
    requires x.Length == |T| == |draws| && 0 <= i < |T|
    requires TopologicalOrder(index[..], E, |T|) && Network(E, |T|, T) && SampledPrefix(T, index[..], x[..], draws, i)
    modifies x, T[index[i]].g`iter
    ensures Network(E, |T|, T) && SampledPrefix(T, index[..], x[..], draws, i + 1)
  {
    var position := index[i];
    var value := DrawAt(T[position], x[..], draws[i]);
    SamplesKept(E, index[..], T, draws, x[..], i, value);
    Store(x, E, index, T, draws, i, value);
  }

  /** Stores the bit drawn for index[i]; the diagrams are untouched. */
  method Store(x: array<Bit>, ghost E: set<Edge>, index: array<int>, T: seq<FrequencyDecisionGraph>, draws: seq<real>,
               i: int, value: Bit)
    requires x.Length == |T| == |draws| && 0 <= i < |T| && TopologicalOrder(index[..], E, |T|) && Network(E, |T|, T)
    requires SampledPrefix(T, index[..], x[..][index[i] := value], draws, i + 1)
    modifies x
    ensures x[..] == old(x[..])[index[i] := value]
    ensures Network(E, |T|, T) && SampledPrefix(T, index[..], x[..], draws, i + 1)
  {
    x[index[i]] := value;
  }

  /**
   * generateInstance: visits the variables in topological order and sets
   * each to the bit its diagram draws at the leaf the partial instance
   * reaches, with the draw draws[i] in place of the i-th call to drand().
   * Every diagram tests only its G-parents, so each position ends up holding
   * the bit its diagram draws for the finished instance.
   */
  method GenerateInstance(x: array<Bit>, G: AcyclicOrientedGraph, index: array<int>, T: seq<FrequencyDecisionGraph>,
                          draws: seq<real>)
    requires G.Valid() && x.Length == G.g.N && |draws| == G.g.N
    requires TopologicalOrder(index[..], G.g.Edges, G.g.N) && Network(G.g.Edges, G.g.N, T)
    modifies x, (set p | 0 <= p < |T| :: T[p].g)`iter
    ensures Network(G.g.Edges, G.g.N, T) && SampledInstance(T, index[..], x[..], draws)
  {
    var n := G.g.N;
    ghost var E := G.g.Edges;
    var i := 0;
    while i < n
      invariant 0 <= i <= n && TopologicalOrder(index[..], E, n) && Network(E, n, T)
      invariant SampledPrefix(T, index[..], x[..], draws, i)
    {
      SampleNext(x, E, index, T, draws, i);
      i := i + 1;
    }
  }

  /** Two instances sampled with the same draws agree on the first k positions of the order. */
  lemma {:induction false} AgreeUpTo(E: set<Edge>, index: seq<int>, T: seq<FrequencyDecisionGraph>, draws: seq<real>,
                                     s: seq<Bit>, s': seq<Bit>, k: int)
    requires TopologicalOrder(index, E, |T|) && Network(E, |T|, T) && |s| == |s'| == |draws| == |T| && 0 <= k <= |T|
    requires SampledInstance(T, index, s, draws) && SampledInstance(T, index, s', draws)
    ensures forall j :: 0 <= j < k ==> s[index[j]] == s'[index[j]]
    decreases k
  {
    if k > 0 {
      AgreeUpTo(E, index, T, draws, s, s', k - 1);
      var q := index[k - 1];
      var t := T[q];
      forall r | 0 <= r < |t.g.nodes| && t.g.nodes[r].which == SplitNode
        ensures s[t.g.nodes[r].splitLabel] == s'[t.g.nodes[r].splitLabel]
      {
        var u := t.g.nodes[r].splitLabel;
        assert (u, q) in E;
        OrderCovers(index, E, |T|, u);
        assert IndexOf(index, u) < k - 1;
      }
      RouteAgrees(t.g.nodes, t.g.stamp, t.g.clock, t.g.root, s, s');
      assert s[q] == Sampled(t, s, draws[k - 1]);
    }
  }

  /**
   * Given the draws, an instance is determined: generateInstance's result
   * is the only string in which every variable holds the bit its diagram
   * draws.
   */
  lemma InstanceDetermined(E: set<Edge>, index: seq<int>, T: seq<FrequencyDecisionGraph>, draws: seq<real>,
                           s: seq<Bit>, s': seq<Bit>)
    requires TopologicalOrder(index, E, |T|) && Network(E, |T|, T) && |s| == |s'| == |draws| == |T|
    requires SampledInstance(T, index, s, draws) && SampledInstance(T, index, s', draws)
    ensures s == s'
  {
    AgreeUpTo(E, index, T, draws, s, s', |T|);
    forall v | 0 <= v < |s|
      ensures s[v] == s'[v]
    {
      OrderCovers(index, E, |T|, v);
      assert index[IndexOf(index, v)] == v;
    }
  }

  // ---------------------------------------------------------------------------
  // Greedy construction of the network
  // ---------------------------------------------------------------------------

  /** Each recorded merge fuses two distinct listed leaves. */
  ghost predicate MergePairs(merges: seq<MergeOperator>, L: seq<int>)
  {
    forall k :: 0 <= k < |merges| ==> merges[k].a in L && merges[k].b in L && merges[k].a != merges[k].b
  }

  /** Every merge recomputeDecisionGraphMergeGains records fuses two distinct leaves of the list. */
  lemma MergesArePairs(nodes: seq<Node>, L: seq<int>, m: Metric, N: int)
    requires Below(L, |nodes|) && Distinct(L)
    ensures MergePairs(MergesFrom(nodes, L, m, N, 0), L)
  {
    var M := MergesFrom(nodes, L, m, N, 0);
    MergesSound(nodes, L, m, N, 0);
    forall k | 0 <= k < |M|
      ensures M[k].a in L && M[k].b in L && M[k].a != M[k].b
    {
      assert M[k] in M;
      var p, q :| 0 <= p < q < |L| && M[k] == MergeOperator(MergeGain(m, N, nodes[L[p]], nodes[L[q]]), L[p], L[q]);
    }
  }

  /** The merges recorded for a diagram depend only on the values of its listed leaves. */
  lemma {:induction false} MergesSameValues(n0: seq<Node>, n1: seq<Node>, L: seq<int>, m: Metric, N: int, i: nat)
    requires Below(L, |n0|) && Below(L, |n1|)
    requires forall p :: 0 <= p < |L| ==> n1[L[p]].value0 == n0[L[p]].value0 && n1[L[p]].value1 == n0[L[p]].value1
    ensures MergesFrom(n1, L, m, N, i) == MergesFrom(n0, L, m, N, i)
    decreases |L| - i
  {
    if i + 1 < |L| {
      assert PairGains(n1, L, m, N, i) == PairGains(n0, L, m, N, i);
      MergesSameValues(n0, n1, L, m, N, i + 1);
    }
  }

  /** A pair of listed leaves whose merge gains something is among the recorded merges. */
  lemma MergeRecorded(nodes: seq<Node>, L: seq<int>, m: Metric, N: int, p: int, q: int)
    requires Below(L, |nodes|) && 0 <= p < q < |L|
    ensures MergeGain(m, N, nodes[L[p]], nodes[L[q]]) > 0.0 ==>
              MergeOperator(MergeGain(m, N, nodes[L[p]], nodes[L[q]]), L[p], L[q]) in MergesFrom(nodes, L, m, N, 0)
  {
    if MergeGain(m, N, nodes[L[p]], nodes[L[q]]) > 0.0 {
      MergesComplete(nodes, L, m, N, 0, p, q);
    }
  }

  /** Rescoring node c, which changes its buffers only, keeps the labels and the equipped leaves. */
  lemma RescoreKeeps(n0: seq<Node>, n1: seq<Node>, c: int, n: int, E: set<Edge>, i: int, L: seq<int>)
    requires 0 <= c < |n0| == |n1| && n1 == n0[c := n1[c]] && BuffersOnly(n0[c], n1[c], n)
    requires LabelsParents(n0, E, i) && LeavesEquipped(n0, L, n)
    ensures LabelsParents(n1, E, i) && LeavesEquipped(n1, L, n)
  {
  }

  /**
   * Applying the split of leaf x on k, with the edge k -> where present:
   * x now tests k, a parent of where; the two children are equipped leaves.
   */
  lemma SplitKeeps(n0: seq<Node>, n2: seq<Node>, x: int, k: int, newItem: int, n: nat, E: set<Edge>, E': set<Edge>,
                   where: int, L0: seq<int>, L2: seq<int>)
    requires SplitApplied(n0, n2, x, k, newItem, n) && LeavesSpliced(L0, L2, x, |n0|) && Distinct(L0)
    requires LabelsParents(n0, E, where) && LeavesEquipped(n0, L0, n) && E <= E' && (k, where) in E'
    ensures LabelsParents(n2, E', where) && LeavesEquipped(n2, L2, n)
    ensures 0 <= x < |n2| && n2[x].left == |n0| && n2[x].right == |n0| + 1 && |n2| == |n0| + 2
    ensures Equipped(n2[|n0|], n) && Equipped(n2[|n0| + 1], n)
  {
    var l := |n0|;
    forall r | 0 <= r < |n2| && n2[r].which == SplitNode
      ensures (n2[r].splitLabel, where) in E'
    {
      if r != x && r < l {
        assert n2[r] == n0[r];
      }
    }
    var i := IndexOf(L0, x);
    forall p | 0 <= p < |L2|
      ensures 0 <= L2[p] < |n2| && Equipped(n2[L2[p]], n)
    {
      if p < i {
        assert L2[p] == L0[p] && L0[p] != x;
      } else if p > i + 1 {
        assert L2[p] == L0[p - 1] && L0[p - 1] != x;
      }
    }
  }

  /** Applying the merge of y into x keeps every node's tests and buffers, and y leaves the list. */
  lemma MergeKeeps(n0: seq<Node>, n2: seq<Node>, x: int, y: int, bound: bool, n: int, E: set<Edge>, where: int,
                   L0: seq<int>, L2: seq<int>)
    requires MergeApplied(n0, n2, x, y, bound) && LeavesDropped(L0, L2, y) && x in L0
    requires LabelsParents(n0, E, where) && LeavesEquipped(n0, L0, n)
    ensures LabelsParents(n2, E, where) && LeavesEquipped(n2, L2, n) && 0 <= x < |n2| && Equipped(n2[x], n)
  {
    var n1 := n0[x := Absorbed(n0[x], n0[y], bound)];
    assert forall r :: 0 <= r < |n0| ==>
      n2[r].which == n0[r].which && n2[r].splitLabel == n0[r].splitLabel && n2[r].gains == n0[r].gains &&
      n2[r].leftValue0 == n0[r].leftValue0 && n2[r].leftValue1 == n0[r].leftValue1 &&
      n2[r].rightValue0 == n0[r].rightValue0 && n2[r].rightValue1 == n0[r].rightValue1;
    var i := IndexOf(L0, y);
    forall p | 0 <= p < |L2|
      ensures 0 <= L2[p] < |n2| && Equipped(n2[L2[p]], n)
    {
      if p < i {
        assert L2[p] == L0[p];
      } else {
        assert L2[p] == L0[p + 1];
      }
    }
    assert Equipped(n0[x], n) by {
      var j := IndexOf(L0, x);
    }
  }

  /** Labels that are parents in E stay parents in any larger edge set. */
  lemma ParentsGrow(nodes: seq<Node>, E: set<Edge>, E': set<Edge>, i: int)
    requires LabelsParents(nodes, E, i) && E <= E'
    ensures LabelsParents(nodes, E', i)
  {
  }

  /** Diagram t is consistent, tests only parents of i in E, and its leaves carry their buffers. */
  ghost predicate Fitted(E: set<Edge>, t: FrequencyDecisionGraph, i: int)
    reads t, t.g`nodes, t.g`items, t.g`order, t.g`leaves, t.g`numLeaves, t.g`stamp, t.g`clock
  {
    t.Valid() && LabelsParents(t.g.nodes, E, i) && LeavesEquipped(t.g.nodes, t.g.Leaves(), t.n)
  }

  /**
   * The merge candidates kept for diagram t: with merging allowed, exactly
   * what recomputeDecisionGraphMergeGains yields for its current leaves;
   * none otherwise.
   */
  ghost predicate MergesCurrent(t: FrequencyDecisionGraph, merges: seq<MergeOperator>, m: Metric, N: int, allowMerge: bool)
    reads t, t.g`nodes, t.g`items, t.g`order, t.g`leaves, t.g`numLeaves, t.g`stamp, t.g`clock
  {
    t.Valid() && Below(t.g.Leaves(), |t.g.nodes|) &&
    merges == (if allowMerge then MergesFrom(t.g.nodes, t.g.Leaves(), m, N, 0) else [])
  }

  /**
   * What constructTheNetwork keeps for the diagram t of variable i: t is
   * consistent, tests only parents of i in E, its leaves carry their
   * buffers, its recorded merges are the current ones (each fusing a pair
   * of its leaves), and best is what updateBestNodeOperator yields for it.
   */
  ghost predicate Tracked(E: set<Edge>, t: FrequencyDecisionGraph, i: int, n: nat, best: Operator, merges: seq<MergeOperator>,
                          m: Metric, N: int, allowMerge: bool)
    reads t, t.g`nodes, t.g`items, t.g`order, t.g`leaves, t.g`numLeaves, t.g`stamp, t.g`clock
  {
    Fitted(E, t, i) && t.n == n && MergePairs(merges, t.g.Leaves()) && MergesCurrent(t, merges, m, N, allowMerge) &&
    best == Scan(ResetOperator(), NodeCandidates(t.g.nodes, t.g.Leaves(), merges, i, n))
  }

  /** The state of constructTheNetwork's loop: one tracked diagram per variable, each with its own arena. */
  ghost predicate Greedy(E: set<Edge>, T: seq<FrequencyDecisionGraph>, bestNode: seq<Operator>,
                         merges: seq<seq<MergeOperator>>, allowMerge: bool, m: Metric, N: int)
    reads set p | 0 <= p < |T| :: T[p]
    reads (set p | 0 <= p < |T| :: T[p].g)`nodes, (set p | 0 <= p < |T| :: T[p].g)`items
    reads (set p | 0 <= p < |T| :: T[p].g)`order, (set p | 0 <= p < |T| :: T[p].g)`leaves
    reads (set p | 0 <= p < |T| :: T[p].g)`numLeaves, (set p | 0 <= p < |T| :: T[p].g)`stamp
    reads (set p | 0 <= p < |T| :: T[p].g)`clock
  {
    |bestNode| == |T| && |merges| == |T| &&
    (forall i, j :: 0 <= i < j < |T| ==> T[i].g != T[j].g) &&
    (forall i :: 0 <= i < |T| ==> Tracked(E, T[i], i, |T|, bestNode[i], merges[i], m, N, allowMerge))
  }

  /** The loop's state is a network that generateInstance can sample from. */
  lemma GreedyNetwork(E: set<Edge>, T: seq<FrequencyDecisionGraph>, bestNode: seq<Operator>,
                      merges: seq<seq<MergeOperator>>, allowMerge: bool, m: Metric, N: int)
    requires Greedy(E, T, bestNode, merges, allowMerge, m, N)
    ensures Network(E, |T|, T)
  {
  }

  /**
   * The best operator, when its gain is positive, is the best operator of
   * diagram `where`: a split of one of its leaves on some variable, or a
   * merge of two distinct leaves of it.
   */
  lemma Winner(E: set<Edge>, T: seq<FrequencyDecisionGraph>, bestNode: seq<Operator>, merges: seq<seq<MergeOperator>>,
               allowMerge: bool, m: Metric, N: int, best: Operator)
    requires Greedy(E, T, bestNode, merges, allowMerge, m, N) && best == Scan(ResetOperator(), bestNode) && best.gain > 0.0
    ensures 0 <= best.where < |T| && bestNode[best.where] == best
    ensures best.kind == OPERATOR_SPLIT || best.kind == OPERATOR_MERGE
    ensures best.kind == OPERATOR_SPLIT ==> best.node in T[best.where].g.Leaves() && 0 <= best.splitLabel < |T|
    ensures best.kind == OPERATOR_MERGE ==>
              best.node in T[best.where].g.Leaves() && best.node2 in T[best.where].g.Leaves() && best.node != best.node2
  {
    ScanMax(ResetOperator(), bestNode);
    var k :| 0 <= k < |bestNode| && bestNode[k] == best;
    var t := T[k];
    assert Tracked(E, t, k, |T|, bestNode[k], merges[k], m, N, allowMerge);
    CandidateShape(t.g.nodes, t.g.Leaves(), merges[k], k, |T|, best);
  }

  /** A node's best operator with positive gain is a split of a leaf or a merge of two distinct leaves, for that node. */
  lemma CandidateShape(nodes: seq<Node>, L: seq<int>, merges: seq<MergeOperator>, k: int, n: nat, best: Operator)
    requires LeavesEquipped(nodes, L, n) && MergePairs(merges, L)
    requires best == Scan(ResetOperator(), NodeCandidates(nodes, L, merges, k, n)) && best.gain > 0.0
    ensures best.where == k && (best.kind == OPERATOR_SPLIT || best.kind == OPERATOR_MERGE)
    ensures best.kind == OPERATOR_SPLIT ==> best.node in L && 0 <= best.splitLabel < n
    ensures best.kind == OPERATOR_MERGE ==> best.node in L && best.node2 in L && best.node != best.node2
  {
    BestNodeOperator(nodes, L, merges, k, n);
    var S, M := SplitCandidates(nodes, L, k, n), MergeCandidates(merges, k);
    assert best in S + M;
    if best in S {
      SplitCandidateShape(nodes, L, k, n, best);
    } else {
      var q :| 0 <= q < |M| && M[q] == best;
    }
  }

  /**
   * What one round of constructTheNetwork did to the diagram of its operator
   * x, from leaves L0 over an arena of l0 nodes and edges E0 to arena nodes,
   * leaves L1 and edges E1. An applicable split added its edge and put two
   * new leaves in place of x.node; a merge dropped x.node2 from the leaves
   * and left the edges alone; an inapplicable operator (always a split)
   * changed neither and made its gain ineligible.
   */
  ghost predicate Carried(x: Operator, applicable: bool, l0: int, L0: seq<int>, E0: set<Edge>,
                          nodes: seq<Node>, L1: seq<int>, E1: set<Edge>)
  {
    if !applicable then
      x.kind == OPERATOR_SPLIT && L1 == L0 && E1 == E0 && 0 <= x.node < |nodes| &&
      0 <= x.splitLabel < |nodes[x.node].gains| && nodes[x.node].gains[x.splitLabel] == INELIGIBLE
    else if x.kind == OPERATOR_SPLIT then
      E1 == E0 + {(x.splitLabel, x.where)} && LeavesSpliced(L0, L1, x.node, l0)
    else
      E1 == E0 && LeavesDropped(L0, L1, x.node2)
  }

  /**
   * applyOperator within constructTheNetwork: the diagram keeps testing only
   * parents of `where` (a split's label becomes one, through the edge
   * applyOperator adds), its leaves stay equipped, and G only gains edges.
   */
  method ApplyKept(x: Operator, t: FrequencyDecisionGraph, G: AcyclicOrientedGraph)
    requires G.Valid() && Fitted(G.g.Edges, t, x.where) && t.n == G.g.N && 0 <= x.where < t.n
    requires x.kind == OPERATOR_SPLIT || x.kind == OPERATOR_MERGE
    requires x.kind == OPERATOR_SPLIT ==> x.node in t.g.Leaves() && 0 <= x.splitLabel < t.n && OperatorApplicable(x, G)
    requires x.kind == OPERATOR_MERGE ==> x.node in t.g.Leaves() && x.node2 in t.g.Leaves() && x.node != x.node2
    modifies t.g`nodes, t.g`stamp, t.g`clock, t.g`items, t.g`numLeaves, t.g`order, t.g`leaves, G.Footprint()
    ensures G.Valid() && old(G.g.Edges) <= G.g.Edges && Fitted(G.g.Edges, t, x.where)
    ensures Rescorable(x, t.g.nodes, t.n)
    ensures Carried(x, true, old(|t.g.nodes|), old(t.g.Leaves()), old(G.g.Edges), t.g.nodes, t.g.Leaves(), G.g.Edges)
  {
    if x.kind == OPERATOR_SPLIT {
      ApplySplitKept(x, t, G);
    } else {
      ApplyMergeKept(x, t, G);
    }
  }

  /** ApplyKept for a split: the split's label becomes a parent through the edge applyOperator adds (or finds). */
  method ApplySplitKept(x: Operator, t: FrequencyDecisionGraph, G: AcyclicOrientedGraph)
    requires G.Valid() && Fitted(G.g.Edges, t, x.where) && t.n == G.g.N && 0 <= x.where < t.n
    requires x.kind == OPERATOR_SPLIT && x.node in t.g.Leaves() && 0 <= x.splitLabel < t.n && OperatorApplicable(x, G)
    modifies t.g`nodes, t.g`stamp, t.g`clock, t.g`items, t.g`numLeaves, t.g`order, t.g`leaves, G.Footprint()
    ensures G.Valid() && old(G.g.Edges) <= G.g.Edges && Fitted(G.g.Edges, t, x.where)
    ensures Rescorable(x, t.g.nodes, t.n)
    ensures Carried(x, true, old(|t.g.nodes|), old(t.g.Leaves()), old(G.g.Edges), t.g.nodes, t.g.Leaves(), G.g.Edges)
  {
    ghost var n0, L0, E0, items0 := t.g.nodes, t.g.Leaves(), G.g.Edges, |t.g.items|;
    ghost var canAdd := G.CanAddEdge(x.splitLabel, x.where);
    assert canAdd || (x.splitLabel, x.where) in E0;
    t.g.LeavesDistinct();
    assert Equipped(t.g.nodes[x.node], t.n) by {
      var p := IndexOf(L0, x.node);
    }
    ApplyOperator(x, t, G);
    SplitCarried(x, n0, t.g.nodes, items0, t.n, E0, G.g.Edges, L0, t.g.Leaves(), canAdd);
  }

  /** The arena-level facts behind ApplySplitKept: the split's edge is in E2 either way. */
  lemma SplitCarried(x: Operator, n0: seq<Node>, n2: seq<Node>, items0: int, n: nat, E0: set<Edge>, E2: set<Edge>,
                     L0: seq<int>, L2: seq<int>, canAdd: bool)
    requires x.kind == OPERATOR_SPLIT && Distinct(L0)
    requires SplitApplied(n0, n2, x.node, x.splitLabel, items0, n) && LeavesSpliced(L0, L2, x.node, |n0|)
    requires LabelsParents(n0, E0, x.where) && LeavesEquipped(n0, L0, n)
    requires E2 == E0 + (if canAdd then {(x.splitLabel, x.where)} else {})
    requires canAdd || (x.splitLabel, x.where) in E0
    ensures E0 <= E2 && LabelsParents(n2, E2, x.where) && LeavesEquipped(n2, L2, n)
    ensures Rescorable(x, n2, n) && Carried(x, true, |n0|, L0, E0, n2, L2, E2)
  {
    assert E2 == E0 + {(x.splitLabel, x.where)};
    SplitKeeps(n0, n2, x.node, x.splitLabel, items0, n, E0, E2, x.where, L0, L2);
  }

  /** ApplyKept for a merge: the edges stay, the surviving leaf keeps its buffers. */
  method ApplyMergeKept(x: Operator, t: FrequencyDecisionGraph, G: AcyclicOrientedGraph)
    requires G.Valid() && Fitted(G.g.Edges, t, x.where) && t.n == G.g.N && 0 <= x.where < t.n
    requires x.kind == OPERATOR_MERGE && x.node in t.g.Leaves() && x.node2 in t.g.Leaves() && x.node != x.node2
    modifies t.g`nodes, t.g`stamp, t.g`clock, t.g`items, t.g`numLeaves, t.g`order, t.g`leaves, G.Footprint()
    ensures G.Valid() && old(G.g.Edges) <= G.g.Edges && Fitted(G.g.Edges, t, x.where)
    ensures Rescorable(x, t.g.nodes, t.n)
    ensures Carried(x, true, old(|t.g.nodes|), old(t.g.Leaves()), old(G.g.Edges), t.g.nodes, t.g.Leaves(), G.g.Edges)
  {
    ghost var n0, L0, E0 := t.g.nodes, t.g.Leaves(), G.g.Edges;
    t.g.LeavesDistinct();
    ApplyOperator(x, t, G);
    MergeKeeps(n0, t.g.nodes, x.node, x.node2, t.myPosition >= 0, t.n, E0, x.where, L0, t.g.Leaves());
  }

  /**
   * What updateGainsAfterOperator needs of the arena after operator x: a
   * split node's two distinct children, or a merge's surviving leaf, carry
   * their buffers.
   */
  ghost predicate Rescorable(x: Operator, nodes: seq<Node>, n: int)
  {
    (x.kind == OPERATOR_SPLIT ==>
       0 <= x.node < |nodes| && 0 <= nodes[x.node].left < |nodes| && 0 <= nodes[x.node].right < |nodes| &&
       nodes[x.node].left != nodes[x.node].right &&
       Equipped(nodes[nodes[x.node].left], n) && Equipped(nodes[nodes[x.node].right], n)) &&
    (x.kind == OPERATOR_MERGE ==> 0 <= x.node < |nodes| && Equipped(nodes[x.node], n))
  }

  /** updateGainsAfterOperator within constructTheNetwork: only buffers change, so tests and equipment are kept. */
  method RescoreKept(x: Operator, t: FrequencyDecisionGraph, G: AcyclicOrientedGraph, maxParents: int, N: int, m: Metric)
    requires G.Valid() && Fitted(G.g.Edges, t, x.where) && t.n == G.g.N && 0 <= x.where < t.n
    requires Rescorable(x, t.g.nodes, t.n)
    requires t.g !in G.Footprint()
    modifies t.g`nodes
    ensures G.Valid() && G.g.Edges == old(G.g.Edges)
    ensures Fitted(G.g.Edges, t, x.where) && t.g.Leaves() == old(t.g.Leaves())
  {
    ghost var n2, L2 := t.g.nodes, t.g.Leaves();
    UpdateGainsAfterOperator(x, t, G, maxParents, N, m);
    if x.kind == OPERATOR_SPLIT {
      ghost var l, r := n2[x.node].left, n2[x.node].right;
      ghost var n3 := n2[l := t.g.nodes[l]];
      RescoreKeeps(n2, n3, l, t.n, G.g.Edges, x.where, L2);
      RescoreKeeps(n3, t.g.nodes, r, t.n, G.g.Edges, x.where, L2);
    } else if x.kind == OPERATOR_MERGE {
      RescoreKeeps(n2, t.g.nodes, x.node, t.n, G.g.Edges, x.where, L2);
    }
  }

  /**
   * The applicable branch of constructTheNetwork's loop: apply the operator,
   * rescore the leaves it created or grew, recompute the merge gains when
   * merges are allowed, and find the diagram's best operator again.
   */
  method ApplyAndUpdate(x: Operator, t: FrequencyDecisionGraph, G: AcyclicOrientedGraph, maxParents: int, N: int, m: Metric,
                        allowMerge: bool, merges: seq<MergeOperator>) returns (bw: Operator, merges': seq<MergeOperator>)
    requires G.Valid() && Fitted(G.g.Edges, t, x.where) && t.n == G.g.N && 0 <= x.where < t.n
    requires !allowMerge ==> merges == []
    requires x.kind == OPERATOR_SPLIT || x.kind == OPERATOR_MERGE
    requires x.kind == OPERATOR_SPLIT ==> x.node in t.g.Leaves() && 0 <= x.splitLabel < t.n && OperatorApplicable(x, G)
    requires x.kind == OPERATOR_MERGE ==> x.node in t.g.Leaves() && x.node2 in t.g.Leaves() && x.node != x.node2
    modifies t.g`nodes, t.g`stamp, t.g`clock, t.g`items, t.g`numLeaves, t.g`order, t.g`leaves, G.Footprint()
    ensures G.Valid() && old(G.g.Edges) <= G.g.Edges && Tracked(G.g.Edges, t, x.where, t.n, bw, merges', m, N, allowMerge)
    ensures Carried(x, true, old(|t.g.nodes|), old(t.g.Leaves()), old(G.g.Edges), t.g.nodes, t.g.Leaves(), G.g.Edges)
  {
    ghost var l0, L0, E0 := |t.g.nodes|, t.g.Leaves(), G.g.Edges;
    ApplyKept(x, t, G);
    ghost var L1, E1 := t.g.Leaves(), G.g.Edges;
    assert t.g !in G.Footprint();
    bw, merges' := RescoreAndScan(x, t, G, maxParents, N, m, allowMerge, merges);
    assert t.g.Leaves() == L1 && G.g.Edges == E1;
  }

  /**
   * The rest of the applicable branch, once the operator is applied: the new
   * or grown leaves are rescored, the merge gains recomputed when merges are
   * allowed, and the best operator found; only buffers change.
   */
  method RescoreAndScan(x: Operator, t: FrequencyDecisionGraph, G: AcyclicOrientedGraph, maxParents: int, N: int,
                        m: Metric, allowMerge: bool, merges: seq<MergeOperator>) returns (bw: Operator, merges': seq<MergeOperator>)
    requires G.Valid() && Fitted(G.g.Edges, t, x.where) && t.n == G.g.N && 0 <= x.where < t.n
    requires !allowMerge ==> merges == []
    requires Rescorable(x, t.g.nodes, t.n)
    requires t.g !in G.Footprint()
    modifies t.g`nodes
    ensures G.Valid() && G.g.Edges == old(G.g.Edges) && t.g.Leaves() == old(t.g.Leaves())
    ensures Tracked(G.g.Edges, t, x.where, t.n, bw, merges', m, N, allowMerge)
  {
    RescoreKept(x, t, G, maxParents, N, m);
    merges' := MergesKept(t, G, x.where, N, m, allowMerge, merges);
    bw := UpdateBestNodeOperator(t, merges', x.where, t.n);
  }

  /**
   * The merge candidates constructTheNetwork keeps after an operator: fresh
   * ones when merging is allowed. Nothing else changes, so t stays fitted.
   */
  method MergesKept(t: FrequencyDecisionGraph, G: AcyclicOrientedGraph, where: int, N: int, m: Metric, allowMerge: bool,
                    merges: seq<MergeOperator>)
    returns (merges': seq<MergeOperator>)
    requires G.Valid() && Fitted(G.g.Edges, t, where)
    requires !allowMerge ==> merges == []
    ensures G.Valid() && Fitted(G.g.Edges, t, where)
    ensures MergePairs(merges', t.g.Leaves()) && MergesCurrent(t, merges', m, N, allowMerge)
  {
    if allowMerge {
      merges' := RecomputeMergeGains(t, N, m);
      t.g.LeavesDistinct();
      MergesArePairs(t.g.nodes, t.g.Leaves(), m, N);
    } else {
      merges' := merges;
    }
  }

  /**
   * The part of one round of constructTheNetwork's loop that touches the
   * diagram t of variable x.where: carry out the operator, then find the
   * diagram's best operator again. The diagrams of T other than t are left
   * as they were.
   */
  method StepDiagram(x: Operator, t: FrequencyDecisionGraph, G: AcyclicOrientedGraph, maxParents: int, N: int, m: Metric,
                     allowMerge: bool, merges: seq<MergeOperator>, ghost T: seq<FrequencyDecisionGraph>)
    returns (bw: Operator, mw: seq<MergeOperator>)
    requires G.Valid() && Fitted(G.g.Edges, t, x.where) && t.n == G.g.N && 0 <= x.where < t.n
    requires MergePairs(merges, t.g.Leaves()) && MergesCurrent(t, merges, m, N, allowMerge)
    requires x.kind == OPERATOR_SPLIT || x.kind == OPERATOR_MERGE
    requires x.kind == OPERATOR_SPLIT ==> x.node in t.g.Leaves() && 0 <= x.splitLabel < t.n
    requires x.kind == OPERATOR_MERGE ==> x.node in t.g.Leaves() && x.node2 in t.g.Leaves() && x.node != x.node2
    modifies t.g`nodes, t.g`stamp, t.g`clock, t.g`items, t.g`numLeaves, t.g`order, t.g`leaves, G.Footprint()
    ensures G.Valid() && old(G.g.Edges) <= G.g.Edges
    ensures Tracked(G.g.Edges, t, x.where, t.n, bw, mw, m, N, allowMerge)
    ensures Carried(x, old(OperatorApplicable(x, G)), old(|t.g.nodes|), old(t.g.Leaves()), old(G.g.Edges),
                    t.g.nodes, t.g.Leaves(), G.g.Edges)
    ensures OthersUnchanged(T, t.g)
  {
    assert forall i | 0 <= i < |T| :: T[i].g !in G.Footprint();
    bw, mw := Advance(x, t, G, maxParents, N, m, allowMerge, merges);
  }

  /**
   * Apply the operator when the network allows it and rescore, or mark it
   * ineligible when it would close a cycle; either way the diagram's best
   * operator is found again.
   */
  method Advance(x: Operator, t: FrequencyDecisionGraph, G: AcyclicOrientedGraph, maxParents: int, N: int, m: Metric,
                 allowMerge: bool, merges: seq<MergeOperator>) returns (bw: Operator, mw: seq<MergeOperator>)
    requires G.Valid() && Fitted(G.g.Edges, t, x.where) && t.n == G.g.N && 0 <= x.where < t.n
    requires MergePairs(merges, t.g.Leaves()) && MergesCurrent(t, merges, m, N, allowMerge)
    requires x.kind == OPERATOR_SPLIT || x.kind == OPERATOR_MERGE
    requires x.kind == OPERATOR_SPLIT ==> x.node in t.g.Leaves() && 0 <= x.splitLabel < t.n
    requires x.kind == OPERATOR_MERGE ==> x.node in t.g.Leaves() && x.node2 in t.g.Leaves() && x.node != x.node2
    modifies t.g`nodes, t.g`stamp, t.g`clock, t.g`items, t.g`numLeaves, t.g`order, t.g`leaves, G.Footprint()
    ensures G.Valid() && old(G.g.Edges) <= G.g.Edges && Tracked(G.g.Edges, t, x.where, t.n, bw, mw, m, N, allowMerge)
    ensures Carried(x, old(OperatorApplicable(x, G)), old(|t.g.nodes|), old(t.g.Leaves()), old(G.g.Edges),
                    t.g.nodes, t.g.Leaves(), G.g.Edges)
  {
    if OperatorApplicable(x, G) {
      bw, mw := ApplyAndUpdate(x, t, G, maxParents, N, m, allowMerge, merges);
    } else {
      bw := DeleteAndScan(x, t, G, m, N, allowMerge, merges);
      mw := merges;
    }
  }

  /**
   * The inapplicable branch: delete the split, then find the diagram's best
   * operator again.
   */
  method DeleteAndScan(x: Operator, t: FrequencyDecisionGraph, G: AcyclicOrientedGraph, m: Metric, N: int, allowMerge: bool,
                       merges: seq<MergeOperator>) returns (bw: Operator)
    requires G.Valid() && Fitted(G.g.Edges, t, x.where) && t.g !in G.Footprint()
    requires x.kind == OPERATOR_SPLIT && x.node in t.g.Leaves() && 0 <= x.splitLabel < t.n
    requires MergePairs(merges, t.g.Leaves()) && MergesCurrent(t, merges, m, N, allowMerge)
    modifies t.g`nodes
    ensures G.Valid() && G.g.Edges == old(G.g.Edges) && Tracked(G.g.Edges, t, x.where, t.n, bw, merges, m, N, allowMerge)
    ensures Carried(x, false, old(|t.g.nodes|), old(t.g.Leaves()), old(G.g.Edges), t.g.nodes, t.g.Leaves(), G.g.Edges)
  {
    DeleteKept(x, t, G, m, N, allowMerge, merges);
    bw := UpdateBestNodeOperator(t, merges, x.where, t.n);
  }

  /**
   * Deleting the split makes its gain ineligible, which keeps the diagram
   * fitted, its leaves and its current merges.
   */
  method DeleteKept(x: Operator, t: FrequencyDecisionGraph, G: AcyclicOrientedGraph, m: Metric, N: int, allowMerge: bool,
                    merges: seq<MergeOperator>)
    requires G.Valid() && Fitted(G.g.Edges, t, x.where) && t.g !in G.Footprint()
    requires x.kind == OPERATOR_SPLIT && x.node in t.g.Leaves() && 0 <= x.splitLabel < t.n
    requires MergePairs(merges, t.g.Leaves()) && MergesCurrent(t, merges, m, N, allowMerge)
    modifies t.g`nodes
    ensures G.Valid() && G.g.Edges == old(G.g.Edges) && Fitted(G.g.Edges, t, x.where)
    ensures MergePairs(merges, t.g.Leaves()) && MergesCurrent(t, merges, m, N, allowMerge)
    ensures Carried(x, false, old(|t.g.nodes|), old(t.g.Leaves()), old(G.g.Edges), t.g.nodes, t.g.Leaves(), G.g.Edges)
  {
    ghost var n0, L := t.g.nodes, t.g.Leaves();
    assert Equipped(n0[x.node], t.n) by {
      var p := IndexOf(L, x.node);
    }
    DeleteOperator(x, t);
    RescoreKeeps(n0, t.g.nodes, x.node, t.n, G.g.Edges, x.where, L);
    MergesSameValues(n0, t.g.nodes, L, m, N, 0);
  }

  /**
   * One round of constructTheNetwork's loop, up to rescanning for the best
   * operator: the winner's diagram is advanced and re-scored, and every
   * other diagram keeps its best operator and merges under the grown graph.
   */
  method Step(G: AcyclicOrientedGraph, T: seq<FrequencyDecisionGraph>, bestNode: seq<Operator>,
              merges: seq<seq<MergeOperator>>, best: Operator, maxParents: int, N: int, m: Metric, allowMerge: bool)
    returns (bestNode': seq<Operator>, merges': seq<seq<MergeOperator>>)
    requires G.Valid() && |T| == G.g.N && Greedy(G.g.Edges, T, bestNode, merges, allowMerge, m, N)
    requires best == Scan(ResetOperator(), bestNode) && best.gain > 0.0
    modifies G.Footprint()
    modifies (set p | 0 <= p < |T| :: T[p].g)`nodes, (set p | 0 <= p < |T| :: T[p].g)`items
    modifies (set p | 0 <= p < |T| :: T[p].g)`order, (set p | 0 <= p < |T| :: T[p].g)`leaves
    modifies (set p | 0 <= p < |T| :: T[p].g)`numLeaves, (set p | 0 <= p < |T| :: T[p].g)`stamp
    modifies (set p | 0 <= p < |T| :: T[p].g)`clock
    ensures G.Valid() && old(G.g.Edges) <= G.g.Edges && Greedy(G.g.Edges, T, bestNode', merges', allowMerge, m, N)
    ensures |bestNode'| == |T|
  {
    Winner(G.g.Edges, T, bestNode, merges, allowMerge, m, N, best);
    bestNode', merges' := Redo(G, T, bestNode, merges, best, maxParents, N, m, allowMerge);
  }

  /** The round for the winning operator best, once it is known to belong to diagram best.where. */
  method Redo(G: AcyclicOrientedGraph, T: seq<FrequencyDecisionGraph>, bestNode: seq<Operator>,
              merges: seq<seq<MergeOperator>>, best: Operator, maxParents: int, N: int, m: Metric, allowMerge: bool)
    returns (bestNode': seq<Operator>, merges': seq<seq<MergeOperator>>)
    requires G.Valid() && |T| == G.g.N && Greedy(G.g.Edges, T, bestNode, merges, allowMerge, m, N)
    requires 0 <= best.where < |T| && (best.kind == OPERATOR_SPLIT || best.kind == OPERATOR_MERGE)
    requires best.kind == OPERATOR_SPLIT ==> best.node in T[best.where].g.Leaves() && 0 <= best.splitLabel < |T|
    requires best.kind == OPERATOR_MERGE ==>
               best.node in T[best.where].g.Leaves() && best.node2 in T[best.where].g.Leaves() && best.node != best.node2
    modifies G.Footprint()
    modifies (set p | 0 <= p < |T| :: T[p].g)`nodes, (set p | 0 <= p < |T| :: T[p].g)`items
    modifies (set p | 0 <= p < |T| :: T[p].g)`order, (set p | 0 <= p < |T| :: T[p].g)`leaves
    modifies (set p | 0 <= p < |T| :: T[p].g)`numLeaves, (set p | 0 <= p < |T| :: T[p].g)`stamp
    modifies (set p | 0 <= p < |T| :: T[p].g)`clock
    ensures G.Valid() && old(G.g.Edges) <= G.g.Edges && Greedy(G.g.Edges, T, bestNode', merges', allowMerge, m, N)
  {
    var w := best.where;
    var t := T[w];
    ghost var E := G.g.Edges;
    assert Tracked(E, t, w, |T|, bestNode[w], merges[w], m, N, allowMerge);
    var bw, mw := StepDiagram(best, t, G, maxParents, N, m, allowMerge, merges[w], T);
    bestNode' := bestNode[w := bw];
    merges' := merges[w := mw];
    OthersTracked(Round(T, E, G.g.Edges, w, bestNode, merges, bw, mw, allowMerge, m, N));
  }

  /** Every diagram of T whose arena is not u is as it was. */
  twostate predicate OthersUnchanged(T: seq<FrequencyDecisionGraph>, u: DecisionGraph)
    reads set p | 0 <= p < |T| :: T[p]
    reads (set p | 0 <= p < |T| :: T[p].g)`nodes, (set p | 0 <= p < |T| :: T[p].g)`items
    reads (set p | 0 <= p < |T| :: T[p].g)`order, (set p | 0 <= p < |T| :: T[p].g)`leaves
    reads (set p | 0 <= p < |T| :: T[p].g)`numLeaves, (set p | 0 <= p < |T| :: T[p].g)`stamp
    reads (set p | 0 <= p < |T| :: T[p].g)`clock
  {
    forall i | 0 <= i < |T| && T[i].g != u ::
      unchanged(T[i].g`nodes, T[i].g`items, T[i].g`order, T[i].g`leaves, T[i].g`numLeaves, T[i].g`stamp, T[i].g`clock)
  }

  /**
   * One round of constructTheNetwork's loop as the diagrams it does not
   * touch see it: the graph grew from E to E', and diagram w was redone
   * with best operator bw and merges mw.
   */
  datatype Round = Round(T: seq<FrequencyDecisionGraph>, E: set<Edge>, E': set<Edge>, w: int, bestNode: seq<Operator>,
                         merges: seq<seq<MergeOperator>>, bw: Operator, mw: seq<MergeOperator>, allowMerge: bool,
                         m: Metric, N: int)

  /**
   * The diagrams a round does not touch keep their best operators and
   * merges; the graph only gained edges, so they still test only parents.
   */
  twostate lemma OthersTracked(r: Round)
    requires old(Greedy(r.E, r.T, r.bestNode, r.merges, r.allowMerge, r.m, r.N)) && 0 <= r.w < |r.T| && r.E <= r.E'
    requires OthersUnchanged(r.T, r.T[r.w].g)
    requires Tracked(r.E', r.T[r.w], r.w, |r.T|, r.bw, r.mw, r.m, r.N, r.allowMerge)
    ensures Greedy(r.E', r.T, r.bestNode[r.w := r.bw], r.merges[r.w := r.mw], r.allowMerge, r.m, r.N)
  {
    var T, w := r.T, r.w;
    forall i | 0 <= i < |T|
      ensures Tracked(r.E', T[i], i, |T|, r.bestNode[w := r.bw][i], r.merges[w := r.mw][i], r.m, r.N, r.allowMerge)
    {
      if i != w {
        OtherTracked(Other(r, i));
      }
    }
  }

  /** Diagram i of a round, other than the round's own diagram r.w. */
  datatype Other = Other(r: Round, i: int)

  /** One diagram a round does not touch stays tracked under the grown graph. */
  twostate lemma OtherTracked(o: Other)
    requires old(Greedy(o.r.E, o.r.T, o.r.bestNode, o.r.merges, o.r.allowMerge, o.r.m, o.r.N))
    requires 0 <= o.r.w < |o.r.T| && 0 <= o.i < |o.r.T| && o.i != o.r.w && o.r.E <= o.r.E'
    requires OthersUnchanged(o.r.T, o.r.T[o.r.w].g)
    ensures Tracked(o.r.E', o.r.T[o.i], o.i, |o.r.T|, o.r.bestNode[o.i], o.r.merges[o.i], o.r.m, o.r.N, o.r.allowMerge)
  {
    var r, T, i := o.r, o.r.T, o.i;
    assert T[i].g != T[r.w].g;
    assert old(Tracked(r.E, T[i], i, |T|, r.bestNode[i], r.merges[i], r.m, r.N, r.allowMerge));
    TrackedKept(Kept(r.E, T[i], i, |T|, r.bestNode[i], r.merges[i], r.m, r.N, r.allowMerge));
    ParentsGrow(T[i].g.nodes, r.E, r.E', i);
  }


  /** A diagram t of variable i with best operator best and merges merges, tracked under edges E. */
  datatype Kept = Kept(E: set<Edge>, t: FrequencyDecisionGraph, i: int, n: nat, best: Operator,
                       merges: seq<MergeOperator>, m: Metric, N: int, allowMerge: bool)

  /** A tracked diagram whose arena nothing touched is still tracked. */
  twostate lemma TrackedKept(k: Kept)
    requires old(Tracked(k.E, k.t, k.i, k.n, k.best, k.merges, k.m, k.N, k.allowMerge))
    requires unchanged(k.t.g`nodes, k.t.g`items, k.t.g`order, k.t.g`leaves, k.t.g`numLeaves, k.t.g`stamp, k.t.g`clock)
    ensures Tracked(k.E, k.t, k.i, k.n, k.best, k.merges, k.m, k.N, k.allowMerge)
  {
  }

  /** removeAllEdges on the network: an acyclic graph has no self-loops, so every edge goes. */
  method ClearNetwork(G: AcyclicOrientedGraph)
    requires G.Valid()
    modifies G.g, G.g.coincidence, G.g.path, G.g.numIn, G.g.numOut
    ensures G.Valid() && G.g.Edges == {}
  {
    assert forall v :: 0 <= v < G.g.N ==> !G.g.coincidence[v, v];
    G.g.RemoveAllEdges();
    ReachEmptyAcyclic();
  }

  /** A diagram as its constructor leaves it: the root alone, which is the one leaf. */
  ghost predicate Fresh(t: FrequencyDecisionGraph)
    reads t, t.g`nodes, t.g`items, t.g`order, t.g`leaves, t.g`numLeaves, t.g`stamp, t.g`clock
  {
    t.Valid() && |t.g.nodes| == 1 && t.g.Leaves() == [t.g.root]
  }

  /**
   * Preparing diagram t of variable i before the greedy loop: the buffers of
   * its only leaf are allocated and zeroed, its split gains computed, and its
   * best operator found, with no merge candidates yet.
   */
  method Prime(t: FrequencyDecisionGraph, G: AcyclicOrientedGraph, i: int, maxParents: int, N: int, m: Metric,
               allowMerge: bool, ghost T: seq<FrequencyDecisionGraph>) returns (bn: Operator)
    requires G.Valid() && Fresh(t) && t.n == G.g.N && 0 <= i < t.n
    modifies t.g`nodes
    ensures Tracked(G.g.Edges, t, i, t.n, bn, [], m, N, allowMerge) && OthersUnchanged(T, t.g)
  {
    var n := t.n;
    assert LinkAt(t.g.items, t.g.order, 0);
    var x := t.g.items[t.g.leaves].x;
    assert x == t.g.root == 0;
    var v := t.g.nodes[x];
    t.Equip(x, v.(gains := Zeros(n), rightValue0 := Zeros(n), rightValue1 := Zeros(n),
                  leftValue0 := Zeros(n), leftValue1 := Zeros(n)));
    RecomputeSplitGains(t, x, G, maxParents, i, N, m);
    assert t.g.nodes[0].which == LeafNode;
    bn := UpdateBestNodeOperator(t, [], i, n);
  }

  /** One fresh diagram per variable, each over its own arena. */
  ghost predicate Unprimed(T: seq<FrequencyDecisionGraph>)
    reads set p | 0 <= p < |T| :: T[p]
    reads (set p | 0 <= p < |T| :: T[p].g)`nodes, (set p | 0 <= p < |T| :: T[p].g)`items
    reads (set p | 0 <= p < |T| :: T[p].g)`order, (set p | 0 <= p < |T| :: T[p].g)`leaves
    reads (set p | 0 <= p < |T| :: T[p].g)`numLeaves, (set p | 0 <= p < |T| :: T[p].g)`stamp
    reads (set p | 0 <= p < |T| :: T[p].g)`clock
  {
    (forall i :: 0 <= i < |T| ==> Fresh(T[i]) && T[i].n == |T|) &&
    (forall i, j :: 0 <= i < j < |T| ==> T[i].g != T[j].g)
  }

  /** Diagrams 0..k-1 are primed with best operators bestNode; the others are still fresh. */
  ghost predicate Priming(E: set<Edge>, T: seq<FrequencyDecisionGraph>, bestNode: seq<Operator>, k: int,
                          m: Metric, N: int, allowMerge: bool)
    reads set p | 0 <= p < |T| :: T[p]
    reads (set p | 0 <= p < |T| :: T[p].g)`nodes, (set p | 0 <= p < |T| :: T[p].g)`items
    reads (set p | 0 <= p < |T| :: T[p].g)`order, (set p | 0 <= p < |T| :: T[p].g)`leaves
    reads (set p | 0 <= p < |T| :: T[p].g)`numLeaves, (set p | 0 <= p < |T| :: T[p].g)`stamp
    reads (set p | 0 <= p < |T| :: T[p].g)`clock
  {
    0 <= k <= |T| && |bestNode| == k &&
    (forall i, j :: 0 <= i < j < |T| ==> T[i].g != T[j].g) &&
    (forall i :: 0 <= i < k ==> Tracked(E, T[i], i, |T|, bestNode[i], [], m, N, allowMerge)) &&
    (forall i :: k <= i < |T| ==> Fresh(T[i]) && T[i].n == |T|)
  }

  /** The state of the priming loop after i rounds. */
  ghost predicate PrimedUpTo(G: AcyclicOrientedGraph, T: seq<FrequencyDecisionGraph>, bestNode: seq<Operator>, best: Operator, i: int,
                             m: Metric, N: int, allowMerge: bool)
    reads G.Footprint(), set p | 0 <= p < |T| :: T[p]
    reads (set p | 0 <= p < |T| :: T[p].g)`nodes, (set p | 0 <= p < |T| :: T[p].g)`items
    reads (set p | 0 <= p < |T| :: T[p].g)`order, (set p | 0 <= p < |T| :: T[p].g)`leaves
    reads (set p | 0 <= p < |T| :: T[p].g)`numLeaves, (set p | 0 <= p < |T| :: T[p].g)`stamp
    reads (set p | 0 <= p < |T| :: T[p].g)`clock
  {
    G.Valid() && |T| == G.g.N && Priming(G.g.Edges, T, bestNode, i, m, N, allowMerge) && best == Scan(ResetOperator(), bestNode)
  }

  /** One priming step as the other diagrams see it: diagram k was primed with best operator bn. */
  datatype Primed = Primed(T: seq<FrequencyDecisionGraph>, E: set<Edge>, bestNode: seq<Operator>, k: int, bn: Operator,
                           m: Metric, N: int, allowMerge: bool)

  /** Priming diagram k, and nothing else, extends the primed prefix by one. */
  twostate lemma PrimedNext(r: Primed)
    requires old(Priming(r.E, r.T, r.bestNode, r.k, r.m, r.N, r.allowMerge)) && r.k < |r.T|
    requires OthersUnchanged(r.T, r.T[r.k].g) && Tracked(r.E, r.T[r.k], r.k, |r.T|, r.bn, [], r.m, r.N, r.allowMerge)
    ensures Priming(r.E, r.T, r.bestNode + [r.bn], r.k + 1, r.m, r.N, r.allowMerge)
  {
    var T, k := r.T, r.k;
    forall i | 0 <= i < |T| && i != k
      ensures i < k ==> Tracked(r.E, T[i], i, |T|, r.bestNode[i], [], r.m, r.N, r.allowMerge)
      ensures i > k ==> Fresh(T[i]) && T[i].n == |T|
    {
      assert T[i].g != T[k].g;
    }
  }

  /**
   * The first loop of constructTheNetwork: prime every diagram in turn and
   * keep the best operator offered so far.
   */
  method PrimeAll(G: AcyclicOrientedGraph, T: seq<FrequencyDecisionGraph>, maxParents: int, N: int, m: Metric, allowMerge: bool)
    returns (bestNode: seq<Operator>, best: Operator)
    requires G.Valid() && |T| == G.g.N && Unprimed(T)
    modifies (set p | 0 <= p < |T| :: T[p].g)`nodes
    ensures G.Valid() && G.g.Edges == old(G.g.Edges)
    ensures Priming(G.g.Edges, T, bestNode, |T|, m, N, allowMerge) && best == Scan(ResetOperator(), bestNode)
  {
    bestNode := [];
    best := ResetOperator();
    var i := 0;
    while i < |T|
      invariant PrimedUpTo(G, T, bestNode, best, i, m, N, allowMerge)
    {
      bestNode, best := PrimeNext(G, T, bestNode, best, i, maxParents, N, m, allowMerge);
      i := i + 1;
    }
  }

  /** One round of the priming loop: diagram i is primed and its best operator offered. */
  method PrimeNext(G: AcyclicOrientedGraph, T: seq<FrequencyDecisionGraph>, bestNode: seq<Operator>, best: Operator,
                   i: int, maxParents: int, N: int, m: Metric, allowMerge: bool) returns (bestNode': seq<Operator>, best': Operator)
    requires PrimedUpTo(G, T, bestNode, best, i, m, N, allowMerge) && i < |T|
    modifies T[i].g`nodes
    ensures PrimedUpTo(G, T, bestNode', best', i + 1, m, N, allowMerge)
  {
    ghost var E := G.g.Edges;
    var bn := Prime(T[i], G, i, maxParents, N, m, allowMerge, T);
    assert G.Valid() && G.g.Edges == E;
    PrimedNext(Primed(T, E, bestNode, i, bn, m, N, allowMerge));
    ScanStep(ResetOperator(), bestNode, bn);
    bestNode' := bestNode + [bn];
    best' := UpdateBestOperator(best, bn);
  }

  /**
   * No split of any leaf of diagram t has a positive cached gain and, when
   * merging is allowed, no merge of two of its leaves has a positive gain.
   */
  ghost predicate Settled(t: FrequencyDecisionGraph, m: Metric, N: int, allowMerge: bool)
    reads t, t.g`nodes, t.g`items, t.g`order, t.g`leaves, t.g`numLeaves, t.g`stamp, t.g`clock
  {
    t.Valid() && LeavesEquipped(t.g.nodes, t.g.Leaves(), t.n) &&
    (forall p, j :: 0 <= p < |t.g.Leaves()| && 0 <= j < t.n ==> t.g.nodes[t.g.Leaves()[p]].gains[j] <= 0.0) &&
    (allowMerge ==> forall p, q :: 0 <= p < q < |t.g.Leaves()| ==>
                      MergeGain(m, N, t.g.nodes[t.g.Leaves()[p]], t.g.nodes[t.g.Leaves()[q]]) <= 0.0)
  }

  /**
   * When a diagram's best operator gains nothing, neither does any split of
   * any of its leaves nor any of its merge candidates.
   */
  lemma NoGainLeft(nodes: seq<Node>, L: seq<int>, merges: seq<MergeOperator>, node: int, n: nat)
    requires LeavesEquipped(nodes, L, n) && Scan(ResetOperator(), NodeCandidates(nodes, L, merges, node, n)).gain <= 0.0
    ensures forall p, j :: 0 <= p < |L| && 0 <= j < n ==> nodes[L[p]].gains[j] <= 0.0
    ensures forall k :: 0 <= k < |merges| ==> merges[k].gain <= 0.0
  {
    BestNodeOperator(nodes, L, merges, node, n);
  }

  /** When the overall best operator gains nothing, every diagram is settled. */
  lemma GreedySettled(E: set<Edge>, T: seq<FrequencyDecisionGraph>, bestNode: seq<Operator>,
                      merges: seq<seq<MergeOperator>>, allowMerge: bool, m: Metric, N: int)
    requires Greedy(E, T, bestNode, merges, allowMerge, m, N) && Scan(ResetOperator(), bestNode).gain <= 0.0
    ensures forall i :: 0 <= i < |T| ==> Settled(T[i], m, N, allowMerge)
  {
    ScanMax(ResetOperator(), bestNode);
    forall i | 0 <= i < |T|
      ensures Settled(T[i], m, N, allowMerge)
    {
      var t := T[i];
      assert Tracked(E, t, i, |T|, bestNode[i], merges[i], m, N, allowMerge);
      var nodes, L := t.g.nodes, t.g.Leaves();
      NoGainLeft(nodes, L, merges[i], i, |T|);
      if allowMerge {
        forall p, q | 0 <= p < q < |L|
          ensures MergeGain(m, N, nodes[L[p]], nodes[L[q]]) <= 0.0
        {
          MergeRecorded(nodes, L, m, N, p, q);
        }
      }
    }
  }

  /** Once every diagram is primed, the greedy loop may start, with no merge candidates anywhere. */
  lemma PrimedGreedy(E: set<Edge>, T: seq<FrequencyDecisionGraph>, bestNode: seq<Operator>,
                     merges: seq<seq<MergeOperator>>, allowMerge: bool, m: Metric, N: int)
    requires Priming(E, T, bestNode, |T|, m, N, allowMerge) && |merges| == |T| && forall i :: 0 <= i < |merges| ==> merges[i] == []
    ensures Greedy(E, T, bestNode, merges, allowMerge, m, N)
  {
  }

  /** n * n operators are allotted to n variables: none only when there are no variables. */
  lemma SquareAtLeast(n: nat)
    ensures n * n >= n
  {
    if n > 0 {
      assert n * n == n * (n - 1) + n;
    }
  }

  /** The state of constructTheNetwork's greedy loop. */
  ghost predicate Looping(G: AcyclicOrientedGraph, T: seq<FrequencyDecisionGraph>, bestNode: seq<Operator>,
                          merges: seq<seq<MergeOperator>>, best: Operator, allowMerge: bool, m: Metric, N: int)
    reads G.Footprint()
    reads set p | 0 <= p < |T| :: T[p]
    reads (set p | 0 <= p < |T| :: T[p].g)`nodes, (set p | 0 <= p < |T| :: T[p].g)`items
    reads (set p | 0 <= p < |T| :: T[p].g)`order, (set p | 0 <= p < |T| :: T[p].g)`leaves
    reads (set p | 0 <= p < |T| :: T[p].g)`numLeaves, (set p | 0 <= p < |T| :: T[p].g)`stamp
    reads (set p | 0 <= p < |T| :: T[p].g)`clock
  {
    G.Valid() && |T| == G.g.N && Greedy(G.g.Edges, T, bestNode, merges, allowMerge, m, N) && best == Scan(ResetOperator(), bestNode)
  }

  /**
   * constructTheNetwork: clear the network, prime every diagram, then apply
   * the best operator over all diagrams while it gains something. The
   * result is a network whose diagrams test only parents; rounds counts the
   * rounds of the greedy loop, each of which applies or deletes the best
   * operator, and when it stays below the fuel bound the loop ran
   * to its end (converged), so no split of any leaf gains anything, nor,
   * when merging is allowed, any merge of two leaves of one diagram.
   */
  method ConstructTheNetwork(G: AcyclicOrientedGraph, T: seq<FrequencyDecisionGraph>, N: int, maxIncoming: int,
                             allowMerge: bool, m: Metric, fuel: nat) returns (rounds: nat, ghost converged: bool)
    requires G.Valid() && |T| == G.g.N
    requires Unprimed(T)
    modifies G.Footprint()
    modifies (set p | 0 <= p < |T| :: T[p].g)`nodes, (set p | 0 <= p < |T| :: T[p].g)`items
    modifies (set p | 0 <= p < |T| :: T[p].g)`order, (set p | 0 <= p < |T| :: T[p].g)`leaves
    modifies (set p | 0 <= p < |T| :: T[p].g)`numLeaves, (set p | 0 <= p < |T| :: T[p].g)`stamp
    modifies (set p | 0 <= p < |T| :: T[p].g)`clock
    ensures G.Valid() && Network(G.g.Edges, |T|, T)
    ensures rounds <= fuel && (rounds < fuel ==> converged)
    ensures converged ==> forall i :: 0 <= i < |T| ==> Settled(T[i], m, N, allowMerge)
  {
    var bestNode, merges, best := Setup(G, T, N, maxIncoming, allowMerge, m);
    rounds, converged := GreedyLoop(G, T, bestNode, merges, best, N, maxIncoming, allowMerge, m, fuel);
  }

  /**
   * The start of constructTheNetwork: remove all edges, prime each diagram
   * and offer its best operator; there are no merge candidates yet.
   */
  method Setup(G: AcyclicOrientedGraph, T: seq<FrequencyDecisionGraph>, N: int, maxIncoming: int, allowMerge: bool, m: Metric)
    returns (bestNode: seq<Operator>, merges: seq<seq<MergeOperator>>, best: Operator)
    requires G.Valid() && |T| == G.g.N
    requires Unprimed(T)
    modifies G.Footprint(), (set p | 0 <= p < |T| :: T[p].g)`nodes
    ensures Looping(G, T, bestNode, merges, best, allowMerge, m, N) && G.g.Edges == {}
  {
    ClearNetwork(G);
    bestNode, best := PrimeAll(G, T, maxIncoming, N, m, allowMerge);
    merges := seq(|T|, _ => []);
    PrimedGreedy(G.g.Edges, T, bestNode, merges, allowMerge, m, N);
  }

  /**
   * The scan that ends each round: the per-variable bests are
   * offered in turn, and the largest gain (the earliest on ties) is next.
   */
  method RescanBest(G: AcyclicOrientedGraph, T: seq<FrequencyDecisionGraph>, bestNode: seq<Operator>,
                    merges: seq<seq<MergeOperator>>, allowMerge: bool, m: Metric, N: int) returns (best: Operator)
    requires G.Valid() && |T| == G.g.N && Greedy(G.g.Edges, T, bestNode, merges, allowMerge, m, N)
    ensures Looping(G, T, bestNode, merges, best, allowMerge, m, N)
  {
    best := ResetOperator();
    var i := 0;
    while i < |T|
      invariant 0 <= i <= |T| == |bestNode| && best == Scan(ResetOperator(), bestNode[..i])
    {
      assert bestNode[..i + 1][..i] == bestNode[..i];
      best := UpdateBestOperator(best, bestNode[i]);
      i := i + 1;
    }
    assert bestNode[..i] == bestNode;
  }

  /**
   * The greedy loop of constructTheNetwork, for at most fuel rounds: it
   * stops when the best operator gains nothing (or there are no variables,
   * so no operators are allotted); rounds counts the rounds of the loop,
   * each of which applies or deletes the best operator, and converged,
   * which holds whenever rounds stays below fuel, says it stopped that way.
   */
  method GreedyLoop(G: AcyclicOrientedGraph, T: seq<FrequencyDecisionGraph>, bestNode0: seq<Operator>,
                    merges0: seq<seq<MergeOperator>>, best0: Operator, N: int, maxIncoming: int, allowMerge: bool,
                    m: Metric, fuel: nat) returns (rounds: nat, ghost converged: bool)
    requires Looping(G, T, bestNode0, merges0, best0, allowMerge, m, N)
    modifies G.Footprint()
    modifies (set p | 0 <= p < |T| :: T[p].g)`nodes, (set p | 0 <= p < |T| :: T[p].g)`items
    modifies (set p | 0 <= p < |T| :: T[p].g)`order, (set p | 0 <= p < |T| :: T[p].g)`leaves
    modifies (set p | 0 <= p < |T| :: T[p].g)`numLeaves, (set p | 0 <= p < |T| :: T[p].g)`stamp
    modifies (set p | 0 <= p < |T| :: T[p].g)`clock
    ensures G.Valid() && old(G.g.Edges) <= G.g.Edges && Network(G.g.Edges, |T|, T)
    ensures rounds <= fuel && (rounds < fuel ==> converged)
    ensures converged ==> forall i :: 0 <= i < |T| ==> Settled(T[i], m, N, allowMerge)
  {
    var n := |T|;
    var operatorsLeft := n * n;
    var f := fuel;
    rounds := 0;
    var bestNode, merges, best := bestNode0, merges0, best0;
    while best.gain > 0.0 && operatorsLeft > 0 && f > 0
      invariant Looping(G, T, bestNode, merges, best, allowMerge, m, N) && old(G.g.Edges) <= G.g.Edges
      invariant rounds + f == fuel
      decreases f
    {
      bestNode, merges := Step(G, T, bestNode, merges, best, maxIncoming, N, m, allowMerge);
      best := RescanBest(G, T, bestNode, merges, allowMerge, m, N);
      f := f - 1;
      rounds := rounds + 1;
    }
    converged := best.gain <= 0.0 || operatorsLeft <= 0;
    GreedyNetwork(G.g.Edges, T, bestNode, merges, allowMerge, m, N);
    if best.gain <= 0.0 {
      GreedySettled(G.g.Edges, T, bestNode, merges, allowMerge, m, N);
    } else if operatorsLeft <= 0 {
      SquareAtLeast(n);
    }
  }
}
