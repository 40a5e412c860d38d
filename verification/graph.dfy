/**
 * Oriented graphs over the vertices 0..N-1 with an incrementally maintained
 * reachability ("path") matrix, and the acyclic variant used as the dependency
 * graph of the learned network.
 *
 * The abstract state of an `OrientedGraph` is its edge set `Edges` and the
 * parent lists `Parents`; `Valid()` ties the matrices and counters to them:
 * coincidence[a, b] holds exactly for the edges, path[a, b] exactly when b is
 * reachable from a by a possibly empty walk, numOut[v] counts the edges leaving v,
 * and the first numIn[v] entries of row v of parentList list the parents of v
 * without repetition.
 */
module Graph {
  import opened Reachability
  import opened Collections

  const SUCCESS := 1
  const FAIL := 0

  ghost function OutEdges(E: set<Edge>, v: int): set<Edge>
  {
    set e | e in E && e.0 == v
  }

  lemma OutEdgesAdd(E: set<Edge>, i: int, j: int, v: int)
    requires (i, j) !in E
    ensures |OutEdges(E + {(i, j)}, v)| == |OutEdges(E, v)| + (if v == i then 1 else 0)
  {
    if v == i {
      assert OutEdges(E + {(i, j)}, v) == OutEdges(E, v) + {(i, j)};
    } else {
      assert OutEdges(E + {(i, j)}, v) == OutEdges(E, v);
    }
  }

  lemma OutEdgesRemove(E: set<Edge>, i: int, j: int, v: int)
    requires (i, j) in E
    ensures |OutEdges(E - {(i, j)}, v)| == |OutEdges(E, v)| - (if v == i then 1 else 0)
  {
    if v == i {
      assert OutEdges(E, v) == OutEdges(E - {(i, j)}, v) + {(i, j)};
    } else {
      assert OutEdges(E - {(i, j)}, v) == OutEdges(E, v);
    }
  }

  class OrientedGraph {
    const N: nat
    const coincidence: array2<bool>
    const path: array2<bool>
    const parentList: array2<int>
    const numIn: array<int>
    const numOut: array<int>
    const mark: array<int>

    ghost var Edges: set<Edge>
    ghost var Parents: seq<seq<int>>

    /** Everything the edge operations read or write (the marks are separate). */
    ghost function Footprint(): set<object>
    {
      {this, coincidence, path, parentList, numIn, numOut}
    }

    /** The buffers have the sizes the constructor allocates. */
    ghost predicate Shaped()
    {
      coincidence.Length0 == N && coincidence.Length1 == N &&
      path.Length0 == N && path.Length1 == N &&
      parentList.Length0 == N && parentList.Length1 == N &&
      numIn.Length == N && numOut.Length == N && mark.Length == N &&
      coincidence != path && numIn != numOut && numIn != mark && numOut != mark
    }

    ghost predicate ParentsListed(v: int)
      requires Shaped() && 0 <= v < N && |Parents| == N
      reads this, parentList, numIn
    {
      0 <= numIn[v] <= N && numIn[v] == |Parents[v]| && Distinct(Parents[v]) &&
      (forall k :: 0 <= k < numIn[v] ==> parentList[v, k] == Parents[v][k]) &&
      (forall a :: a in Parents[v] <==> (a, v) in Edges)
    }

    /** Coincidence matrix, parent lists and out-degrees agree with `Edges`. */
    ghost predicate Recorded()
      reads this, coincidence, parentList, numIn, numOut
    {
      Shaped() &&
      Within(Edges, N) &&
      (forall a, b :: 0 <= a < N && 0 <= b < N ==> (coincidence[a, b] <==> (a, b) in Edges)) &&
      |Parents| == N &&
      (forall v :: 0 <= v < N ==> ParentsListed(v)) &&
      (forall v :: 0 <= v < N ==> numOut[v] == |OutEdges(Edges, v)|)
    }

    /** The path matrix is the reflexive-transitive closure of `Edges`. */
    ghost predicate Closed()
      requires Shaped()
      reads this, path
    {
      forall a, b :: 0 <= a < N && 0 <= b < N ==> (path[a, b] <==> Reachable(Edges, a, b))
    }

    ghost predicate Valid()
      reads Footprint()
    {
      Recorded() && Closed()
    }

    /** The graph with n vertices, no edges and all marks cleared. */
    constructor (n: nat)
      ensures Valid() && N == n && Edges == {}
      ensures forall v :: 0 <= v < N ==> numIn[v] == 0 && numOut[v] == 0 && mark[v] == 0
      ensures forall a, b :: 0 <= a < N && 0 <= b < N ==> path[a, b] == (a == b)
      ensures fresh(coincidence) && fresh(path) && fresh(parentList)
      ensures fresh(numIn) && fresh(numOut) && fresh(mark)
    {
      N := n;
      coincidence := new bool[n, n]((_, _) => false);
      path := new bool[n, n]((_, _) => false);
      parentList := new int[n, n]((_, _) => 0);
      numIn := new int[n](_ => 0);
      numOut := new int[n](_ => 0);
      mark := new int[n](_ => 0);
      new;
      RemoveAllEdges();
      RemoveAllMarks();
    }

    /**
     * Clears every edge: the path matrix becomes the identity and all degrees 0.
     * Only off-diagonal coincidence entries are cleared, so a graph without
     * self-loops ends up with no edges at all.
     */
    method RemoveAllEdges()
      requires Shaped()
      modifies this, coincidence, path, numIn, numOut
      ensures forall a, b :: 0 <= a < N && 0 <= b < N ==> path[a, b] == (a == b)
      ensures forall a, b :: 0 <= a < N && 0 <= b < N ==>
                coincidence[a, b] == (a == b && old(coincidence[a, a]))
      ensures forall v :: 0 <= v < N ==> numIn[v] == 0 && numOut[v] == 0
      ensures (forall v :: 0 <= v < N ==> !old(coincidence[v, v])) ==> Valid() && Edges == {}
    {
      var i := 0;
      while i < N
        invariant 0 <= i <= N
        invariant forall a, b :: 0 <= a < N && 0 <= b < N ==>
                    path[a, b] == (if a < i && b < i then a == b else old(path[a, b]))
        invariant forall a, b :: 0 <= a < N && 0 <= b < N ==>
                    coincidence[a, b] == (if a < i && b < i && a != b then false else old(coincidence[a, b]))
        invariant forall v :: 0 <= v < i ==> numIn[v] == 0 && numOut[v] == 0
      {
        path[i, i] := true;
        numIn[i] := 0;
        numOut[i] := 0;
        var j := 0;
        while j < i
          invariant 0 <= j <= i
          invariant forall a, b :: 0 <= a < N && 0 <= b < N ==>
                      path[a, b] == (if (a < i && b < i) || (a == i && b == i) then a == b
                                     else if (a == i && b < j) || (b == i && a < j) then false
                                     else old(path[a, b]))
          invariant forall a, b :: 0 <= a < N && 0 <= b < N ==>
                      coincidence[a, b] == (if (a < i && b < i && a != b) || (a == i && b < j) || (b == i && a < j) then false
                                            else old(coincidence[a, b]))
          invariant forall v :: 0 <= v <= i ==> numIn[v] == 0 && numOut[v] == 0
        {
          coincidence[i, j] := false;
          coincidence[j, i] := false;
          path[i, j] := false;
          path[j, i] := false;
          j := j + 1;
        }
        i := i + 1;
      }
      Edges := {};
      Parents := seq(N, _ => []);
      if forall v :: 0 <= v < N ==> !old(coincidence[v, v]) {
        forall a, b | 0 <= a < N && 0 <= b < N
          ensures path[a, b] <==> Reachable(Edges, a, b)
        {
          ReachEmpty(a, b);
        }
      }
    }

    /**
     * Adds the edge i -> j (a present edge is left alone). Every vertex that
     * reaches i now also reaches every vertex reachable from j.
     */
    method AddEdge(i: int, j: int) returns (r: int)
      requires Valid() && 0 <= i < N && 0 <= j < N
      modifies Footprint()
      ensures Valid() && r == SUCCESS
      ensures Edges == old(Edges) + {(i, j)}
      ensures old((i, j) in Edges) ==>
                (Parents == old(Parents) &&
                 forall v :: 0 <= v < N ==> numIn[v] == old(numIn[v]) && numOut[v] == old(numOut[v]))
      ensures !old((i, j) in Edges) ==>
                (Parents == old(Parents)[j := old(Parents[j]) + [i]] &&
                 0 <= old(numIn[j]) < N && parentList[j, old(numIn[j])] == i &&
                 numIn[j] == old(numIn[j]) + 1 && numOut[i] == old(numOut[i]) + 1 &&
                 (forall v :: 0 <= v < N && v != j ==> numIn[v] == old(numIn[v])) &&
                 (forall v :: 0 <= v < N && v != i ==> numOut[v] == old(numOut[v])))
      ensures forall a, b :: 0 <= a < N && 0 <= b < N ==>
                path[a, b] == (old(path[a, b]) || (old(path[a, i]) && old(path[j, b])))
    {
      forall a | 0 <= a < N
        ensures path[a, a]
      {
        ReachSelf(Edges, a);
      }
      if coincidence[i, j] {
        forall a, b | 0 <= a < N && 0 <= b < N && path[a, i] && path[j, b]
          ensures path[a, b]
        {
          ReachStep(Edges, i, j, b);
          ReachTrans(Edges, a, i, b);
        }
        return SUCCESS;
      }
      ghost var E0 := Edges;
      RecordEdge(i, j);
      path[i, j] := true;
      ClosePaths(i, j);
      forall a, b | 0 <= a < N && 0 <= b < N
        ensures path[a, b] <==> Reachable(Edges, a, b)
      {
        ReachAdd(E0, i, j, a, b);
      }
      r := SUCCESS;
    }

    /** The bookkeeping half of adding a new edge: coincidence, parent list and degrees. */
    method RecordEdge(i: int, j: int)
      requires Recorded() && 0 <= i < N && 0 <= j < N && (i, j) !in Edges
      modifies this, coincidence, parentList, numIn, numOut
      ensures Recorded() && Edges == old(Edges) + {(i, j)}
      ensures Parents == old(Parents)[j := old(Parents[j]) + [i]]
      ensures 0 <= old(numIn[j]) < N && parentList[j, old(numIn[j])] == i
      ensures numIn[j] == old(numIn[j]) + 1 && numOut[i] == old(numOut[i]) + 1
      ensures forall v :: 0 <= v < N && v != j ==> numIn[v] == old(numIn[v])
      ensures forall v :: 0 <= v < N && v != i ==> numOut[v] == old(numOut[v])
    {
      assert ParentsListed(j);
      DistinctBound(Parents[j], N, i);
      coincidence[i, j] := true;
      parentList[j, numIn[j]] := i;
      numOut[i] := numOut[i] + 1;
      numIn[j] := numIn[j] + 1;
      Edges := Edges + {(i, j)};
      Parents := Parents[j := Parents[j] + [i]];
      forall v | 0 <= v < N
        ensures numOut[v] == |OutEdges(Edges, v)|
      {
        OutEdgesAdd(old(Edges), i, j, v);
      }
      forall v | 0 <= v < N
        ensures ParentsListed(v)
      {
        assert old(ParentsListed(v));
        if v == j {
          assert forall k :: 0 <= k < numIn[j] - 1 ==> parentList[j, k] == old(parentList[j, k]);
        } else {
          assert forall k :: 0 <= k < numIn[v] ==> parentList[v, k] == old(parentList[v, k]);
        }
      }
    }

    /**
     * The path-matrix half of adding the edge i -> j: for every k with path[k, i]
     * and every l != k with path[j, l], sets path[k, l]. Row j and column i keep
     * their values while the loop runs, so reading them in place is sound.
     */
    method ClosePaths(i: int, j: int)
      requires Shaped() && 0 <= i < N && 0 <= j < N
      requires path[i, j] && forall a :: 0 <= a < N ==> path[a, a]
      modifies path
      ensures forall a, b :: 0 <= a < N && 0 <= b < N ==>
                path[a, b] == (old(path[a, b]) || (old(path[a, i]) && old(path[j, b])))
    {
      var k := 0;
      while k < N
        invariant 0 <= k <= N
        invariant forall a, b :: 0 <= a < N && 0 <= b < N ==>
                    path[a, b] == (if a < k then old(path[a, b]) || (old(path[a, i]) && old(path[j, b]))
                                   else old(path[a, b]))
      {
        if path[k, i] {
          var l := 0;
          while l < N
            invariant 0 <= l <= N
            invariant forall a, b :: 0 <= a < N && 0 <= b < N ==>
                        path[a, b] == (if a < k || (a == k && b < l) then old(path[a, b]) || (old(path[a, i]) && old(path[j, b]))
                                       else old(path[a, b]))
          {
            if l != k && path[j, l] {
              path[k, l] := true;
            }
            l := l + 1;
          }
        }
        k := k + 1;
      }
    }

    /**
     * Removes the edge i -> j (an absent edge is left alone) and repairs the
     * path matrix. The graph must be acyclic: the invalidation pass reads row j
     * and column i in place, and only without a walk j -> i are those never
     * cleared under it.
     */
    method RemoveEdge(i: int, j: int) returns (r: int)
      requires Valid() && Acyclic(Edges) && 0 <= i < N && 0 <= j < N
      modifies Footprint()
      ensures Valid() && r == SUCCESS
      ensures Edges == old(Edges) - {(i, j)}
      ensures old((i, j) !in Edges) ==>
                (Parents == old(Parents) &&
                 forall v :: 0 <= v < N ==> numIn[v] == old(numIn[v]) && numOut[v] == old(numOut[v]))
      ensures old((i, j) in Edges) ==>
                (i in old(Parents[j]) && Parents == old(Parents)[j := RemoveByLast(old(Parents[j]), i)] &&
                 numIn[j] == old(numIn[j]) - 1 && numOut[i] == old(numOut[i]) - 1 &&
                 (forall v :: 0 <= v < N && v != j ==> numIn[v] == old(numIn[v])) &&
                 (forall v :: 0 <= v < N && v != i ==> numOut[v] == old(numOut[v])))
    {
      if !coincidence[i, j] {
        return SUCCESS;
      }
      ghost var E0 := Edges;
      AcyclicNoBackPath(E0, i, j);
      forall a | 0 <= a < N
        ensures path[a, a]
      {
        ReachSelf(E0, a);
      }
      UnrecordEdge(i, j);
      ghost var E1 := Edges;
      var pending := InvalidatePaths(i, j);
      forall a, b | 0 <= a < N && 0 <= b < N && path[a, b]
        ensures Reachable(E1, a, b)
      {
        if a == b {
          ReachSelf(E1, a);
        } else if (a, b) in E1 {
          ReachEdge(E1, a, b);
        } else {
          if Reachable(E1, a, i) && Reachable(E1, j, b) {
            ReachMono(E1, E0, a, i);
            ReachMono(E1, E0, j, b);
          }
          ReachRemove(E0, i, j, a, b);
        }
      }
      forall a, b | 0 <= a < N && 0 <= b < N && Reachable(E1, a, b)
        ensures path[a, b] || (a, b) in pending
      {
        ReachMono(E1, E0, a, b);
      }
      forall a, b | 0 <= a < N && 0 <= b < N && coincidence[a, b]
        ensures path[a, b]
      {
        ReachEdge(E0, a, b);
      }
      RepairPaths(E1, pending);
      r := SUCCESS;
    }

    /** The bookkeeping half of removing a present edge: coincidence, parent list and degrees. */
    method UnrecordEdge(i: int, j: int)
      requires Recorded() && 0 <= i < N && 0 <= j < N && (i, j) in Edges
      modifies this, coincidence, parentList, numIn, numOut
      ensures Recorded() && Edges == old(Edges) - {(i, j)}
      ensures i in old(Parents[j]) && Parents == old(Parents)[j := RemoveByLast(old(Parents[j]), i)]
      ensures numIn[j] == old(numIn[j]) - 1 && numOut[i] == old(numOut[i]) - 1
      ensures forall v :: 0 <= v < N && v != j ==> numIn[v] == old(numIn[v])
      ensures forall v :: 0 <= v < N && v != i ==> numOut[v] == old(numOut[v])
    {
      assert ParentsListed(j);
      ghost var L := Parents[j];
      RemoveByLastContents(L, i);
      coincidence[i, j] := false;
      numOut[i] := numOut[i] - 1;
      numIn[j] := numIn[j] - 1;
      var c := numIn[j];
      var k := 0;
      while k <= numIn[j]
        modifies parentList
        invariant 0 <= k <= c + 1
        invariant numIn[j] == c
        invariant forall m :: 0 <= m <= c ==>
                    parentList[j, m] == (if m < k && L[m] == i && m < c then L[c] else L[m])
        invariant forall v, m :: 0 <= v < N && 0 <= m < N && (v != j || m > c) ==>
                    parentList[v, m] == old(parentList[v, m])
      {
        if parentList[j, k] == i {
          if k < numIn[j] {
            parentList[j, k] := parentList[j, numIn[j]];
          }
        }
        k := k + 1;
      }
      Edges := Edges - {(i, j)};
      Parents := Parents[j := RemoveByLast(L, i)];
      forall v | 0 <= v < N
        ensures numOut[v] == |OutEdges(Edges, v)|
      {
        OutEdgesRemove(old(Edges), i, j, v);
      }
      forall v | 0 <= v < N
        ensures ParentsListed(v)
      {
        assert old(ParentsListed(v));
        if v == j {
          forall m | 0 <= m < c
            ensures parentList[j, m] == Parents[j][m]
          {
            RemoveByLastAt(L, i, m);
          }
        } else {
          assert forall k :: 0 <= k < numIn[v] ==> parentList[v, k] == old(parentList[v, k]);
        }
      }
    }

    /**
     * First repair phase of removing i -> j: every pair (k, l) with path[k, i],
     * path[j, l], k != l and no direct edge k -> l may have lost its only walk,
     * so it is cleared and recorded as pending.
     */
    method InvalidatePaths(i: int, j: int) returns (pending: seq<Edge>)
      requires Shaped() && 0 <= i < N && 0 <= j < N && !path[j, i]
      modifies path
      ensures forall a, b :: 0 <= a < N && 0 <= b < N ==>
                path[a, b] == (old(path[a, b]) &&
                               !(old(path[a, i]) && a != b && !coincidence[a, b] && old(path[j, b])))
      ensures forall p :: p in pending ==> 0 <= p.0 < N && 0 <= p.1 < N
      ensures forall a, b :: 0 <= a < N && 0 <= b < N ==>
                (old(path[a, i]) && a != b && !coincidence[a, b] && old(path[j, b]) ==> (a, b) in pending)
    {
      pending := [];
      var k := 0;
      while k < N
        invariant 0 <= k <= N
        invariant forall a, b :: 0 <= a < N && 0 <= b < N ==>
                    path[a, b] == (if a < k then old(path[a, b]) &&
                                     !(old(path[a, i]) && a != b && !coincidence[a, b] && old(path[j, b]))
                                   else old(path[a, b]))
        invariant forall p :: p in pending ==> 0 <= p.0 < N && 0 <= p.1 < N
        invariant forall a, b :: 0 <= a < k && 0 <= b < N ==>
                    (old(path[a, i]) && a != b && !coincidence[a, b] && old(path[j, b]) ==> (a, b) in pending)
      {
        if path[k, i] {
          var l := 0;
          while l < N
            invariant 0 <= l <= N
            invariant forall a, b :: 0 <= a < N && 0 <= b < N ==>
                        path[a, b] == (if a < k || (a == k && b < l) then old(path[a, b]) &&
                                         !(old(path[a, i]) && a != b && !coincidence[a, b] && old(path[j, b]))
                                       else old(path[a, b]))
            invariant forall p :: p in pending ==> 0 <= p.0 < N && 0 <= p.1 < N
            invariant forall a, b :: 0 <= a < N && 0 <= b < N && (a < k || (a == k && b < l)) ==>
                        (old(path[a, i]) && a != b && !coincidence[a, b] && old(path[j, b]) ==> (a, b) in pending)
          {
            if l != k && !coincidence[k, l] && path[j, l] {
              path[k, l] := false;
              pending := pending + [(k, l)];
            }
            l := l + 1;
          }
        }
        k := k + 1;
      }
    }

    /**
     * Second repair phase: rounds over the pending pairs re-derive every pair
     * with a middle vertex m, path[k, m] and path[m, l]; pairs still missing are
     * kept for the next round. The rounds stop after one that re-derives nothing;
     * each earlier round shortens the pending list, which bounds their number.
     */
    method RepairPaths(ghost E: set<Edge>, pending: seq<Edge>)
      requires Shaped() && Within(E, N)
      requires forall a, b :: 0 <= a < N && 0 <= b < N && (a, b) in E ==> path[a, b]
      requires forall a :: 0 <= a < N ==> path[a, a]
      requires forall a, b :: 0 <= a < N && 0 <= b < N && path[a, b] ==> Reachable(E, a, b)
      requires forall a, b :: 0 <= a < N && 0 <= b < N && Reachable(E, a, b) ==>
                 path[a, b] || (a, b) in pending
      requires forall p :: p in pending ==> 0 <= p.0 < N && 0 <= p.1 < N
      modifies path
      ensures forall a, b :: 0 <= a < N && 0 <= b < N ==> (path[a, b] <==> Reachable(E, a, b))
    {
      var todo := pending;
      var added := true;
      while added
        invariant forall a, b :: 0 <= a < N && 0 <= b < N && (a, b) in E ==> path[a, b]
        invariant forall a :: 0 <= a < N ==> path[a, a]
        invariant forall a, b :: 0 <= a < N && 0 <= b < N && path[a, b] ==> Reachable(E, a, b)
        invariant forall a, b :: 0 <= a < N && 0 <= b < N && Reachable(E, a, b) ==>
                    path[a, b] || (a, b) in todo
        invariant forall p :: p in todo ==> 0 <= p.0 < N && 0 <= p.1 < N
        invariant !added ==> forall p, m :: p in todo && 0 <= m < N ==> !(path[p.0, m] && path[m, p.1])
        decreases |todo| + (if added then 1 else 0)
      {
        added := false;
        var rest := todo;
        var next := [];
        while rest != []
          invariant forall a, b :: 0 <= a < N && 0 <= b < N && (a, b) in E ==> path[a, b]
          invariant forall a :: 0 <= a < N ==> path[a, a]
          invariant forall a, b :: 0 <= a < N && 0 <= b < N && path[a, b] ==> Reachable(E, a, b)
          invariant forall a, b :: 0 <= a < N && 0 <= b < N && Reachable(E, a, b) ==>
                      path[a, b] || (a, b) in rest || (a, b) in next
          invariant forall p :: p in rest ==> 0 <= p.0 < N && 0 <= p.1 < N
          invariant forall p :: p in next ==> 0 <= p.0 < N && 0 <= p.1 < N
          invariant !added ==> forall p, m :: p in next && 0 <= m < N ==> !(path[p.0, m] && path[m, p.1])
          invariant |next| + |rest| + (if added then 1 else 0) <= |todo|
          decreases |rest|
        {
          var p := rest[|rest| - 1];
          rest := rest[..|rest| - 1];
          label BeforeCall:
          var found := Rederive(p.0, p.1);
          if found {
            added := true;
            ghost var m :| 0 <= m < N && old@BeforeCall(path[p.0, m]) && old@BeforeCall(path[m, p.1]);
            ReachTrans(E, p.0, m, p.1);
          }
          if !path[p.0, p.1] {
            next := next + [p];
          }
        }
        todo := next;
      }
      ghost var S := set a, b | 0 <= a < N && 0 <= b < N && path[a, b] :: (a, b);
      forall a, m, b | (a, m) in E && 0 <= b < N && (m, b) in S
        ensures (a, b) in S
      {
        assert path[a, m] && path[m, b];
        ReachStep(E, a, m, b);
      }
      forall a, b | 0 <= a < N && 0 <= b < N && Reachable(E, a, b)
        ensures path[a, b]
      {
        var w :| IsWalk(E, w) && w[0] == a && w[|w| - 1] == b;
        WalkCovered(E, N, S, w);
      }
    }

    /** Looks for a middle vertex m with path[k, m] and path[m, l]; if found, sets path[k, l]. */
    method Rederive(k: int, l: int) returns (found: bool)
      requires Shaped() && 0 <= k < N && 0 <= l < N
      modifies path
      ensures found <==> exists m :: 0 <= m < N && old(path[k, m]) && old(path[m, l])
      ensures forall a, b :: 0 <= a < N && 0 <= b < N ==>
                path[a, b] == (if a == k && b == l then old(path[a, b]) || found else old(path[a, b]))
    {
      found := false;
      var m := 0;
      while m < N
        invariant 0 <= m <= N
        invariant found <==> exists m' :: 0 <= m' < m && old(path[k, m']) && old(path[m', l])
        invariant forall a, b :: 0 <= a < N && 0 <= b < N ==>
                    path[a, b] == (if a == k && b == l then old(path[a, b]) || found else old(path[a, b]))
      {
        if path[k, m] && path[m, l] {
          path[k, l] := true;
          found := true;
        }
        m := m + 1;
      }
    }

    /**
     * Replaces the edge i -> j by j -> i when the edge is present. The base
     * class does not check for cycles, so the result may contain one.
     */
    method ReverseEdge(i: int, j: int) returns (r: int)
      requires Valid() && Acyclic(Edges) && 0 <= i < N && 0 <= j < N
      modifies Footprint()
      ensures Valid()
      ensures r == (if old((i, j) in Edges) then SUCCESS else FAIL)
      ensures Edges == if old((i, j) in Edges) then old(Edges) - {(i, j)} + {(j, i)} else old(Edges)
    {
      if CanReverseEdge(i, j) {
        var _ := RemoveEdge(i, j);
        r := AddEdge(j, i);
      } else {
        r := FAIL;
      }
    }

    /** The base class can reverse exactly the present edges. */
    function CanReverseEdge(i: int, j: int): (r: bool)
      requires Valid() && 0 <= i < N && 0 <= j < N
      reads Footprint()
      ensures r <==> (i, j) in Edges
    {
      Connected(i, j)
    }

    method SetMark(i: int, val: int)
      requires Shaped() && 0 <= i < N
      modifies mark
      ensures mark[i] == val
      ensures forall v :: 0 <= v < N && v != i ==> mark[v] == old(mark[v])
    {
      mark[i] := val;
    }

    method RemoveMark(i: int)
      requires Shaped() && 0 <= i < N
      modifies mark
      ensures mark[i] == 0
      ensures forall v :: 0 <= v < N && v != i ==> mark[v] == old(mark[v])
    {
      mark[i] := 0;
    }

    method RemoveAllMarks()
      requires Shaped()
      modifies mark
      ensures forall v :: 0 <= v < N ==> mark[v] == 0
    {
      SetAllMarks(0);
    }

    method SetAllMarks(val: int)
      requires Shaped()
      modifies mark
      ensures forall v :: 0 <= v < N ==> mark[v] == val
    {
      var i := 0;
      while i < N
        invariant 0 <= i <= N
        invariant forall v :: 0 <= v < i ==> mark[v] == val
      {
        mark[i] := val;
        i := i + 1;
      }
    }

    function Connected(i: int, j: int): (r: bool)
      requires Valid() && 0 <= i < N && 0 <= j < N
      reads Footprint()
      ensures r <==> (i, j) in Edges
    {
      coincidence[i, j]
    }

    /** Despite its name this reports the same as `Connected`. */
    function NotConnected(i: int, j: int): (r: bool)
      requires Valid() && 0 <= i < N && 0 <= j < N
      reads Footprint()
      ensures r <==> (i, j) in Edges
    {
      coincidence[i, j]
    }

    function ExistsPath(i: int, j: int): (r: bool)
      requires Valid() && 0 <= i < N && 0 <= j < N
      reads Footprint()
      ensures r <==> Reachable(Edges, i, j)
    {
      path[i, j]
    }

    function GetNumIn(i: int): (r: int)
      requires Valid() && 0 <= i < N
      reads Footprint()
      ensures r == |Parents[i]|
      ensures forall a :: a in Parents[i] <==> (a, i) in Edges
    {
      assert ParentsListed(i);
      numIn[i]
    }

    function GetNumOut(i: int): (r: int)
      requires Valid() && 0 <= i < N
      reads Footprint()
      ensures r == |OutEdges(Edges, i)|
    {
      numOut[i]
    }

    function GetMark(i: int): (r: int)
      requires Shaped() && 0 <= i < N
      reads mark
    {
      mark[i]
    }

    function GetNumberOfVertices(): (r: nat)
    {
      N
    }

    /** The filled prefix of row i of parentList: the parents of i, each once. */
    function GetParentList(i: int): (r: seq<int>)
      requires Valid() && 0 <= i < N
      reads Footprint()
      ensures r == Parents[i] && Distinct(r)
      ensures forall a :: a in r <==> (a, i) in Edges
    {
      assert ParentsListed(i);
      seq(numIn[i], k requires 0 <= k < parentList.Length1 reads parentList => parentList[i, k])
    }
  }
  /**
   * An oriented graph that never acquires a cycle: edges are added only when
   * they close no cycle, and a reversal that would close one is undone.
   */
  class AcyclicOrientedGraph {
    const g: OrientedGraph

    ghost function Footprint(): set<object>
    {
      g.Footprint()
    }

    ghost predicate Valid()
      reads Footprint()
    {
      g.Valid() && Acyclic(g.Edges)
    }

    constructor (n: nat)
      ensures Valid() && g.N == n && g.Edges == {}
      ensures forall v :: 0 <= v < n ==> g.numIn[v] == 0 && g.numOut[v] == 0 && g.mark[v] == 0
      ensures fresh(g) && fresh(g.coincidence) && fresh(g.path) && fresh(g.parentList)
      ensures fresh(g.numIn) && fresh(g.numOut) && fresh(g.mark)
    {
      g := new OrientedGraph(n);
      new;
      ReachEmptyAcyclic();
    }

    /** An edge may be added when it is new and j does not reach i, which is exactly when no cycle arises. */
    function CanAddEdge(i: int, j: int): (r: bool)
      requires Valid() && 0 <= i < g.N && 0 <= j < g.N
      reads Footprint()
      ensures r <==> (i, j) !in g.Edges && !Reachable(g.Edges, j, i)
      ensures r <==> (i, j) !in g.Edges && Acyclic(g.Edges + {(i, j)})
      ensures i == j ==> !r
    {
      AcyclicAdd(g.Edges, i, j);
      ReachSelf(g.Edges, i);
      !g.ExistsPath(j, i) && !g.Connected(i, j)
    }

    /** Adds i -> j when `CanAddEdge` allows it; otherwise changes nothing and fails. */
    method AddEdge(i: int, j: int) returns (r: int)
      requires Valid() && 0 <= i < g.N && 0 <= j < g.N
      modifies Footprint()
      ensures Valid()
      ensures r == (if old(CanAddEdge(i, j)) then SUCCESS else FAIL)
      ensures r == SUCCESS ==>
                g.Edges == old(g.Edges) + {(i, j)} &&
                g.Parents == old(g.Parents)[j := old(g.Parents[j]) + [i]] &&
                g.numIn[j] == old(g.numIn[j]) + 1 && g.numOut[i] == old(g.numOut[i]) + 1 &&
                (forall v :: 0 <= v < g.N && v != j ==> g.numIn[v] == old(g.numIn[v])) &&
                (forall v :: 0 <= v < g.N && v != i ==> g.numOut[v] == old(g.numOut[v]))
      ensures r == FAIL ==> unchanged(Footprint())
    {
      if CanAddEdge(i, j) {
        r := g.AddEdge(i, j);
      } else {
        r := FAIL;
      }
    }

    /**
     * Reverses i -> j; when j -> i cannot be added the original edge is put
     * back and the call fails.
     */
    method ReverseEdge(i: int, j: int) returns (r: int)
      requires Valid() && 0 <= i < g.N && 0 <= j < g.N
      modifies Footprint()
      ensures Valid()
      ensures r == SUCCESS <==> (i, j) in old(g.Edges) && !Reachable(old(g.Edges) - {(i, j)}, i, j)
      ensures r == SUCCESS || r == FAIL
      ensures r == SUCCESS ==> g.Edges == old(g.Edges) - {(i, j)} + {(j, i)}
      ensures r == FAIL ==> g.Edges == old(g.Edges)
    {
      if g.Connected(i, j) {
        ghost var E := g.Edges;
        AcyclicNoBackPath(E, i, j);
        var _ := g.RemoveEdge(i, j);
        AcyclicSubset(g.Edges, E);
        assert (j, i) !in g.Edges by {
          if (j, i) in E {
            ReachEdge(E, j, i);
          }
        }
        var ok := AddEdge(j, i);
        if ok == SUCCESS {
          r := SUCCESS;
        } else {
          ReachMono(g.Edges, E, j, i);
          var _ := AddEdge(i, j);
          r := FAIL;
        }
      } else {
        r := FAIL;
      }
    }

    /**
     * Tells whether reversing i -> j would keep the graph acyclic, by removing
     * the edge, asking for a remaining walk i -> j and adding the edge back.
     * Edges and path matrix come back unchanged; i moves to the end of the
     * parent list of j.
     */
    method CanReverseEdge(i: int, j: int) returns (r: int)
      requires Valid() && 0 <= i < g.N && 0 <= j < g.N
      modifies Footprint()
      ensures Valid()
      ensures r == 1 <==> (i, j) in old(g.Edges) && Acyclic(old(g.Edges) - {(i, j)} + {(j, i)})
      ensures r == 0 || r == 1
      ensures g.Edges == old(g.Edges)
      ensures forall a, b :: 0 <= a < g.N && 0 <= b < g.N ==>
                g.path[a, b] == old(g.path[a, b]) && g.coincidence[a, b] == old(g.coincidence[a, b])
      ensures forall v :: 0 <= v < g.N ==> g.numIn[v] == old(g.numIn[v]) && g.numOut[v] == old(g.numOut[v])
      ensures (i, j) in old(g.Edges) ==>
                i in old(g.Parents[j]) &&
                g.Parents == old(g.Parents)[j := RemoveByLast(old(g.Parents[j]), i) + [i]]
    {
      if g.Connected(i, j) {
        ghost var E := g.Edges;
        AcyclicNoBackPath(E, i, j);
        var _ := g.RemoveEdge(i, j);
        AcyclicSubset(g.Edges, E);
        ghost var E1 := g.Edges;
        var result := !g.ExistsPath(i, j);
        AcyclicAdd(E1, j, i);
        ReachMono(E1, E, j, i);
        var _ := AddEdge(i, j);
        assert g.Edges == E;
        r := if result then 1 else 0;
      } else {
        r := FAIL;
      }
    }
  }
}
