/**
 * Walks over a finite edge relation and the reachability they induce.
 * The path matrix of an oriented graph is specified against `Reachable`:
 * l is reachable from k when a possibly empty walk leads from k to l.
 */
module Reachability {

  type Edge = (int, int)

  /** w is a non-empty walk: every consecutive pair of w is an edge of E. */
  ghost predicate IsWalk(E: set<Edge>, w: seq<int>)
  {
    |w| >= 1 && forall t :: 0 <= t < |w| - 1 ==> (w[t], w[t + 1]) in E
  }

  ghost predicate Reachable(E: set<Edge>, a: int, b: int)
  {
    exists w :: IsWalk(E, w) && w[0] == a && w[|w| - 1] == b
  }

  /** No walk of positive length returns to its start. */
  ghost predicate Acyclic(E: set<Edge>)
  {
    (forall e :: e in E ==> e.0 != e.1) &&
    (forall a, b :: Reachable(E, a, b) && Reachable(E, b, a) ==> a == b)
  }

  /** All edges join vertices 0..n-1. */
  ghost predicate Within(E: set<Edge>, n: int)
  {
    forall e :: e in E ==> 0 <= e.0 < n && 0 <= e.1 < n
  }

  lemma WalkTail(E: set<Edge>, w: seq<int>)
    requires IsWalk(E, w) && |w| > 1
    ensures IsWalk(E, w[1..])
  {
    forall t | 0 <= t < |w| - 2
      ensures (w[1..][t], w[1..][t + 1]) in E
    {
      assert (w[t + 1], w[t + 2]) in E;
    }
  }

  lemma ReachSelf(E: set<Edge>, a: int)
    ensures Reachable(E, a, a)
  {
    assert IsWalk(E, [a]);
  }

  lemma FirstStep(E: set<Edge>, w: seq<int>)
    requires IsWalk(E, w)
    ensures |w| > 1 ==> (w[0], w[1]) in E
  {
  }

  lemma WalkEmpty(w: seq<int>)
    requires IsWalk({}, w)
    ensures |w| == 1
  {
    FirstStep({}, w);
  }

  /** Without edges only the empty walks remain. */
  lemma ReachEmpty(a: int, b: int)
    ensures Reachable({}, a, b) <==> a == b
  {
    if Reachable({}, a, b) {
      var w :| IsWalk({}, w) && w[0] == a && w[|w| - 1] == b;
      WalkEmpty(w);
    }
    ReachSelf({}, a);
  }

  lemma ReachEmptyAcyclic()
    ensures Acyclic({})
  {
    forall a, b | Reachable({}, a, b)
      ensures a == b
    {
      ReachEmpty(a, b);
    }
  }

  lemma ReachEdge(E: set<Edge>, a: int, b: int)
    requires (a, b) in E
    ensures Reachable(E, a, b)
  {
    assert IsWalk(E, [a, b]);
  }

  /** A walk extends by one edge at its front. */
  lemma ReachStep(E: set<Edge>, a: int, b: int, c: int)
    requires (a, b) in E && Reachable(E, b, c)
    ensures Reachable(E, a, c)
  {
    var w :| IsWalk(E, w) && w[0] == b && w[|w| - 1] == c;
    var w' := [a] + w;
    assert forall t :: 0 < t < |w'| - 1 ==> w'[t] == w[t - 1] && w'[t + 1] == w[t];
    assert IsWalk(E, w');
  }

  lemma {:induction false} ReachTrans(E: set<Edge>, a: int, b: int, c: int)
    requires Reachable(E, a, b) && Reachable(E, b, c)
    ensures Reachable(E, a, c)
  {
    var w :| IsWalk(E, w) && w[0] == a && w[|w| - 1] == b;
    var v :| IsWalk(E, v) && v[0] == b && v[|v| - 1] == c;
    var u := w + v[1..];
    forall t | 0 <= t < |u| - 1
      ensures (u[t], u[t + 1]) in E
    {
      if t < |w| - 1 {
      } else {
        assert u[t] == v[t - |w| + 1] && u[t + 1] == v[t - |w| + 2];
      }
    }
    assert IsWalk(E, u);
  }

  lemma ReachMono(E: set<Edge>, F: set<Edge>, a: int, b: int)
    requires E <= F
    ensures Reachable(E, a, b) ==> Reachable(F, a, b)
  {
    if Reachable(E, a, b) {
      var w :| IsWalk(E, w) && w[0] == a && w[|w| - 1] == b;
      assert IsWalk(F, w);
    }
  }

  /** A walk over E + {(i, j)} either avoids the new edge or passes i and then j. */
  lemma {:induction false} WalkAfterAdd(E: set<Edge>, i: int, j: int, w: seq<int>)
    requires IsWalk(E + {(i, j)}, w)
    ensures Reachable(E, w[0], w[|w| - 1]) ||
            (Reachable(E, w[0], i) && Reachable(E, j, w[|w| - 1]))
  {
    if |w| == 1 {
      ReachSelf(E, w[0]);
    } else {
      var rest := w[1..];
      WalkTail(E + {(i, j)}, w);
      WalkAfterAdd(E, i, j, rest);
      assert (w[0], w[1]) in E + {(i, j)};
      if (w[0], w[1]) == (i, j) {
        ReachSelf(E, i);
        if Reachable(E, w[1], w[|w| - 1]) {
        }
      } else {
        if Reachable(E, w[1], w[|w| - 1]) {
          ReachStep(E, w[0], w[1], w[|w| - 1]);
        } else {
          ReachStep(E, w[0], w[1], i);
        }
      }
    }
  }

  /** Reachability after adding the edge i -> j. */
  lemma ReachAdd(E: set<Edge>, i: int, j: int, a: int, b: int)
    ensures Reachable(E + {(i, j)}, a, b) <==>
            Reachable(E, a, b) || (Reachable(E, a, i) && Reachable(E, j, b))
  {
    var F := E + {(i, j)};
    if Reachable(F, a, b) {
      var w :| IsWalk(F, w) && w[0] == a && w[|w| - 1] == b;
      WalkAfterAdd(E, i, j, w);
    }
    if Reachable(E, a, b) {
      ReachMono(E, F, a, b);
    }
    if Reachable(E, a, i) && Reachable(E, j, b) {
      ReachMono(E, F, a, i);
      ReachMono(E, F, j, b);
      ReachStep(F, i, j, b);
      ReachTrans(F, a, i, b);
    }
  }

  /** Removing the edge i -> j keeps every pair whose walks need not pass i and then j. */
  lemma ReachRemove(E: set<Edge>, i: int, j: int, a: int, b: int)
    requires Reachable(E, a, b)
    requires !(Reachable(E - {(i, j)}, a, i) && Reachable(E - {(i, j)}, j, b))
    ensures Reachable(E - {(i, j)}, a, b)
  {
    var D := E - {(i, j)};
    ReachMono(E, D + {(i, j)}, a, b);
    ReachAdd(D, i, j, a, b);
  }

  /** Adding i -> j keeps a graph acyclic exactly when j does not reach i. */
  lemma AcyclicAdd(E: set<Edge>, i: int, j: int)
    requires Acyclic(E)
    ensures Acyclic(E + {(i, j)}) <==> !Reachable(E, j, i)
  {
    var F := E + {(i, j)};
    if Reachable(E, j, i) {
      ReachEdge(F, i, j);
      ReachMono(E, F, j, i);
      if i == j {
        assert (i, j) in F;
      } else {
        assert !Acyclic(F);
      }
    } else {
      forall a, b | Reachable(F, a, b) && Reachable(F, b, a)
        ensures a == b
      {
        ReachAdd(E, i, j, a, b);
        ReachAdd(E, i, j, b, a);
        if Reachable(E, a, b) && Reachable(E, b, a) {
        } else if Reachable(E, a, b) {
          ReachTrans(E, j, a, b);
          ReachTrans(E, j, b, i);
        } else if Reachable(E, b, a) {
          ReachTrans(E, j, b, a);
          ReachTrans(E, j, a, i);
        } else {
          ReachTrans(E, j, a, i);
        }
      }
      forall e | e in F
        ensures e.0 != e.1
      {
        if e == (i, j) && i == j {
          ReachSelf(E, i);
        }
      }
    }
  }

  lemma AcyclicSubset(E: set<Edge>, F: set<Edge>)
    requires Acyclic(F) && E <= F
    ensures Acyclic(E)
  {
    forall a, b | Reachable(E, a, b) && Reachable(E, b, a)
      ensures a == b
    {
      ReachMono(E, F, a, b);
      ReachMono(E, F, b, a);
    }
  }

  /** In an acyclic graph no walk leads back over an edge. */
  lemma AcyclicNoBackPath(E: set<Edge>, i: int, j: int)
    requires Acyclic(E) && (i, j) in E
    ensures i != j && !Reachable(E, j, i)
  {
    ReachEdge(E, i, j);
  }

  /** A walk over edges inside 0..n-1 stays inside 0..n-1 (apart from a lone start). */
  lemma WalkWithin(E: set<Edge>, n: int, w: seq<int>, t: int)
    requires Within(E, n) && IsWalk(E, w) && |w| >= 2 && 0 <= t < |w|
    ensures 0 <= w[t] < n
  {
    if t < |w| - 1 {
      assert (w[t], w[t + 1]) in E;
    } else {
      assert (w[t - 1], w[t]) in E;
    }
  }

  /**
   * Closure characterisation: a set S of pairs that holds (a, a) for every
   * vertex below n and is closed under prefixing an edge contains every pair
   * joined by a walk that starts below n.
   */
  lemma {:induction false} WalkCovered(E: set<Edge>, n: int, S: set<Edge>, w: seq<int>)
    requires Within(E, n) && IsWalk(E, w)
    requires 0 <= w[0] < n
    requires forall a :: 0 <= a < n ==> (a, a) in S
    requires forall a, m, b :: (a, m) in E && 0 <= b < n && (m, b) in S ==> (a, b) in S
    ensures (w[0], w[|w| - 1]) in S
    decreases |w|
  {
    if |w| > 1 {
      var rest := w[1..];
      WalkTail(E, w);
      assert (w[0], w[1]) in E;
      WalkCovered(E, n, S, rest);
      WalkWithin(E, n, w, |w| - 1);
    }
  }
}
