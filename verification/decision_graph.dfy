/**
 * Decision graphs: binary decision diagrams over the positions of a string
 * whose leaves hold frequencies. A split turns a leaf into an inner node with
 * two fresh leaves; a merge fuses two leaves into one, so a node may have
 * several parents. The leaves are also threaded, in a fixed order, on a doubly
 * linked list.
 *
 * Nodes live in an arena `nodes` and list items in an arena `items`; both are
 * addressed by index and NULL is -1. Nothing is ever removed from an arena:
 * a merged-away leaf and its freed list item simply become unreachable.
 *
 * Ghost state: `order` lists the item indices of the leaf list from the head,
 * so that `Leaves()` is the list of leaf nodes in list order; `stamp` and
 * `clock` record when each inner node was split, which bounds every walk
 * (a child of an inner node is a leaf or was split later).
 */
module DecisionGraphs {
  import opened Bits
  import opened LabeledTreeNode
  import opened Collections
  import opened LeafList

  /** The parts of a node that walks, parent lists and the leaf list depend on. */
  predicate SameShape(a: Node, b: Node)
  {
    a.which == b.which && a.splitLabel == b.splitLabel && a.left == b.left && a.right == b.right &&
    a.parents == b.parents && a.leavesItem == b.leavesItem && a.depth == b.depth
  }

  ghost predicate SameShapes(a: seq<Node>, b: seq<Node>)
  {
    |a| == |b| && forall i :: 0 <= i < |a| ==> SameShape(a[i], b[i])
  }

  ghost predicate Under(nodes: seq<Node>, stamp: seq<nat>, p: int, c: int)
    requires |stamp| == |nodes| && 0 <= p < |nodes| && 0 <= c < |nodes|
  {
    nodes[c].which == LeafNode || stamp[p] < stamp[c]
  }

  /** If p is an inner node, both its children are in the arena, each a leaf or split after p. */
  ghost predicate RankedAt(nodes: seq<Node>, stamp: seq<nat>, clock: nat, p: int)
    requires |stamp| == |nodes| && 0 <= p < |nodes|
  {
    nodes[p].which == SplitNode ==>
      0 <= nodes[p].left < |nodes| && 0 <= nodes[p].right < |nodes| && stamp[p] <= clock &&
      Under(nodes, stamp, p, nodes[p].left) && Under(nodes, stamp, p, nodes[p].right)
  }

  /** Every inner node has both children in the arena, each a leaf or split later. */
  ghost predicate Ranked(nodes: seq<Node>, stamp: seq<nat>, clock: nat)
  {
    |stamp| == |nodes| && forall p :: 0 <= p < |nodes| ==> RankedAt(nodes, stamp, clock, p)
  }

  /** Every inner node splits on a position of a string of length n. */
  ghost predicate LabelsBelow(nodes: seq<Node>, n: int)
  {
    forall p :: 0 <= p < |nodes| && nodes[p].which == SplitNode ==> 0 <= nodes[p].splitLabel < n
  }

  ghost function Height(nodes: seq<Node>, stamp: seq<nat>, clock: nat, v: int): nat
    requires Ranked(nodes, stamp, clock) && 0 <= v < |nodes|
  {
    if nodes[v].which == LeafNode then 0
    else
      assert RankedAt(nodes, stamp, clock, v);
      clock + 1 - stamp[v]
  }

  /** The child of inner node v that a string s follows: left iff s is 0 at the label of v. */
  function Child(nodes: seq<Node>, v: int, s: seq<Bit>): int
    requires 0 <= v < |nodes| && 0 <= nodes[v].splitLabel < |s|
  {
    if s[nodes[v].splitLabel] == 0 then nodes[v].left else nodes[v].right
  }

  /** The leaf that s reaches from v. */
  ghost function Route(nodes: seq<Node>, stamp: seq<nat>, clock: nat, v: int, s: seq<Bit>): (r: int)
    requires Ranked(nodes, stamp, clock) && LabelsBelow(nodes, |s|) && 0 <= v < |nodes|
    ensures 0 <= r < |nodes| && nodes[r].which == LeafNode
    decreases Height(nodes, stamp, clock, v)
  {
    if nodes[v].which == LeafNode then v
    else
      assert RankedAt(nodes, stamp, clock, v);
      Route(nodes, stamp, clock, Child(nodes, v, s), s)
  }

  /** Changing payloads only keeps the ranking and the labels. */
  lemma ShapeKeepsRanked(a: seq<Node>, b: seq<Node>, stamp: seq<nat>, clock: nat, n: int)
    requires SameShapes(a, b)
    ensures Ranked(a, stamp, clock) ==> Ranked(b, stamp, clock)
    ensures LabelsBelow(a, n) ==> LabelsBelow(b, n)
  {
    if Ranked(a, stamp, clock) {
      forall p | 0 <= p < |b|
        ensures RankedAt(b, stamp, clock, p)
      {
        assert RankedAt(a, stamp, clock, p) && SameShape(a[p], b[p]);
      }
    }
  }

  /** Walks see only the shape of the nodes. */
  lemma {:induction false} RouteSameShape(a: seq<Node>, b: seq<Node>, stamp: seq<nat>, clock: nat, v: int, s: seq<Bit>)
    requires Ranked(a, stamp, clock) && LabelsBelow(a, |s|) && 0 <= v < |a| && SameShapes(a, b)
    ensures Ranked(b, stamp, clock) && LabelsBelow(b, |s|)
    ensures Route(a, stamp, clock, v, s) == Route(b, stamp, clock, v, s)
    decreases Height(a, stamp, clock, v)
  {
    ShapeKeepsRanked(a, b, stamp, clock, |s|);
    assert SameShape(a[v], b[v]) && RankedAt(a, stamp, clock, v);
    if a[v].which == SplitNode {
      RouteSameShape(a, b, stamp, clock, Child(a, v, s), s);
    }
  }

  /** Two strings that agree on every label met on the way reach the same leaf. */
  lemma {:induction false} RouteAgrees(nodes: seq<Node>, stamp: seq<nat>, clock: nat, v: int, s: seq<Bit>, t: seq<Bit>, labels: set<int>)
    requires Ranked(nodes, stamp, clock) && LabelsBelow(nodes, |s|) && |t| == |s| && 0 <= v < |nodes|
    requires forall p :: 0 <= p < |nodes| && nodes[p].which == SplitNode ==> nodes[p].splitLabel in labels
    requires forall k :: k in labels && 0 <= k < |s| ==> s[k] == t[k]
    ensures Route(nodes, stamp, clock, v, s) == Route(nodes, stamp, clock, v, t)
    decreases Height(nodes, stamp, clock, v)
  {
    if nodes[v].which == SplitNode {
      assert RankedAt(nodes, stamp, clock, v) && Child(nodes, v, s) == Child(nodes, v, t);
      RouteAgrees(nodes, stamp, clock, Child(nodes, v, s), s, t, labels);
    }
  }

  /** A node with each slot that held y now holding x. */
  function Redirect(n: Node, y: int, x: int): (r: Node)
    ensures r.left == (if n.left == y then x else n.left)
    ensures r.right == (if n.right == y then x else n.right)
    ensures r == n.(left := r.left, right := r.right)
  {
    n.(left := if n.left == y then x else n.left, right := if n.right == y then x else n.right)
  }

  /**
   * The redirect of merge as the source writes it: the right slot is set to
   * x whenever the left slot does not hold y.
   */
  function RedirectAsWritten(n: Node, y: int, x: int): (r: Node)
    ensures n.left == y ==> r == n.(left := x)
    ensures n.left != y ==> r == n.(right := x)
  {
    if n.left == y then n.(left := x) else n.(right := x)
  }

  /**
   * A parent whose two slots both hold y keeps y in its right slot under the
   * redirect as written, while Redirect moves both slots to x.
   */
  lemma RedirectAsWrittenKeepsY(n: Node, y: int, x: int)
    requires n.left == y && n.right == y && x != y
    ensures RedirectAsWritten(n, y, x).right == y
    ensures Redirect(n, y, x).left == x && Redirect(n, y, x).right == x
  {
  }

  /**
   * How such a parent arises: P was split into leaves 1 and 2. Merging 2
   * into 1 points both slots of P at 1 (as written and with Redirect alike);
   * merging 1 into another leaf 3 then leaves P.right at 1, a leaf that is
   * no longer listed, unless both slots are redirected.
   */
  lemma MergeSiblingsThenMerge()
    ensures var p := NewNode(SplitNode).(left := 1, right := 2, parents := [0]);
            var q := RedirectAsWritten(p, 2, 1);
            q == Redirect(p, 2, 1) && q.left == 1 && q.right == 1 &&
            RedirectAsWritten(q, 1, 3).right == 1 &&
            Redirect(q, 1, 3).left == 3 && Redirect(q, 1, 3).right == 3
  {
  }

  /** The entries of ys missing from xs, in the order of ys. */
  function Fresh(xs: seq<int>, ys: seq<int>): (r: seq<int>)
  {
    if ys == [] then []
    else Fresh(xs, ys[..|ys| - 1]) + (if ys[|ys| - 1] in xs then [] else [ys[|ys| - 1]])
  }

  /** x's parent list after a merge: its own parents, then y's new ones. */
  function UnionParents(xs: seq<int>, ys: seq<int>): seq<int>
  {
    xs + Fresh(xs, ys)
  }

  lemma {:induction false} FreshMembers(xs: seq<int>, ys: seq<int>)
    ensures forall p :: p in Fresh(xs, ys) <==> p in ys && p !in xs
  {
    if ys != [] {
      FreshMembers(xs, ys[..|ys| - 1]);
      assert ys == ys[..|ys| - 1] + [ys[|ys| - 1]];
    }
  }

  lemma {:induction false} FreshDistinct(xs: seq<int>, ys: seq<int>)
    requires Distinct(ys)
    ensures Distinct(Fresh(xs, ys))
  {
    if ys != [] {
      var init := ys[..|ys| - 1];
      assert Distinct(init);
      FreshDistinct(xs, init);
      FreshMembers(xs, init);
      assert ys[|ys| - 1] !in init;
    }
  }

  /** The merged parent list holds the parents of both, and no duplicates when neither had any. */
  lemma UnionParentsProperties(xs: seq<int>, ys: seq<int>)
    ensures forall p :: p in UnionParents(xs, ys) <==> p in xs || p in ys
    ensures Distinct(xs) && Distinct(ys) ==> Distinct(UnionParents(xs, ys))
    ensures UnionParents(xs, ys)[..|xs|] == xs
  {
    FreshMembers(xs, ys);
    if Distinct(xs) && Distinct(ys) {
      FreshDistinct(xs, ys);
      var u := UnionParents(xs, ys);
      forall p, q | 0 <= p < q < |u| ensures u[p] != u[q] {
        if q >= |xs| && p < |xs| {
          assert u[q] in Fresh(xs, ys);
        } else if p >= |xs| {
          assert u[p] == Fresh(xs, ys)[p - |xs|] && u[q] == Fresh(xs, ys)[q - |xs|];
        }
      }
    }
  }

  /** Whether v occurs in s: the inner search loop of merge. */
  method Occurs(s: seq<int>, v: int) returns (found: bool)
    ensures found <==> v in s
  {
    found := false;
    var j := 0;
    while j < |s|
      invariant 0 <= j <= |s|
      invariant found <==> v in s[..j]
    {
      assert s[..j + 1] == s[..j] + [s[j]];
      if s[j] == v {
        found := true;
      }
      j := j + 1;
    }
    assert s[..j] == s;
  }

  /** The redirect loop of merge: each slot of a node in ps that held y now holds x. */
  method RedirectParents(nodes: seq<Node>, ps: seq<int>, y: int, x: int) returns (r: seq<Node>)
    requires forall t :: 0 <= t < |ps| ==> 0 <= ps[t] < |nodes|
    ensures |r| == |nodes|
    ensures forall p :: 0 <= p < |r| ==> r[p] == if p in ps then Redirect(nodes[p], y, x) else nodes[p]
  {
    r := nodes;
    var i := 0;
    while i < |ps|
      invariant 0 <= i <= |ps| && |r| == |nodes|
      invariant forall p :: 0 <= p < |r| ==> r[p] == if p in ps[..i] then Redirect(nodes[p], y, x) else nodes[p]
    {
      assert ps[..i + 1] == ps[..i] + [ps[i]];
      var p := ps[i];
      if r[p].left == y {
        r := r[p := r[p].(left := x)];
      }
      if r[p].right == y {
        r := r[p := r[p].(right := x)];
      }
      i := i + 1;
    }
    assert ps[..i] == ps;
  }

  /** The counting loop of merge: how many of ys are missing from xs. */
  method CountFresh(xs: seq<int>, ys: seq<int>) returns (n: int)
    ensures n == |Fresh(xs, ys)|
  {
    n := 0;
    var i := 0;
    while i < |ys|
      invariant 0 <= i <= |ys|
      invariant n == |Fresh(xs, ys[..i])|
    {
      assert ys[..i + 1][..i] == ys[..i];
      var found := Occurs(xs, ys[i]);
      if !found {
        n := n + 1;
      }
      i := i + 1;
    }
    assert ys[..i] == ys;
  }

  /** The copying loop of merge: xs followed by the entries of ys it misses. */
  method AppendFresh(xs: seq<int>, ys: seq<int>) returns (grown: seq<int>)
    ensures grown == UnionParents(xs, ys)
  {
    grown := xs;
    var i := 0;
    while i < |ys|
      invariant 0 <= i <= |ys|
      invariant grown == xs + Fresh(xs, ys[..i])
    {
      assert ys[..i + 1][..i] == ys[..i];
      var found := Occurs(xs, ys[i]);
      if !found {
        grown := grown + [ys[i]];
      }
      i := i + 1;
    }
    assert ys[..i] == ys;
  }

  /** The leaf list: L[k] is a leaf whose list item is order[k]. */
  ghost predicate ListedBy(nodes: seq<Node>, L: seq<int>, order: seq<int>)
  {
    |L| == |order| &&
    forall k :: 0 <= k < |L| ==>
      0 <= L[k] < |nodes| && nodes[L[k]].which == LeafNode && nodes[L[k]].leavesItem == order[k]
  }

  /** c is an inner node or a listed leaf. */
  ghost predicate Reaches(nodes: seq<Node>, L: seq<int>, c: int)
  {
    0 <= c < |nodes| && (nodes[c].which == SplitNode || c in L)
  }

  /** If p is an inner node, its children are inner nodes or listed leaves. */
  ghost predicate CoversAt(nodes: seq<Node>, L: seq<int>, p: int)
    requires 0 <= p < |nodes|
  {
    nodes[p].which == SplitNode ==> Reaches(nodes, L, nodes[p].left) && Reaches(nodes, L, nodes[p].right)
  }

  /** The root and every child of an inner node are inner nodes or listed leaves. */
  ghost predicate Covers(nodes: seq<Node>, L: seq<int>, root: int)
  {
    Reaches(nodes, L, root) && forall p :: 0 <= p < |nodes| ==> CoversAt(nodes, L, p)
  }

  /** If p is an inner node, it is a recorded parent of both its children. */
  ghost predicate KnownAt(nodes: seq<Node>, p: int)
    requires 0 <= p < |nodes|
  {
    nodes[p].which == SplitNode ==>
      0 <= nodes[p].left < |nodes| && 0 <= nodes[p].right < |nodes| &&
      p in nodes[nodes[p].left].parents && p in nodes[nodes[p].right].parents
  }

  /** The recorded parents of c are inner nodes. */
  ghost predicate ParentsAt(nodes: seq<Node>, c: int)
    requires 0 <= c < |nodes|
  {
    forall t :: 0 <= t < |nodes[c].parents| ==>
      0 <= nodes[c].parents[t] < |nodes| && nodes[nodes[c].parents[t]].which == SplitNode
  }

  /** Each inner node is a recorded parent of its children, and recorded parents are inner nodes. */
  ghost predicate ParentsKnown(nodes: seq<Node>)
  {
    forall p :: 0 <= p < |nodes| ==> KnownAt(nodes, p) && ParentsAt(nodes, p)
  }

  /** The shape of a decision graph whose listed leaves are L. */
  ghost predicate Sound(nodes: seq<Node>, stamp: seq<nat>, clock: nat, L: seq<int>, root: int)
  {
    0 <= root < |nodes| && Ranked(nodes, stamp, clock) && Covers(nodes, L, root) && ParentsKnown(nodes) &&
    (nodes[root].which == LeafNode ==> |L| == 1)
  }

  /** Changing payloads only keeps a sound graph sound. */
  lemma ShapeKeepsSound(a: seq<Node>, b: seq<Node>, stamp: seq<nat>, clock: nat, L: seq<int>, order: seq<int>, root: int)
    requires SameShapes(a, b)
    ensures Sound(a, stamp, clock, L, root) ==> Sound(b, stamp, clock, L, root)
    ensures ListedBy(a, L, order) ==> ListedBy(b, L, order)
  {
    ShapeKeepsRanked(a, b, stamp, clock, 0);
    if Sound(a, stamp, clock, L, root) {
      forall p | 0 <= p < |b|
        ensures CoversAt(b, L, p) && KnownAt(b, p) && ParentsAt(b, p)
      {
        assert CoversAt(a, L, p) && KnownAt(a, p) && ParentsAt(a, p) && SameShape(a[p], b[p]);
      }
      assert SameShape(a[root], b[root]);
    }
  }

  /**
   * n1 is n0 after splitting leaf x into two fresh leaves, appended at the
   * end of the arena, whose only parent is x.
   */
  ghost predicate SplitNodes(n0: seq<Node>, n1: seq<Node>, x: int, splitLabel: int, newItem: int)
  {
    0 <= x < |n0| && |n1| == |n0| + 2 && n0[x].which == LeafNode &&
    n1[x] == n0[x].(which := SplitNode, splitLabel := splitLabel, left := |n0|, right := |n0| + 1, leavesItem := NULL) &&
    n1[|n0|] == NewNode(LeafNode).(depth := n0[x].depth + 1, parents := [x], leavesItem := n0[x].leavesItem) &&
    n1[|n0| + 1] == NewNode(LeafNode).(depth := n0[x].depth + 1, parents := [x], leavesItem := newItem) &&
    forall i :: 0 <= i < |n0| && i != x ==> n1[i] == n0[i]
  }

  /**
   * The invariant of a decision graph, on its fields: the items form the
   * leaf list, each listed item's leaf points back to it, and the graph is
   * ranked and sound over those leaves.
   */
  ghost predicate Consistent(nodes: seq<Node>, items: seq<Item>, order: seq<int>, head: int, count: int,
                             stamp: seq<nat>, clock: nat, root: int)
  {
    Threaded(items, order, head, count) && ListedBy(nodes, Targets(items, order), order) &&
    Sound(nodes, stamp, clock, Targets(items, order), root)
  }

  /** A listed leaf's item is in the list and points back to it. */
  lemma ListedItem(nodes: seq<Node>, items: seq<Item>, order: seq<int>, head: int, count: int, c: int)
    requires Threaded(items, order, head, count) && ListedBy(nodes, Targets(items, order), order)
    requires c in Targets(items, order)
    ensures 0 <= c < |nodes| && nodes[c].which == LeafNode
    ensures nodes[c].leavesItem in order && items[nodes[c].leavesItem].x == c
    ensures IndexOf(order, nodes[c].leavesItem) == IndexOf(Targets(items, order), c)
  {
    var k := IndexOf(Targets(items, order), c);
    assert nodes[c].leavesItem == order[k];
    var t := IndexOf(order, order[k]);
    assert t == k;
  }

  /** A split ranks its new inner node last. */
  lemma SplitRanked(n0: seq<Node>, n1: seq<Node>, s0: seq<nat>, c0: nat, x: int, splitLabel: int, newItem: int)
    requires Ranked(n0, s0, c0) && SplitNodes(n0, n1, x, splitLabel, newItem)
    ensures Ranked(n1, s0[x := c0 + 1] + [0, 0], c0 + 1)
  {
    var s1, c1 := s0[x := c0 + 1] + [0, 0], c0 + 1;
    forall p | 0 <= p < |n1|
      ensures RankedAt(n1, s1, c1, p)
    {
      if p < |n0| && p != x {
        assert n1[p] == n0[p] && RankedAt(n0, s0, c0, p);
      }
    }
  }

  /** The leaf list after a split, with the two children in place of x. */
  lemma SplitListed(n0: seq<Node>, n1: seq<Node>, L0: seq<int>, o0: seq<int>, x: int, splitLabel: int, k: int, newItem: int)
    requires ListedBy(n0, L0, o0) && SplitNodes(n0, n1, x, splitLabel, newItem)
    requires 0 <= k < |L0| && L0[k] == x
    requires forall t :: 0 <= t < |o0| && t != k ==> o0[t] != o0[k]
    ensures ListedBy(n1, L0[..k] + [|n0|, |n0| + 1] + L0[k + 1..], o0[..k + 1] + [newItem] + o0[k + 1..])
  {
    var L1, o1 := L0[..k] + [|n0|, |n0| + 1] + L0[k + 1..], o0[..k + 1] + [newItem] + o0[k + 1..];
    forall t | 0 <= t < |L1|
      ensures 0 <= L1[t] < |n1| && n1[L1[t]].which == LeafNode && n1[L1[t]].leavesItem == o1[t]
    {
      if t < k {
        assert L1[t] == L0[t] && o1[t] == o0[t] && L0[t] != x;
      } else if t > k + 1 {
        assert L1[t] == L0[t - 1] && o1[t] == o0[t - 1] && L0[t - 1] != x;
      }
    }
  }

  /** A split keeps every child reached and every parent recorded. */
  lemma SplitCovers(n0: seq<Node>, n1: seq<Node>, s0: seq<nat>, c0: nat, L0: seq<int>, root: int, x: int, splitLabel: int, newItem: int, k: int)
    requires Sound(n0, s0, c0, L0, root) && SplitNodes(n0, n1, x, splitLabel, newItem) && 0 <= k < |L0| && L0[k] == x
    ensures var L1 := L0[..k] + [|n0|, |n0| + 1] + L0[k + 1..];
            Covers(n1, L1, root) && ParentsKnown(n1) && n1[root].which == SplitNode
  {
    var l := |n0|;
    var L1 := L0[..k] + [l, l + 1] + L0[k + 1..];
    SpliceMembers(L0, k, l, l + 1);
    assert L1[k] == l && L1[k + 1] == l + 1;
    forall p | 0 <= p < |n1|
      ensures CoversAt(n1, L1, p) && KnownAt(n1, p) && ParentsAt(n1, p)
    {
      if p < l && p != x {
        assert n1[p] == n0[p] && CoversAt(n0, L0, p) && KnownAt(n0, p) && ParentsAt(n0, p);
        forall t | 0 <= t < |n1[p].parents|
          ensures 0 <= n1[p].parents[t] < |n1| && n1[n1[p].parents[t]].which == SplitNode
        {
          assert n0[p].parents[t] != x;
        }
      } else if p == x {
        assert ParentsAt(n0, x);
        forall t | 0 <= t < |n1[x].parents|
          ensures 0 <= n1[x].parents[t] < |n1| && n1[n1[x].parents[t]].which == SplitNode
        {
          assert n0[x].parents[t] != x;
        }
      }
    }
    assert root != x ==> n1[root] == n0[root];
    assert n0[root].which == LeafNode ==> root in L0 && |L0| == 1 && root == L0[0] == x;
  }

  /**
   * split on values: leaf x becomes an inner node on `splitLabel` whose two
   * fresh leaf children are appended to the arena and take x's place in the
   * leaf list. The inner node gets the next rank.
   */
  method SplitArena(n0: seq<Node>, i0: seq<Item>, ghost o0: seq<int>, ghost head: int, ghost count: int,
                    ghost s0: seq<nat>, ghost c0: nat, ghost root: int, x: int, splitLabel: int)
    returns (n1: seq<Node>, i1: seq<Item>, ghost o1: seq<int>)
    requires Consistent(n0, i0, o0, head, count, s0, c0, root) && x in Targets(i0, o0)
    ensures SplitNodes(n0, n1, x, splitLabel, |i0|)
    ensures Consistent(n1, i1, o1, head, count + 1, s0[x := c0 + 1] + [0, 0], c0 + 1, root)
    ensures var L0 := Targets(i0, o0);
            var k := IndexOf(L0, x);
            o1 == o0[..k + 1] + [|i0|] + o0[k + 1..] &&
            Targets(i1, o1) == L0[..k] + [|n0|, |n0| + 1] + L0[k + 1..]
  {
    ListedItem(n0, i0, o0, head, count, x);
    ghost var L0 := Targets(i0, o0);
    ghost var k := IndexOf(L0, x);
    var l := |n0|;
    var child := NewNode(LeafNode).(depth := n0[x].depth + 1, parents := [x]);
    var mid := n0[x := n0[x].(splitLabel := splitLabel, which := SplitNode, left := l, right := l + 1)] + [child, child];
    assert mid[x].leavesItem == n0[x].leavesItem && mid[x].left == l && mid[x].right == l + 1;
    n1, i1 := UpdateLeavesAfterSplit(mid, i0, o0, head, count, x);
    ghost var L1 := L0[..k] + [l, l + 1] + L0[k + 1..];
    o1 := o0[..k + 1] + [|i0|] + o0[k + 1..];
    assert SplitNodes(n0, n1, x, splitLabel, |i0|);
    assert Threaded(i1, o1, head, count + 1) && Targets(i1, o1) == L1;
    assert Sound(n1, s0[x := c0 + 1] + [0, 0], c0 + 1, L1, root) && ListedBy(n1, L1, o1) by {
      OthersDiffer(i0, o0, head, count, k);
      SplitRanked(n0, n1, s0, c0, x, splitLabel, |i0|);
      SplitListed(n0, n1, L0, o0, x, splitLabel, k, |i0|);
      SplitCovers(n0, n1, s0, c0, L0, root, x, splitLabel, |i0|, k);
    }
  }

  /**
   * updateLeavesAfterSplit: x's item now holds x's left child, a new item
   * right after it holds the right child, and the list grows by one.
   */
  method UpdateLeavesAfterSplit(nodes: seq<Node>, items: seq<Item>, ghost order: seq<int>, ghost head: int, ghost count: int, x: int)
    returns (n1: seq<Node>, i1: seq<Item>)
    requires Threaded(items, order, head, count) && 0 <= x < |nodes|
    requires nodes[x].leavesItem in order && items[nodes[x].leavesItem].x == x
    requires 0 <= nodes[x].left < |nodes| && 0 <= nodes[x].right < |nodes|
    requires nodes[x].left != nodes[x].right && nodes[x].left != x && nodes[x].right != x
    ensures var it := nodes[x].leavesItem;
            var k := IndexOf(order, it);
            var o1 := order[..k + 1] + [|items|] + order[k + 1..];
            Threaded(i1, o1, head, count + 1) &&
            Targets(i1, o1) == Targets(items, order)[..k] + [nodes[x].left, nodes[x].right] + Targets(items, order)[k + 1..]
    ensures var l, r := nodes[x].left, nodes[x].right;
            n1 == nodes[x := nodes[x].(leavesItem := NULL)]
                       [l := nodes[l].(leavesItem := nodes[x].leavesItem)]
                       [r := nodes[r].(leavesItem := |items|)]
  {
    var item := nodes[x].leavesItem;
    var l, r := nodes[x].left, nodes[x].right;
    var newItem;
    i1, newItem := InsertItemAfter(items, order, head, count, item, l, r);
    n1 := nodes[x := nodes[x].(leavesItem := NULL)][l := nodes[l].(leavesItem := item)][r := nodes[r].(leavesItem := newItem)];
  }

  /**
   * n1 is n0 after merging leaf y into leaf x: every slot of a recorded parent
   * of y that held y holds x, and x also records y's parents.
   */
  ghost predicate MergedNodes(n0: seq<Node>, n1: seq<Node>, x: int, y: int)
  {
    |n1| == |n0| && 0 <= x < |n0| && 0 <= y < |n0| &&
    n1[x] == n0[x].(parents := UnionParents(n0[x].parents, n0[y].parents)) &&
    forall p :: 0 <= p < |n0| && p != x ==>
      n1[p] == if p in n0[y].parents then Redirect(n0[p], y, x) else n0[p]
  }

  /**
   * The node part of merge: the redirect loop, then x's parent list grown by
   * the parents of y it lacks (counted first, then copied).
   */
  method MergeNodes(n0: seq<Node>, x: int, y: int) returns (n1: seq<Node>)
    requires 0 <= x < |n0| && 0 <= y < |n0| && x !in n0[y].parents
    requires forall t :: 0 <= t < |n0[y].parents| ==> 0 <= n0[y].parents[t] < |n0|
    ensures MergedNodes(n0, n1, x, y)
  {
    var ps := n0[y].parents;
    var redirected := RedirectParents(n0, ps, y, x);
    var xs := n0[x].parents;
    var newParents := CountFresh(xs, ps);
    var grown := AppendFresh(xs, ps);
    assert |grown| == |xs| + newParents;
    n1 := redirected[x := redirected[x].(parents := grown)];
  }

  /** What a merge keeps and changes at node p. */
  lemma MergedAt(n0: seq<Node>, n1: seq<Node>, x: int, y: int, p: int)
    requires MergedNodes(n0, n1, x, y) && n0[x].which == LeafNode && 0 <= p < |n0|
    ensures n1[p].which == n0[p].which && n1[p].leavesItem == n0[p].leavesItem
    ensures p != x ==> n1[p].parents == n0[p].parents
    ensures n0[p].which == SplitNode ==>
              n1[p].left == (if n0[p].left == y && p in n0[y].parents then x else n0[p].left) &&
              n1[p].right == (if n0[p].right == y && p in n0[y].parents then x else n0[p].right)
  {
  }

  /** A merge keeps the ranking: a redirected slot now holds the leaf x. */
  lemma MergeRanked(n0: seq<Node>, n1: seq<Node>, s: seq<nat>, c: nat, x: int, y: int)
    requires Ranked(n0, s, c) && MergedNodes(n0, n1, x, y) && n0[x].which == LeafNode
    ensures Ranked(n1, s, c)
  {
    forall p | 0 <= p < |n1|
      ensures RankedAt(n1, s, c, p)
    {
      MergedAt(n0, n1, x, y, p);
      if n0[p].which == SplitNode {
        assert RankedAt(n0, s, c, p);
        MergedAt(n0, n1, x, y, n0[p].left);
        MergedAt(n0, n1, x, y, n0[p].right);
      }
    }
  }

  /** The leaf list after a merge, without y. */
  lemma MergeListed(n0: seq<Node>, n1: seq<Node>, L0: seq<int>, o0: seq<int>, x: int, y: int, k: int)
    requires ListedBy(n0, L0, o0) && MergedNodes(n0, n1, x, y) && n0[x].which == LeafNode && 0 <= k < |L0|
    ensures ListedBy(n1, L0[..k] + L0[k + 1..], o0[..k] + o0[k + 1..])
  {
    var L1, o1 := L0[..k] + L0[k + 1..], o0[..k] + o0[k + 1..];
    forall t | 0 <= t < |L1|
      ensures 0 <= L1[t] < |n1| && n1[L1[t]].which == LeafNode && n1[L1[t]].leavesItem == o1[t]
    {
      var u := if t < k then t else t + 1;
      assert L1[t] == L0[u] && o1[t] == o0[u];
      MergedAt(n0, n1, x, y, L0[u]);
    }
  }

  /** The recorded parents of x after a merge are inner nodes. */
  lemma MergeParentsOfX(n0: seq<Node>, n1: seq<Node>, x: int, y: int)
    requires ParentsKnown(n0) && MergedNodes(n0, n1, x, y) && n0[x].which == LeafNode
    ensures ParentsAt(n1, x)
  {
    UnionParentsProperties(n0[x].parents, n0[y].parents);
    assert ParentsAt(n0, x) && ParentsAt(n0, y);
    forall t | 0 <= t < |n1[x].parents|
      ensures 0 <= n1[x].parents[t] < |n1| && n1[n1[x].parents[t]].which == SplitNode
    {
      var q := n1[x].parents[t];
      assert q in n0[x].parents || q in n0[y].parents;
      MergedAt(n0, n1, x, y, q);
    }
  }

  /** A merge keeps every child reached and every parent recorded, and no slot holds y. */
  lemma MergeCovers(n0: seq<Node>, n1: seq<Node>, s: seq<nat>, c: nat, L0: seq<int>, root: int, x: int, y: int, k: int)
    requires Sound(n0, s, c, L0, root) && MergedNodes(n0, n1, x, y)
    requires 0 <= k < |L0| && L0[k] == y && x in L0 && x != y
    requires n0[x].which == LeafNode && n0[y].which == LeafNode
    ensures var L1 := L0[..k] + L0[k + 1..];
            Covers(n1, L1, root) && ParentsKnown(n1) && n1[root].which == SplitNode
    ensures forall p :: 0 <= p < |n1| && n1[p].which == SplitNode ==> n1[p].left != y && n1[p].right != y
  {
    var L1 := L0[..k] + L0[k + 1..];
    DropMembers(L0, k);
    UnionParentsProperties(n0[x].parents, n0[y].parents);
    assert x in L1;
    forall p | 0 <= p < |n1|
      ensures CoversAt(n1, L1, p) && KnownAt(n1, p)
      ensures n1[p].which == SplitNode ==> n1[p].left != y && n1[p].right != y
    {
      MergedAt(n0, n1, x, y, p);
      if n0[p].which == SplitNode {
        assert CoversAt(n0, L0, p) && KnownAt(n0, p);
        var l, r := n0[p].left, n0[p].right;
        MergedAt(n0, n1, x, y, l);
        MergedAt(n0, n1, x, y, r);
        assert l == y || r == y ==> p in n0[y].parents;
        assert l != y ==> Reaches(n1, L1, l);
        assert r != y ==> Reaches(n1, L1, r);
      }
    }
    forall p | 0 <= p < |n1|
      ensures ParentsAt(n1, p)
    {
      if p == x {
        MergeParentsOfX(n0, n1, x, y);
      } else {
        MergedAt(n0, n1, x, y, p);
        assert ParentsAt(n0, p);
        forall t | 0 <= t < |n1[p].parents|
          ensures 0 <= n1[p].parents[t] < |n1| && n1[n1[p].parents[t]].which == SplitNode
        {
          MergedAt(n0, n1, x, y, n0[p].parents[t]);
        }
      }
    }
    MergedAt(n0, n1, x, y, root);
    assert n0[root].which == SplitNode by {
      assert n0[root].which == LeafNode ==> |L0| == 1;
    }
  }

  /**
   * merge on values: updateLeavesBeforeMerge, then the node part. The
   * redirect covers both slots of a parent holding y; see README, Findings.
   */
  method MergeArena(n0: seq<Node>, i0: seq<Item>, ghost o0: seq<int>, h0: int, ghost count: int,
                    ghost s: seq<nat>, ghost c: nat, ghost root: int, x: int, y: int)
    returns (n1: seq<Node>, i1: seq<Item>, h1: int, ghost o1: seq<int>)
    requires Consistent(n0, i0, o0, h0, count, s, c, root)
    requires x in Targets(i0, o0) && y in Targets(i0, o0) && x != y
    ensures MergedNodes(n0, n1, x, y)
    ensures Consistent(n1, i1, o1, h1, count - 1, s, c, root)
    ensures var L0 := Targets(i0, o0);
            var k := IndexOf(L0, y);
            o1 == o0[..k] + o0[k + 1..] && Targets(i1, o1) == L0[..k] + L0[k + 1..]
    ensures forall p :: 0 <= p < |n1| && n1[p].which == SplitNode ==> n1[p].left != y && n1[p].right != y
  {
    ghost var L0 := Targets(i0, o0);
    ghost var k := IndexOf(L0, y);
    var mid;
    mid, i1, h1 := UpdateLeavesBeforeMerge(n0, i0, o0, h0, count, x, y);
    ListedItem(n0, i0, o0, h0, count, x);
    assert ParentsAt(n0, y) && n0[x].which == LeafNode;
    n1 := MergeNodes(n0, x, y);
    ghost var L1 := L0[..k] + L0[k + 1..];
    o1 := o0[..k] + o0[k + 1..];
    assert Threaded(i1, o1, h1, count - 1) && Targets(i1, o1) == L1;
    assert Sound(n1, s, c, L1, root) && ListedBy(n1, L1, o1) &&
           forall p :: 0 <= p < |n1| && n1[p].which == SplitNode ==> n1[p].left != y && n1[p].right != y
    by {
      MergeRanked(n0, n1, s, c, x, y);
      MergeListed(n0, n1, L0, o0, x, y, k);
      MergeCovers(n0, n1, s, c, L0, root, x, y, k);
    }
  }

  /**
   * updateLeavesBeforeMerge: unlinks y's item from the leaf list (moving
   * the head when y was first) and shortens the list by one; x keeps its item.
   */
  method UpdateLeavesBeforeMerge(nodes: seq<Node>, items: seq<Item>, ghost order: seq<int>, head: int, ghost count: int, x: int, y: int)
    returns (n1: seq<Node>, i1: seq<Item>, newHead: int)
    requires Threaded(items, order, head, count) && ListedBy(nodes, Targets(items, order), order)
    requires x in Targets(items, order) && y in Targets(items, order) && x != y
    ensures n1 == nodes
    ensures var k := IndexOf(Targets(items, order), y);
            var o1 := order[..k] + order[k + 1..];
            Threaded(i1, o1, newHead, count - 1) && Targets(i1, o1) == Targets(items, order)[..k] + Targets(items, order)[k + 1..]
  {
    ListedItem(nodes, items, order, head, count, x);
    ListedItem(nodes, items, order, head, count, y);
    var xItem := nodes[x].leavesItem;
    var yItem := nodes[y].leavesItem;
    n1 := nodes[x := nodes[x].(leavesItem := xItem)];
    i1 := items[xItem := items[xItem].(x := x)];
    assert n1 == nodes && i1 == items;
    i1, newHead := UnlinkItem(i1, order, head, count, yItem);
  }

  class DecisionGraph {
    var nodes: seq<Node>
    var items: seq<Item>
    /** the head of the leaf list */
    var leaves: int
    var numLeaves: int
    const root: int
    var iter: int
    var leafIterator: int
    ghost var order: seq<int>
    ghost var stamp: seq<nat>
    ghost var clock: nat

    /** The items in `order` form a doubly linked list headed by `leaves`, of length `numLeaves`. */
    ghost predicate Linked()
      reads this`items, this`order, this`leaves, this`numLeaves
    {
      Threaded(items, order, leaves, numLeaves)
    }

    /** The listed leaves in list order. */
    ghost function Leaves(): seq<int>
      reads this`items, this`order, this`leaves, this`numLeaves
      requires Linked()
    {
      Targets(items, order)
    }

    /** Each listed item points to a leaf that points back to the item. */
    ghost predicate LeavesListed()
      reads this
      requires Linked()
    {
      ListedBy(nodes, Leaves(), order)
    }

    ghost predicate Reached(c: int)
      reads this
      requires Linked() && 0 <= c < |nodes|
    {
      Reaches(nodes, Leaves(), c)
    }

    ghost predicate Valid()
      reads this`nodes, this`items, this`order, this`leaves, this`numLeaves, this`stamp, this`clock
    {
      Consistent(nodes, items, order, leaves, numLeaves, stamp, clock, root)
    }

    constructor ()
      ensures Valid() && root == 0 && nodes == [NewNode(LeafNode).(leavesItem := 0)]
      ensures Leaves() == [root] && numLeaves == 1
      ensures iter == root && leafIterator == leaves
    {
      var r := NewNode(LeafNode);
      root := 0;
      numLeaves := 1;
      items := [Item(0, NULL, NULL)];
      leaves := 0;
      nodes := [r.(leavesItem := 0)];
      order := [0];
      stamp := [0];
      clock := 0;
      new;
      assert Leaves()[0] == root;
      IteratorGoToRoot();
      ResetLeafIterator();
    }

    /** Distinct items point to distinct leaves. */
    lemma LeavesDistinct()
      requires Valid()
      ensures Distinct(Leaves())
      ensures forall k :: 0 <= k < |order| ==> Leaves()[k] in Leaves() && 0 <= Leaves()[k] < |nodes| && nodes[Leaves()[k]].which == LeafNode
    {
      var L := Leaves();
      forall p, q | 0 <= p < q < |L| ensures L[p] != L[q] {
        ThreadedDistinct(items, order, leaves, numLeaves, p, q);
        assert nodes[L[p]].leavesItem == order[p];
        assert nodes[L[q]].leavesItem == order[q];
      }
    }

    /** A listed leaf's item is in the list and points back to it. */
    lemma ItemOf(c: int)
      requires Linked() && LeavesListed() && c in Leaves()
      ensures 0 <= c < |nodes| && nodes[c].which == LeafNode
      ensures nodes[c].leavesItem in order && items[nodes[c].leavesItem].x == c
      ensures IndexOf(order, nodes[c].leavesItem) == IndexOf(Leaves(), c)
    {
      ListedItem(nodes, items, order, leaves, numLeaves, c);
    }

    /** The walk from any reached node, and so from the root, ends at a listed leaf. */
    lemma {:induction false} RouteListed(v: int, s: seq<Bit>)
      requires Valid() && LabelsBelow(nodes, |s|) && 0 <= v < |nodes| && Reached(v)
      ensures Route(nodes, stamp, clock, v, s) in Leaves()
      decreases Height(nodes, stamp, clock, v)
    {
      if nodes[v].which == SplitNode {
        assert RankedAt(nodes, stamp, clock, v) && CoversAt(nodes, Leaves(), v);
        RouteListed(Child(nodes, v, s), s);
      }
    }

    /** Some leaf is always listed. */
    lemma {:induction false} SomeLeafListed(v: int)
      requires Valid() && 0 <= v < |nodes| && Reached(v)
      ensures |Leaves()| > 0
      decreases Height(nodes, stamp, clock, v)
    {
      if nodes[v].which == SplitNode {
        assert RankedAt(nodes, stamp, clock, v) && CoversAt(nodes, Leaves(), v);
        SomeLeafListed(nodes[v].left);
      }
    }

    function GetRoot(): (r: int)
      reads this
      requires Valid()
      ensures 0 <= r < |nodes| && Reached(r)
    {
      root
    }

    function GetNumLeaves(): (r: int)
      reads this
      requires Valid()
      ensures r == |Leaves()| && r >= 1
    {
      SomeLeafListed(root);
      numLeaves
    }

    function GetValue(x: int, which: Bit): (r: real)
      reads this
      requires 0 <= x < |nodes|
    {
      nodes[x].Value(which)
    }

    /** Replaces the payload of node x (values, ancestor vector, caches), keeping its links. */
    method SetPayload(x: int, v: Node)
      requires Valid() && 0 <= x < |nodes| && SameShape(nodes[x], v)
      modifies this`nodes
      ensures Valid() && nodes == old(nodes)[x := v]
      ensures SameShapes(old(nodes), nodes) && Leaves() == old(Leaves())
    {
      ghost var n0 := nodes;
      nodes := nodes[x := v];
      assert SameShapes(n0, nodes);
      ShapeKeepsSound(n0, nodes, stamp, clock, Leaves(), order, root);
    }

    /** setValue: value[which] of node x becomes value. */
    method SetValue(x: int, value: real, which: Bit)
      requires Valid() && 0 <= x < |nodes|
      modifies this`nodes
      ensures Valid() && nodes == old(nodes)[x := old(nodes[x]).WithValue(which, value)]
      ensures SameShapes(old(nodes), nodes) && Leaves() == old(Leaves())
    {
      SetPayload(x, nodes[x].WithValue(which, value));
    }

    /**
     * split: leaf x becomes an inner node on `splitLabel` with two fresh leaf
     * children, which take x's place in the leaf list.
     */
    method Split(x: int, splitLabel: int)
      requires Valid() && x in Leaves()
      modifies this`nodes, this`stamp, this`clock, this`items, this`numLeaves, this`order
      ensures Valid() && SplitNodes(old(nodes), nodes, x, splitLabel, old(|items|))
      ensures var k := IndexOf(old(Leaves()), x);
              Leaves() == old(Leaves())[..k] + [old(|nodes|), old(|nodes|) + 1] + old(Leaves())[k + 1..]
      ensures numLeaves == old(numLeaves) + 1
    {
      var n1, i1, o1 := SplitArena(nodes, items, order, leaves, numLeaves, stamp, clock, root, x, splitLabel);
      nodes, items, numLeaves, order, stamp, clock := n1, i1, numLeaves + 1, o1, stamp[x := clock + 1] + [0, 0], clock + 1;
    }

    /**
     * merge: fuses leaf y into leaf x. y leaves the leaf list, every slot of
     * a parent of y that held y now holds x, and x inherits y's parents.
     */
    method Merge(x: int, y: int)
      requires Valid() && x in Leaves() && y in Leaves() && x != y
      modifies this`items, this`nodes, this`leaves, this`numLeaves, this`order
      ensures Valid() && MergedNodes(old(nodes), nodes, x, y)
      ensures var k := IndexOf(old(Leaves()), y);
              Leaves() == old(Leaves())[..k] + old(Leaves())[k + 1..]
      ensures numLeaves == old(numLeaves) - 1
      ensures forall p :: 0 <= p < |nodes| && nodes[p].which == SplitNode ==> nodes[p].left != y && nodes[p].right != y
    {
      var n1, i1, h1, o1 := MergeArena(nodes, items, order, leaves, numLeaves, stamp, clock, root, x, y);
      nodes, items, leaves, numLeaves, order := n1, i1, h1, numLeaves - 1, o1;
    }

    method IteratorGoToRoot()
      modifies this`iter
      ensures iter == root
    {
      IteratorGoTo(root);
    }

    method IteratorGoTo(x: int)
      modifies this`iter
      ensures iter == x
    {
      iter := x;
    }

    method IteratorGoLeft()
      requires 0 <= iter < |nodes|
      modifies this`iter
      ensures iter == nodes[old(iter)].left
    {
      iter := nodes[iter].left;
    }

    method IteratorGoRight()
      requires 0 <= iter < |nodes|
      modifies this`iter
      ensures iter == nodes[old(iter)].right
    {
      iter := nodes[iter].right;
    }

    /** iteratorFollowInstance: descends from the iter to the leaf that s reaches. */
    method IteratorFollowInstance(s: seq<Bit>)
      requires Valid() && LabelsBelow(nodes, |s|) && 0 <= iter < |nodes|
      modifies this`iter
      ensures iter == Route(nodes, stamp, clock, old(iter), s)
      ensures Reached(old(iter)) ==> iter in Leaves()
    {
      RouteListedFrom(iter, s);
      while nodes[iter].which != LeafNode
        invariant 0 <= iter < |nodes|
        invariant Route(nodes, stamp, clock, iter, s) == Route(nodes, stamp, clock, old(iter), s)
        decreases Height(nodes, stamp, clock, iter)
      {
        assert RankedAt(nodes, stamp, clock, iter);
        if s[nodes[iter].splitLabel] == 0 {
          IteratorGoLeft();
        } else {
          IteratorGoRight();
        }
      }
    }

    lemma RouteListedFrom(v: int, s: seq<Bit>)
      requires Valid() && LabelsBelow(nodes, |s|) && 0 <= v < |nodes|
      ensures Reached(v) ==> Route(nodes, stamp, clock, v, s) in Leaves()
    {
      if Reached(v) {
        RouteListed(v, s);
      }
    }

    /** iteratorFollowInstanceFromRoot: the iter ends at the listed leaf that s reaches from the root. */
    method IteratorFollowInstanceFromRoot(s: seq<Bit>)
      requires Valid() && LabelsBelow(nodes, |s|)
      modifies this`iter
      ensures iter == Route(nodes, stamp, clock, root, s) && iter in Leaves()
    {
      iter := root;
      IteratorFollowInstance(s);
    }

    /** The walk of computeFrequencies and computeSplitFrequencies, on a local pointer. */
    method Descend(s: seq<Bit>) returns (v: int)
      requires Valid() && LabelsBelow(nodes, |s|)
      ensures v == Route(nodes, stamp, clock, root, s) && v in Leaves()
    {
      RouteListed(root, s);
      v := root;
      while nodes[v].which != LeafNode
        invariant 0 <= v < |nodes|
        invariant Route(nodes, stamp, clock, v, s) == Route(nodes, stamp, clock, root, s)
        decreases Height(nodes, stamp, clock, v)
      {
        assert RankedAt(nodes, stamp, clock, v);
        if s[nodes[v].splitLabel] == 0 {
          v := nodes[v].left;
        } else {
          v := nodes[v].right;
        }
      }
    }

    method ResetLeafIterator()
      modifies this`leafIterator
      ensures leafIterator == leaves
    {
      leafIterator := leaves;
    }

    /** leafIteratorNext: -1 on a NULL iter, else 0 after moving to the next item. */
    method LeafIteratorNext() returns (r: int)
      requires Linked() && (leafIterator == NULL || leafIterator in order)
      modifies this`leafIterator
      ensures old(leafIterator) == NULL ==> r == -1 && leafIterator == NULL
      ensures old(leafIterator) != NULL ==> r == 0 && leafIterator == Successor(order, old(leafIterator))
    {
      if leafIterator == NULL {
        return -1;
      }
      ghost var k := IndexOf(order, leafIterator);
      assert LinkAt(items, order, k);
      leafIterator := items[leafIterator].next;
      return 0;
    }

    /** leafIteratorPrevious: -1 on a NULL iter, else 0 after moving to the previous item. */
    method LeafIteratorPrevious() returns (r: int)
      requires Linked() && (leafIterator == NULL || leafIterator in order)
      modifies this`leafIterator
      ensures old(leafIterator) == NULL ==> r == -1 && leafIterator == NULL
      ensures old(leafIterator) != NULL ==> r == 0 && leafIterator == Predecessor(order, old(leafIterator))
    {
      if leafIterator == NULL {
        return -1;
      }
      ghost var k := IndexOf(order, leafIterator);
      assert LinkAt(items, order, k);
      leafIterator := items[leafIterator].previous;
      return 0;
    }

    /** getLeafIteratorNode: the leaf the current item points to. */
    function GetLeafIteratorNode(): (r: int)
      reads this
      requires Valid() && leafIterator in order
      ensures r in Leaves() && r == Leaves()[IndexOf(order, leafIterator)]
    {
      items[leafIterator].x
    }
  }
}
