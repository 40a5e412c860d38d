/**
 * A node of a decision graph. The graph keeps its nodes in an arena
 * (a sequence addressed by index), so a pointer to a node is its index and
 * NULL is -1; a heap buffer the source leaves unallocated is the empty
 * sequence.
 */
module LabeledTreeNode {
  import opened Bits

  /** The null pointer, for node, item and parent references. */
  const NULL := -1

  /** LEAF (0) and SPLIT (1). */
  datatype Kind = LeafNode | SplitNode

  datatype Node = Node(
    which: Kind,
    depth: int,
    splitLabel: int,
    value0: real,
    value1: real,
    /** index of this leaf's item in the leaf list, or NULL */
    leavesItem: int,
    /** parentLabelCoincidenceVector: the labels split on above this node */
    ancestors: seq<Bit>,
    /** dArrayTmp: the cached gain of a split on each label */
    gains: seq<real>,
    rightValue0: seq<real>,
    rightValue1: seq<real>,
    leftValue0: seq<real>,
    leftValue1: seq<real>,
    /** parent[0..numParents-1] */
    parents: seq<int>,
    left: int,
    right: int)
  {
    /** value[b] */
    function Value(b: Bit): real
    {
      if b == 0 then value0 else value1
    }

    /** The node with value[b] replaced by v. */
    function WithValue(b: Bit, v: real): (r: Node)
      ensures r.Value(b) == v && r.Value(1 - b) == Value(1 - b)
      ensures r == this.(value0 := r.value0, value1 := r.value1)
    {
      if b == 0 then this.(value0 := v) else this.(value1 := v)
    }
  }

  /** No links to other nodes, no leaf-list item and no buffers. */
  predicate Detached(x: Node)
  {
    x.left == NULL && x.right == NULL && x.parents == [] && x.leavesItem == NULL &&
    x.ancestors == [] && x.gains == [] &&
    x.rightValue0 == [] && x.rightValue1 == [] && x.leftValue0 == [] && x.leftValue1 == []
  }

  /** The constructor LabeledTreeNode(type). */
  function NewNode(which: Kind): (r: Node)
    ensures r.which == which && Detached(r)
    ensures r.splitLabel == NULL && r.depth == 0 && r.Value(0) == 0.0 && r.Value(1) == 0.0
  {
    Node(which, 0, NULL, 0.0, 0.0, NULL, [], [], [], [], [], [], [], NULL, NULL)
  }

  /** allocateInstanceIndexEntries(n): a zeroed ancestor vector of length n. */
  function AllocateInstanceIndexEntries(x: Node, n: nat): (r: Node)
    ensures |r.ancestors| == n && forall k :: 0 <= k < n ==> r.ancestors[k] == 0
    ensures r == x.(ancestors := r.ancestors)
  {
    x.(ancestors := ZeroBits(n))
  }
}
