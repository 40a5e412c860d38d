/**
 * The leaf list of a decision graph: a doubly linked list of items kept in
 * an arena `items` and addressed by index, NULL being -1. Its contents are
 * described by `order`, the item indices from the head to the tail.
 */
module LeafList {
  import opened LabeledTreeNode
  import opened Collections

  /** NodeListItem: an entry of the leaf list, pointing to leaf x. */
  datatype Item = Item(x: int, previous: int, next: int)

  /** The k-th listed item links to its neighbours in the list. */
  ghost predicate LinkAt(items: seq<Item>, order: seq<int>, k: int)
    requires 0 <= k < |order| && 0 <= order[k] < |items|
  {
    items[order[k]].next == (if k + 1 < |order| then order[k + 1] else NULL) &&
    items[order[k]].previous == (if k > 0 then order[k - 1] else NULL)
  }

  /** The items in `order` are doubly linked from `head`, and there are `count` of them. */
  ghost predicate Threaded(items: seq<Item>, order: seq<int>, head: int, count: int)
  {
    (forall k :: 0 <= k < |order| ==> 0 <= order[k] < |items|) &&
    (forall k :: 0 <= k < |order| ==> LinkAt(items, order, k)) &&
    head == (if |order| > 0 then order[0] else NULL) &&
    count == |order|
  }

  /** Following next pointers never revisits an item: the listed items are distinct. */
  lemma {:induction false} ThreadedDistinct(items: seq<Item>, order: seq<int>, head: int, count: int, p: int, q: int)
    requires Threaded(items, order, head, count) && 0 <= p < q < |order|
    ensures order[p] != order[q]
    decreases |order| - q
  {
    assert LinkAt(items, order, p) && LinkAt(items, order, q);
    if q + 1 < |order| {
      ThreadedDistinct(items, order, head, count, p + 1, q + 1);
    }
  }

  lemma AllDistinct(items: seq<Item>, order: seq<int>, head: int, count: int)
    requires Threaded(items, order, head, count)
    ensures forall p, q :: 0 <= p < q < |order| ==> order[p] != order[q]
  {
    forall p, q | 0 <= p < q < |order| ensures order[p] != order[q] {
      ThreadedDistinct(items, order, head, count, p, q);
    }
  }

  /** No other listed item is the k-th one. */
  lemma OthersDiffer(items: seq<Item>, order: seq<int>, head: int, count: int, k: int)
    requires Threaded(items, order, head, count) && 0 <= k < |order|
    ensures forall t :: 0 <= t < |order| && t != k ==> order[t] != order[k]
  {
    forall t | 0 <= t < |order| && t != k
      ensures order[t] != order[k]
    {
      if t < k {
        ThreadedDistinct(items, order, head, count, t, k);
      } else {
        ThreadedDistinct(items, order, head, count, k, t);
      }
    }
  }

  /** The nodes the listed items point to, in list order. */
  ghost function Targets(items: seq<Item>, order: seq<int>): (r: seq<int>)
    requires forall k :: 0 <= k < |order| ==> 0 <= order[k] < |items|
    ensures |r| == |order| && forall k :: 0 <= k < |order| ==> r[k] == items[order[k]].x
  {
    seq(|order|, k requires 0 <= k < |order| => items[order[k]].x)
  }

  /** The successor of item it in the list, or NULL after the last one. */
  ghost function Successor(order: seq<int>, it: int): int
    requires it in order
  {
    var k := IndexOf(order, it);
    if k + 1 < |order| then order[k + 1] else NULL
  }

  /** The predecessor of item it in the list, or NULL before the first one. */
  ghost function Predecessor(order: seq<int>, it: int): int
    requires it in order
  {
    var k := IndexOf(order, it);
    if k > 0 then order[k - 1] else NULL
  }

  /** The order after inserting m right after position k, slot by slot. */
  lemma InsertOrder(o0: seq<int>, k: int, m: int)
    requires 0 <= k < |o0|
    ensures var o1 := o0[..k + 1] + [m] + o0[k + 1..];
            |o1| == |o0| + 1 &&
            forall t :: 0 <= t < |o1| ==> o1[t] == if t <= k then o0[t] else if t == k + 1 then m else o0[t - 1]
  {
  }

  /** The order after removing position k, slot by slot. */
  lemma RemoveOrder(o0: seq<int>, k: int)
    requires 0 <= k < |o0|
    ensures var o1 := o0[..k] + o0[k + 1..];
            |o1| == |o0| - 1 &&
            forall t :: 0 <= t < |o1| ==> o1[t] == if t < k then o0[t] else o0[t + 1]
  {
  }

  /** The requirements on the items after inserting, behind the k-th item, a new item holding r. */
  ghost predicate Inserted(i0: seq<Item>, o0: seq<int>, k: int, l: int, r: int, i1: seq<Item>)
    requires 0 <= k < |o0| && 0 <= o0[k] < |i0|
  {
    |i1| == |i0| + 1 &&
    i1[|i0|] == Item(r, o0[k], i0[o0[k]].next) &&
    i1[o0[k]] == Item(l, i0[o0[k]].previous, |i0|) &&
    (0 <= i0[o0[k]].next < |i0| ==> i1[i0[o0[k]].next] == i0[i0[o0[k]].next].(previous := |i0|)) &&
    forall j :: 0 <= j < |i0| && j != o0[k] && j != i0[o0[k]].next ==> i1[j] == i0[j]
  }

  /** o1 is o0 with m inserted right after its k-th entry, slot by slot. */
  ghost predicate Spliced(o0: seq<int>, k: int, m: int, o1: seq<int>)
  {
    |o1| == |o0| + 1 && 0 <= k < |o0| &&
    forall s {:trigger o1[s]} :: 0 <= s < |o1| ==> o1[s] == if s <= k then o0[s] else if s == k + 1 then m else o0[s - 1]
  }

  /** Slot t, up to position k, of the list after the insertion. */
  lemma InsertedBefore(i0: seq<Item>, o0: seq<int>, head: int, count: int, k: int, l: int, r: int, i1: seq<Item>, o1: seq<int>, t: int)
    requires Threaded(i0, o0, head, count) && 0 <= k < |o0| && Inserted(i0, o0, k, l, r, i1)
    requires Spliced(o0, k, |i0|, o1) && 0 <= t <= k
    ensures 0 <= o1[t] < |i1| && LinkAt(i1, o1, t) && i1[o1[t]].x == if t == k then l else i0[o0[t]].x
  {
    assert LinkAt(i0, o0, k);
    if t < k {
      ThreadedDistinct(i0, o0, head, count, t, k);
      if k + 1 < |o0| {
        ThreadedDistinct(i0, o0, head, count, t, k + 1);
      }
      assert i1[o1[t]] == i0[o0[t]] && LinkAt(i0, o0, t);
    }
  }

  /** Slot k + 1 of the list after the insertion: the new item. */
  lemma InsertedNew(i0: seq<Item>, o0: seq<int>, head: int, count: int, k: int, l: int, r: int, i1: seq<Item>, o1: seq<int>)
    requires Threaded(i0, o0, head, count) && 0 <= k < |o0| && Inserted(i0, o0, k, l, r, i1)
    requires Spliced(o0, k, |i0|, o1)
    ensures 0 <= o1[k + 1] < |i1| && LinkAt(i1, o1, k + 1) && i1[o1[k + 1]].x == r
  {
    assert LinkAt(i0, o0, k);
  }

  /** Slot t, past the new item, of the list after the insertion. */
  lemma InsertedPast(i0: seq<Item>, o0: seq<int>, head: int, count: int, k: int, l: int, r: int, i1: seq<Item>, o1: seq<int>, t: int)
    requires Threaded(i0, o0, head, count) && 0 <= k < |o0| && Inserted(i0, o0, k, l, r, i1)
    requires Spliced(o0, k, |i0|, o1) && k + 1 < t < |o1|
    ensures 0 <= o1[t] < |i1| && LinkAt(i1, o1, t) && i1[o1[t]].x == i0[o0[t - 1]].x
  {
    assert LinkAt(i0, o0, k) && LinkAt(i0, o0, t - 1);
    ThreadedDistinct(i0, o0, head, count, k, t - 1);
    if t > k + 2 {
      ThreadedDistinct(i0, o0, head, count, k + 1, t - 1);
      assert i1[o1[t]] == i0[o0[t - 1]];
    }
  }

  /** Every slot of the list after the insertion. */
  lemma InsertedSlots(i0: seq<Item>, o0: seq<int>, head: int, count: int, k: int, l: int, r: int, i1: seq<Item>, o1: seq<int>)
    requires Threaded(i0, o0, head, count) && 0 <= k < |o0| && Inserted(i0, o0, k, l, r, i1)
    requires Spliced(o0, k, |i0|, o1)
    ensures forall t :: 0 <= t < |o1| ==> 0 <= o1[t] < |i1| && LinkAt(i1, o1, t)
    ensures forall t :: 0 <= t < |o1| ==>
              i1[o1[t]].x == (if t < k then i0[o0[t]].x else if t == k then l else if t == k + 1 then r else i0[o0[t - 1]].x)
  {
    forall t | 0 <= t < |o1|
      ensures 0 <= o1[t] < |i1| && LinkAt(i1, o1, t) &&
              i1[o1[t]].x == (if t < k then i0[o0[t]].x else if t == k then l else if t == k + 1 then r else i0[o0[t - 1]].x)
    {
      if t <= k {
        InsertedBefore(i0, o0, head, count, k, l, r, i1, o1, t);
      } else if t == k + 1 {
        InsertedNew(i0, o0, head, count, k, l, r, i1, o1);
      } else {
        InsertedPast(i0, o0, head, count, k, l, r, i1, o1, t);
      }
    }
  }

  /** The list after the insertion, with o1 given slot by slot. */
  lemma InsertedList(i0: seq<Item>, o0: seq<int>, head: int, count: int, k: int, l: int, r: int, i1: seq<Item>, o1: seq<int>)
    requires Threaded(i0, o0, head, count) && 0 <= k < |o0| && Inserted(i0, o0, k, l, r, i1)
    requires Spliced(o0, k, |i0|, o1)
    ensures Threaded(i1, o1, head, count + 1)
    ensures Targets(i1, o1) == Targets(i0, o0)[..k] + [l, r] + Targets(i0, o0)[k + 1..]
  {
    InsertedSlots(i0, o0, head, count, k, l, r, i1, o1);
    var T0, T1 := Targets(i0, o0), Targets(i1, o1);
    forall t | 0 <= t < |T1|
      ensures T1[t] == if t < k then T0[t] else if t == k then l else if t == k + 1 then r else T0[t - 1]
    {
    }
    SpliceSlots(T0, k, l, r, T1);
  }

  /**
   * Inserting a new item m = |i0| holding r right after the k-th item, whose
   * node becomes l, keeps the list threaded and splices [l, r] into its targets
   * in place of the k-th one.
   */
  lemma InsertAfter(i0: seq<Item>, o0: seq<int>, head: int, count: int, k: int, l: int, r: int, i1: seq<Item>)
    requires Threaded(i0, o0, head, count) && 0 <= k < |o0| && Inserted(i0, o0, k, l, r, i1)
    ensures var o1 := o0[..k + 1] + [|i0|] + o0[k + 1..];
            Threaded(i1, o1, head, count + 1) &&
            Targets(i1, o1) == Targets(i0, o0)[..k] + [l, r] + Targets(i0, o0)[k + 1..]
  {
    InsertOrder(o0, k, |i0|);
    InsertedList(i0, o0, head, count, k, l, r, i1, o0[..k + 1] + [|i0|] + o0[k + 1..]);
  }

  /** The requirements on the items after unlinking the k-th item (the head moves when it was first). */
  ghost predicate Unlinked(i0: seq<Item>, o0: seq<int>, head: int, k: int, i1: seq<Item>, head1: int)
    requires 0 <= k < |o0| && 0 <= o0[k] < |i0|
  {
    var pv, nx := i0[o0[k]].previous, i0[o0[k]].next;
    |i1| == |i0| &&
    (0 <= pv < |i0| ==> i1[pv] == i0[pv].(next := nx)) &&
    (0 <= nx < |i0| ==> i1[nx] == i0[nx].(previous := pv)) &&
    (forall j :: 0 <= j < |i0| && j != pv && j != nx ==> i1[j] == i0[j]) &&
    head1 == if o0[k] == head then nx else head
  }

  /** o1 is o0 without its k-th entry, slot by slot. */
  ghost predicate Dropped(o0: seq<int>, k: int, o1: seq<int>)
  {
    |o1| == |o0| - 1 &&
    forall s {:trigger o1[s]} :: 0 <= s < |o1| ==> o1[s] == if s < k then o0[s] else o0[s + 1]
  }

  /** Slot t, before position k, of the list after the unlinking. */
  lemma UnlinkedBefore(i0: seq<Item>, o0: seq<int>, head: int, count: int, k: int, i1: seq<Item>, head1: int, o1: seq<int>, t: int)
    requires Threaded(i0, o0, head, count) && 0 <= k < |o0| && Unlinked(i0, o0, head, k, i1, head1)
    requires Dropped(o0, k, o1) && 0 <= t < k
    ensures 0 <= o1[t] < |i1| && LinkAt(i1, o1, t) && i1[o1[t]].x == i0[o0[t]].x
  {
    assert LinkAt(i0, o0, k) && LinkAt(i0, o0, t);
    if k + 1 < |o0| {
      ThreadedDistinct(i0, o0, head, count, t, k + 1);
    }
    if t < k - 1 {
      ThreadedDistinct(i0, o0, head, count, t, k - 1);
      assert o1[t] == o0[t] && o1[t + 1] == o0[t + 1] && i1[o1[t]] == i0[o0[t]];
    } else {
      assert o1[t] == o0[k - 1] && i1[o1[t]] == i0[o0[t]].(next := i0[o0[k]].next);
      assert t + 1 < |o1| ==> o1[t + 1] == o0[k + 1];
    }
  }

  /** Slot k of the list after the unlinking: the old successor of the unlinked item. */
  lemma UnlinkedAt(i0: seq<Item>, o0: seq<int>, head: int, count: int, k: int, i1: seq<Item>, head1: int, o1: seq<int>)
    requires Threaded(i0, o0, head, count) && 0 <= k < |o0| && Unlinked(i0, o0, head, k, i1, head1)
    requires Dropped(o0, k, o1) && k < |o1|
    ensures 0 <= o1[k] < |i1| && LinkAt(i1, o1, k) && i1[o1[k]].x == i0[o0[k + 1]].x
  {
    assert LinkAt(i0, o0, k) && LinkAt(i0, o0, k + 1);
    if k > 0 {
      ThreadedDistinct(i0, o0, head, count, k - 1, k + 1);
    }
  }

  /** Slot t, past position k, of the list after the unlinking. */
  lemma UnlinkedPast(i0: seq<Item>, o0: seq<int>, head: int, count: int, k: int, i1: seq<Item>, head1: int, o1: seq<int>, t: int)
    requires Threaded(i0, o0, head, count) && 0 <= k < |o0| && Unlinked(i0, o0, head, k, i1, head1)
    requires Dropped(o0, k, o1) && k < t < |o1|
    ensures 0 <= o1[t] < |i1| && LinkAt(i1, o1, t) && i1[o1[t]].x == i0[o0[t + 1]].x
  {
    assert LinkAt(i0, o0, k) && LinkAt(i0, o0, t + 1);
    if k > 0 {
      ThreadedDistinct(i0, o0, head, count, k - 1, t + 1);
    }
    ThreadedDistinct(i0, o0, head, count, k + 1, t + 1);
    assert i1[o1[t]] == i0[o0[t + 1]];
  }

  /** Every slot of the list after the unlinking. */
  lemma UnlinkedSlots(i0: seq<Item>, o0: seq<int>, head: int, count: int, k: int, i1: seq<Item>, head1: int, o1: seq<int>)
    requires Threaded(i0, o0, head, count) && 0 <= k < |o0| && Unlinked(i0, o0, head, k, i1, head1)
    requires Dropped(o0, k, o1)
    ensures forall t :: 0 <= t < |o1| ==> 0 <= o1[t] < |i1| && LinkAt(i1, o1, t)
    ensures forall t :: 0 <= t < |o1| ==> i1[o1[t]].x == if t < k then i0[o0[t]].x else i0[o0[t + 1]].x
  {
    forall t | 0 <= t < |o1|
      ensures 0 <= o1[t] < |i1| && LinkAt(i1, o1, t) && i1[o1[t]].x == if t < k then i0[o0[t]].x else i0[o0[t + 1]].x
    {
      if t < k {
        UnlinkedBefore(i0, o0, head, count, k, i1, head1, o1, t);
      } else if t == k {
        UnlinkedAt(i0, o0, head, count, k, i1, head1, o1);
      } else {
        UnlinkedPast(i0, o0, head, count, k, i1, head1, o1, t);
      }
    }
  }

  /** The head after the unlinking is the first remaining item. */
  lemma UnlinkedHead(i0: seq<Item>, o0: seq<int>, head: int, count: int, k: int, i1: seq<Item>, head1: int, o1: seq<int>)
    requires Threaded(i0, o0, head, count) && 0 <= k < |o0| && Unlinked(i0, o0, head, k, i1, head1)
    requires Dropped(o0, k, o1)
    ensures head1 == if |o1| > 0 then o1[0] else NULL
  {
    assert LinkAt(i0, o0, k);
    if |o1| > 0 && k > 0 {
      ThreadedDistinct(i0, o0, head, count, 0, k);
    }
  }

  /** The list after the unlinking, with o1 given slot by slot. */
  lemma UnlinkedList(i0: seq<Item>, o0: seq<int>, head: int, count: int, k: int, i1: seq<Item>, head1: int, o1: seq<int>)
    requires Threaded(i0, o0, head, count) && 0 <= k < |o0| && Unlinked(i0, o0, head, k, i1, head1)
    requires Dropped(o0, k, o1)
    ensures Threaded(i1, o1, head1, count - 1)
    ensures Targets(i1, o1) == Targets(i0, o0)[..k] + Targets(i0, o0)[k + 1..]
  {
    UnlinkedSlots(i0, o0, head, count, k, i1, head1, o1);
    UnlinkedHead(i0, o0, head, count, k, i1, head1, o1);
    var T0, T1 := Targets(i0, o0), Targets(i1, o1);
    forall t | 0 <= t < |T1|
      ensures T1[t] == if t < k then T0[t] else T0[t + 1]
    {
    }
    DropSlots(T0, k, T1);
  }

  /**
   * Unlinking the k-th item (its neighbours now point past it, the head moves
   * when it was first) keeps the list threaded and drops the k-th target.
   */
  lemma Unlink(i0: seq<Item>, o0: seq<int>, head: int, count: int, k: int, i1: seq<Item>, head1: int)
    requires Threaded(i0, o0, head, count) && 0 <= k < |o0| && Unlinked(i0, o0, head, k, i1, head1)
    ensures var o1 := o0[..k] + o0[k + 1..];
            Threaded(i1, o1, head1, count - 1) &&
            Targets(i1, o1) == Targets(i0, o0)[..k] + Targets(i0, o0)[k + 1..]
  {
    RemoveOrder(o0, k);
    UnlinkedList(i0, o0, head, count, k, i1, head1, o0[..k] + o0[k + 1..]);
  }

  /**
   * The list part of updateLeavesAfterSplit: item `it` now holds l, and a new
   * item holding r, appended to the arena, follows it.
   */
  method InsertItemAfter(items: seq<Item>, ghost order: seq<int>, ghost head: int, ghost count: int, it: int, l: int, r: int)
    returns (result: seq<Item>, newItem: int)
    requires Threaded(items, order, head, count) && it in order
    ensures newItem == |items|
    ensures var k := IndexOf(order, it);
            var o1 := order[..k + 1] + [newItem] + order[k + 1..];
            Threaded(result, o1, head, count + 1) &&
            Targets(result, o1) == Targets(items, order)[..k] + [l, r] + Targets(items, order)[k + 1..]
  {
    ghost var k := IndexOf(order, it);
    assert LinkAt(items, order, k);
    if k + 1 < |order| {
      ThreadedDistinct(items, order, head, count, k, k + 1);
    }
    result := items[it := items[it].(x := l)];
    newItem := |result|;
    var next := result[it].next;
    result := result + [Item(r, it, next)];
    if next != NULL {
      result := result[next := result[next].(previous := newItem)];
    }
    result := result[it := result[it].(next := newItem)];
    assert Inserted(items, order, k, l, r, result);
    InsertAfter(items, order, head, count, k, l, r, result);
  }

  /**
   * The list part of updateLeavesBeforeMerge: the neighbours of item `it`
   * now point past it, and the head moves on when `it` was first.
   */
  method UnlinkItem(items: seq<Item>, ghost order: seq<int>, head: int, ghost count: int, it: int)
    returns (result: seq<Item>, newHead: int)
    requires Threaded(items, order, head, count) && it in order
    ensures var k := IndexOf(order, it);
            var o1 := order[..k] + order[k + 1..];
            Threaded(result, o1, newHead, count - 1) &&
            Targets(result, o1) == Targets(items, order)[..k] + Targets(items, order)[k + 1..]
  {
    ghost var k := IndexOf(order, it);
    assert LinkAt(items, order, k);
    if k > 0 && k + 1 < |order| {
      ThreadedDistinct(items, order, head, count, k - 1, k + 1);
    }
    var prev, next := items[it].previous, items[it].next;
    result := items;
    if prev != NULL {
      result := result[prev := result[prev].(next := next)];
    }
    if next != NULL {
      result := result[next := result[next].(previous := prev)];
    }
    newHead := head;
    if it == head {
      newHead := next;
    }
    assert Unlinked(items, order, head, k, result, newHead);
    Unlink(items, order, head, count, k, result, newHead);
  }
}
