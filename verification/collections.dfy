/** Small facts about duplicate-free sequences of vertex numbers. */
module Collections {

  ghost predicate Distinct(s: seq<int>)
  {
    forall p, q :: 0 <= p < q < |s| ==> s[p] != s[q]
  }

  function IndexOf(s: seq<int>, x: int): (t: nat)
    requires x in s
    ensures t < |s| && s[t] == x
    ensures forall p :: 0 <= p < t ==> s[p] != x
  {
    if s[0] == x then 0 else 1 + IndexOf(s[1..], x)
  }

  /**
   * Removes x from s by moving the last element into x's slot
   * (or by dropping the last slot when x is last).
   */
  function RemoveByLast(s: seq<int>, x: int): (r: seq<int>)
    requires x in s
  {
    var t := IndexOf(s, x);
    if t == |s| - 1 then s[..|s| - 1] else s[..|s| - 1][t := s[|s| - 1]]
  }

  lemma RemoveByLastContents(s: seq<int>, x: int)
    requires x in s && Distinct(s)
    ensures |RemoveByLast(s, x)| == |s| - 1
    ensures Distinct(RemoveByLast(s, x))
    ensures forall y :: y in RemoveByLast(s, x) <==> y in s && y != x
  {
    var r := RemoveByLast(s, x);
    var t := IndexOf(s, x);
    forall y | y in s && y != x
      ensures y in r
    {
      var p :| 0 <= p < |s| && s[p] == y;
      if p == |s| - 1 {
        if t < |s| - 1 {
          assert r[t] == y;
        }
      } else {
        assert p != t;
        assert r[p] == y;
      }
    }
  }

  /** Slot m of the shortened list, read off the original one. */
  lemma RemoveByLastAt(s: seq<int>, x: int, m: int)
    requires x in s && Distinct(s) && 0 <= m < |s| - 1
    ensures RemoveByLast(s, x)[m] == (if s[m] == x then s[|s| - 1] else s[m])
  {
  }

  /** The vertex numbers 0..n-1 as a set. */
  ghost function Range(n: nat): (r: set<int>)
    ensures |r| == n
    ensures forall v :: v in r <==> 0 <= v < n
  {
    if n == 0 then {} else Range(n - 1) + {n - 1}
  }

  lemma {:induction false} DistinctCard(s: seq<int>)
    requires Distinct(s)
    ensures |set v | v in s| == |s|
  {
    if |s| > 0 {
      DistinctCard(s[1..]);
      assert (set v | v in s) == {s[0]} + (set v | v in s[1..]);
      assert s[0] !in s[1..];
    }
  }

  lemma SubsetCard(A: set<int>, B: set<int>)
    requires A <= B
    ensures |A| <= |B|
  {
    assert B == A + (B - A);
    assert A * (B - A) == {};
  }

  /** A duplicate-free list of vertices below n that misses x (also below n) is shorter than n. */
  lemma DistinctBound(s: seq<int>, n: nat, x: int)
    requires Distinct(s) && 0 <= x < n && x !in s
    requires forall v :: v in s ==> 0 <= v < n
    ensures |s| < n
  {
    DistinctCard(s);
    SubsetCard((set v | v in s), Range(n) - {x});
  }

  /** Replacing slot k of s by a and b keeps the other entries. */
  lemma SpliceMembers(s: seq<int>, k: int, a: int, b: int)
    requires 0 <= k < |s|
    ensures forall c :: c in s && c != s[k] ==> c in s[..k] + [a, b] + s[k + 1..]
    ensures forall c :: c in s[..k] + [a, b] + s[k + 1..] ==> c in s || c == a || c == b
    ensures a in s[..k] + [a, b] + s[k + 1..] && b in s[..k] + [a, b] + s[k + 1..]
  {
    var r := s[..k] + [a, b] + s[k + 1..];
    assert r[k] == a && r[k + 1] == b;
    forall c | c in s && c != s[k]
      ensures c in r
    {
      var t :| 0 <= t < |s| && s[t] == c;
      if t < k {
        assert r[t] == c;
      } else {
        assert r[t + 1] == s[k + 1..][t - k - 1];
      }
    }
    forall c | c in r
      ensures c in s || c == a || c == b
    {
      var t :| 0 <= t < |r| && r[t] == c;
      if t >= k + 2 {
        assert r[t] == s[k + 1..][t - k - 2];
      }
    }
  }

  /** Dropping slot k of s keeps the other entries. */
  lemma DropMembers(s: seq<int>, k: int)
    requires 0 <= k < |s|
    ensures forall c :: c in s && c != s[k] ==> c in s[..k] + s[k + 1..]
    ensures forall c :: c in s[..k] + s[k + 1..] ==> c in s
  {
    var r := s[..k] + s[k + 1..];
    forall c | c in s && c != s[k]
      ensures c in r
    {
      var t :| 0 <= t < |s| && s[t] == c;
      if t < k {
        assert r[t] == c;
      } else {
        assert r[t - 1] == c;
      }
    }
  }

  /** Dropping slot k keeps a sequence duplicate-free. */
  lemma DistinctDrop(s: seq<int>, k: int)
    requires Distinct(s) && 0 <= k < |s|
    ensures Distinct(s[..k] + s[k + 1..])
  {
    var r := s[..k] + s[k + 1..];
    forall p, q | 0 <= p < q < |r|
      ensures r[p] != r[q]
    {
      var p', q' := if p < k then p else p + 1, if q < k then q else q + 1;
      assert r[p] == s[p'] && r[q] == s[q'];
    }
  }

  /** A sequence that agrees slot by slot with s, with [a, b] in place of its k-th entry. */
  lemma SpliceSlots(s: seq<int>, k: int, a: int, b: int, u: seq<int>)
    requires 0 <= k < |s| && |u| == |s| + 1
    requires forall t {:trigger u[t]} :: 0 <= t < |u| ==> u[t] == if t < k then s[t] else if t == k then a else if t == k + 1 then b else s[t - 1]
    ensures u == s[..k] + [a, b] + s[k + 1..]
  {
    var w := s[..k] + [a, b] + s[k + 1..];
    forall t | 0 <= t < |u|
      ensures u[t] == w[t]
    {
      if t > k + 1 {
        assert w[t] == s[k + 1..][t - k - 2];
      }
    }
  }

  /** A sequence that agrees slot by slot with s without its k-th entry. */
  lemma DropSlots(s: seq<int>, k: int, u: seq<int>)
    requires 0 <= k < |s| && |u| == |s| - 1
    requires forall t {:trigger u[t]} :: 0 <= t < |u| ==> u[t] == if t < k then s[t] else s[t + 1]
    ensures u == s[..k] + s[k + 1..]
  {
    var w := s[..k] + s[k + 1..];
    forall t | 0 <= t < |u|
      ensures u[t] == w[t]
    {
      if t >= k {
        assert w[t] == s[k + 1..][t - k];
      }
    }
  }
}
