/**
 * Binary strings as the algorithm stores them: one byte per position that
 * is always 0 or 1.
 */
module Bits {

  type Bit = b: int | 0 <= b <= 1

  /** The number of 1s in s. */
  function Ones(s: seq<Bit>): (r: nat)
    ensures r <= |s|
  {
    if s == [] then 0 else Ones(s[..|s| - 1]) + s[|s| - 1]
  }

  /** A string of n zero bits. */
  function ZeroBits(n: nat): (r: seq<Bit>)
    ensures |r| == n && forall k :: 0 <= k < n ==> r[k] == 0
  {
    seq(n, k => 0)
  }

  lemma {:induction false} OnesAllOne(s: seq<Bit>)
    ensures Ones(s) == |s| <==> forall k :: 0 <= k < |s| ==> s[k] == 1
  {
    if s != [] {
      var p := s[..|s| - 1];
      OnesAllOne(p);
      if Ones(s) == |s| {
        forall k | 0 <= k < |s| ensures s[k] == 1 {
          if k < |s| - 1 { assert s[k] == p[k]; }
        }
      }
      if forall k :: 0 <= k < |s| ==> s[k] == 1 {
        assert forall k :: 0 <= k < |p| ==> p[k] == s[k];
      }
    }
  }

  lemma {:induction false} OnesAppend(s: seq<Bit>, t: seq<Bit>)
    ensures Ones(s + t) == Ones(s) + Ones(t)
    decreases |t|
  {
    if t != [] {
      assert (s + t)[..|s + t| - 1] == s + t[..|t| - 1];
      OnesAppend(s, t[..|t| - 1]);
    } else {
      assert s + t == s;
    }
  }

  /** Every row has a position k. */
  ghost predicate Wide(rows: seq<seq<Bit>>, k: int)
  {
    forall i :: 0 <= i < |rows| ==> 0 <= k < |rows[i]|
  }

  /** The number of rows with bit 1 at position k. */
  function OnesAt(rows: seq<seq<Bit>>, k: int): (r: nat)
    requires Wide(rows, k)
    ensures r <= |rows|
  {
    if rows == [] then 0
    else
      var m := |rows| - 1;
      assert 0 <= k < |rows[m]|;
      OnesAt(rows[..m], k) + rows[m][k]
  }
}
