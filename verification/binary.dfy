/**
 * indexedBinaryToInt: the bits of a string at a list of positions, read as
 * a binary number whose first listed position is the most significant.
 */
module Binary {
  import opened Bits

  function Pow2(k: nat): (r: nat)
    ensures r >= 1
  {
    if k == 0 then 1 else 2 * Pow2(k - 1)
  }

  /** Every listed position is a position of x. */
  ghost predicate Indexes(x: seq<Bit>, index: seq<int>)
  {
    forall k :: 0 <= k < |index| ==> 0 <= index[k] < |x|
  }

  /** The weighted sum: bit index[k] of x counts 2^(|index| - 1 - k). */
  function BinaryValue(x: seq<Bit>, index: seq<int>): (r: nat)
    requires Indexes(x, index)
    ensures r < Pow2(|index|)
  {
    if index == [] then 0
    else (if x[index[0]] == 1 then Pow2(|index| - 1) else 0) + BinaryValue(x, index[1..])
  }

  /** One more position shifts the value left and adds the new bit. */
  lemma {:induction false} BinaryValueExtend(x: seq<Bit>, index: seq<int>, j: int)
    requires Indexes(x, index) && 0 <= j < |x|
    ensures Indexes(x, index + [j])
    ensures BinaryValue(x, index + [j]) == 2 * BinaryValue(x, index) + x[j]
  {
    var e := index + [j];
    if index != [] {
      assert e[0] == index[0] && e[1..] == index[1..] + [j];
      BinaryValueExtend(x, index[1..], j);
      var p := Pow2(|index| - 1);
      assert Pow2(|e| - 1) == 2 * p;
      if x[index[0]] == 0 {
        assert BinaryValue(x, e) == BinaryValue(x, index[1..] + [j]);
        assert BinaryValue(x, index) == BinaryValue(x, index[1..]);
      } else {
        assert BinaryValue(x, e) == 2 * p + BinaryValue(x, index[1..] + [j]);
        assert BinaryValue(x, index) == p + BinaryValue(x, index[1..]);
      }
    } else {
      assert e[1..] == [];
    }
  }

  /**
   * indexedBinaryToInt(x, index, n): shift the accumulator left and add
   * x[index[k]] for k = 0 .. n - 1.
   */
  method IndexedBinaryToInt(x: seq<Bit>, index: seq<int>, n: int) returns (val: int)
    requires 0 <= n <= |index| && Indexes(x, index[..n])
    ensures val == BinaryValue(x, index[..n])
    ensures 0 <= val < Pow2(n)
  {
    val := 0;
    var idx := 0;
    while idx < n
      invariant 0 <= idx <= n && val == BinaryValue(x, index[..idx])
    {
      assert index[..idx + 1] == index[..idx] + [index[idx]];
      BinaryValueExtend(x, index[..idx], index[idx]);
      val := val * 2;
      val := val + x[index[idx]];
      idx := idx + 1;
    }
  }
}
