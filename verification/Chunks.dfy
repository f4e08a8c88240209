/** The 256-element chunk that one workgroup loads into shared memory. */
module Chunks {
  import opened Lanes
  import opened Sums

  /** The elements that workgroup wg loads from the first n of s, 0 past the end. */
  function Chunk(s: seq<int>, n: nat, wg: nat): (x: seq<int>)
    requires n <= |s|
    ensures |x| == 256
  {
    seq(256, t requires 0 <= t < 256 => if 256 * wg + t < n then s[256 * wg + t] else 0)
  }

  /** The end of block g in a buffer of n elements. */
  function BlockEnd(n: int, g: int): int {
    if 256 * g + 256 <= n then 256 * g + 256 else n
  }

  /** Sums over a loaded chunk are sums over its part of the buffer. */
  lemma ChunkSums(s: seq<int>, n: nat, wg: nat, t: nat)
    requires t <= 256 && 256 * wg <= n <= |s|
    ensures Sum(Chunk(s, n, wg), 0, t) == Sum(s, 256 * wg, if 256 * wg + t <= n then 256 * wg + t else n)
  {
    var x := Chunk(s, n, wg);
    var inside := if 256 * wg + t <= n then t else n - 256 * wg;
    SumShift(x, s, 0, inside, 256 * wg);
    SumSplit(x, 0, inside, t);
    SumOfZeros(x, inside, t);
  }

  /** b holds the block totals of the first n of s for the workgroups outside `todo`. */
  ghost predicate Totals(s: seq<int>, n: nat, b: seq<int>, todo: set<int>)
    requires n <= |s|
  {
    && Groups(n) <= |b|
    && forall g {:trigger b[g]} :: 0 <= g < Groups(n) && g !in todo ==>
         256 * g <= n && b[g] == Sum(s, 256 * g, BlockEnd(n, g))
  }

  /** Sums of block totals are sums of the data up to block ends. */
  lemma {:induction false} SumOfTotals(s: seq<int>, n: nat, b: seq<int>, g: nat)
    requires n <= |s| && Totals(s, n, b, {}) && g <= Groups(n)
    ensures Sum(b, 0, g) == Sum(s, 0, if 256 * g <= n then 256 * g else n)
  {
    if g > 0 {
      assert b[g - 1] == Sum(s, 256 * (g - 1), BlockEnd(n, g - 1));
      SumOfTotals(s, n, b, g - 1);
      SumSplit(s, 0, 256 * (g - 1), BlockEnd(n, g - 1));
    }
  }

  /** Every lane of workgroup wg loads its element, in any order. */
  method LoadChunk(temp: array<int>, data: array<int>, n: nat, wg: nat)
    requires temp.Length == 256 && temp != data && n <= data.Length
    modifies temp
    ensures temp[..] == Chunk(data[..], n, wg)
  {
    ghost var x := Chunk(data[..], n, wg);
    var todo := Indices(256);
    while todo != {}
      invariant todo <= Indices(256)
      invariant forall t :: 0 <= t < 256 && t !in todo ==> temp[t] == x[t]
      decreases todo
    {
      Inhabited(todo);
      var tid :| tid in todo;
      var gid := 256 * wg + tid;
      temp[tid] := if gid < n then data[gid] else 0;
      todo := todo - {tid};
    }
  }
}
