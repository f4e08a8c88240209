/** The iterative tree reduction of `launch_reduce` over shaders/reduce.comp, with its two
    ping-pong scratch buffers. */
module Reduce {
  import opened Lanes
  import opened Chunks
  import opened Sums

  // ---- the kernel reduce.comp ------------------------------------------------------

  /** One round: the lower w cells take in the next w. No lane reads a cell another writes. */
  method FoldRound(sdata: array<int>, w: nat)
    requires sdata.Length == 256 && 2 * w <= 256
    modifies sdata
    ensures forall t :: 0 <= t < w ==> sdata[t] == old(sdata[t]) + old(sdata[t + w])
  {
    var todo := Indices(256);
    while todo != {}
      invariant todo <= Indices(256)
      invariant forall t :: 0 <= t < 256 ==>
                  sdata[t] == old(sdata[t]) + if t < w && t !in todo then old(sdata[t + w]) else 0
      decreases todo
    {
      Inhabited(todo);
      var tid :| tid in todo;
      if tid < w {
        sdata[tid] := sdata[tid] + sdata[tid + w];
      }
      todo := todo - {tid};
    }
  }

  /** A round halves the cells that hold the total. */
  method FoldHalf(sdata: array<int>, w: nat)
    requires sdata.Length == 256 && 2 * w <= 256
    modifies sdata
    ensures Sum(sdata[..], 0, w) == Sum(old(sdata[..]), 0, 2 * w)
  {
    ghost var before := sdata[..];
    FoldRound(sdata, w);
    SumFolded(before, sdata[..], w, w);
    SumSplit(before, 0, w, 2 * w);
  }

  /** The rounds s = 128, 64, ..., 1 leave the chunk total in cell 0. */
  method TreeReduce(sdata: array<int>)
    requires sdata.Length == 256
    modifies sdata
    ensures sdata[0] == Sum(old(sdata[..]), 0, 256)
  {
    ghost var x := sdata[..];
    var s := 128;
    while s > 0
      invariant s in {128, 64, 32, 16, 8, 4, 2, 1, 0}
      invariant Sum(sdata[..], 0, if s == 0 then 1 else 2 * s) == Sum(x, 0, 256)
      decreases s
    {
      FoldHalf(sdata, s);
      s := s / 2;
    }
    assert Sum(sdata[..], 0, 1) == Sum(sdata[..], 0, 0) + sdata[0];
  }

  method ReduceWorkgroup(indata: array<int>, n: nat, partials: array<int>, wg: nat)
    requires indata != partials && n <= indata.Length && wg < partials.Length && 256 * wg <= n
    modifies partials
    ensures partials[..] == old(partials[..])[wg := Sum(indata[..], 256 * wg, BlockEnd(n, wg))]
  {
    var sdata := new int[256];
    LoadChunk(sdata, indata, n, wg);
    TreeReduce(sdata);
    ChunkSums(indata[..], n, wg, 256);
    partials[wg] := sdata[0];
  }

  // ---- one level -------------------------------------------------------------------

  /** Dispatch of reduce.comp, workgroups in any order. Source and destination differ and the
      destination holds one partial per group. */
  method DispatchLevel(src: array<int>, n: nat, dst: array<int>, groups: nat)
    requires src != dst && n <= src.Length && groups == Groups(n) <= dst.Length
    modifies dst
    ensures Totals(src[..], n, dst[..], {})
  {
    var todo := Indices(groups);
    while todo != {}
      invariant todo <= Indices(groups)
      invariant Totals(src[..], n, dst[..], todo)
      decreases todo
    {
      Inhabited(todo);
      var wg :| wg in todo;
      ReduceWorkgroup(src, n, dst, wg);
      todo := todo - {wg};
    }
  }

  // ---- the launcher ----------------------------------------------------------------

  /** launch_reduce: the exact sum, with the source left unchanged. Each level reads what the
      previous one wrote and writes the other scratch buffer, which is always large enough.
      When a scratch allocation or a dispatch fails, the caller's result stays 0. */
  method LaunchReduce(data: array<int>, faulty: bool) returns (ok: bool, result: int)
    requires data.Length < MAX_COUNT
    ensures !faulty || data.Length <= 1 ==> ok
    ensures !ok ==> result == 0
    ensures ok ==> result == Sum(data[..], 0, data.Length)
  {
    var count := data.Length;
    if count == 0 {
      return true, 0;
    }
    if count == 1 {
      assert Sum(data[..], 0, 0) == 0;
      return true, data[0];
    }
    var failed := Fails(faulty);
    if failed {
      return false, 0;
    }
    var firstGroups := Groups(count);
    var scratch0 := new int[firstGroups];
    var scratch1 := new int[Groups(firstGroups) + 1];
    var src, n, toggle := data, count, 0;
    while n > 1
      invariant 1 <= n <= src.Length && (toggle == 0 || toggle == 1)
      invariant Sum(src[..], 0, n) == Sum(data[..], 0, count)
      invariant src == if n == count then data else if toggle == 0 then scratch1 else scratch0
      invariant n == count ==> toggle == 0
      invariant Groups(n) <= if toggle == 0 then scratch0.Length else scratch1.Length
      invariant n < count ==> n <= firstGroups
      decreases n
    {
      failed := Fails(faulty);
      if failed {
        return false, 0;
      }
      GroupsShrink(n);
      var groups := Groups(n);
      var dst := if toggle == 0 then scratch0 else scratch1;
      ghost var s := src[..];
      DispatchLevel(src, n, dst, groups);
      SumOfTotals(s, n, dst[..], groups);
      src, n, toggle := dst, groups, 1 - toggle;
    }
    assert Sum(src[..], 0, 1) == Sum(src[..], 0, 0) + src[0];
    return true, src[0];
  }
}
