/** The recursive multi-block inclusive scan of `launch_scan`, over the Hillis-Steele kernel
    of shaders/scan.comp and the offset kernel of shaders/scan_add.comp. */
module Scan {
  import opened Lanes
  import opened Chunks
  import opened Sums

  /** The sum of the last `width` elements of x up to and including position t. */
  function Window(x: seq<int>, width: int, t: int): int
    requires 0 <= t < |x| && width >= 0
  {
    Sum(x, if t + 1 >= width then t + 1 - width else 0, t + 1)
  }

  lemma WindowOfOne(x: seq<int>, t: int)
    requires 0 <= t < |x|
    ensures Window(x, 1, t) == x[t]
  {
    assert Sum(x, t, t) == 0;
  }

  /** One round doubles every window. */
  lemma WindowDoubles(x: seq<int>, o: int, t: int)
    requires 0 <= t < |x| && o >= 1
    ensures Window(x, 2 * o, t) == Window(x, o, t) + if t >= o then Window(x, o, t - o) else 0
  {
    if t >= o {
      SumSplit(x, if t + 1 >= 2 * o then t + 1 - 2 * o else 0, t + 1 - o, t + 1);
    }
  }

  // ---- the kernel scan.comp --------------------------------------------------------

  /** Every lane reads its partner's old value into a register. */
  method ReadPartners(v: array<int>, temp: array<int>, offset: nat)
    requires v.Length == temp.Length == 256 && v != temp
    modifies v
    ensures forall t :: 0 <= t < 256 ==> v[t] == if t >= offset then temp[t - offset] else 0
  {
    var todo := Indices(256);
    while todo != {}
      invariant todo <= Indices(256)
      invariant forall t :: 0 <= t < 256 && t !in todo ==> v[t] == if t >= offset then temp[t - offset] else 0
      decreases todo
    {
      Inhabited(todo);
      var tid :| tid in todo;
      v[tid] := if tid >= offset then temp[tid - offset] else 0;
      todo := todo - {tid};
    }
  }

  /** After the barrier, every lane adds its register to its own cell. */
  method AddRegisters(temp: array<int>, v: array<int>)
    requires v.Length == temp.Length == 256 && v != temp
    modifies temp
    ensures forall t :: 0 <= t < 256 ==> temp[t] == old(temp[t]) + v[t]
  {
    var todo := Indices(256);
    while todo != {}
      invariant todo <= Indices(256)
      invariant forall t :: 0 <= t < 256 ==> temp[t] == old(temp[t]) + if t in todo then 0 else v[t]
      decreases todo
    {
      Inhabited(todo);
      var tid :| tid in todo;
      temp[tid] := temp[tid] + v[tid];
      todo := todo - {tid};
    }
  }

  /** The rounds offset = 1, 2, 4, ..., 128: afterwards each cell holds its prefix sum. */
  method HillisSteele(temp: array<int>)
    requires temp.Length == 256
    modifies temp
    ensures forall t :: 0 <= t < 256 ==> temp[t] == Sum(old(temp[..]), 0, t + 1)
  {
    ghost var x := temp[..];
    var v := new int[256];
    var offset := 1;
    forall t | 0 <= t < 256 ensures Window(x, 1, t) == temp[t] {
      WindowOfOne(x, t);
    }
    while offset < 256
      invariant offset >= 1
      invariant forall t :: 0 <= t < 256 ==> temp[t] == Window(x, offset, t)
      decreases 256 - offset
    {
      forall t | 0 <= t < 256
        ensures Window(x, 2 * offset, t) ==
                Window(x, offset, t) + if t >= offset then Window(x, offset, t - offset) else 0
      {
        WindowDoubles(x, offset, t);
      }
      ReadPartners(v, temp, offset);
      AddRegisters(temp, v);
      offset := 2 * offset;
    }
  }

  /** Write the chunk back; lane 255 also writes the chunk total. */
  method StoreChunk(data: array<int>, blocksums: array<int>, temp: array<int>, wg: nat)
    requires temp.Length == 256 && data != temp && blocksums != temp && data != blocksums && wg < blocksums.Length
    modifies data, blocksums
    ensures forall i :: 0 <= i < data.Length ==>
              data[i] == if 256 * wg <= i < 256 * wg + 256 then temp[i - 256 * wg] else old(data[i])
    ensures blocksums[..] == old(blocksums[..])[wg := temp[255]]
  {
    var todo := Indices(256);
    while todo != {}
      invariant todo <= Indices(256)
      invariant forall i :: 0 <= i < data.Length ==>
                  data[i] == if 256 * wg <= i < 256 * wg + 256 && i - 256 * wg !in todo
                             then temp[i - 256 * wg] else old(data[i])
      invariant blocksums[..] == if 255 in todo then old(blocksums[..]) else old(blocksums[..])[wg := temp[255]]
      decreases todo
    {
      Inhabited(todo);
      var tid :| tid in todo;
      var gid := 256 * wg + tid;
      if gid < data.Length {
        data[gid] := temp[tid];
      }
      if tid == 255 {
        blocksums[wg] := temp[255];
      }
      todo := todo - {tid};
    }
  }

  /** t is s with block wg replaced by its own prefix sums. */
  ghost predicate BlockScanned(s: seq<int>, t: seq<int>, wg: nat) {
    && |t| == |s|
    && forall i {:trigger t[i]} :: 0 <= i < |s| ==>
         t[i] == if 256 * wg <= i < 256 * wg + 256 then Sum(s, 256 * wg, i + 1) else s[i]
  }

  /** shaders/scan.comp for one workgroup. */
  method ScanWorkgroup(data: array<int>, blocksums: array<int>, wg: nat)
    requires data != blocksums && wg < blocksums.Length && 256 * wg < data.Length
    modifies data, blocksums
    ensures BlockScanned(old(data[..]), data[..], wg)
    ensures blocksums[..] == old(blocksums[..])[wg := Sum(old(data[..]), 256 * wg, BlockEnd(data.Length, wg))]
  {
    ghost var s := data[..];
    var temp := new int[256];
    LoadChunk(temp, data, data.Length, wg);
    HillisSteele(temp);
    forall t: nat | t <= 256
      ensures Sum(Chunk(s, |s|, wg), 0, t) == Sum(s, 256 * wg, if 256 * wg + t <= |s| then 256 * wg + t else |s|)
    {
      ChunkSums(s, |s|, wg, t);
    }
    assert temp[255] == Sum(Chunk(s, |s|, wg), 0, 256);
    StoreChunk(data, blocksums, temp, wg);
  }

  // ---- dispatches ------------------------------------------------------------------

  /** The sum from the start of i's block up to and including i. */
  function LocalPrefix(s: seq<int>, i: int): int
    requires 0 <= i < |s|
  {
    Sum(s, 256 * (i / 256), i + 1)
  }

  /** t is s after the workgroups outside `todo` have run. */
  ghost predicate PartlyScanned(s: seq<int>, t: seq<int>, todo: set<int>) {
    && |t| == |s|
    && forall i {:trigger t[i]} :: 0 <= i < |s| ==> t[i] == if i / 256 in todo then s[i] else LocalPrefix(s, i)
  }

  lemma WorkgroupStep(s: seq<int>, t: seq<int>, t': seq<int>, todo: set<int>, wg: nat)
    requires PartlyScanned(s, t, todo) && wg in todo && BlockScanned(t, t', wg) && 256 * wg <= |s|
    ensures PartlyScanned(s, t', todo - {wg})
    ensures Sum(t, 256 * wg, BlockEnd(|s|, wg)) == Sum(s, 256 * wg, BlockEnd(|s|, wg))
  {
    forall i | 256 * wg <= i <= |s| && i <= 256 * wg + 256 ensures Sum(t, 256 * wg, i) == Sum(s, 256 * wg, i) {
      BlockUntouched(s, t, todo, wg, i);
    }
    forall i | 0 <= i < |s| ensures t'[i] == if i / 256 in todo - {wg} then s[i] else LocalPrefix(s, i) {
      assert t[i] == if i / 256 in todo then s[i] else LocalPrefix(s, i);
    }
  }

  lemma BlockUntouched(s: seq<int>, t: seq<int>, todo: set<int>, wg: nat, hi: int)
    requires PartlyScanned(s, t, todo) && wg in todo && 256 * wg <= hi <= |s| && hi <= 256 * wg + 256
    ensures Sum(t, 256 * wg, hi) == Sum(s, 256 * wg, hi)
  {
    SumShift(t, s, 256 * wg, hi, 0);
  }

  /** Dispatch of scan.comp: every workgroup, in any order. */
  method DispatchScan(data: array<int>, blocksums: array<int>, groups: nat)
    requires data != blocksums && groups == Groups(data.Length) == blocksums.Length
    modifies data, blocksums
    ensures PartlyScanned(old(data[..]), data[..], {}) && Totals(old(data[..]), data.Length, blocksums[..], {})
  {
    hide PartlyScanned, BlockScanned;
    ghost var s := data[..];
    var todo := Indices(groups);
    NoneScanned(s, todo);
    while todo != {}
      invariant todo <= Indices(groups)
      invariant PartlyScanned(s, data[..], todo) && Totals(s, |s|, blocksums[..], todo)
      decreases todo
    {
      Inhabited(todo);
      var wg :| wg in todo;
      ghost var before := data[..];
      ScanWorkgroup(data, blocksums, wg);
      WorkgroupStep(s, before, data[..], todo, wg);
      todo := todo - {wg};
    }
  }

  lemma NoneScanned(s: seq<int>, todo: set<int>)
    requires forall g :: 0 <= 256 * g < |s| ==> g in todo
    ensures PartlyScanned(s, s, todo)
  {
  }

  /** Dispatch of scan_add.comp: lanes in any order. */
  method DispatchScanAdd(data: array<int>, offsets: array<int>, groups: nat)
    requires data != offsets && groups == Groups(data.Length) == offsets.Length
    modifies data
    ensures forall i :: 0 <= i < data.Length ==>
              data[i] == old(data[i]) + if i >= 256 then offsets[i / 256 - 1] else 0
  {
    var todo := Indices(256 * groups);
    while todo != {}
      invariant todo <= Indices(256 * groups)
      invariant forall i :: 0 <= i < data.Length ==>
                  data[i] == old(data[i]) + if i >= 256 && i !in todo then offsets[i / 256 - 1] else 0
      decreases todo
    {
      Inhabited(todo);
      var gid :| gid in todo;
      var wgid := gid / 256;
      if gid < data.Length && wgid > 0 {
        data[gid] := data[gid] + offsets[wgid - 1];
      }
      todo := todo - {gid};
    }
  }

  // ---- the launcher ----------------------------------------------------------------

  /** launch_scan: per-block scan, recursive scan of the block sums, offset add. The result is
      false when a scratch allocation or a dispatch fails; then the data is as it was, or every
      block holds its own prefix sums. */
  method LaunchScan(data: array<int>, faulty: bool) returns (ok: bool)
    requires data.Length < MAX_COUNT
    modifies data
    ensures !faulty || data.Length <= 1 ==> ok
    ensures ok ==> forall i :: 0 <= i < data.Length ==> data[i] == Sum(old(data[..]), 0, i + 1)
    ensures !ok ==> data[..] == old(data[..]) || PartlyScanned(old(data[..]), data[..], {})
    decreases data.Length
  {
    ghost var s := data[..];
    var count := data.Length;
    if count <= 1 {
      assert forall i :: 0 <= i < count ==> Sum(s, 0, i) == 0;
      return true;
    }
    GroupsShrink(count);
    var numBlocks := Groups(count);
    var failed := Fails(faulty);
    if failed {
      return false;
    }
    var blocksums := new int[numBlocks];
    failed := Fails(faulty);
    if failed {
      return false;
    }
    DispatchScan(data, blocksums, numBlocks);
    ghost var t, totals := data[..], blocksums[..];
    if numBlocks > 1 {
      ok := LaunchScan(blocksums, faulty);
      if !ok {
        return;
      }
      failed := Fails(faulty);
      if failed {
        return false;
      }
      DispatchScanAdd(data, blocksums, numBlocks);
    }
    forall i | 0 <= i < count
      ensures t[i] + (if i >= 256 then Sum(totals, 0, i / 256) else 0) == Sum(s, 0, i + 1)
    {
      AddOffset(s, t, totals, i);
    }
    ok := true;
  }

  lemma AddOffset(s: seq<int>, t: seq<int>, totals: seq<int>, i: int)
    requires PartlyScanned(s, t, {}) && Totals(s, |s|, totals, {}) && 0 <= i < |s|
    ensures t[i] + (if i >= 256 then Sum(totals, 0, i / 256) else 0) == Sum(s, 0, i + 1)
  {
    SumOfTotals(s, |s|, totals, i / 256);
    SumSplit(s, 0, 256 * (i / 256), i + 1);
  }

  // ---- exclusive scan --------------------------------------------------------------

  /** The finalize kernel: out[i] = init + (i > 0 ? incl[i - 1] : 0), lanes in any order. Its
      shader is generated elsewhere; this is the behaviour its dispatch site states. */
  method DispatchShift(incl: array<int>, output: array<int>, init: int, groups: nat)
    requires incl != output && incl.Length == output.Length <= 256 * groups
    modifies output
    ensures forall i :: 0 <= i < output.Length ==> output[i] == init + if i > 0 then incl[i - 1] else 0
  {
    var todo := Indices(256 * groups);
    while todo != {}
      invariant todo <= Indices(256 * groups)
      invariant forall i :: 0 <= i < output.Length && i !in todo ==>
                  output[i] == init + if i > 0 then incl[i - 1] else 0
      decreases todo
    {
      Inhabited(todo);
      var i :| i in todo;
      if i < output.Length {
        output[i] := init + if i > 0 then incl[i - 1] else 0;
      }
      todo := todo - {i};
    }
  }

  /** launch_exclusive_scan: `input` is the caller's scratch copy, scanned in place. */
  method LaunchExclusiveScan(input: array<int>, output: array<int>, init: int, faulty: bool) returns (ok: bool)
    requires input != output && input.Length == output.Length < MAX_COUNT
    modifies input, output
    ensures !faulty || input.Length == 0 ==> ok
    ensures ok ==> forall i :: 0 <= i < output.Length ==> output[i] == init + Sum(old(input[..]), 0, i)
    ensures !ok ==> output[..] == old(output[..])
  {
    ghost var s := input[..];
    var count := input.Length;
    if count == 0 {
      return true;
    }
    if count > 1 {
      ok := LaunchScan(input, faulty);
      if !ok {
        return;
      }
    }
    assert count == 1 ==> Sum(s, 0, 1) == Sum(s, 0, 0) + s[0];
    var failed := Fails(faulty);
    if failed {
      return false;
    }
    DispatchShift(input, output, init, Groups(count));
    ok := true;
  }
}
