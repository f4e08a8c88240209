/** Kernels on one-byte elements. They meet every assumption that Launches makes about kernels,
    so what it concludes is not empty. */
module ByteKernels {
  import opened Lanes
  import opened Sums
  import opened Chunks
  import opened Arena
  import opened BitonicMerge
  import opened Compaction = Compact
  import opened Scanning = Scan
  import opened Migration
  import opened Elements
  import L = Launches

  /** Unsigned bytes. */
  const BYTES := Format(ByteValue, 0, 255)

  function ByteValue(b: seq<Byte>): int {
    if |b| == 0 then 0 else b[0] as int
  }

  function Clip(x: int): Byte {
    if 0 <= x < 256 then x as Byte else 0
  }

  /** The n bytes from x on, as far as the kernel has read them. */
  function Loaded(v: map<int, Byte>, x: int, n: nat): (s: seq<int>)
    ensures |s| == n
  {
    seq(n, i requires 0 <= i < n => if x + i in v then v[x + i] as int else 0)
  }

  lemma {:induction false} ValuesAreBytes(mem: seq<Byte>, x: int, n: nat)
    requires 0 <= x && x + n <= |mem|
    ensures InMemory(mem, x, n, 1)
    ensures Values(BYTES, mem, x, n, 1) == seq(n, i requires 0 <= i < n => mem[x + i] as int)
    decreases n
  {
    if n > 0 {
      ValuesAreBytes(mem, x, n - 1);
      assert mem[x + Bytes(n - 1, 1)..x + Bytes(n, 1)] == [mem[x + n - 1]];
    }
  }

  /** A kernel that reads the bytes from x on loads their values. */
  lemma LoadedIsValues(k: Kernel, mem: seq<Byte>, x: int, n: nat)
    requires InMemory(mem, x, n, 1) && Range(x, n) <= k.sources
    ensures Loaded(View(k, mem), x, n) == Values(BYTES, mem, x, n, 1)
  {
    ValuesAreBytes(mem, x, n);
    forall i | 0 <= i < n ensures Loaded(View(k, mem), x, n)[i] == mem[x + i] as int {
      assert x + i in Range(x, n);
    }
  }

  /** The kernel writes the value w at y. */
  ghost predicate Writes(k: Kernel, mem: seq<Byte>, y: int, w: int) {
    y in k.run(View(k, mem)).Keys && k.run(View(k, mem))[y] == Clip(w)
  }

  lemma EffectAt(k: Kernel, mem: seq<Byte>, y: int)
    requires 0 <= y < |mem|
    ensures var out := k.run(View(k, mem));
      Effect(k, mem)[y] == if y in k.targets && y in out then out[y] else mem[y]
  {
  }

  lemma ValuesAfter(k: Kernel, mem: seq<Byte>, x: int, n: nat, t: seq<int>)
    requires InMemory(mem, x, n, 1) && |t| == n && Range(x, n) <= k.targets
    requires forall i {:trigger t[i]} :: 0 <= i < n ==> 0 <= t[i] < 256 && Writes(k, mem, x + i, t[i])
    ensures Values(BYTES, Effect(k, mem), x, n, 1) == t
  {
    ValuesAreBytes(Effect(k, mem), x, n);
    forall i | 0 <= i < n ensures Values(BYTES, Effect(k, mem), x, n, 1)[i] == t[i] {
      assert x + i in Range(x, n);
      assert Clip(t[i]) as int == t[i];
    }
  }

  // ---- sort ------------------------------------------------------------------------

  function ByteStage(count: nat): (int, nat, nat) -> Kernel {
    (x: int, k: nat, j: nat) => Kernel(Range(x, count), Range(x, count), v =>
      map y | y in Range(x, count) :: Clip(Stage(Loaded(v, x, count), k, j)[y - x]))
  }

  lemma StageHolds(x: int, n: nat, capacity: nat)
    ensures StageMeaning(ByteStage(n), BYTES, x, n, 1, capacity)
    ensures forall d, k, j {:trigger ByteStage(n)(d, k, j)} ::
              ByteStage(n)(d, k, j).sources == ByteStage(n)(d, k, j).targets == Range(d, Bytes(n, 1))
  {
    hide Stage, Values;
    forall mem, k, j {:trigger Effect(ByteStage(n)(x, k, j), mem)} | |mem| == capacity && InMemory(mem, x, n, 1)
      ensures Values(BYTES, Effect(ByteStage(n)(x, k, j), mem), x, n, 1) == Stage(Values(BYTES, mem, x, n, 1), k, j)
    {
      var kernel := ByteStage(n)(x, k, j);
      LoadedIsValues(kernel, mem, x, n);
      ValuesAreBytes(mem, x, n);
      StageInRange(Values(BYTES, mem, x, n, 1), k, j);
      ValuesAfter(kernel, mem, x, n, Stage(Values(BYTES, mem, x, n, 1), k, j));
    }
  }

  lemma StageInRange(s: seq<int>, k: nat, j: nat)
    requires forall i :: 0 <= i < |s| ==> 0 <= s[i] < 256
    ensures forall i :: 0 <= i < |s| ==> 0 <= Stage(s, k, j)[i] < 256
  {
  }

  // ---- scan ------------------------------------------------------------------------

  /** What the scan kernel writes at y. */
  function ScanValue(x: seq<int>, d: int, s: int, n: nat, y: int): int
    requires |x| == n
  {
    if d <= y < d + n then LocalPrefix(x, y - d)
    else if s <= y < s + Groups(n) && 256 * (y - s) <= n then Sum(x, 256 * (y - s), BlockEnd(n, y - s))
    else 0
  }

  function ByteScan(d: int, s: int, n: nat): Kernel {
    var targets := Range(d, n) + Range(s, Groups(n));
    Kernel(Range(d, n), targets, v => map y | y in targets :: Clip(ScanValue(Loaded(v, d, n), d, s, n, y)))
  }

  function ByteAdd(d: int, s: int, n: nat): Kernel {
    Kernel(Range(d, n) + Range(s, Groups(n)), Range(d, n), v => map y | y in Range(d, n) ::
      Clip(Loaded(v, d, n)[y - d] + if y - d >= 256 then Loaded(v, s, Groups(n))[(y - d) / 256 - 1] else 0))
  }

  lemma ScanHolds(capacity: nat)
    ensures ScanMeaning(ByteScan, ByteAdd, BYTES, 1, capacity) && L.ScanKernels(ByteScan, ByteAdd, 1)
  {
    hide BlocksScanned, OffsetsAdded, Separate, SumsFit, OffsetsFit, Values;
    forall d, s, n, mem {:trigger Effect(ByteScan(d, s, n), mem)}
      | |mem| == capacity && Separate(mem, d, s, n, 1) && SeparateSums(mem, d, s, n)
      ensures BlocksScanned(BYTES, 1, mem, Effect(ByteScan(d, s, n), mem), d, s, n)
    {
      ByteScanScans(mem, d, s, n);
    }
    forall d, s, n, mem {:trigger Effect(ByteAdd(d, s, n), mem)}
      | |mem| == capacity && Separate(mem, d, s, n, 1) && SeparateOffsets(mem, d, s, n)
      ensures OffsetsAdded(BYTES, 1, mem, Effect(ByteAdd(d, s, n), mem), d, s, n)
    {
      ByteAddAdds(mem, d, s, n);
    }
  }

  ghost predicate SeparateSums(mem: seq<Byte>, d: int, s: int, n: nat) {
    Separate(mem, d, s, n, 1) && SumsFit(BYTES, Values(BYTES, mem, d, n, 1))
  }

  ghost predicate SeparateOffsets(mem: seq<Byte>, d: int, s: int, n: nat) {
    Separate(mem, d, s, n, 1) && OffsetsFit(BYTES, 1, mem, d, s, n)
  }

  lemma ByteScanScans(mem: seq<Byte>, d: int, s: int, n: nat)
    requires SeparateSums(mem, d, s, n)
    ensures BlocksScanned(BYTES, 1, mem, Effect(ByteScan(d, s, n), mem), d, s, n)
  {
    hide Values, Effect, SumsFit, PartlyScanned, Totals, Apart;
    ByteScanPrefixes(mem, d, s, n);
    ByteScanTotals(mem, d, s, n);
  }

  lemma ByteScanPrefixes(mem: seq<Byte>, d: int, s: int, n: nat)
    requires SeparateSums(mem, d, s, n)
    ensures PartlyScanned(Values(BYTES, mem, d, n, 1), Values(BYTES, Effect(ByteScan(d, s, n), mem), d, n, 1), {})
  {
    hide Values, Effect, LocalPrefix, SumsFit, Writes;
    var k, x := ByteScan(d, s, n), Values(BYTES, mem, d, n, 1);
    var t := seq(n, i requires 0 <= i < n => LocalPrefix(x, i));
    forall i {:trigger t[i]} | 0 <= i < n ensures 0 <= t[i] < 256 && Writes(k, mem, d + i, t[i]) {
      LocalPrefixFits(x, i);
      ByteScanWrites(mem, d, s, n, d + i);
    }
    ValuesAfter(k, mem, d, n, t);
  }

  lemma ByteScanTotals(mem: seq<Byte>, d: int, s: int, n: nat)
    requires SeparateSums(mem, d, s, n)
    ensures Totals(Values(BYTES, mem, d, n, 1), n, Values(BYTES, Effect(ByteScan(d, s, n), mem), s, Groups(n), 1), {})
  {
    hide Values, Effect, SumsFit, Writes, Sum;
    var k, x := ByteScan(d, s, n), Values(BYTES, mem, d, n, 1);
    var tot := seq(Groups(n), g requires 0 <= g < Groups(n) => Sum(x, 256 * g, BlockEnd(n, g)));
    forall g {:trigger tot[g]} | 0 <= g < Groups(n) ensures 0 <= tot[g] < 256 && Writes(k, mem, s + g, tot[g]) {
      BlockSumFits(x, g);
      ByteScanWrites(mem, d, s, n, s + g);
    }
    ValuesAfter(k, mem, s, Groups(n), tot);
  }

  lemma ByteScanWrites(mem: seq<Byte>, d: int, s: int, n: nat, y: int)
    requires SeparateSums(mem, d, s, n) && (d <= y < d + n || s <= y < s + Groups(n))
    ensures Writes(ByteScan(d, s, n), mem, y, ScanValue(Values(BYTES, mem, d, n, 1), d, s, n, y))
  {
    hide Values, SumsFit, View, Loaded, Clip, ScanValue, Groups;
    LoadedIsValues(ByteScan(d, s, n), mem, d, n);
    assert y in Range(d, n) + Range(s, Groups(n));
  }

  lemma BlockSumFits(x: seq<int>, g: nat)
    requires SumsFit(BYTES, x) && g < Groups(|x|)
    ensures 0 <= 256 * g <= BlockEnd(|x|, g) <= |x| && 0 <= Sum(x, 256 * g, BlockEnd(|x|, g)) < 256
  {
  }

  lemma LocalPrefixFits(x: seq<int>, i: nat)
    requires SumsFit(BYTES, x) && i < |x|
    ensures 0 <= LocalPrefix(x, i) < 256
  {
  }

  lemma ByteAddWrites(mem: seq<Byte>, d: int, s: int, n: nat, i: nat)
    requires SeparateOffsets(mem, d, s, n) && i < n
    ensures Writes(ByteAdd(d, s, n), mem, d + i, Shifted(BYTES, 1, mem, d, s, n, i))
  {
    hide Values, OffsetsFit, View, Loaded, Clip;
    var k := ByteAdd(d, s, n);
    LoadedIsValues(k, mem, d, n);
    LoadedIsValues(k, mem, s, Groups(n));
    assert d + i in Range(d, n);
  }

  lemma ByteAddAdds(mem: seq<Byte>, d: int, s: int, n: nat)
    requires SeparateOffsets(mem, d, s, n)
    ensures OffsetsAdded(BYTES, 1, mem, Effect(ByteAdd(d, s, n), mem), d, s, n)
  {
    hide Values, Effect;
    var k := ByteAdd(d, s, n);
    LoadedIsValues(k, mem, d, n);
    LoadedIsValues(k, mem, s, Groups(n));
    var t := seq(n, i requires 0 <= i < n => Shifted(BYTES, 1, mem, d, s, n, i));
    forall i {:trigger t[i]} | 0 <= i < n ensures 0 <= t[i] < 256 && Writes(k, mem, d + i, t[i]) {
      ByteAddWrites(mem, d, s, n, i);
    }
    ValuesAfter(k, mem, d, n, t);
  }

  // ---- reduce ----------------------------------------------------------------------

  function ByteLevel(s: int, d: int, n: nat): Kernel {
    Kernel(Range(s, n), Range(d, Groups(n)), v => map y | y in Range(d, Groups(n)) ::
      Clip(if 256 * (y - d) <= n then Sum(Loaded(v, s, n), 256 * (y - d), BlockEnd(n, y - d)) else 0))
  }

  lemma LevelHolds(capacity: nat)
    ensures LevelMeaning(ByteLevel, BYTES, 1, capacity) && L.ReduceKernels(ByteLevel, 1)
  {
    hide Values, Effect, SumsFit;
    forall s, d, n, mem {:trigger Effect(ByteLevel(s, d, n), mem)}
      | |mem| == capacity && SeparateSums(mem, s, d, n)
      ensures Totals(Values(BYTES, mem, s, n, 1), n,
                     Values(BYTES, Effect(ByteLevel(s, d, n), mem), d, Groups(n), 1), {})
    {
      ByteLevelSums(mem, s, d, n);
    }
  }

  lemma ByteLevelSums(mem: seq<Byte>, s: int, d: int, n: nat)
    requires SeparateSums(mem, s, d, n)
    ensures Totals(Values(BYTES, mem, s, n, 1), n, Values(BYTES, Effect(ByteLevel(s, d, n), mem), d, Groups(n), 1), {})
  {
    hide Values, Effect, SumsFit;
    var k, x := ByteLevel(s, d, n), Values(BYTES, mem, s, n, 1);
    var tot := seq(Groups(n), g requires 0 <= g < Groups(n) => Sum(x, 256 * g, BlockEnd(n, g)));
    forall g {:trigger tot[g]} | 0 <= g < Groups(n) ensures 0 <= tot[g] < 256 && Writes(k, mem, d + g, tot[g]) {
      BlockSumFits(x, g);
      ByteLevelWrites(mem, s, d, n, g);
    }
    ValuesAfter(k, mem, d, Groups(n), tot);
  }

  lemma ByteLevelWrites(mem: seq<Byte>, s: int, d: int, n: nat, g: nat)
    requires SeparateSums(mem, s, d, n) && g < Groups(n) && 256 * g <= n
    ensures Writes(ByteLevel(s, d, n), mem, d + g, Sum(Values(BYTES, mem, s, n, 1), 256 * g, BlockEnd(n, g)))
  {
    hide Values, SumsFit, View, Loaded, Clip, Groups;
    LoadedIsValues(ByteLevel(s, d, n), mem, s, n);
    assert d + g in Range(d, Groups(n));
  }

  // ---- compaction ------------------------------------------------------------------

  function ByteFlags(pred: int -> bool): (int, int, nat) -> Kernel {
    (i: int, f: int, n: nat) => Kernel(Range(i, n), Range(f, n), v => Placed(Flags(Loaded(v, i, n), pred), f, n))
  }

  function ByteScatter(pred: int -> bool): (int, int, int, nat) -> Kernel {
    (i: int, o: int, f: int, n: nat) => Kernel(Range(i, n) + Range(f, n), Range(o, n), v =>
      Placed(Filter(Loaded(v, i, n), pred), o, n))
  }

  /** The given values at the front of the n bytes from o on. */
  function Placed(kept: seq<int>, o: int, n: nat): (m: map<int, Byte>)
    ensures forall y :: y in m <==> o <= y < o + n && y - o < |kept|
    ensures forall y :: y in m ==> m[y] == Clip(kept[y - o])
  {
    map y | y in Range(o, n) && y - o < |kept| :: Clip(kept[y - o])
  }

  lemma CompactHolds(pred: int -> bool, capacity: nat)
    ensures CompactMeaning(ByteFlags(pred), ByteScatter(pred), BYTES, pred, 1, capacity)
    ensures L.FlagKernels(ByteFlags(pred), 1) && L.ScatterKernels(ByteScatter(pred), 1)
  {
    hide Values, Effect, PartlyScattered, Scanned, Filter, Flags;
    forall i, f, n, mem {:trigger Effect(ByteFlags(pred)(i, f, n), mem)}
      | |mem| == capacity && InMemory(mem, i, n, 1) && InMemory(mem, f, n, 1)
      ensures Values(BYTES, Effect(ByteFlags(pred)(i, f, n), mem), f, n, 1) == Flags(Values(BYTES, mem, i, n, 1), pred)
    {
      ByteFlagsFlag(pred, mem, i, f, n);
    }
    forall i, o, f, n, mem {:trigger Effect(ByteScatter(pred)(i, o, f, n), mem)}
      | |mem| == capacity && Scatterable(BYTES, mem, i, o, f, n, 1, pred)
      ensures PartlyScattered(Values(BYTES, mem, i, n, 1), pred, Values(BYTES, mem, o, n, 1),
                              Values(BYTES, Effect(ByteScatter(pred)(i, o, f, n), mem), o, n, 1), {})
    {
      ByteScatterScatters(pred, mem, i, o, f, n);
    }
  }

  lemma ByteFlagsFlag(pred: int -> bool, mem: seq<Byte>, i: int, f: int, n: nat)
    requires InMemory(mem, i, n, 1) && InMemory(mem, f, n, 1)
    ensures Values(BYTES, Effect(ByteFlags(pred)(i, f, n), mem), f, n, 1) == Flags(Values(BYTES, mem, i, n, 1), pred)
  {
    hide Values, Effect, Flags, Writes;
    var k, t := ByteFlags(pred)(i, f, n), Flags(Values(BYTES, mem, i, n, 1), pred);
    FlagsAreBytes(Values(BYTES, mem, i, n, 1), pred);
    forall j {:trigger t[j]} | 0 <= j < n ensures 0 <= t[j] < 256 && Writes(k, mem, f + j, t[j]) {
      ByteFlagsWrites(pred, mem, i, f, n, j);
    }
    ValuesAfter(k, mem, f, n, t);
  }

  lemma PlacedWrites(k: Kernel, mem: seq<Byte>, kept: seq<int>, o: int, n: nat, j: nat)
    requires k.run(View(k, mem)) == Placed(kept, o, n) && j < n && j < |kept|
    ensures Writes(k, mem, o + j, kept[j])
  {
    hide View, Placed, Clip;
  }

  lemma ByteFlagsWrites(pred: int -> bool, mem: seq<Byte>, i: int, f: int, n: nat, j: nat)
    requires InMemory(mem, i, n, 1) && j < n
    ensures Writes(ByteFlags(pred)(i, f, n), mem, f + j, Flags(Values(BYTES, mem, i, n, 1), pred)[j])
  {
    hide Values, Flags, Loaded, View, Clip, Placed, Range, Writes;
    var k := ByteFlags(pred)(i, f, n);
    LoadedIsValues(k, mem, i, n);
    assert k.run(View(k, mem)) == Placed(Flags(Loaded(View(k, mem), i, n), pred), f, n);
    PlacedWrites(k, mem, Flags(Values(BYTES, mem, i, n, 1), pred), f, n, j);
  }

  lemma FlagsAreBytes(s: seq<int>, pred: int -> bool)
    ensures forall i :: 0 <= i < |s| ==> 0 <= Flags(s, pred)[i] < 256
  {
  }

  lemma ByteScatterScatters(pred: int -> bool, mem: seq<Byte>, i: int, o: int, f: int, n: nat)
    requires InMemory(mem, i, n, 1) && InMemory(mem, o, n, 1)
    ensures PartlyScattered(Values(BYTES, mem, i, n, 1), pred, Values(BYTES, mem, o, n, 1),
                            Values(BYTES, Effect(ByteScatter(pred)(i, o, f, n), mem), o, n, 1), {})
  {
    hide Values, Filter, Effect, PartlyScattered;
    var k, s := ByteScatter(pred)(i, o, f, n), Values(BYTES, mem, i, n, 1);
    var before, after := Values(BYTES, mem, o, n, 1), Values(BYTES, Effect(k, mem), o, n, 1);
    ValuesAreBytes(mem, o, n);
    ValuesAreBytes(Effect(k, mem), o, n);
    FilterShorter(s, pred);
    forall r | 0 <= r < n ensures after[r] == if r < |Filter(s, pred)| then Filter(s, pred)[r] else before[r] {
      ByteScatterAt(pred, mem, i, o, f, n, r);
    }
    AllScattered(s, pred, before, after);
  }

  lemma ByteScatterAt(pred: int -> bool, mem: seq<Byte>, i: int, o: int, f: int, n: nat, r: nat)
    requires InMemory(mem, i, n, 1) && InMemory(mem, o, n, 1) && r < n
    ensures var kept := Filter(Values(BYTES, mem, i, n, 1), pred);
      Effect(ByteScatter(pred)(i, o, f, n), mem)[o + r] as int == if r < |kept| then kept[r] else mem[o + r] as int
  {
    hide Values, Filter, Loaded, View, Effect, Placed, Clip;
    var k, s := ByteScatter(pred)(i, o, f, n), Values(BYTES, mem, i, n, 1);
    LoadedIsValues(k, mem, i, n);
    assert k.run(View(k, mem)) == Placed(Filter(Loaded(View(k, mem), i, n), pred), o, n);
    PlacedEffect(k, mem, Filter(s, pred), o, n, r);
    if r < |Filter(s, pred)| {
      ValuesAreBytes(mem, i, n);
      KeptIsElement(s, pred, r);
      ClipExact(Filter(s, pred)[r]);
    }
  }

  lemma PlacedEffect(k: Kernel, mem: seq<Byte>, kept: seq<int>, o: int, n: nat, r: nat)
    requires k.run(View(k, mem)) == Placed(kept, o, n) && r < n && 0 <= o && o + n <= |mem| && k.targets == Range(o, n)
    ensures Effect(k, mem)[o + r] == if r < |kept| then Clip(kept[r]) else mem[o + r]
  {
    hide View, Placed, Clip, Effect;
    EffectAt(k, mem, o + r);
    assert o + r in Range(o, n);
  }

  lemma ClipExact(x: int)
    requires 0 <= x < 256
    ensures Clip(x) as int == x
  {
  }

  lemma AllScattered(s: seq<int>, pred: int -> bool, before: seq<int>, after: seq<int>)
    requires |after| == |before|
    requires forall r :: 0 <= r < |after| ==>
               after[r] == if r < |Filter(s, pred)| then Filter(s, pred)[r] else before[r]
    ensures PartlyScattered(s, pred, before, after, {})
  {
    hide Filter;
  }

  lemma KeptIsElement(s: seq<int>, pred: int -> bool, r: nat)
    requires r < |Filter(s, pred)|
    ensures Filter(s, pred)[r] in s
  {
    var i := Keeper(s, pred, r);
    KeeperPlace(s, pred, r);
    KeptElement(s, pred, i);
  }
}
