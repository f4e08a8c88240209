/** Buffers of elements in a byte memory, and what the kernels of the primitives mean on them:
    the same relations that their dispatches are proved to establish on arrays. */
module Elements {
  import opened Lanes
  import opened Sums
  import opened Chunks
  import opened Arena
  import opened Migration
  import opened BitonicMerge
  import opened Scan
  import opened Compact

  /** Byte sizes: n elements of es bytes. */
  function Bytes(n: nat, es: nat): nat {
    n * es
  }

  lemma BytesMonotone(n: nat, m: nat, es: nat)
    requires n <= m
    ensures Bytes(n, es) <= Bytes(m, es)
  {
    assert m * es == n * es + (m - n) * es;
    assert (m - n) * es >= 0;
  }

  /** An element type: the integer that the bytes of an element stand for, and the least and
      greatest integer it holds. */
  datatype Format = Format(decode: seq<Byte> -> int, lo: int, hi: int)

  /** Every sum of consecutive elements fits the element type, so no addition wraps around. */
  ghost predicate SumsFit(fmt: Format, s: seq<int>) {
    forall i, j {:trigger Sum(s, i, j)} :: 0 <= i <= j <= |s| ==> fmt.lo <= Sum(s, i, j) <= fmt.hi
  }

  predicate InMemory(mem: seq<Byte>, x: int, n: nat, es: nat) {
    0 <= x && x + Bytes(n, es) <= |mem|
  }

  /** The n elements of es bytes from x on. */
  function Values(fmt: Format, mem: seq<Byte>, x: int, n: nat, es: nat): (s: seq<int>)
    requires InMemory(mem, x, n, es)
    ensures |s| == n
  {
    if n == 0 then []
    else
      BytesMonotone(n - 1, n, es);
      Values(fmt, mem, x, n - 1, es) + [fmt.decode(mem[x + Bytes(n - 1, es)..x + Bytes(n, es)])]
  }

  /** The first n bytes from x on are the same in both memories. */
  ghost predicate SameRange(a: seq<Byte>, b: seq<Byte>, x: int, n: nat) {
    |a| == |b| && forall y {:trigger a[y]} {:trigger b[y]} :: x <= y < x + n && 0 <= y < |a| ==> a[y] == b[y]
  }

  lemma {:induction false} SameValues(fmt: Format, a: seq<Byte>, b: seq<Byte>, x: int, n: nat, es: nat)
    requires InMemory(a, x, n, es) && SameRange(a, b, x, Bytes(n, es))
    ensures Values(fmt, a, x, n, es) == Values(fmt, b, x, n, es)
    decreases n
  {
    if n > 0 {
      BytesMonotone(n - 1, n, es);
      SameValues(fmt, a, b, x, n - 1, es);
      assert a[x + Bytes(n - 1, es)..x + Bytes(n, es)] == b[x + Bytes(n - 1, es)..x + Bytes(n, es)];
    }
  }

  lemma {:induction false} ValueAt(fmt: Format, mem: seq<Byte>, x: int, n: nat, es: nat, i: nat)
    requires InMemory(mem, x, n, es) && i < n
    ensures InMemory(mem, x + Bytes(i, es), 1, es) && Bytes(1, es) == es
    ensures Values(fmt, mem, x, n, es)[i] == fmt.decode(mem[x + Bytes(i, es)..x + Bytes(i, es) + es])
    decreases n
  {
    BytesMonotone(i + 1, n, es);
    assert Bytes(i + 1, es) == Bytes(i, es) + es;
    BytesMonotone(n - 1, n, es);
    if i < n - 1 { ValueAt(fmt, mem, x, n - 1, es, i); }
  }

  /** The ranges [x, x + a) and [y, y + b) share no byte. */
  predicate Apart(x: int, a: nat, y: int, b: nat) {
    a == 0 || b == 0 || x + a <= y || y + b <= x
  }

  // ---- sort ------------------------------------------------------------------------

  /** `stage` is shaders/bitonic.comp on the n elements at x. */
  ghost predicate StageMeaning(stage: (int, nat, nat) -> Kernel, fmt: Format, x: int, n: nat, es: nat, capacity: nat) {
    forall mem, k, j {:trigger Effect(stage(x, k, j), mem)} :: |mem| == capacity && InMemory(mem, x, n, es) ==>
      Values(fmt, Effect(stage(x, k, j), mem), x, n, es) == Stage(Values(fmt, mem, x, n, es), k, j)
  }

  // ---- scan ------------------------------------------------------------------------

  /** b is a with every block of the n elements at d scanned and the block totals at s. */
  ghost predicate BlocksScanned(fmt: Format, es: nat, a: seq<Byte>, b: seq<Byte>, d: int, s: int, n: nat) {
    && |a| == |b| && InMemory(a, d, n, es) && InMemory(a, s, Groups(n), es)
    && PartlyScanned(Values(fmt, a, d, n, es), Values(fmt, b, d, n, es), {})
    && Totals(Values(fmt, a, d, n, es), n, Values(fmt, b, s, Groups(n), es), {})
  }

  /** Element i of the n at d plus the scanned total at s of the blocks before it. */
  function Shifted(fmt: Format, es: nat, a: seq<Byte>, d: int, s: int, n: nat, i: nat): int
    requires InMemory(a, d, n, es) && InMemory(a, s, Groups(n), es) && i < n
  {
    Values(fmt, a, d, n, es)[i] + if i >= 256 then Values(fmt, a, s, Groups(n), es)[i / 256 - 1] else 0
  }

  ghost predicate OffsetsFit(fmt: Format, es: nat, a: seq<Byte>, d: int, s: int, n: nat)
    requires InMemory(a, d, n, es) && InMemory(a, s, Groups(n), es)
  {
    forall i :: 0 <= i < n ==> fmt.lo <= Shifted(fmt, es, a, d, s, n, i) <= fmt.hi
  }

  /** b is a with the scanned totals at s added to the later blocks of the n elements at d. */
  ghost predicate OffsetsAdded(fmt: Format, es: nat, a: seq<Byte>, b: seq<Byte>, d: int, s: int, n: nat) {
    && |a| == |b| && InMemory(a, d, n, es) && InMemory(a, s, Groups(n), es)
    && forall i {:trigger Values(fmt, b, d, n, es)[i]} :: 0 <= i < n ==>
         Values(fmt, b, d, n, es)[i] == Shifted(fmt, es, a, d, s, n, i)
  }

  /** `scan` and `add` are shaders/scan.comp and shaders/scan_add.comp on buffers that do not
      overlap. */
  ghost predicate ScanMeaning(scan: (int, int, nat) -> Kernel, add: (int, int, nat) -> Kernel, fmt: Format, es: nat,
                              capacity: nat) {
    && (forall d, s, n, mem {:trigger Effect(scan(d, s, n), mem)} ::
          |mem| == capacity && Separate(mem, d, s, n, es) && SumsFit(fmt, Values(fmt, mem, d, n, es)) ==>
            BlocksScanned(fmt, es, mem, Effect(scan(d, s, n), mem), d, s, n))
    && (forall d, s, n, mem {:trigger Effect(add(d, s, n), mem)} ::
          |mem| == capacity && Separate(mem, d, s, n, es) && OffsetsFit(fmt, es, mem, d, s, n) ==>
            OffsetsAdded(fmt, es, mem, Effect(add(d, s, n), mem), d, s, n))
  }

  /** n elements at d and one per workgroup at s, apart from each other. */
  predicate Separate(mem: seq<Byte>, d: int, s: int, n: nat, es: nat) {
    InMemory(mem, d, n, es) && InMemory(mem, s, Groups(n), es) && Apart(d, Bytes(n, es), s, Bytes(Groups(n), es))
  }

  /** The n elements at d hold in b the inclusive scan of what they hold in a. */
  ghost predicate PrefixSums(fmt: Format, es: nat, a: seq<Byte>, b: seq<Byte>, d: int, n: nat) {
    && |a| == |b| && InMemory(a, d, n, es)
    && forall i {:trigger Values(fmt, b, d, n, es)[i]} :: 0 <= i < n ==>
         Values(fmt, b, d, n, es)[i] == Sum(Values(fmt, a, d, n, es), 0, i + 1)
  }

  lemma ShortScan(fmt: Format, es: nat, a: seq<Byte>, d: int, n: nat)
    requires n <= 1 && InMemory(a, d, n, es)
    ensures PrefixSums(fmt, es, a, a, d, n)
  {
    if n == 1 {
      var s := Values(fmt, a, d, n, es);
      assert Sum(s, 0, 0) == 0;
    }
  }

  /** A scan of one block needs no offsets. */
  lemma OneBlockScan(fmt: Format, es: nat, a: seq<Byte>, b: seq<Byte>, d: int, s: int, n: nat)
    requires BlocksScanned(fmt, es, a, b, d, s, n) && Groups(n) <= 1
    ensures PrefixSums(fmt, es, a, b, d, n)
  {
    hide Values;
    var x, y, tot := Values(fmt, a, d, n, es), Values(fmt, b, d, n, es), Values(fmt, b, s, Groups(n), es);
    forall i | 0 <= i < n ensures y[i] == Sum(x, 0, i + 1) {
      AddOffset(x, y, tot, i);
    }
  }

  /** Sums of totals are sums of the elements, so they fit as well. */
  lemma TotalsFit(fmt: Format, x: seq<int>, tot: seq<int>)
    requires SumsFit(fmt, x) && Totals(x, |x|, tot, {}) && |tot| == Groups(|x|)
    ensures SumsFit(fmt, tot)
  {
    hide Totals;
    var n := |x|;
    forall i, j {:trigger Sum(tot, i, j)} | 0 <= i <= j <= |tot| ensures fmt.lo <= Sum(tot, i, j) <= fmt.hi {
      SumOfTotals(x, n, tot, i);
      SumOfTotals(x, n, tot, j);
      SumSplit(tot, 0, i, j);
      SumSplit(x, 0, if 256 * i <= n then 256 * i else n, if 256 * j <= n then 256 * j else n);
    }
  }

  /** After the block scans and the scan of the totals, the shifted elements are the prefix
      sums, which fit. */
  lemma ScanShifts(fmt: Format, es: nat, a: seq<Byte>, b: seq<Byte>, c: seq<Byte>, d: int, s: int, n: nat)
    requires BlocksScanned(fmt, es, a, b, d, s, n) && PrefixSums(fmt, es, b, c, s, Groups(n))
    requires SameRange(b, c, d, Bytes(n, es))
    ensures InMemory(c, d, n, es) && InMemory(c, s, Groups(n), es)
    ensures forall i :: 0 <= i < n ==> Shifted(fmt, es, c, d, s, n, i) == Sum(Values(fmt, a, d, n, es), 0, i + 1)
    ensures SumsFit(fmt, Values(fmt, a, d, n, es)) ==> OffsetsFit(fmt, es, c, d, s, n)
  {
    hide Values, SumsFit;
    SameValues(fmt, b, c, d, n, es);
    var x, y, tot := Values(fmt, a, d, n, es), Values(fmt, b, d, n, es), Values(fmt, b, s, Groups(n), es);
    forall i | 0 <= i < n ensures Shifted(fmt, es, c, d, s, n, i) == Sum(x, 0, i + 1) {
      AddOffset(x, y, tot, i);
    }
    if SumsFit(fmt, x) {
      forall i | 0 <= i < n ensures fmt.lo <= Shifted(fmt, es, c, d, s, n, i) <= fmt.hi {
        PrefixFits(fmt, x, i + 1);
      }
    }
  }

  lemma PrefixFits(fmt: Format, x: seq<int>, i: nat)
    requires SumsFit(fmt, x) && i <= |x|
    ensures fmt.lo <= Sum(x, 0, i) <= fmt.hi
  {
  }

  /** The offset kernel completes the scan. */
  lemma ScanCombines(fmt: Format, es: nat, a: seq<Byte>, b: seq<Byte>, c: seq<Byte>, e: seq<Byte>, d: int, s: int,
                     n: nat)
    requires BlocksScanned(fmt, es, a, b, d, s, n) && PrefixSums(fmt, es, b, c, s, Groups(n))
    requires SameRange(b, c, d, Bytes(n, es)) && OffsetsAdded(fmt, es, c, e, d, s, n)
    ensures PrefixSums(fmt, es, a, e, d, n)
  {
    hide Values, Shifted;
    ScanShifts(fmt, es, a, b, c, d, s, n);
  }

  // ---- reduce ----------------------------------------------------------------------

  /** `level` is shaders/reduce.comp: one total per workgroup of the n elements at s. */
  ghost predicate LevelMeaning(level: (int, int, nat) -> Kernel, fmt: Format, es: nat, capacity: nat) {
    forall s, d, n, mem {:trigger Effect(level(s, d, n), mem)} ::
      |mem| == capacity && Separate(mem, s, d, n, es) && SumsFit(fmt, Values(fmt, mem, s, n, es)) ==>
        Totals(Values(fmt, mem, s, n, es), n, Values(fmt, Effect(level(s, d, n), mem), d, Groups(n), es), {})
  }

  /** The sum of the n elements at x. */
  function SumAt(fmt: Format, mem: seq<Byte>, x: int, n: nat, es: nat): int
    requires InMemory(mem, x, n, es)
  {
    Sum(Values(fmt, mem, x, n, es), 0, n)
  }

  /** A level keeps the sum. */
  lemma LevelKeepsTotal(level: (int, int, nat) -> Kernel, fmt: Format, es: nat, mem: seq<Byte>, s: int, d: int, n: nat)
    requires LevelMeaning(level, fmt, es, |mem|) && Separate(mem, s, d, n, es) && n >= 1
    requires SumsFit(fmt, Values(fmt, mem, s, n, es))
    ensures SumsFit(fmt, Values(fmt, Effect(level(s, d, n), mem), d, Groups(n), es))
    ensures SumAt(fmt, Effect(level(s, d, n), mem), d, Groups(n), es) == SumAt(fmt, mem, s, n, es)
  {
    hide Values, Effect, SumsFit;
    var x, tot := Values(fmt, mem, s, n, es), Values(fmt, Effect(level(s, d, n), mem), d, Groups(n), es);
    TotalsFit(fmt, x, tot);
    SumOfTotals(x, n, tot, Groups(n));
  }

  /** The sum of a single element is that element. */
  lemma SingleTotal(fmt: Format, es: nat, mem: seq<Byte>, x: int)
    requires InMemory(mem, x, 1, es)
    ensures Bytes(1, es) == es && SumAt(fmt, mem, x, 1, es) == fmt.decode(mem[x..x + es])
  {
    ValueAt(fmt, mem, x, 1, es, 0);
    var s := Values(fmt, mem, x, 1, es);
    assert Sum(s, 0, 1) == Sum(s, 0, 0) + s[0];
  }

  // ---- compaction ------------------------------------------------------------------

  /** Sums of n flags fit a type that holds 0 and n. */
  lemma FlagsFit(fmt: Format, s: seq<int>, pred: int -> bool)
    requires fmt.lo <= 0 && |s| <= fmt.hi
    ensures SumsFit(fmt, Flags(s, pred))
  {
    forall i, j {:trigger Sum(Flags(s, pred), i, j)} | 0 <= i <= j <= |s|
      ensures 0 <= Sum(Flags(s, pred), i, j) <= j - i
    {
      FlagSums(Flags(s, pred), i, j);
    }
  }

  lemma {:induction false} FlagSums(f: seq<int>, i: int, j: int)
    requires 0 <= i <= j <= |f| && forall k :: 0 <= k < |f| ==> f[k] == 0 || f[k] == 1
    ensures 0 <= Sum(f, i, j) <= j - i
    decreases j - i
  {
    if i < j { FlagSums(f, i, j - 1); }
  }

  /** `flags` and `scatter` are shaders/flags.comp and shaders/scatter.comp for `pred`. */
  ghost predicate CompactMeaning(flags: (int, int, nat) -> Kernel, scatter: (int, int, int, nat) -> Kernel, fmt: Format,
                                 pred: int -> bool, es: nat, capacity: nat) {
    && (forall i, f, n, mem {:trigger Effect(flags(i, f, n), mem)} ::
          && |mem| == capacity && InMemory(mem, i, n, es) && InMemory(mem, f, n, es)
          && Apart(i, Bytes(n, es), f, Bytes(n, es)) ==>
            Values(fmt, Effect(flags(i, f, n), mem), f, n, es) == Flags(Values(fmt, mem, i, n, es), pred))
    && (forall i, o, f, n, mem {:trigger Effect(scatter(i, o, f, n), mem)} ::
          |mem| == capacity && Scatterable(fmt, mem, i, o, f, n, es, pred) ==>
            PartlyScattered(Values(fmt, mem, i, n, es), pred, Values(fmt, mem, o, n, es),
                            Values(fmt, Effect(scatter(i, o, f, n), mem), o, n, es), {}))
  }

  /** The scanned flags of the elements at i stand at f, and the output o is apart from both. */
  ghost predicate Scatterable(fmt: Format, mem: seq<Byte>, i: int, o: int, f: int, n: nat, es: nat, pred: int -> bool) {
    && InMemory(mem, i, n, es) && InMemory(mem, o, n, es) && InMemory(mem, f, n, es)
    && Apart(i, Bytes(n, es), o, Bytes(n, es)) && Apart(f, Bytes(n, es), o, Bytes(n, es))
    && Scanned(Values(fmt, mem, i, n, es), pred, Values(fmt, mem, f, n, es))
  }

  /** The inclusive scan of the flags gives the places of the kept elements. */
  lemma FlagsScanned(fmt: Format, es: nat, a: seq<Byte>, b: seq<Byte>, f: int, n: nat, s: seq<int>, pred: int -> bool)
    requires PrefixSums(fmt, es, a, b, f, n) && |s| == n && Values(fmt, a, f, n, es) == Flags(s, pred)
    ensures Scanned(s, pred, Values(fmt, b, f, n, es))
  {
    hide Values, Filter, Flags;
    forall i | 0 <= i < n ensures Values(fmt, b, f, n, es)[i] == Place(s, pred, i + 1) {
      FlagSumIsPlace(s, pred, i + 1);
    }
  }

  /** The kept elements of the n at i stand in order at the front of the output o, and the rest
      of the output is as before. */
  ghost predicate Compacted(fmt: Format, es: nat, a: seq<Byte>, b: seq<Byte>, i: int, o: int, n: nat,
                            pred: int -> bool) {
    && |a| == |b| && InMemory(a, i, n, es) && InMemory(a, o, n, es)
    && var f := Filter(Values(fmt, a, i, n, es), pred);
       var before := Values(fmt, a, o, n, es); var after := Values(fmt, b, o, n, es);
       |f| <= n && after[..|f|] == f && after[|f|..] == before[|f|..]
  }

  lemma ScatteredIsCompacted(s: seq<int>, pred: int -> bool, before: seq<int>, after: seq<int>)
    requires PartlyScattered(s, pred, before, after, {}) && |s| == |before|
    ensures var f := Filter(s, pred); |f| <= |after| && after[..|f|] == f && after[|f|..] == before[|f|..]
  {
    FilterShorter(s, pred);
  }
}
