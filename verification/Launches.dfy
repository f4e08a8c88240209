/** The launchers of src/kernel/kernel_launcher.cpp as users of the migration protocol. Each is
    proved against a function of the space it starts in that gives its success, its exact
    sequence of dispatches and host reads, and the space it leaves; and, with kernels that mean
    what their shaders compute, it leaves the result of its primitive in the arena. */
module Launches {
  import opened Bits
  import opened Lanes
  import opened Arena
  import opened BitonicMerge
  import opened BitonicSort
  import opened Compaction = Compact
  import opened Elements
  import opened Migration

  /** The kernel writes all its target bytes, whatever it reads. */
  ghost predicate Total(k: Kernel) {
    forall v {:trigger k.run(v)} :: k.targets <= k.run(v).Keys
  }

  lemma TotalTouches(k: Kernel, mem: seq<Byte>)
    requires Total(k)
    ensures Touched(k, mem) == k.targets
  {
    assert k.targets <= k.run(View(k, mem)).Keys;
  }

  /** A buffer of n bytes inside one live allocation. */
  predicate Buffer(live: map<int, Block>, p: int, off: int, n: nat) {
    p in live && live[p].offset <= off && off + n <= live[p].offset + live[p].size
  }

  lemma BufferIsLive(m: Machine, p: int, off: int, n: nat)
    requires Buffer(m.arena.live, p, off, n)
    ensures m.AllLive(Range(off, n))
  {
    forall x | x in Range(off, n) ensures m.LiveByte(x) {
      assert In(m.arena.live[p], x);
    }
  }

  lemma UnionIsLive(m: Machine, xs: set<int>, ys: set<int>)
    requires m.AllLive(xs) && m.AllLive(ys)
    ensures m.AllLive(xs + ys)
  {
    hide Machine.LiveByte;
  }

  /** Room for scratch requests of n bytes without 64-bit wrap. */
  predicate Sized(m: Machine, n: int)
    reads m, m.arena
  {
    n >= 0 && n + 2 * DEFAULT_ALIGNMENT + m.arena.capacity < WORD
  }

  // ---- what a launcher leaves alone ------------------------------------------------

  /** Bytes of live allocations outside `out` keep their value. */
  ghost predicate Untouched(live: map<int, Block>, out: set<int>, before: seq<Byte>, after: seq<Byte>) {
    && |before| == |after|
    && forall x {:trigger LiveIn(live, x)} ::
         LiveIn(live, x) && x !in out && 0 <= x < |before| ==> after[x] == before[x]
  }

  /** A later run may also write bytes that were not live before. */
  lemma UntouchedThen(live: map<int, Block>, out: set<int>, live': map<int, Block>, out': set<int>,
                      a: seq<Byte>, b: seq<Byte>, c: seq<Byte>)
    requires Untouched(live, out, a, b) && Untouched(live', out', b, c)
    requires forall x {:trigger LiveIn(live, x)} :: LiveIn(live, x) && x !in out ==> LiveIn(live', x) && x !in out'
    ensures Untouched(live, out, a, c)
  {
    hide LiveIn;
  }

  lemma StillLive(live: map<int, Block>, live': map<int, Block>)
    requires forall p :: p in live ==> p in live' && live'[p] == live[p]
    ensures forall x {:trigger LiveIn(live, x)} :: LiveIn(live, x) ==> LiveIn(live', x)
  {
  }

  /** A scratch block shares no byte with the allocations that were live before it. */
  lemma ScratchApart(m: Machine, live: map<int, Block>, s: int, off: int, n: nat)
    requires m.Valid() && s !in live && Buffer(m.arena.live, s, off, n)
    requires forall p :: p in live ==> p in m.arena.live && m.arena.live[p] == live[p]
    ensures forall x {:trigger LiveIn(live, x)} :: LiveIn(live, x) ==> x !in Range(off, n)
  {
    hide AllocInv;
    forall x {:trigger LiveIn(live, x)} | LiveIn(live, x) && x in Range(off, n) ensures false {
      var p :| p in live && In(live[p], x);
      m.arena.LiveBlocksCovered(p, s, x);
    }
  }

  lemma BufferInside(m: Machine, p: int, off: int, n: nat)
    requires m.Valid() && Buffer(m.arena.live, p, off, n)
    ensures 0 <= off && off + n <= m.arena.capacity == |m.One()|
  {
    hide OneMemory, OneLog, OneWritten;
    assert BlockOk(m.arena.live[p], m.arena.bump);
  }

  /** Buffers in different allocations do not overlap. */
  lemma BuffersApart(m: Machine, p: int, x: int, a: nat, q: int, y: int, b: nat)
    requires m.Valid() && Buffer(m.arena.live, p, x, a) && Buffer(m.arena.live, q, y, b) && p != q
    ensures Apart(x, a, y, b)
  {
    hide AllocInv;
    if !Apart(x, a, y, b) {
      m.arena.LiveBlocksCovered(p, q, Max(x, y));
    }
  }

  /** A live range apart from what was written is the same afterwards. */
  lemma RangeKept(live: map<int, Block>, out: set<int>, a: seq<Byte>, b: seq<Byte>, p: int, x: int, n: nat)
    requires Untouched(live, out, a, b) && Buffer(live, p, x, n)
    requires forall y :: y in out ==> !(x <= y < x + n)
    ensures SameRange(a, b, x, n)
  {
    forall y {:trigger a[y]} {:trigger b[y]} | x <= y < x + n && 0 <= y < |a| ensures a[y] == b[y] {
      assert In(live[p], y);
      assert LiveIn(live, y);
    }
  }

  /** One dispatch inside an operation, seen from the allocations `live`. */
  method DispatchTo(m: Machine, k: Kernel, ghost live: map<int, Block>, ghost out: set<int>)
    requires m.Valid() && m.depth > 0 && k.sources <= m.written && m.AllLive(k.targets)
    requires forall x {:trigger LiveIn(live, x)} :: LiveIn(live, x) && x in k.targets ==> x in out
    modifies m`written, m`synced, m`trace, m.arena.device
    ensures m.Valid() && m.trace == old(m.trace) + [Ran(k)]
    ensures old(m.written) <= m.written && (Total(k) ==> k.targets <= m.written)
    ensures Untouched(live, out, old(m.One()), m.One()) && m.One() == Effect(k, old(m.One()))
  {
    hide Machine.Valid, Machine.AllLive, LiveIn, OneLog, OneWritten, OneMemory, Total;
    if Total(k) { TotalTouches(k, m.One()); }
    Extend(m.trace, m.start, Ran(k));
    m.Dispatch(k);
  }

  // ---- scan ------------------------------------------------------------------------

  /** Kernels of a scan over (data, block sums, count) with es-byte elements. */
  ghost predicate ScanKernels(scan: (int, int, nat) -> Kernel, add: (int, int, nat) -> Kernel, es: nat) {
    && (forall d, s, n {:trigger scan(d, s, n)} ::
          && scan(d, s, n).sources == Range(d, Bytes(n, es))
          && scan(d, s, n).targets == Range(d, Bytes(n, es)) + Range(s, Bytes(Groups(n), es))
          && Total(scan(d, s, n)))
    && (forall d, s, n {:trigger add(d, s, n)} ::
          && add(d, s, n).sources == Range(d, Bytes(n, es)) + Range(s, Bytes(Groups(n), es))
          && add(d, s, n).targets == Range(d, Bytes(n, es)))
  }

  /** What a launcher does: whether it succeeds, its events and the space it leaves. */
  datatype Outcome = Outcome(ok: bool, events: seq<Event>, space: Space)

  /** launch_scan as a function of the space it starts in. */
  function ScanOutcome(c: Config, sp: Space, data: int, count: nat, es: nat,
                       scan: (int, int, nat) -> Kernel, add: (int, int, nat) -> Kernel): (r: Outcome)
    decreases count
  {
    if count <= 1 then Outcome(true, [], sp)
    else
      var blocks := Groups(count);
      var (s, taken) := Allocated(c.base, c.capacity, sp, Bytes(blocks, es), 256);
      var sums := s - c.base;
      var over := [Ran(scan(data, sums, count))];
      if s == 0 then Outcome(false, [], taken)
      else if blocks <= 1 then Outcome(true, over, Released(taken, s))
      else
        var nested := ScanOutcome(c, taken, sums, blocks, es, scan, add);
        if nested.ok then
          Outcome(true, over + nested.events + [Ran(add(data, sums, count))], Released(nested.space, s))
        else Outcome(false, over + nested.events, nested.space)
  }

  /** The scratch bytes that a scan asks for, level by level. */
  function ScanRoom(count: nat, es: nat): nat {
    if count <= 1 then 0 else Rounded(Bytes(Groups(count), es)) + ScanRoom(Groups(count), es)
  }

  /** The space of an arena, with requests of up to n bytes that do not wrap. */
  ghost predicate Usable(c: Config, sp: Space, n: nat) {
    c.base > 0 && Within(c.capacity, sp) && sp.bump % 256 == 0 && n + 2 * DEFAULT_ALIGNMENT + c.capacity < WORD
  }

  lemma UsableSpace(m: Machine, n: nat)
    requires m.Valid() && Sized(m, n)
    ensures Usable(m.Setup(), m.arena.Contents(), n)
  {
    m.arena.WithinArena();
    m.arena.BumpAligned();
  }

  /** A scan succeeds when its scratch fits behind the bump pointer, and in an arena without
      freed blocks exactly then. */
  lemma {:induction false} ScanFits(c: Config, sp: Space, data: int, count: nat, es: nat,
                                    scan: (int, int, nat) -> Kernel, add: (int, int, nat) -> Kernel)
    requires Usable(c, sp, Bytes(count, es)) && es > 0
    ensures var ok := ScanOutcome(c, sp, data, count, es, scan, add).ok;
      && (sp.bump + ScanRoom(count, es) <= c.capacity ==> ok)
      && (sp.free == [] && sp.bump <= c.capacity ==> (ok <==> sp.bump + ScanRoom(count, es) <= c.capacity))
    decreases count
  {
    hide Allocated, Released, Rounded, Within, Bytes;
    if count > 1 {
      var blocks := Groups(count);
      BytesMonotone(blocks, count, es);
      BytesPositive(blocks, es);
      RoomServes(c.base, c.capacity, sp, Bytes(blocks, es));
      var (s, taken) := Allocated(c.base, c.capacity, sp, Bytes(blocks, es), 256);
      if s != 0 && blocks > 1 {
        ScanFits(c, taken, s - c.base, blocks, es, scan, add);
      }
    }
  }

  lemma BytesPositive(n: nat, es: nat)
    requires n > 0 && es > 0
    ensures Bytes(n, es) > 0
  {
    BytesMonotone(1, n, es);
  }

  /** A scan asks for little scratch: a 255th of its data, and an element and 255 bytes a level. */
  lemma {:induction false} ScanRoomSmall(count: nat, es: nat)
    ensures 255 * ScanRoom(count, es) <= count * es + 255 * (Levels(count) * (es + 255))
    decreases count
  {
    hide Bytes, Rounded;
    if count > 1 {
      var g := Groups(count);
      ScanRoomSmall(g, es);
      RoomOfLevel(count, g, es, Levels(g), Rounded(Bytes(g, es)), ScanRoom(g, es));
    }
  }

  lemma RoomOfLevel(count: nat, g: nat, es: nat, levels: nat, first: int, rest: int)
    requires 256 * g <= count + 255 && first < Bytes(g, es) + 256
    requires 255 * rest <= g * es + 255 * (levels * (es + 255))
    ensures 255 * (first + rest) <= count * es + 255 * ((1 + levels) * (es + 255))
  {
    var x, z := g * es, levels * (es + 255);
    BytesMonotone(256 * g, count + 255, es);
    assert 256 * x == (256 * g) * es;
    assert (count + 255) * es == count * es + 255 * es;
    assert (1 + levels) * (es + 255) == z + es + 255;
  }

  /** The number of levels of the recursion: how often `count` can be divided by 256. */
  function Levels(count: nat): nat {
    if count <= 1 then 0 else 1 + Levels(Groups(count))
  }

  /** The number of levels is the least L with count <= 256^L. */
  lemma {:induction false} LevelsAreLeast(count: nat)
    requires count >= 1
    ensures count <= Pow2(8 * Levels(count))
    ensures count > 1 ==> count > Pow2(8 * (Levels(count) - 1))
    decreases count
  {
    if count > 1 {
      var g := Groups(count);
      GroupsShrink(count);
      LevelsAreLeast(g);
      Pow2Of8();
      Pow2Product(8, 8 * Levels(g));
      if g > 1 { Pow2Product(8, 8 * (Levels(g) - 1)); }
    }
  }

  lemma Pow2Of8()
    ensures Pow2(8) == 256
  {
  }

  /** A successful scan of L levels takes 2 L - 1 dispatches: one down and one up per level,
      and none up at the innermost one. */
  lemma {:induction false} ScanDispatches(c: Config, sp: Space, data: int, count: nat, es: nat,
                                          scan: (int, int, nat) -> Kernel, add: (int, int, nat) -> Kernel)
    requires count >= 2 && ScanOutcome(c, sp, data, count, es, scan, add).ok
    ensures |ScanOutcome(c, sp, data, count, es, scan, add).events| == 2 * Levels(count) - 1
    decreases count
  {
    hide Allocated;
    var blocks := Groups(count);
    if blocks > 1 {
      var (s, taken) := Allocated(c.base, c.capacity, sp, Bytes(blocks, es), 256);
      ScanDispatches(c, taken, s - c.base, blocks, es, scan, add);
    }
  }

  /** launch_scan of the buffer at `data` in allocation p, at any nesting depth. It succeeds
      unless a scratch request returns null; every other live byte keeps its value. With the
      scan kernels, and elements whose sums fit their type, the buffer holds its prefix sums. */
  method Scan(m: Machine, p: int, data: int, count: nat, es: nat,
              scan: (int, int, nat) -> Kernel, add: (int, int, nat) -> Kernel, ghost fmt: Format) returns (ok: bool)
    requires m.Valid() && ScanKernels(scan, add, es) && Sized(m, Bytes(count, es))
    requires Buffer(m.arena.live, p, data, Bytes(count, es)) && Range(data, Bytes(count, es)) <= m.written
    modifies m, m.arena, m.arena.host, m.arena.device
    ensures m.Valid() && m.depth == old(m.depth) && old(m.written) <= m.written && m.log == old(m.log)
    ensures var r := ScanOutcome(m.Setup(), old(m.arena.Contents()), data, count, es, scan, add);
      ok == r.ok && m.trace == old(m.trace) + r.events && m.arena.Contents() == r.space
    ensures Untouched(old(m.arena.live), Range(data, Bytes(count, es)), old(m.One()), m.One())
    ensures ok ==> m.arena.live == old(m.arena.live)
    ensures count <= 1 || (es > 0 && old(m.arena.bump) + ScanRoom(count, es) <= m.arena.capacity) ==> ok
    ensures 1 < count <= 256 && es > 0 && old(m.arena.bump) + (es + 255) / 256 * 256 <= m.arena.capacity ==> ok
    ensures count > 1 && es > 0 && old(m.arena.freeList) == [] ==>
              (ok <==> old(m.arena.bump) + ScanRoom(count, es) <= m.arena.capacity)
    ensures forall q :: q in old(m.arena.live) ==> q in m.arena.live && m.arena.live[q] == old(m.arena.live)[q]
    ensures InMemory(old(m.One()), data, count, es)
    ensures
      (ok && ScanMeaning(scan, add, fmt, es, m.arena.capacity) &&
       SumsFit(fmt, Values(fmt, old(m.One()), data, count, es))) ==>
        PrefixSums(fmt, es, old(m.One()), m.One(), data, count)
    decreases count
  {
    hide Machine.Valid, Machine.AllLive, OneMemory, OneLog, OneWritten, Total, ScanKernels, Allocated, Released,
      Untouched, LiveIn, ScanOutcome, Range, Groups, Bytes, Agree, ScanMeaning, SumsFit, PrefixSums, BlocksScanned,
      Values, ScanRoom, Effect, AllocInv;
    ghost var live, one, sp := m.arena.live, m.One(), m.arena.Contents();
    ghost var out := Range(data, Bytes(count, es));
    ScanUnfolds(m.Setup(), sp, data, count, es, scan, add);
    ScanHasRoom(m, data, count, es, scan, add);
    UntouchedAtAll(live, out, one);
    BufferInside(m, p, data, Bytes(count, es));
    m.Enter();
    if count <= 1 {
      ShortScan(fmt, es, one, data, count);
      m.Exit();
      return true;
    }
    GroupsShrink(count);
    var blocks := Groups(count);
    BytesMonotone(blocks, count, es);
    var s := m.Alloc(Bytes(blocks, es), 256);
    if s == 0 {
      m.Exit();
      return false;
    }
    var sums := s - m.arena.base;
    ok := ScanBlocks(m, p, data, s, sums, count, es, scan, add, live, fmt);
    if ok {
      m.Dealloc(s);
    }
    m.Exit();
  }

  /** The passes over a buffer with its scratch block s. */
  method ScanBlocks(m: Machine, p: int, data: int, s: int, sums: int, count: nat, es: nat,
                    scan: (int, int, nat) -> Kernel, add: (int, int, nat) -> Kernel, ghost live: map<int, Block>,
                    ghost fmt: Format)
    returns (ok: bool)
    requires m.Valid() && m.depth > 0 && ScanKernels(scan, add, es) && Sized(m, Bytes(count, es))
    requires count >= 2 && s !in live && p in live
    requires forall q :: q in live ==> q in m.arena.live && m.arena.live[q] == live[q]
    requires Buffer(m.arena.live, p, data, Bytes(count, es)) && Range(data, Bytes(count, es)) <= m.written
    requires Buffer(m.arena.live, s, sums, Bytes(Groups(count), es))
    modifies m, m.arena, m.arena.host, m.arena.device
    ensures m.Valid() && m.depth == old(m.depth) && old(m.written) <= m.written && m.log == old(m.log)
    ensures var blocks := Groups(count);
      var over := [Ran(scan(data, sums, count))];
      if blocks <= 1 then ok && m.arena.Contents() == old(m.arena.Contents()) && m.trace == old(m.trace) + over
      else
        var r := ScanOutcome(m.Setup(), old(m.arena.Contents()), sums, blocks, es, scan, add);
        && ok == r.ok && m.arena.Contents() == r.space
        && m.trace == old(m.trace) + (over + r.events + if ok then [Ran(add(data, sums, count))] else [])
    ensures Untouched(live, Range(data, Bytes(count, es)), old(m.One()), m.One())
    ensures ok ==> m.arena.live == old(m.arena.live)
    ensures forall q :: q in old(m.arena.live) ==> q in m.arena.live && m.arena.live[q] == old(m.arena.live)[q]
    ensures InMemory(old(m.One()), data, count, es)
    ensures
      (ok && ScanMeaning(scan, add, fmt, es, m.arena.capacity) &&
       SumsFit(fmt, Values(fmt, old(m.One()), data, count, es))) ==>
        PrefixSums(fmt, es, old(m.One()), m.One(), data, count)
    decreases count, 1
  {
    hide Machine.Valid, Machine.AllLive, OneMemory, OneLog, OneWritten, Total, ScanKernels, Allocated, Released,
      Untouched, LiveIn, ScanOutcome, Range, Groups, Bytes, Agree, ScanMeaning, SumsFit, PrefixSums, BlocksScanned,
      Values, Effect, AllocInv;
    ghost var one, out := m.One(), Range(data, Bytes(count, es));
    DispatchOver(m, scan, add, p, data, s, sums, count, es, live, fmt);
    if Groups(count) <= 1 {
      if BlocksScanned(fmt, es, one, m.One(), data, sums, count) {
        OneBlockScan(fmt, es, one, m.One(), data, sums, count);
      }
      ok := true;
    } else {
      ghost var one1 := m.One();
      ok := ScanSums(m, p, data, s, sums, count, es, scan, add, live, fmt, one);
      UntouchedThen(live, out, live, out, one, one1, m.One());
    }
  }

  lemma ScanHasRoom(m: Machine, data: int, count: nat, es: nat,
                    scan: (int, int, nat) -> Kernel, add: (int, int, nat) -> Kernel)
    requires m.Valid() && Sized(m, Bytes(count, es))
    ensures var ok := ScanOutcome(m.Setup(), m.arena.Contents(), data, count, es, scan, add).ok;
      && (count <= 1 || (es > 0 && m.arena.bump + ScanRoom(count, es) <= m.arena.capacity) ==> ok)
      && (1 < count <= 256 && es > 0 && m.arena.bump + (es + 255) / 256 * 256 <= m.arena.capacity ==> ok)
      && (count > 1 && es > 0 && m.arena.freeList == [] ==>
            (ok <==> m.arena.bump + ScanRoom(count, es) <= m.arena.capacity))
  {
    hide Allocated, Released, AllocInv, OneMemory, OneLog, OneWritten;
    UsableSpace(m, Bytes(count, es));
    if es > 0 {
      ScanFits(m.Setup(), m.arena.Contents(), data, count, es, scan, add);
      if 1 < count <= 256 { OneLevelRoom(count, es); }
    }
  }

  lemma OneLevelRoom(count: nat, es: nat)
    requires 1 < count <= 256
    ensures ScanRoom(count, es) == (es + 255) / 256 * 256
  {
    assert Groups(count) == 1 && Bytes(1, es) == es;
  }

  /** Passes 2 and 3: scan the block sums by the same launcher and add the offsets. */
  method ScanSums(m: Machine, p: int, data: int, s: int, sums: int, count: nat, es: nat,
                  scan: (int, int, nat) -> Kernel, add: (int, int, nat) -> Kernel, ghost live: map<int, Block>,
                  ghost fmt: Format, ghost one0: seq<Byte>)
    returns (ok: bool)
    requires m.Valid() && m.depth > 0 && ScanKernels(scan, add, es) && Sized(m, Bytes(count, es))
    requires count >= 2 && s !in live && p in live
    requires forall q :: q in live ==> q in m.arena.live && m.arena.live[q] == live[q]
    requires Buffer(m.arena.live, p, data, Bytes(count, es)) && Range(data, Bytes(count, es)) <= m.written
    requires Buffer(m.arena.live, s, sums, Bytes(Groups(count), es))
    requires Range(sums, Bytes(Groups(count), es)) <= m.written
    modifies m, m.arena, m.arena.host, m.arena.device
    ensures m.Valid() && m.depth == old(m.depth) && old(m.written) <= m.written && m.log == old(m.log)
    ensures var r := ScanOutcome(m.Setup(), old(m.arena.Contents()), sums, Groups(count), es, scan, add);
      && ok == r.ok && m.arena.Contents() == r.space
      && m.trace == old(m.trace) + r.events + if ok then [Ran(add(data, sums, count))] else []
    ensures Untouched(live, Range(data, Bytes(count, es)), old(m.One()), m.One())
    ensures ok ==> m.arena.live == old(m.arena.live)
    ensures forall q :: q in old(m.arena.live) ==> q in m.arena.live && m.arena.live[q] == old(m.arena.live)[q]
    ensures
      (ok && ScanMeaning(scan, add, fmt, es, m.arena.capacity) &&
       BlocksScanned(fmt, es, one0, old(m.One()), data, sums, count) &&
       SumsFit(fmt, Values(fmt, one0, data, count, es))) ==>
        PrefixSums(fmt, es, one0, m.One(), data, count)
    decreases count, 0
  {
    hide Machine.Valid, Machine.AllLive, OneMemory, OneLog, OneWritten, Total, ScanKernels, Allocated, Released,
      Untouched, LiveIn, ScanOutcome, ScanMeaning, SumsFit, PrefixSums, Values, OffsetsAdded, Range,
      Groups, Bytes, Agree;
    ghost var out, live1, one := Range(data, Bytes(count, es)), m.arena.live, m.One();
    GroupsShrink(count);
    BytesMonotone(Groups(count), count, es);
    StillLive(live, live1);
    ScratchApart(m, live, s, sums, Bytes(Groups(count), es));
    UntouchedAtAll(live, out, one);
    BuffersApart(m, p, data, Bytes(count, es), s, sums, Bytes(Groups(count), es));
    BufferInside(m, p, data, Bytes(count, es));
    BufferInside(m, s, sums, Bytes(Groups(count), es));
    ok := Scan(m, s, sums, Groups(count), es, scan, add, fmt);
    UntouchedThen(live, out, live1, Range(sums, Bytes(Groups(count), es)), one, one, m.One());
    if ok {
      ghost var one1 := m.One();
      DispatchAdd(m, scan, add, p, data, sums, count, es, live);
      UntouchedThen(live, out, live, out, one, one1, m.One());
      RangeKept(live1, Range(sums, Bytes(Groups(count), es)), one, one1, p, data, Bytes(count, es));
      if ScanMeaning(scan, add, fmt, es, |one|) && BlocksScanned(fmt, es, one0, one, data, sums, count)
         && SumsFit(fmt, Values(fmt, one0, data, count, es)) {
        SumsThenOffsets(scan, add, fmt, es, one0, one, one1, data, sums, count);
      }
    }
  }

  /** The nested scan and the offsets complete a scan whose blocks are scanned. */
  lemma SumsThenOffsets(scan: (int, int, nat) -> Kernel, add: (int, int, nat) -> Kernel, fmt: Format, es: nat,
                        a: seq<Byte>, b: seq<Byte>, c: seq<Byte>, data: int, sums: int, count: nat)
    requires ScanMeaning(scan, add, fmt, es, |a|) && BlocksScanned(fmt, es, a, b, data, sums, count)
    requires SumsFit(fmt, Values(fmt, a, data, count, es)) && Separate(b, data, sums, count, es)
    requires SumsFit(fmt, Values(fmt, b, sums, Groups(count), es)) ==> PrefixSums(fmt, es, b, c, sums, Groups(count))
    requires SameRange(b, c, data, Bytes(count, es))
    ensures PrefixSums(fmt, es, a, Effect(add(data, sums, count), c), data, count)
  {
    hide Values, SumsFit, Effect, Shifted;
    TotalsFit(fmt, Values(fmt, a, data, count, es), Values(fmt, b, sums, Groups(count), es));
    ScanShifts(fmt, es, a, b, c, data, sums, count);
    ScanCombines(fmt, es, a, b, c, Effect(add(data, sums, count), c), data, sums, count);
  }

  lemma UntouchedAtAll(live: map<int, Block>, out: set<int>, one: seq<Byte>)
    ensures Untouched(live, out, one, one)
  {
  }

  /** The cases of the recursion. */
  lemma ScanUnfolds(c: Config, sp: Space, data: int, count: nat, es: nat,
                    scan: (int, int, nat) -> Kernel, add: (int, int, nat) -> Kernel)
    ensures var r := ScanOutcome(c, sp, data, count, es, scan, add);
      if count <= 1 then r == Outcome(true, [], sp)
      else
        var blocks := Groups(count);
        var (s, taken) := Allocated(c.base, c.capacity, sp, Bytes(blocks, es), 256);
        var sums := s - c.base;
        var over := [Ran(scan(data, sums, count))];
        if s == 0 then r == Outcome(false, [], taken)
        else if blocks <= 1 then r == Outcome(true, over, Released(taken, s))
        else
          var nested := ScanOutcome(c, taken, sums, blocks, es, scan, add);
          r == if nested.ok then
            Outcome(true, over + nested.events + [Ran(add(data, sums, count))], Released(nested.space, s))
          else Outcome(false, over + nested.events, nested.space)
  {
    hide Allocated, Released;
  }

  /** Pass 1: scan every block and write its total. */
  method DispatchOver(m: Machine, scan: (int, int, nat) -> Kernel, ghost add: (int, int, nat) -> Kernel,
                      p: int, data: int, s: int, sums: int, count: nat, es: nat, ghost live: map<int, Block>,
                      ghost fmt: Format)
    requires m.Valid() && m.depth > 0 && ScanKernels(scan, add, es) && s !in live && p in live
    requires forall q :: q in live ==> q in m.arena.live && m.arena.live[q] == live[q]
    requires Buffer(m.arena.live, p, data, Bytes(count, es)) && Range(data, Bytes(count, es)) <= m.written
    requires Buffer(m.arena.live, s, sums, Bytes(Groups(count), es))
    modifies m`written, m`synced, m`trace, m.arena.device
    ensures m.Valid() && old(m.written) <= m.written && Range(sums, Bytes(Groups(count), es)) <= m.written
    ensures m.trace == old(m.trace) + [Ran(scan(data, sums, count))]
    ensures Untouched(live, Range(data, Bytes(count, es)), old(m.One()), m.One())
    ensures InMemory(old(m.One()), data, count, es)
    ensures
      (ScanMeaning(scan, add, fmt, es, m.arena.capacity) &&
       SumsFit(fmt, Values(fmt, old(m.One()), data, count, es))) ==>
        BlocksScanned(fmt, es, old(m.One()), m.One(), data, sums, count)
  {
    hide Machine.Valid, Machine.AllLive, OneMemory, OneLog, OneWritten, Total, LiveIn, Untouched, SumsFit, Values,
      BlocksScanned, Effect;
    BufferInside(m, p, data, Bytes(count, es));
    BufferInside(m, s, sums, Bytes(Groups(count), es));
    BuffersApart(m, p, data, Bytes(count, es), s, sums, Bytes(Groups(count), es));
    BufferIsLive(m, p, data, Bytes(count, es));
    BufferIsLive(m, s, sums, Bytes(Groups(count), es));
    UnionIsLive(m, Range(data, Bytes(count, es)), Range(sums, Bytes(Groups(count), es)));
    ScratchApart(m, live, s, sums, Bytes(Groups(count), es));
    DispatchTo(m, scan(data, sums, count), live, Range(data, Bytes(count, es)));
  }

  /** Pass 3: add each block's offset. */
  method DispatchAdd(m: Machine, ghost scan: (int, int, nat) -> Kernel, add: (int, int, nat) -> Kernel,
                     p: int, data: int, sums: int, count: nat, es: nat, ghost live: map<int, Block>)
    requires m.Valid() && m.depth > 0 && ScanKernels(scan, add, es)
    requires Buffer(m.arena.live, p, data, Bytes(count, es)) && Range(data, Bytes(count, es)) <= m.written
    requires Range(sums, Bytes(Groups(count), es)) <= m.written
    modifies m`written, m`synced, m`trace, m.arena.device
    ensures m.Valid() && old(m.written) <= m.written
    ensures m.trace == old(m.trace) + [Ran(add(data, sums, count))]
    ensures Untouched(live, Range(data, Bytes(count, es)), old(m.One()), m.One())
    ensures m.One() == Effect(add(data, sums, count), old(m.One()))
  {
    hide Machine.Valid, Machine.AllLive, OneMemory, OneLog, OneWritten, Total, LiveIn, Untouched;
    BufferIsLive(m, p, data, Bytes(count, es));
    DispatchTo(m, add(data, sums, count), live, Range(data, Bytes(count, es)));
  }

  // ---- sort ------------------------------------------------------------------------

  /** One dispatch per point. */
  function StageEvents(stage: (int, nat, nat) -> Kernel, data: int, points: seq<(nat, nat)>): (e: seq<Event>)
    ensures |e| == |points|
  {
    seq(|points|, i requires 0 <= i < |points| => Ran(stage(data, points[i].0, points[i].1)))
  }

  /** launch_sort of `count` elements: one dispatch per point of the schedule, in its order and
      inside one scope. */
  method Sort(m: Machine, p: int, data: int, count: nat, es: nat, stage: (int, nat, nat) -> Kernel) returns (ok: bool)
    requires m.Valid() && count != 2 * MAX_SORT
    requires Buffer(m.arena.live, p, data, Bytes(count, es)) && Range(data, Bytes(count, es)) <= m.written
    requires forall d, k, j {:trigger stage(d, k, j)} ::
               stage(d, k, j).sources == stage(d, k, j).targets == Range(d, Bytes(count, es))
    modifies m, m.arena.host, m.arena.device
    ensures m.Valid() && m.depth == old(m.depth) && m.log == old(m.log) && old(m.written) <= m.written
    ensures ok <==> count <= 1 || IsPow2(count)
    ensures m.trace == old(m.trace) + StageEvents(stage, data, SortPoints(count))
    ensures Untouched(m.arena.live, Range(data, Bytes(count, es)), old(m.One()), m.One())
  {
    hide Machine.Valid, OneMemory, OneLog, OneWritten, Untouched, Schedule, Log2, And, Pow2;
    ghost var one, out := m.One(), Range(data, Bytes(count, es));
    UntouchedAtAll(m.arena.live, out, one);
    m.Enter();
    if count <= 1 {
      m.Exit();
      return true;
    }
    AndPredecessor(count);
    if And(count, count - 1) != 0 {
      m.Exit();
      return false;
    }
    ghost var e: nat :| Pow2(e) == count;
    Log2OfPow2(e);
    LowWordOfCount(count, e);
    SortStages(m, p, data, count, es, stage, count % 0x1_0000_0000, e);
    m.Exit();
    ok := true;
  }

  /** The loops over (k, j). */
  method SortStages(m: Machine, p: int, data: int, count: nat, es: nat, stage: (int, nat, nat) -> Kernel,
                    n: nat, ghost e: nat)
    requires m.Valid() && m.depth > 0 && (n == 0 || (n == Pow2(e) && e <= 30))
    requires Buffer(m.arena.live, p, data, Bytes(count, es)) && Range(data, Bytes(count, es)) <= m.written
    requires forall d, k, j {:trigger stage(d, k, j)} ::
               stage(d, k, j).sources == stage(d, k, j).targets == Range(d, Bytes(count, es))
    modifies m`written, m`synced, m`trace, m.arena.device
    ensures m.Valid() && old(m.written) <= m.written
    ensures m.trace == old(m.trace) + StageEvents(stage, data, if n == 0 then [] else Schedule(e))
    ensures Untouched(m.arena.live, Range(data, Bytes(count, es)), old(m.One()), m.One())
  {
    hide Machine.Valid, OneMemory, OneLog, OneWritten, Untouched, Shl32, Pow2, Phase, StageEvents, Range;
    ghost var one, out := m.One(), Range(data, Bytes(count, es));
    UntouchedAtAll(m.arena.live, out, one);
    Pow2Of30();
    var k := 2;
    ghost var a := 1;
    while k <= n
      invariant m.Valid() && old(m.written) <= m.written && Untouched(m.arena.live, out, one, m.One())
      invariant k == Pow2(a) && a >= 1 && (n == 0 ==> a == 1) && (n != 0 ==> a <= e + 1)
      invariant m.trace == old(m.trace) + StageEvents(stage, data, Schedule(a - 1))
      decreases e + 1 - a
    {
      PhaseInRange(a, e);
      ghost var one1 := m.One();
      SortPhase(m, p, data, count, es, stage, k);
      UntouchedThen(m.arena.live, out, m.arena.live, out, one, one1, m.One());
      StageEventsThen(stage, data, Schedule(a - 1), Phase(k, k / 2));
      Shl32Exact(k);
      k := Shl32(k);
      a := a + 1;
    }
    if n != 0 {
      PhaseAfterLast(a, e);
    }
  }

  /** The inner loop. */
  method SortPhase(m: Machine, p: int, data: int, count: nat, es: nat, stage: (int, nat, nat) -> Kernel, k: nat)
    requires m.Valid() && m.depth > 0
    requires Buffer(m.arena.live, p, data, Bytes(count, es)) && Range(data, Bytes(count, es)) <= m.written
    requires forall d, k, j {:trigger stage(d, k, j)} ::
               stage(d, k, j).sources == stage(d, k, j).targets == Range(d, Bytes(count, es))
    modifies m`written, m`synced, m`trace, m.arena.device
    ensures m.Valid() && old(m.written) <= m.written
    ensures m.trace == old(m.trace) + StageEvents(stage, data, Phase(k, k / 2))
    ensures Untouched(m.arena.live, Range(data, Bytes(count, es)), old(m.One()), m.One())
  {
    hide Machine.Valid, OneMemory, OneLog, OneWritten, Untouched, LiveIn, Machine.AllLive, Phase, StageEvents, Range;
    ghost var one, out := m.One(), Range(data, Bytes(count, es));
    UntouchedAtAll(m.arena.live, out, one);
    NoPoints(stage, data, k);
    var j: nat := k / 2;
    ghost var points: seq<(nat, nat)> := [];
    while j > 0
      invariant m.Valid() && old(m.written) <= m.written && Untouched(m.arena.live, out, one, m.One())
      invariant points + Phase(k, j) == Phase(k, k / 2)
      invariant m.trace == old(m.trace) + StageEvents(stage, data, points)
    {
      BufferIsLive(m, p, data, Bytes(count, es));
      ghost var one1 := m.One();
      DispatchTo(m, stage(data, k, j), m.arena.live, out);
      UntouchedThen(m.arena.live, out, m.arena.live, out, one, one1, m.One());
      NextPoint(stage, data, points, k, j);
      points := points + [(k, j)];
      j := j / 2;
    }
  }

  lemma NoPoints(stage: (int, nat, nat) -> Kernel, data: int, k: nat)
    ensures StageEvents(stage, data, []) == []
    ensures forall p :: p + Phase(k, 0) == p
    ensures [] + Phase(k, k / 2) == Phase(k, k / 2)
  {
    forall p: seq<(nat, nat)> ensures p + Phase(k, 0) == p {
      assert Phase(k, 0) == [];
    }
  }

  lemma NextPoint(stage: (int, nat, nat) -> Kernel, data: int, points: seq<(nat, nat)>, k: nat, j: nat)
    requires j > 0
    ensures (points + [(k, j)]) + Phase(k, j / 2) == points + Phase(k, j)
    ensures StageEvents(stage, data, points + [(k, j)]) == StageEvents(stage, data, points) + [Ran(stage(data, k, j))]
  {
    assert Phase(k, j) == [(k, j)] + Phase(k, j / 2);
    hide Phase, StageEvents;
    Associative(points, [(k, j)], Phase(k, j / 2));
    OneStageEvent(stage, data, (k, j));
    StageEventsThen(stage, data, points, [(k, j)]);
  }

  lemma Associative<T>(a: seq<T>, b: seq<T>, c: seq<T>)
    ensures (a + b) + c == a + (b + c)
  {
  }

  lemma OneStageEvent(stage: (int, nat, nat) -> Kernel, data: int, p: (nat, nat))
    ensures StageEvents(stage, data, [p]) == [Ran(stage(data, p.0, p.1))]
  {
  }

  lemma StageEventsThen(stage: (int, nat, nat) -> Kernel, data: int, p: seq<(nat, nat)>, q: seq<(nat, nat)>)
    ensures StageEvents(stage, data, p + q) == StageEvents(stage, data, p) + StageEvents(stage, data, q)
  {
  }

  // ---- what the caller finds on the host -------------------------------------------

  /** The one-memory run of a schedule is the schedule on the elements. */
  lemma {:induction false} StagesOnBytes(stage: (int, nat, nat) -> Kernel, fmt: Format, x: int, n: nat, es: nat,
                                         start: seq<Byte>, trace: seq<Event>, points: seq<(nat, nat)>)
    requires StageMeaning(stage, fmt, x, n, es, |start|) && InMemory(start, x, n, es)
    ensures Values(fmt, OneMemory(trace + StageEvents(stage, x, points), start), x, n, es)
         == Stages(Values(fmt, OneMemory(trace, start), x, n, es), points)
    decreases |points|
  {
    hide OneMemory, OneLog, OneWritten, Stage, Stages, Effect, Values;
    if points == [] {
      NoStages(Values(fmt, OneMemory(trace, start), x, n, es));
      assert trace + StageEvents(stage, x, points) == trace;
    } else {
      var init, p := points[..|points| - 1], points[|points| - 1];
      var before := trace + StageEvents(stage, x, init);
      StagesOnBytes(stage, fmt, x, n, es, start, trace, init);
      assert trace + StageEvents(stage, x, points) == before + [Ran(stage(x, p.0, p.1))];
      Extend(before, start, Ran(stage(x, p.0, p.1)));
      StagesThen(Values(fmt, OneMemory(trace, start), x, n, es), init, [p]);
      OneStage(Values(fmt, OneMemory(before, start), x, n, es), p.0, p.1);
      assert init + [p] == points;
    }
  }

  /** Elements whose bytes are written are the same through a current host mapping as in the one
      memory. */
  lemma HostValues(m: Machine, p: int, x: int, n: nat, es: nat, fmt: Format)
    requires m.Valid() && m.HostCurrent()
    requires Buffer(m.arena.live, p, x, Bytes(n, es)) && Range(x, Bytes(n, es)) <= m.written
    ensures InMemory(m.One(), x, n, es) && InMemory(m.arena.host[..], x, n, es)
    ensures Values(fmt, m.arena.host[..], x, n, es) == Values(fmt, m.One(), x, n, es)
  {
    hide OneMemory, OneLog, OneWritten, Range, Bytes;
    BufferInside(m, p, x, Bytes(n, es));
    ghost var host, one := m.arena.host[..], m.One();
    forall y {:trigger host[y]} {:trigger one[y]} | x <= y < x + Bytes(n, es) && 0 <= y < |host|
      ensures host[y] == one[y]
    {
      assert y in Range(x, Bytes(n, es));
    }
    SameValues(fmt, host, one, x, n, es);
  }

  /** An outermost launch_sort of a power of two up to 2^30: on a staged machine as on a
      one-memory machine, the caller finds its elements on the host in ascending order. */
  method SortOnHost(m: Machine, p: int, data: int, count: nat, es: nat, stage: (int, nat, nat) -> Kernel,
                    ghost fmt: Format)
    requires m.Valid() && m.depth == 0 && 1 < count <= MAX_SORT && IsPow2(count)
    requires Buffer(m.arena.live, p, data, Bytes(count, es)) && Range(data, Bytes(count, es)) <= m.written
    requires StageMeaning(stage, fmt, data, count, es, m.arena.capacity)
    requires forall d, k, j {:trigger stage(d, k, j)} ::
               stage(d, k, j).sources == stage(d, k, j).targets == Range(d, Bytes(count, es))
    modifies m, m.arena.host, m.arena.device
    ensures m.Valid() && m.depth == 0 && old(InMemory(m.arena.host[..], data, count, es))
    ensures var sorted := Values(fmt, m.arena.host[..], data, count, es);
      Sorted(sorted) && multiset(sorted) == multiset(old(Values(fmt, m.arena.host[..], data, count, es)))
  {
    hide OneMemory, OneLog, OneWritten, Stage, Stages, Schedule, Range, Bytes, Sorted, StageMeaning, StageEvents,
      Untouched, Pow2, Log2, AllocInv, Values;
    ghost var trace := m.trace;
    HostValues(m, p, data, count, es, fmt);
    ghost var elements := Values(fmt, m.One(), data, count, es);
    var ok := Sort(m, p, data, count, es, stage);
    HostValues(m, p, data, count, es, fmt);
    StagesOnBytes(stage, fmt, data, count, es, m.start, trace, SortPoints(count));
    ghost var e: nat :| Pow2(e) == count;
    Log2OfPow2(e);
    ScheduleSorts(elements, e);
  }

  /** An outermost launch_scan that succeeds: the caller finds the prefix sums on the host. */
  method ScanOnHost(m: Machine, p: int, data: int, count: nat, es: nat,
                    scan: (int, int, nat) -> Kernel, add: (int, int, nat) -> Kernel,
                    ghost fmt: Format) returns (ok: bool)
    requires m.Valid() && m.depth == 0 && ScanKernels(scan, add, es) && Sized(m, Bytes(count, es))
    requires Buffer(m.arena.live, p, data, Bytes(count, es)) && Range(data, Bytes(count, es)) <= m.written
    requires ScanMeaning(scan, add, fmt, es, m.arena.capacity)
    modifies m, m.arena, m.arena.host, m.arena.device
    ensures m.Valid() && m.depth == 0 && old(InMemory(m.arena.host[..], data, count, es))
    ensures ok && SumsFit(fmt, old(Values(fmt, m.arena.host[..], data, count, es))) ==>
      PrefixSums(fmt, es, old(m.arena.host[..]), m.arena.host[..], data, count)
  {
    hide OneMemory, OneLog, OneWritten, Range, Bytes, ScanMeaning, ScanKernels, ScanOutcome, SumsFit, Untouched,
      AllocInv, Values;
    HostValues(m, p, data, count, es, fmt);
    ok := Scan(m, p, data, count, es, scan, add, fmt);
    if ok {
      HostValues(m, p, data, count, es, fmt);
    }
  }

  // ---- host reads ------------------------------------------------------------------

  /** memcpy of n bytes from the host mapping, as events. */
  function Loads(x: int, n: nat): seq<Event> {
    seq(n, i requires 0 <= i < n => Load(x + i))
  }

  /** `bytes` are the n bytes of mem from x on. */
  ghost predicate BytesAt(mem: seq<Byte>, x: int, n: nat, bytes: seq<Byte>) {
    |bytes| == n && forall i :: 0 <= i < n ==> 0 <= x + i < |mem| && bytes[i] == mem[x + i]
  }

  lemma NothingRead(mem: seq<Byte>, x: int)
    ensures Loads(x, 0) == [] && BytesAt(mem, x, 0, [])
  {
  }

  lemma ByteRead(mem: seq<Byte>, x: int, i: nat, bytes: seq<Byte>, v: Byte)
    requires BytesAt(mem, x, i, bytes) && 0 <= x + i < |mem| && v == mem[x + i]
    ensures BytesAt(mem, x, i + 1, bytes + [v])
    ensures Loads(x, i) + [Load(x + i)] == Loads(x, i + 1)
  {
  }

  method ReadBytes(m: Machine, x: int, n: nat) returns (bytes: seq<Byte>)
    requires m.Valid() && m.HostCurrent() && Range(x, n) <= m.written
    modifies m`log, m`trace
    ensures m.Valid() && m.One() == old(m.One()) && m.log == old(m.log) + bytes
    ensures m.trace == old(m.trace) + Loads(x, n) && BytesAt(m.One(), x, n, bytes)
  {
    hide OneMemory, OneLog, OneWritten, BytesAt, Loads, Range;
    ghost var one := m.One();
    NothingRead(one, x);
    bytes := [];
    for i := 0 to n
      invariant m.Valid() && m.One() == one && m.log == old(m.log) + bytes
      invariant m.trace == old(m.trace) + Loads(x, i) && BytesAt(one, x, i, bytes)
    {
      Extend(m.trace, m.start, Load(x + i));
      assert x + i in Range(x, n);
      assert x + i in m.written && 0 <= x + i < m.arena.high <= |one|;
      var v := m.HostLoad(x + i);
      ByteRead(one, x, i, bytes, v);
      bytes := bytes + [v];
    }
  }

  // ---- reduce ----------------------------------------------------------------------

  /** Kernels of one reduction level over (source, destination, count). */
  ghost predicate ReduceKernels(level: (int, int, nat) -> Kernel, es: nat) {
    forall s, d, n {:trigger level(s, d, n)} ::
      && level(s, d, n).sources == Range(s, Bytes(n, es))
      && level(s, d, n).targets == Range(d, Bytes(Groups(n), es))
      && Total(level(s, d, n))
  }

  /** The levels from n elements at src on, writing dst and `other` in turn, and where the
      single result ends up. */
  function Tree(src: int, n: nat, dst: int, other: int, level: (int, int, nat) -> Kernel): (seq<Event>, int)
    decreases n
  {
    if n <= 1 then ([], src)
    else
      var (rest, at) := Tree(dst, Groups(n), other, dst, level);
      ([Ran(level(src, dst, n))] + rest, at)
  }

  /** One dispatch per level. */
  lemma {:induction false} TreeDispatches(src: int, n: nat, dst: int, other: int, level: (int, int, nat) -> Kernel)
    ensures |Tree(src, n, dst, other, level).0| == Levels(n)
    decreases n
  {
    if n > 1 { TreeDispatches(dst, Groups(n), other, dst, level); }
  }

  /** A launcher that ends with a host read: what it does before, and where it reads. */
  datatype Reading = Reading(ok: bool, events: seq<Event>, at: int, space: Space)

  /** launch_reduce as a function of the space it starts in. */
  function ReduceOutcome(c: Config, sp: Space, data: int, count: nat, es: nat,
                         level: (int, int, nat) -> Kernel): Reading {
    if count <= 1 then Reading(true, [], data, sp)
    else
      var (s0, sp0) := Allocated(c.base, c.capacity, sp, Bytes(Groups(count), es), 256);
      var (s1, sp1) := Allocated(c.base, c.capacity, sp0, Bytes(Groups(Groups(count)) + 1, es), 256);
      if s0 == 0 || s1 == 0 then Reading(false, [], data, sp1)
      else
        var (events, at) := Tree(data, count, s0 - c.base, s1 - c.base, level);
        Reading(true, events, at, Released(Released(sp1, s0), s1))
  }

  /** The scratch bytes of a reduction: one element per group, and one per group of groups and
      one more, each rounded up to 256. */
  function ReduceRoom(count: nat, es: nat): int {
    var g := (count + 255) / 256;
    (g * es + 255) / 256 * 256 + (((g + 255) / 256 + 1) * es + 255) / 256 * 256
  }

  /** A reduction succeeds when its two scratch buffers fit behind the bump pointer, and in an
      arena without freed blocks exactly then. */
  lemma ReduceFits(c: Config, sp: Space, data: int, count: nat, es: nat, level: (int, int, nat) -> Kernel)
    requires Usable(c, sp, Bytes(count, es) + Bytes(1, es)) && es > 0 && count >= 2
    ensures var room := ReduceRoom(count, es);
      var ok := ReduceOutcome(c, sp, data, count, es, level).ok;
      && (sp.bump + room <= c.capacity ==> ok)
      && (sp.free == [] ==> (ok <==> sp.bump + room <= c.capacity))
  {
    hide Allocated, Released, Within, Tree;
    var g := Groups(count);
    GroupsShrink(count);
    GroupsShrink(g);
    BytesMonotone(g, count, es);
    SecondScratch(g, count, es);
    BytesPositive(g, es);
    BytesPositive(Groups(g) + 1, es);
    RoomServes(c.base, c.capacity, sp, Bytes(g, es));
    var (s0, sp0) := Allocated(c.base, c.capacity, sp, Bytes(g, es), 256);
    RoomServes(c.base, c.capacity, sp0, Bytes(Groups(g) + 1, es));
  }

  lemma ReduceHasRoom(m: Machine, data: int, count: nat, es: nat, level: (int, int, nat) -> Kernel)
    requires m.Valid() && Sized(m, Bytes(count, es) + Bytes(1, es))
    ensures var room := ReduceRoom(count, es);
      var ok := ReduceOutcome(m.Setup(), m.arena.Contents(), data, count, es, level).ok;
      && (count <= 1 || (es > 0 && m.arena.bump + room <= m.arena.capacity) ==> ok)
      && (count > 1 && es > 0 && m.arena.freeList == [] ==> (ok <==> m.arena.bump + room <= m.arena.capacity))
  {
    hide Allocated, Released, AllocInv, OneMemory, OneLog, OneWritten, Tree;
    UsableSpace(m, Bytes(count, es) + Bytes(1, es));
    if es > 0 && count >= 2 {
      ReduceFits(m.Setup(), m.arena.Contents(), data, count, es, level);
    }
  }

  /** launch_reduce. The result of a single element is copied from the host mapping as it is,
      so the host must be current then; every other count migrates before it reads. The result
      is what the one-memory run leaves at the end of the levels, and no byte that was live
      before changes. With the reduction kernel, and elements whose sums fit their type, it is
      the sum. */
  method Reduce(m: Machine, p: int, data: int, count: nat, es: nat, level: (int, int, nat) -> Kernel,
                ghost fmt: Format)
    returns (ok: bool, result: seq<Byte>)
    requires m.Valid() && ReduceKernels(level, es) && Sized(m, Bytes(count, es) + Bytes(1, es))
    requires Buffer(m.arena.live, p, data, Bytes(count, es)) && Range(data, Bytes(count, es)) <= m.written
    requires count == 1 ==> m.HostCurrent()
    modifies m, m.arena, m.arena.host, m.arena.device
    ensures m.Valid() && m.depth == old(m.depth) && (ok ==> m.arena.live == old(m.arena.live))
    ensures var r := ReduceOutcome(m.Setup(), old(m.arena.Contents()), data, count, es, level);
      && ok == r.ok && m.arena.Contents() == r.space
      && m.trace == old(m.trace) + r.events + (if ok && count > 0 then Loads(r.at, es) else [])
      && (ok && count > 0 ==> m.log == old(m.log) + result && BytesAt(m.One(), r.at, es, result))
    ensures var room := ReduceRoom(count, es);
      && (count <= 1 || (es > 0 && old(m.arena.bump) + room <= m.arena.capacity) ==> ok)
      && (count > 1 && es > 0 && old(m.arena.freeList) == [] ==>
            (ok <==> old(m.arena.bump) + room <= m.arena.capacity))
    ensures count == 0 ==> result == seq(es, _ => 0)
    ensures Untouched(old(m.arena.live), {}, old(m.One()), m.One())
    ensures InMemory(old(m.One()), data, count, es)
    ensures ok && count > 0 && LevelMeaning(level, fmt, es, m.arena.capacity)
        && SumsFit(fmt, Values(fmt, old(m.One()), data, count, es))
        ==> fmt.decode(result) == SumAt(fmt, old(m.One()), data, count, es)
  {
    hide Machine.Valid, OneMemory, OneLog, OneWritten, Total, Allocated, Released, Untouched, LiveIn, Tree, Loads,
      Range, Groups, Bytes, Agree, ReduceKernels, LevelMeaning, SumsFit, SumAt, Values,
      ReduceRoom;
    BufferInside(m, p, data, Bytes(count, es));
    ghost var live := m.arena.live;
    ReduceHasRoom(m, data, count, es, level);
    UntouchedAtAll(live, {}, m.One());
    m.Enter();
    if count == 0 {
      m.Exit();
      return true, seq(es, _ => 0);
    }
    if count == 1 {
      OneElement(es);
      SingleTotal(fmt, es, m.One(), data);
      result := ReadBytes(m, data, es);
      ReadSlice(m.One(), data, es, result);
      m.Exit();
      return true, result;
    }
    ok, result := ReduceMany(m, p, data, count, es, level, fmt);
    m.Exit();
  }

  /** launch_reduce of at least two elements, inside its scope. */
  method ReduceMany(m: Machine, p: int, data: int, count: nat, es: nat, level: (int, int, nat) -> Kernel,
                    ghost fmt: Format)
    returns (ok: bool, result: seq<Byte>)
    requires m.Valid() && m.depth > 0 && ReduceKernels(level, es) && Sized(m, Bytes(count, es) + Bytes(1, es))
    requires Buffer(m.arena.live, p, data, Bytes(count, es)) && Range(data, Bytes(count, es)) <= m.written && count >= 2
    modifies m, m.arena, m.arena.host, m.arena.device
    ensures m.Valid() && m.depth == old(m.depth) && (ok ==> m.arena.live == old(m.arena.live))
    ensures var r := ReduceOutcome(m.Setup(), old(m.arena.Contents()), data, count, es, level);
      && ok == r.ok && m.arena.Contents() == r.space
      && m.trace == old(m.trace) + r.events + (if ok then Loads(r.at, es) else [])
      && (ok ==> m.log == old(m.log) + result && BytesAt(m.One(), r.at, es, result))
    ensures Untouched(old(m.arena.live), {}, old(m.One()), m.One())
    ensures InMemory(old(m.One()), data, count, es)
    ensures ok && LevelMeaning(level, fmt, es, m.arena.capacity)
        && SumsFit(fmt, Values(fmt, old(m.One()), data, count, es))
        ==> fmt.decode(result) == SumAt(fmt, old(m.One()), data, count, es)
  {
    hide Machine.Valid, OneMemory, OneLog, OneWritten, Total, Allocated, Released, Untouched, LiveIn, BytesAt, Tree,
      Loads, Range, Groups, Bytes, Agree, ReduceKernels, LevelMeaning, SumsFit, SumAt, Values;
    BufferInside(m, p, data, Bytes(count, es));
    ghost var live := m.arena.live;
    UntouchedAtAll(live, {}, m.One());
    GroupsShrink(count);
    var first := Groups(count);
    GroupsShrink(first);
    var second := Groups(first) + 1;
    BytesMonotone(first, count, es);
    SecondScratch(first, count, es);
    var s0 := m.Alloc(Bytes(first, es), 256);
    var s1 := m.Alloc(Bytes(second, es), 256);
    if s0 == 0 || s1 == 0 {
      return false, [];
    }
    result := ReduceLevels(m, p, data, count, es, level, s0, s1, live, fmt);
    m.Dealloc(s0);
    m.Dealloc(s1);
    ok := true;
  }

  lemma OneElement(es: nat)
    ensures Bytes(1, es) == es
  {
  }

  lemma SecondScratch(first: nat, count: nat, es: nat)
    requires 1 <= first < count
    ensures Bytes(Groups(first) + 1, es) <= Bytes(count, es) + Bytes(1, es)
  {
    GroupsShrink(first);
    BytesMonotone(Groups(first), count, es);
    assert Bytes(Groups(first) + 1, es) == Groups(first) * es + es;
  }

  /** The level loop and the final migration and read. */
  method ReduceLevels(m: Machine, p: int, data: int, count: nat, es: nat, level: (int, int, nat) -> Kernel,
                      s0: int, s1: int, ghost live: map<int, Block>, ghost fmt: Format)
    returns (result: seq<Byte>)
    requires m.Valid() && m.depth > 0 && ReduceKernels(level, es) && count >= 2
    requires Buffer(m.arena.live, p, data, Bytes(count, es)) && Range(data, Bytes(count, es)) <= m.written
    requires Buffer(m.arena.live, s0, s0 - m.arena.base, Bytes(Groups(count), es)) && s0 !in live
    requires Buffer(m.arena.live, s1, s1 - m.arena.base, Bytes(Groups(Groups(count)) + 1, es)) && s1 !in live
    requires p in live && s0 != s1 && forall q :: q in live ==> q in m.arena.live && m.arena.live[q] == live[q]
    modifies m`written, m`synced, m`trace, m`log, m.arena.host, m.arena.device
    ensures m.Valid()
    ensures var (events, at) := Tree(data, count, s0 - m.arena.base, s1 - m.arena.base, level);
      && m.trace == old(m.trace) + events + Loads(at, es)
      && m.log == old(m.log) + result && BytesAt(m.One(), at, es, result)
    ensures Untouched(live, {}, old(m.One()), m.One())
    ensures InMemory(old(m.One()), data, count, es)
    ensures LevelMeaning(level, fmt, es, m.arena.capacity)
        && SumsFit(fmt, Values(fmt, old(m.One()), data, count, es))
        ==> fmt.decode(result) == SumAt(fmt, old(m.One()), data, count, es)
  {
    hide Machine.Valid, Machine.AllLive, OneMemory, OneLog, OneWritten, Total, Untouched, LiveIn, BytesAt, Tree, Loads,
      Carries, Values, SumsFit, SumAt, LevelMeaning, Range, Agree, Effect, ReduceKernels;
    var src, n, toggle := data, count, 0;
    var d0, d1 := s0 - m.arena.base, s1 - m.arena.base;
    ghost var one, whole := m.One(), Tree(data, count, d0, d1, level);
    ghost var events: seq<Event> := [];
    ghost var from := p;
    UntouchedAtAll(live, {}, one);
    BufferInside(m, p, data, Bytes(count, es));
    CarriesAtFirst(level, fmt, es, one, data, count);
    while n > 1
      invariant m.Valid() && m.log == old(m.log) && Untouched(live, {}, one, m.One())
      invariant n >= 1 && (toggle == 0 || toggle == 1) && Range(src, Bytes(n, es)) <= m.written
      invariant Groups(n) <= if toggle == 0 then Groups(count) else Groups(Groups(count)) + 1
      invariant n <= count && (n < count ==> n <= Groups(count))
      invariant m.trace == old(m.trace) + events
      invariant Buffer(m.arena.live, from, src, Bytes(n, es)) && from != if toggle == 0 then s0 else s1
      invariant Carries(level, fmt, es, one, data, count, m.One(), src, n)
      invariant var t := if toggle == 0 then Tree(src, n, d0, d1, level) else Tree(src, n, d1, d0, level);
        events + t.0 == whole.0 && t.1 == whole.1
      decreases n
    {
      GroupsShrink(n);
      var groups := Groups(n);
      var dst := if toggle == 0 then d0 else d1;
      ghost var one1 := m.One();
      ghost var to := if toggle == 0 then s0 else s1;
      GroupsMonotone(n, count);
      BytesMonotone(groups, if toggle == 0 then Groups(count) else Groups(Groups(count)) + 1, es);
      BuffersApart(m, from, src, Bytes(n, es), to, dst, Bytes(groups, es));
      BufferInside(m, from, src, Bytes(n, es));
      BufferInside(m, to, dst, Bytes(groups, es));
      CarriesOn(level, fmt, es, one, data, count, one1, src, dst, n);
      DispatchLevel(m, src, n, if toggle == 0 then s0 else s1, dst, es, level, live);
      UntouchedThen(live, {}, live, {}, one, one1, m.One());
      from := to;
      TreeStep(src, n, dst, if toggle == 0 then d1 else d0, level, events);
      events := events + [Ran(level(src, dst, n))];
      src, n, toggle := dst, groups, 1 - toggle;
      GroupsMonotone(n, Groups(count));
      GroupsMonotone(n, count);
    }
    TreeEnds(src, d0, d1, level, events);
    TreeEnds(src, d1, d0, level, events);
    m.Sync();
    OneElement(es);
    CarriesToEnd(level, fmt, es, one, data, count, m.One(), src);
    result := ReadBytes(m, src, es);
    ReadSlice(m.One(), src, es, result);
  }

  lemma ReadSlice(mem: seq<Byte>, x: int, n: nat, bytes: seq<Byte>)
    requires BytesAt(mem, x, n, bytes) && 0 <= x && x + n <= |mem|
    ensures bytes == mem[x..x + n]
  {
  }

  /** The n elements at x in `now` carry the sum of the elements that the reduction started with,
      and their sums fit. */
  ghost predicate Carries(level: (int, int, nat) -> Kernel, fmt: Format, es: nat, one: seq<Byte>, data: int, count: nat,
                          now: seq<Byte>, x: int, n: nat) {
    && InMemory(one, data, count, es) && InMemory(now, x, n, es) && |now| == |one|
    && (LevelMeaning(level, fmt, es, |one|) && SumsFit(fmt, Values(fmt, one, data, count, es)) ==>
          SumsFit(fmt, Values(fmt, now, x, n, es)) && SumAt(fmt, now, x, n, es) == SumAt(fmt, one, data, count, es))
  }

  lemma CarriesAtFirst(level: (int, int, nat) -> Kernel, fmt: Format, es: nat, one: seq<Byte>, data: int, count: nat)
    requires InMemory(one, data, count, es)
    ensures Carries(level, fmt, es, one, data, count, one, data, count)
  {
  }

  lemma CarriesOn(level: (int, int, nat) -> Kernel, fmt: Format, es: nat, one: seq<Byte>, data: int, count: nat,
                  now: seq<Byte>, src: int, dst: int, n: nat)
    requires Carries(level, fmt, es, one, data, count, now, src, n) && n >= 1 && Separate(now, src, dst, n, es)
    ensures Carries(level, fmt, es, one, data, count, Effect(level(src, dst, n), now), dst, Groups(n))
  {
    hide LevelMeaning, SumsFit, Values, SumAt, Effect;
    if LevelMeaning(level, fmt, es, |one|) && SumsFit(fmt, Values(fmt, one, data, count, es)) {
      LevelKeepsTotal(level, fmt, es, now, src, dst, n);
    }
  }

  lemma CarriesToEnd(level: (int, int, nat) -> Kernel, fmt: Format, es: nat, one: seq<Byte>, data: int, count: nat,
                     now: seq<Byte>, x: int)
    requires Carries(level, fmt, es, one, data, count, now, x, 1)
    ensures InMemory(now, x, 1, es) && Bytes(1, es) == es
    ensures LevelMeaning(level, fmt, es, |one|) && SumsFit(fmt, Values(fmt, one, data, count, es)) ==>
              fmt.decode(now[x..x + es]) == SumAt(fmt, one, data, count, es)
  {
    hide LevelMeaning, SumsFit, Values, SumAt;
    SingleTotal(fmt, es, now, x);
  }

  lemma TreeStep(src: int, n: nat, dst: int, other: int, level: (int, int, nat) -> Kernel, events: seq<Event>)
    requires n > 1
    ensures Tree(src, n, dst, other, level).1 == Tree(dst, Groups(n), other, dst, level).1
    ensures events + Tree(src, n, dst, other, level).0
         == events + [Ran(level(src, dst, n))] + Tree(dst, Groups(n), other, dst, level).0
  {
  }

  lemma TreeEnds(src: int, dst: int, other: int, level: (int, int, nat) -> Kernel, events: seq<Event>)
    ensures Tree(src, 1, dst, other, level).1 == src && events + Tree(src, 1, dst, other, level).0 == events
  {
  }

  method DispatchLevel(m: Machine, src: int, n: nat, s: int, dst: int, es: nat, level: (int, int, nat) -> Kernel,
                       ghost live: map<int, Block>)
    requires m.Valid() && m.depth > 0 && ReduceKernels(level, es) && Range(src, Bytes(n, es)) <= m.written
    requires Buffer(m.arena.live, s, dst, Bytes(Groups(n), es)) && s !in live
    requires forall q :: q in live ==> q in m.arena.live && m.arena.live[q] == live[q]
    modifies m`written, m`synced, m`trace, m.arena.device
    ensures m.Valid() && Range(dst, Bytes(Groups(n), es)) <= m.written
    ensures m.trace == old(m.trace) + [Ran(level(src, dst, n))]
    ensures Untouched(live, {}, old(m.One()), m.One()) && m.One() == Effect(level(src, dst, n), old(m.One()))
  {
    hide Machine.Valid, Machine.AllLive, OneMemory, OneLog, OneWritten, Total, Untouched, LiveIn;
    BufferIsLive(m, s, dst, Bytes(Groups(n), es));
    ScratchApart(m, live, s, dst, Bytes(Groups(n), es));
    DispatchTo(m, level(src, dst, n), live, {});
  }

  lemma GroupsMonotone(n: nat, m: nat)
    requires n <= m
    ensures Groups(n) <= Groups(m)
  {
  }

  // ---- why a reduction of one element needs a current host mapping -------------------

  /** A copy of bytes x .. x + n - 1 taken before a kernel has reached the host is right for
      every kernel with these sources and targets exactly when none of the bytes is a target. */
  lemma StaleCopyIsRight(one: seq<Byte>, x: nat, n: nat, sources: set<int>, targets: set<int>)
    requires x + n <= |one|
    ensures (forall run :: BytesAt(Effect(Kernel(sources, targets, run), one), x, n, one[x..x + n]))
       <==> Range(x, n) !! targets
  {
    if y :| y in Range(x, n) && y in targets {
      var other: Byte := if one[y] == 0 then 1 else 0;
      var run := (v: map<int, Byte>) => map[y := other];
      assert Effect(Kernel(sources, targets, run), one)[y] == other != one[x..x + n][y - x];
      assert !BytesAt(Effect(Kernel(sources, targets, run), one), x, n, one[x..x + n]);
    }
  }

  /** memcpy from the host mapping, whatever it holds. */
  method CopyHost(m: Machine, x: int, n: nat, ghost seen: seq<Byte>, ghost known: set<int>) returns (bytes: seq<Byte>)
    requires Agree(m.arena.host[..], seen, known) && Range(x, n) <= known
    ensures BytesAt(seen, x, n, bytes)
  {
    hide BytesAt, Loads, Range;
    NothingRead(seen, x);
    bytes := [];
    for i := 0 to n
      invariant BytesAt(seen, x, i, bytes)
    {
      assert x + i in Range(x, n);
      assert x + i in known && m.arena.host[..][x + i] == seen[x + i];
      ByteRead(seen, x, i, bytes, m.arena.host[x + i]);
      bytes := bytes + [m.arena.host[x + i]];
    }
  }

  /** The copy that launch_reduce makes of a single element, here after a kernel in the same
      outermost operation. No launcher of the repository nests a reduction, so its host mapping
      is always current; without that the copy is the value from before the kernel. */
  method CopyAfterKernel(m: Machine, x: int, n: nat, k: Kernel) returns (bytes: seq<Byte>)
    requires m.Valid() && m.HostCurrent() && Range(x, n) <= m.written
    requires k.sources <= m.written && m.AllLive(k.targets)
    modifies m, m.arena.host, m.arena.device
    ensures m.Valid() && m.One() == Effect(k, old(m.One()))
    ensures BytesAt(if m.arena.uma then m.One() else old(m.One()), x, n, bytes)
  {
    hide OneMemory, OneLog, OneWritten, Effect, LiveIn, AllocInv, BytesAt, Loads, Range;
    Extend(m.trace, m.start, Ran(k));
    m.Enter();
    m.Dispatch(k);
    m.Enter();
    bytes := CopyHost(m, x, n, if m.arena.uma then m.One() else old(m.One()), old(m.written));
    m.Exit();
    m.Exit();
  }

  // ---- compaction ------------------------------------------------------------------

  ghost predicate FlagKernels(flags: (int, int, nat) -> Kernel, es: nat) {
    forall i, f, n {:trigger flags(i, f, n)} ::
      && flags(i, f, n).sources == Range(i, Bytes(n, es)) && flags(i, f, n).targets == Range(f, Bytes(n, es))
      && Total(flags(i, f, n))
  }

  ghost predicate ScatterKernels(scatter: (int, int, int, nat) -> Kernel, es: nat) {
    forall i, o, f, n {:trigger scatter(i, o, f, n)} ::
      && scatter(i, o, f, n).sources == Range(i, Bytes(n, es)) + Range(f, Bytes(n, es))
      && scatter(i, o, f, n).targets == Range(o, Bytes(n, es))
  }

  /** launch_compact up to its host read of the last position, as a function of the space it
      starts in. */
  function CompactOutcome(c: Config, sp: Space, input: int, count: nat, es: nat, flags: (int, int, nat) -> Kernel,
                          scan: (int, int, nat) -> Kernel, add: (int, int, nat) -> Kernel): Reading {
    if count == 0 then Reading(true, [], 0, sp)
    else
      var (s, taken) := Allocated(c.base, c.capacity, sp, Bytes(count, es), 256);
      var positions := s - c.base;
      if s == 0 then Reading(false, [], 0, taken)
      else
        var nested := ScanOutcome(c, taken, positions, count, es, scan, add);
        Reading(nested.ok, [Ran(flags(input, positions, count))] + nested.events,
                positions + Bytes(count - 1, es), Released(nested.space, s))
  }

  /** A successful compaction dispatches its flags once before the nested scan. */
  lemma CompactDispatches(c: Config, sp: Space, input: int, count: nat, es: nat, flags: (int, int, nat) -> Kernel,
                          scan: (int, int, nat) -> Kernel, add: (int, int, nat) -> Kernel)
    requires CompactOutcome(c, sp, input, count, es, flags, scan, add).ok
    ensures var events := CompactOutcome(c, sp, input, count, es, flags, scan, add).events;
      |events| == if count == 0 then 0 else if count == 1 then 1 else 2 * Levels(count)
  {
    hide Allocated, Released, Levels;
    if count >= 2 {
      var (s, taken) := Allocated(c.base, c.capacity, sp, Bytes(count, es), 256);
      ScanDispatches(c, taken, s - c.base, count, es, scan, add);
    }
  }

  /** The scratch bytes of a compaction: the positions and the scratch of their scan. */
  function CompactRoom(count: nat, es: nat): int {
    (count * es + 255) / 256 * 256 + ScanRoom(count, es)
  }

  /** A compaction succeeds when its positions and the scratch of the nested scan fit behind the
      bump pointer, and in an arena without freed blocks exactly then. */
  lemma CompactFits(c: Config, sp: Space, input: int, count: nat, es: nat, flags: (int, int, nat) -> Kernel,
                    scan: (int, int, nat) -> Kernel, add: (int, int, nat) -> Kernel)
    requires Usable(c, sp, Bytes(count, es)) && es > 0 && count > 0
    ensures var room := CompactRoom(count, es);
      var ok := CompactOutcome(c, sp, input, count, es, flags, scan, add).ok;
      && (sp.bump + room <= c.capacity ==> ok)
      && (sp.free == [] ==> (ok <==> sp.bump + room <= c.capacity))
  {
    hide Allocated, Released, Within, ScanOutcome, ScanRoom;
    BytesPositive(count, es);
    RoomServes(c.base, c.capacity, sp, Bytes(count, es));
    var (s, taken) := Allocated(c.base, c.capacity, sp, Bytes(count, es), 256);
    if s != 0 {
      ScanFits(c, taken, s - c.base, count, es, scan, add);
    }
  }

  lemma CompactOfNothing(c: Config, sp: Space, input: int, es: nat, flags: (int, int, nat) -> Kernel,
                         scan: (int, int, nat) -> Kernel, add: (int, int, nat) -> Kernel)
    ensures CompactOutcome(c, sp, input, 0, es, flags, scan, add) == Reading(true, [], 0, sp)
  {
  }

  lemma CompactHasRoom(m: Machine, input: int, count: nat, es: nat, flags: (int, int, nat) -> Kernel,
                       scan: (int, int, nat) -> Kernel, add: (int, int, nat) -> Kernel)
    requires m.Valid() && Sized(m, Bytes(count, es))
    ensures var room := CompactRoom(count, es);
      var ok := CompactOutcome(m.Setup(), m.arena.Contents(), input, count, es, flags, scan, add).ok;
      && (count == 0 || (es > 0 && m.arena.bump + room <= m.arena.capacity) ==> ok)
      && (count > 0 && es > 0 && m.arena.freeList == [] ==> (ok <==> m.arena.bump + room <= m.arena.capacity))
  {
    hide Allocated, Released, AllocInv, OneMemory, OneLog, OneWritten, ScanOutcome, CompactRoom;
    UsableSpace(m, Bytes(count, es));
    if es > 0 && count > 0 {
      CompactFits(m.Setup(), m.arena.Contents(), input, count, es, flags, scan, add);
    }
  }

  /** The kernels of compaction mean what their shaders say, for elements that hold the counts. */
  ghost predicate CompactsWith(flags: (int, int, nat) -> Kernel, scatter: (int, int, int, nat) -> Kernel,
                               scan: (int, int, nat) -> Kernel, add: (int, int, nat) -> Kernel,
                               fmt: Format, pred: int -> bool, es: nat, count: nat, capacity: nat) {
    && CompactMeaning(flags, scatter, fmt, pred, es, capacity) && ScanMeaning(scan, add, fmt, es, capacity)
    && fmt.lo <= 0 && count <= fmt.hi
  }

  /** The output begins with the kept elements, and `last` is their number. */
  ghost predicate CompactGives(fmt: Format, es: nat, a: seq<Byte>, b: seq<Byte>, i: int, o: int, n: nat,
                               pred: int -> bool, last: seq<Byte>) {
    Compacted(fmt, es, a, b, i, o, n, pred) && fmt.decode(last) == |Filter(Values(fmt, a, i, n, es), pred)|
  }

  /** launch_compact: flags into scratch, nested scan of the scratch, migration, host read of
      the last position, scatter. The value read is the one-memory value of the last scanned
      flag, and of the bytes that were live before only the output changes. With the kernels of
      compaction the output begins with the kept elements in order, and the value read is their
      number. */
  method Compact(m: Machine, p: int, input: int, q: int, output: int, count: nat, es: nat,
                 flags: (int, int, nat) -> Kernel, scatter: (int, int, int, nat) -> Kernel,
                 scan: (int, int, nat) -> Kernel, add: (int, int, nat) -> Kernel,
                 ghost fmt: Format, ghost pred: int -> bool)
    returns (ok: bool, last: seq<Byte>)
    requires m.Valid() && ScanKernels(scan, add, es) && Sized(m, Bytes(count, es))
    requires Buffer(m.arena.live, p, input, Bytes(count, es)) && Range(input, Bytes(count, es)) <= m.written
    requires Buffer(m.arena.live, q, output, Bytes(count, es))
    requires FlagKernels(flags, es) && ScatterKernels(scatter, es)
    modifies m, m.arena, m.arena.host, m.arena.device
    ensures m.Valid() && m.depth == old(m.depth) && (ok ==> m.arena.live == old(m.arena.live))
    ensures var r := CompactOutcome(m.Setup(), old(m.arena.Contents()), input, count, es, flags, scan, add);
      && ok == r.ok && m.arena.Contents() == r.space
      && m.trace == old(m.trace) + r.events +
           (if ok && count > 0
            then Loads(r.at, es) + [Ran(scatter(input, output, r.at - Bytes(count - 1, es), count))] else [])
      && (ok && count > 0 ==>
            m.log == old(m.log) + last && BytesAt(OneMemory(old(m.trace) + r.events, m.start), r.at, es, last))
    ensures Untouched(old(m.arena.live), Range(output, Bytes(count, es)), old(m.One()), m.One())
    ensures var room := CompactRoom(count, es);
      && (count == 0 || (es > 0 && old(m.arena.bump) + room <= m.arena.capacity) ==> ok)
      && (count > 0 && es > 0 && old(m.arena.freeList) == [] ==>
            (ok <==> old(m.arena.bump) + room <= m.arena.capacity))
    ensures
      (ok && count > 0 && Apart(input, Bytes(count, es), output, Bytes(count, es)) &&
       CompactsWith(flags, scatter, scan, add, fmt, pred, es, count, m.arena.capacity)) ==>
        CompactGives(fmt, es, old(m.One()), m.One(), input, output, count, pred, last)
  {
    hide Machine.Valid, Machine.AllLive, OneMemory, OneLog, OneWritten, Total, ScanKernels, FlagKernels, ScatterKernels,
      Allocated, Released, Untouched, LiveIn, ScanOutcome, BytesAt, Loads, CompactsWith, CompactGives, Range, Values,
      Agree, Bytes, ScanRoom, AllocInv, Filter, Served, CompactOutcome, Buffer, Rounded,
      CompactRoom;
    ghost var live := m.arena.live;
    CompactOfNothing(m.Setup(), m.arena.Contents(), input, es, flags, scan, add);
    CompactHasRoom(m, input, count, es, flags, scan, add);
    UntouchedAtAll(m.arena.live, Range(output, Bytes(count, es)), m.One());
    BufferInside(m, p, input, Bytes(count, es));
    m.Enter();
    if count == 0 {
      m.Exit();
      return true, [];
    }
    ok, last := CompactMany(m, p, input, q, output, count, es, flags, scatter, scan, add, fmt, pred);
    m.Exit();
  }

  /** launch_compact of at least one element, inside its scope. */
  method CompactMany(m: Machine, p: int, input: int, q: int, output: int, count: nat, es: nat,
                     flags: (int, int, nat) -> Kernel, scatter: (int, int, int, nat) -> Kernel,
                     scan: (int, int, nat) -> Kernel, add: (int, int, nat) -> Kernel,
                     ghost fmt: Format, ghost pred: int -> bool)
    returns (ok: bool, last: seq<Byte>)
    requires m.Valid() && m.depth > 0 && count > 0 && ScanKernels(scan, add, es) && Sized(m, Bytes(count, es))
    requires Buffer(m.arena.live, p, input, Bytes(count, es)) && Range(input, Bytes(count, es)) <= m.written
    requires Buffer(m.arena.live, q, output, Bytes(count, es))
    requires FlagKernels(flags, es) && ScatterKernels(scatter, es)
    modifies m, m.arena, m.arena.host, m.arena.device
    ensures m.Valid() && m.depth == old(m.depth) && (ok ==> m.arena.live == old(m.arena.live))
    ensures var r := CompactOutcome(m.Setup(), old(m.arena.Contents()), input, count, es, flags, scan, add);
      && ok == r.ok && m.arena.Contents() == r.space
      && m.trace == old(m.trace) + r.events +
           (if ok
            then Loads(r.at, es) + [Ran(scatter(input, output, r.at - Bytes(count - 1, es), count))] else [])
      && (ok ==> m.log == old(m.log) + last && BytesAt(OneMemory(old(m.trace) + r.events, m.start), r.at, es, last))
    ensures Untouched(old(m.arena.live), Range(output, Bytes(count, es)), old(m.One()), m.One())
    ensures
      (ok && Apart(input, Bytes(count, es), output, Bytes(count, es)) &&
       CompactsWith(flags, scatter, scan, add, fmt, pred, es, count, m.arena.capacity)) ==>
        CompactGives(fmt, es, old(m.One()), m.One(), input, output, count, pred, last)
  {
    hide Machine.Valid, Machine.AllLive, OneMemory, OneLog, OneWritten, Total, ScanKernels, FlagKernels, ScatterKernels,
      Allocated, Released, Untouched, LiveIn, ScanOutcome, BytesAt, Loads, CompactsWith, CompactGives, Range, Values,
      Agree, Bytes, ScanRoom, AllocInv, Filter, Served;
    ghost var live := m.arena.live;
    UntouchedAtAll(live, Range(output, Bytes(count, es)), m.One());
    BufferInside(m, p, input, Bytes(count, es));
    var s := m.Alloc(Bytes(count, es), 256);
    if s == 0 {
      return false, [];
    }
    ok, last := CompactInto(m, p, input, s, q, output, count, es, flags, scatter, scan, add, live, fmt, pred);
    m.Dealloc(s);
  }

  /** The dispatches of launch_compact once it has its scratch block s. */
  method CompactInto(m: Machine, p: int, input: int, s: int, q: int, output: int, count: nat, es: nat,
                     flags: (int, int, nat) -> Kernel, scatter: (int, int, int, nat) -> Kernel,
                     scan: (int, int, nat) -> Kernel, add: (int, int, nat) -> Kernel, ghost live: map<int, Block>,
                     ghost fmt: Format, ghost pred: int -> bool)
    returns (ok: bool, last: seq<Byte>)
    requires m.Valid() && m.depth > 0 && count > 0 && ScanKernels(scan, add, es) && Sized(m, Bytes(count, es))
    requires Buffer(live, p, input, Bytes(count, es)) && Range(input, Bytes(count, es)) <= m.written
    requires Buffer(live, q, output, Bytes(count, es))
    requires Buffer(m.arena.live, s, s - m.arena.base, Bytes(count, es)) && s !in live
    requires forall r :: r in live ==> r in m.arena.live && m.arena.live[r] == live[r]
    requires FlagKernels(flags, es) && ScatterKernels(scatter, es)
    modifies m, m.arena, m.arena.host, m.arena.device
    ensures m.Valid() && m.depth == old(m.depth) && (ok ==> m.arena.live == old(m.arena.live))
    ensures forall r :: r in live ==> r in m.arena.live && m.arena.live[r] == live[r]
    ensures var positions := s - m.arena.base; var at := positions + Bytes(count - 1, es);
      var nested := ScanOutcome(m.Setup(), old(m.arena.Contents()), positions, count, es, scan, add);
      var events := [Ran(flags(input, positions, count))] + nested.events;
      && ok == nested.ok && m.arena.Contents() == nested.space
      && m.trace == old(m.trace) + events +
           (if ok then Loads(at, es) + [Ran(scatter(input, output, positions, count))] else [])
      && (ok ==> m.log == old(m.log) + last && BytesAt(OneMemory(old(m.trace) + events, m.start), at, es, last))
    ensures Untouched(live, Range(output, Bytes(count, es)), old(m.One()), m.One())
    ensures
      (ok && Apart(input, Bytes(count, es), output, Bytes(count, es)) &&
       CompactsWith(flags, scatter, scan, add, fmt, pred, es, count, m.arena.capacity)) ==>
        CompactGives(fmt, es, old(m.One()), m.One(), input, output, count, pred, last)
  {
    hide Machine.Valid, Machine.AllLive, OneMemory, OneLog, OneWritten, Total, ScanKernels, FlagKernels, ScatterKernels,
      Allocated, Released, Untouched, LiveIn, ScanOutcome, BytesAt, Loads, Range, Bytes, Agree, CompactsWith,
      Compacted, CompactGives, Values, Scanned, Filter, Effect;
    var positions := s - m.arena.base;
    ghost var one, out, n := m.One(), Range(output, Bytes(count, es)), Bytes(count, es);
    BufferInside(m, p, input, n);
    BufferInside(m, q, output, n);
    BufferInside(m, s, positions, n);
    BuffersApart(m, s, positions, n, q, output, n);
    ok := ScanFlags(m, p, input, s, positions, count, es, flags, scatter, scan, add, live, fmt, pred);
    ghost var one1 := m.One();
    UntouchedMore(live, {}, out, one, one1);
    if !ok {
      return false, [];
    }
    RangeKept(live, {}, one, one1, p, input, n);
    RangeKept(live, {}, one, one1, q, output, n);
    last := ReadAndScatter(m, input, s, q, output, positions, count, es, scatter, live);
    UntouchedThen(live, out, live, out, one, one1, m.One());
    if CompactsWith(flags, scatter, scan, add, fmt, pred, es, count, |one|) && Apart(input, n, output, n) {
      ScatterCompacts(flags, scatter, scan, add, fmt, pred, es, one, one1, input, output, positions, count, last);
    }
  }

  lemma UntouchedMore(live: map<int, Block>, out: set<int>, out': set<int>, a: seq<Byte>, b: seq<Byte>)
    requires Untouched(live, out, a, b) && out <= out'
    ensures Untouched(live, out', a, b)
  {
  }

  /** Flags and their nested scan. */
  method ScanFlags(m: Machine, p: int, input: int, s: int, positions: int, count: nat, es: nat,
                   flags: (int, int, nat) -> Kernel, ghost scatter: (int, int, int, nat) -> Kernel,
                   scan: (int, int, nat) -> Kernel, add: (int, int, nat) -> Kernel, ghost live: map<int, Block>,
                   ghost fmt: Format, ghost pred: int -> bool)
    returns (ok: bool)
    requires m.Valid() && m.depth > 0 && Sized(m, Bytes(count, es))
    requires ScanKernels(scan, add, es) && FlagKernels(flags, es)
    requires Buffer(live, p, input, Bytes(count, es)) && Range(input, Bytes(count, es)) <= m.written
    requires Buffer(m.arena.live, s, positions, Bytes(count, es)) && s !in live
    requires forall r :: r in live ==> r in m.arena.live && m.arena.live[r] == live[r]
    modifies m, m.arena, m.arena.host, m.arena.device
    ensures m.Valid() && m.depth == old(m.depth) && m.log == old(m.log) && (ok ==> m.arena.live == old(m.arena.live))
    ensures old(m.written) <= m.written && Range(positions, Bytes(count, es)) <= m.written
    ensures forall r :: r in live ==> r in m.arena.live && m.arena.live[r] == live[r]
    ensures var nested := ScanOutcome(m.Setup(), old(m.arena.Contents()), positions, count, es, scan, add);
      && ok == nested.ok && m.arena.Contents() == nested.space
      && m.trace == old(m.trace) + ([Ran(flags(input, positions, count))] + nested.events)
    ensures Untouched(live, {}, old(m.One()), m.One())
    ensures InMemory(old(m.One()), input, count, es) && InMemory(m.One(), positions, count, es)
    ensures ok && CompactsWith(flags, scatter, scan, add, fmt, pred, es, count, m.arena.capacity) ==>
      Scanned(Values(fmt, old(m.One()), input, count, es), pred, Values(fmt, m.One(), positions, count, es))
  {
    hide Machine.Valid, Machine.AllLive, OneMemory, OneLog, OneWritten, Total, ScanKernels, FlagKernels, Allocated,
      Released, Untouched, LiveIn, ScanOutcome, Range, Bytes, Agree, Values, Scanned, Filter, Flags, SumsFit,
      PrefixSums, CompactMeaning, ScanMeaning, Effect;
    ghost var one := m.One();
    BufferInside(m, p, input, Bytes(count, es));
    BufferInside(m, s, positions, Bytes(count, es));
    BuffersApart(m, p, input, Bytes(count, es), s, positions, Bytes(count, es));
    DispatchFlags(m, flags, input, s, positions, count, es, live);
    ghost var one1, live1 := m.One(), m.arena.live;
    StillLive(live, live1);
    ScratchApart(m, live, s, positions, Bytes(count, es));
    ok := Scan(m, s, positions, count, es, scan, add, fmt);
    BufferInside(m, s, positions, Bytes(count, es));
    UntouchedThen(live, {}, live1, Range(positions, Bytes(count, es)), one, one1, m.One());
    if ok && CompactsWith(flags, scatter, scan, add, fmt, pred, es, count, m.arena.capacity) {
      FlagsMean(flags, scatter, fmt, pred, es, one, input, positions, count);
      FlagsFit(fmt, Values(fmt, one, input, count, es), pred);
      FlagsScanned(fmt, es, one1, m.One(), positions, count, Values(fmt, one, input, count, es), pred);
    }
  }

  lemma FlagsMean(flags: (int, int, nat) -> Kernel, scatter: (int, int, int, nat) -> Kernel, fmt: Format,
                  pred: int -> bool, es: nat, mem: seq<Byte>, i: int, f: int, n: nat)
    requires CompactMeaning(flags, scatter, fmt, pred, es, |mem|)
    requires InMemory(mem, i, n, es) && InMemory(mem, f, n, es) && Apart(i, Bytes(n, es), f, Bytes(n, es))
    ensures Values(fmt, Effect(flags(i, f, n), mem), f, n, es) == Flags(Values(fmt, mem, i, n, es), pred)
  {
    hide Values, Effect, Flags, PartlyScattered, Scatterable;
  }

  /** Lines 1764-1787: migrate, read the last position, scatter. */
  method ReadAndScatter(m: Machine, input: int, s: int, q: int, output: int, positions: int, count: nat, es: nat,
                        scatter: (int, int, int, nat) -> Kernel, ghost live: map<int, Block>)
    returns (last: seq<Byte>)
    requires m.Valid() && m.depth > 0 && count > 0 && ScatterKernels(scatter, es)
    requires Range(input, Bytes(count, es)) <= m.written && Range(positions, Bytes(count, es)) <= m.written
    requires Buffer(m.arena.live, q, output, Bytes(count, es))
    modifies m`written, m`synced, m`trace, m`log, m.arena.host, m.arena.device
    ensures m.Valid() && m.log == old(m.log) + last
    ensures var at := positions + Bytes(count - 1, es);
      && m.trace == old(m.trace) + Loads(at, es) + [Ran(scatter(input, output, positions, count))]
      && BytesAt(old(m.One()), at, es, last)
    ensures Untouched(live, Range(output, Bytes(count, es)), old(m.One()), m.One())
    ensures m.One() == Effect(scatter(input, output, positions, count), old(m.One()))
  {
    hide Machine.Valid, Machine.AllLive, OneMemory, OneLog, OneWritten, Total, ScatterKernels, Untouched, LiveIn,
      BytesAt, Loads, Range, Bytes, Agree, Effect;
    m.Sync();
    LastElement(positions, count, es);
    last := ReadBytes(m, positions + Bytes(count - 1, es), es);
    DispatchScatter(m, scatter, input, q, output, positions, count, es, live);
  }

  /** The scatter of scanned flags is the compaction, and the last position counts the kept. */
  lemma ScatterCompacts(flags: (int, int, nat) -> Kernel, scatter: (int, int, int, nat) -> Kernel,
                        scan: (int, int, nat) -> Kernel, add: (int, int, nat) -> Kernel, fmt: Format,
                        pred: int -> bool, es: nat, a: seq<Byte>, b: seq<Byte>,
                        i: int, o: int, f: int, n: nat, last: seq<Byte>)
    requires CompactsWith(flags, scatter, scan, add, fmt, pred, es, n, |a|) && n > 0
    requires InMemory(a, i, n, es) && InMemory(a, o, n, es) && InMemory(b, f, n, es)
    requires SameRange(a, b, i, Bytes(n, es)) && SameRange(a, b, o, Bytes(n, es))
    requires Apart(i, Bytes(n, es), o, Bytes(n, es)) && Apart(f, Bytes(n, es), o, Bytes(n, es))
    requires Scanned(Values(fmt, a, i, n, es), pred, Values(fmt, b, f, n, es))
    requires BytesAt(b, f + Bytes(n - 1, es), es, last)
    ensures CompactGives(fmt, es, a, Effect(scatter(i, o, f, n), b), i, o, n, pred, last)
  {
    hide Values, Effect, Filter, Scanned, CompactMeaning, ScanMeaning, BytesAt, Bytes, Compacted;
    SameValues(fmt, a, b, i, n, es);
    SameValues(fmt, a, b, o, n, es);
    LastCounts(fmt, es, b, f, n, Values(fmt, a, i, n, es), pred, last);
    ScatterMeans(flags, scatter, fmt, pred, es, b, i, o, f, n);
    CompactedIs(fmt, es, a, b, Effect(scatter(i, o, f, n), b), i, o, n, pred);
  }

  lemma ScatterMeans(flags: (int, int, nat) -> Kernel, scatter: (int, int, int, nat) -> Kernel, fmt: Format,
                     pred: int -> bool, es: nat, mem: seq<Byte>, i: int, o: int, f: int, n: nat)
    requires CompactMeaning(flags, scatter, fmt, pred, es, |mem|)
    requires InMemory(mem, i, n, es) && InMemory(mem, o, n, es) && InMemory(mem, f, n, es)
    requires Apart(i, Bytes(n, es), o, Bytes(n, es)) && Apart(f, Bytes(n, es), o, Bytes(n, es))
    requires Scanned(Values(fmt, mem, i, n, es), pred, Values(fmt, mem, f, n, es))
    ensures PartlyScattered(Values(fmt, mem, i, n, es), pred, Values(fmt, mem, o, n, es),
                            Values(fmt, Effect(scatter(i, o, f, n), mem), o, n, es), {})
  {
    hide Values, Effect, PartlyScattered, Scanned, Apart, Flags;
    assert Scatterable(fmt, mem, i, o, f, n, es, pred);
  }

  lemma CompactedIs(fmt: Format, es: nat, a: seq<Byte>, b: seq<Byte>, c: seq<Byte>, i: int, o: int, n: nat,
                    pred: int -> bool)
    requires |a| == |b| == |c| && InMemory(a, i, n, es) && InMemory(a, o, n, es)
    requires Values(fmt, a, i, n, es) == Values(fmt, b, i, n, es)
    requires Values(fmt, a, o, n, es) == Values(fmt, b, o, n, es)
    requires PartlyScattered(Values(fmt, b, i, n, es), pred, Values(fmt, b, o, n, es), Values(fmt, c, o, n, es), {})
    ensures Compacted(fmt, es, a, c, i, o, n, pred)
  {
    hide Values, Filter, PartlyScattered;
    ScatteredIsCompacted(Values(fmt, a, i, n, es), pred, Values(fmt, a, o, n, es), Values(fmt, c, o, n, es));
  }

  /** The last scanned flag is the number of kept elements. */
  lemma LastCounts(fmt: Format, es: nat, mem: seq<Byte>, f: int, n: nat, s: seq<int>, pred: int -> bool,
                   last: seq<Byte>)
    requires InMemory(mem, f, n, es) && n > 0 && |s| == n && Scanned(s, pred, Values(fmt, mem, f, n, es))
    requires BytesAt(mem, f + Bytes(n - 1, es), es, last)
    ensures fmt.decode(last) == |Filter(s, pred)|
  {
    hide Values, Filter, BytesAt, Bytes;
    ValueAt(fmt, mem, f, n, es, n - 1);
    ReadSlice(mem, f + Bytes(n - 1, es), es, last);
    assert Values(fmt, mem, f, n, es)[n - 1] == Place(s, pred, n);
    assert s[..n] == s;
  }

  method DispatchFlags(m: Machine, flags: (int, int, nat) -> Kernel, input: int, s: int, positions: int,
                       count: nat, es: nat, ghost live: map<int, Block>)
    requires m.Valid() && m.depth > 0 && FlagKernels(flags, es) && Range(input, Bytes(count, es)) <= m.written
    requires Buffer(m.arena.live, s, positions, Bytes(count, es)) && s !in live
    requires forall r :: r in live ==> r in m.arena.live && m.arena.live[r] == live[r]
    modifies m`written, m`synced, m`trace, m.arena.device
    ensures m.Valid() && old(m.written) <= m.written && Range(positions, Bytes(count, es)) <= m.written
    ensures m.trace == old(m.trace) + [Ran(flags(input, positions, count))]
    ensures Untouched(live, {}, old(m.One()), m.One())
    ensures m.One() == Effect(flags(input, positions, count), old(m.One()))
  {
    hide Machine.Valid, Machine.AllLive, OneMemory, OneLog, OneWritten, Total, LiveIn, Untouched;
    BufferIsLive(m, s, positions, Bytes(count, es));
    ScratchApart(m, live, s, positions, Bytes(count, es));
    DispatchTo(m, flags(input, positions, count), live, {});
  }

  method DispatchScatter(m: Machine, scatter: (int, int, int, nat) -> Kernel, input: int, q: int, output: int,
                         positions: int, count: nat, es: nat, ghost live: map<int, Block>)
    requires m.Valid() && m.depth > 0 && ScatterKernels(scatter, es)
    requires Range(input, Bytes(count, es)) <= m.written && Range(positions, Bytes(count, es)) <= m.written
    requires Buffer(m.arena.live, q, output, Bytes(count, es))
    modifies m`written, m`synced, m`trace, m.arena.device
    ensures m.Valid() && old(m.written) <= m.written
    ensures m.trace == old(m.trace) + [Ran(scatter(input, output, positions, count))]
    ensures Untouched(live, Range(output, Bytes(count, es)), old(m.One()), m.One())
    ensures m.One() == Effect(scatter(input, output, positions, count), old(m.One()))
  {
    hide Machine.Valid, Machine.AllLive, OneMemory, OneLog, OneWritten, Total, LiveIn, Untouched;
    BufferIsLive(m, q, output, Bytes(count, es));
    DispatchTo(m, scatter(input, output, positions, count), live, Range(output, Bytes(count, es)));
  }

  lemma LastElement(x: int, count: nat, es: nat)
    requires count >= 1
    ensures Bytes(count - 1, es) + es == Bytes(count, es)
    ensures Range(x + Bytes(count - 1, es), es) <= Range(x, Bytes(count, es))
  {
    assert count * es == (count - 1) * es + es;
  }
}
