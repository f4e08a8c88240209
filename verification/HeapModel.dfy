/** The heap pool as a value: the physical tiling of the reservation by blocks and the
    free lists, without the bytes that encode them. Addresses are absolute byte addresses. */
module HeapModel {
  import opened Bits

  const ALIGN: int := 16
  const HDR: int := 8
  const FTR: int := 8
  const PTR: int := 8
  const MIN_BSIZE: int := 32
  const NBINS: int := 44

  /** floor-log2 size class, clamped to the 44 bins. */
  function BinIndex(bs: int): (i: int)
    requires bs > 0
    ensures 0 <= i < NBINS
  {
    var idx := Log2(bs) - 4;
    if idx < 0 then 0 else if idx >= NBINS then NBINS - 1 else idx
  }

  lemma BinIndexMonotone(x: int, y: int)
    requires 0 < x <= y
    ensures BinIndex(x) <= BinIndex(y)
  {
    Log2Monotone(x, y);
  }

  /** Bin i holds the sizes from 16 * 2^i up to, not including, 32 * 2^i; the first bin also takes
      smaller ones and the last bin all larger ones. */
  lemma BinOfSize(bs: int, i: nat)
    requires bs > 0 && i < 44
    requires 16 * Pow2(i) <= bs || i == 0
    requires bs < 32 * Pow2(i) || i == 43
    ensures BinIndex(bs) == i
  {
    hide Pow2, Log2;
    var l := Log2(bs);
    Log2Bounds(bs);
    Pow2Product(4, i);
    assert Pow2(4) == 16 by { PowerSixteen(); }
    if l < i + 4 { Pow2Monotone(l, i + 4); }
    if l > i + 4 { Pow2Monotone(i + 4, l); }
  }

  lemma PowerSixteen()
    ensures Pow2(4) == 16
  {
  }

  // ---- physical tiling -------------------------------------------------------------

  datatype Block = Block(size: int, free: bool)
  type Blocks = map<int, Block>

  /** B is the base of a block. The quantifiers below range over this predicate. */
  ghost predicate IsBlock(blk: Blocks, B: int) {
    B in blk
  }

  ghost predicate BlockOk(blk: Blocks, hi: int, B: int)
    requires B in blk
  {
    && B % 16 == 0
    && blk[B].size >= MIN_BSIZE
    && blk[B].size % 16 == 0
    && B + blk[B].size <= hi
    && (B + blk[B].size == hi || B + blk[B].size in blk)
  }

  /** The blocks cover [lo, hi) end to end, without gaps and without overlap. */
  ghost predicate Tiled(blk: Blocks, lo: int, hi: int) {
    && 0 < lo < hi
    && lo in blk
    && (forall B {:trigger IsBlock(blk, B)} :: IsBlock(blk, B) ==> lo <= B && BlockOk(blk, hi, B))
    && (forall B, C {:trigger IsBlock(blk, B), IsBlock(blk, C)} ::
          IsBlock(blk, B) && IsBlock(blk, C) && B < C ==> B + blk[B].size <= C)
  }

  /** No two physically adjacent blocks are both free. */
  ghost predicate Coalesced(blk: Blocks) {
    forall B, C {:trigger IsBlock(blk, B), IsBlock(blk, C)} ::
      IsBlock(blk, B) && IsBlock(blk, C) && C == B + blk[B].size ==> !blk[B].free || !blk[C].free
  }

  /** Finds the physical predecessor by walking the tiling from its start. */
  lemma Predecessor(blk: Blocks, lo: int, hi: int, B: int) returns (P: int)
    requires Tiled(blk, lo, hi) && B in blk && B != lo
    ensures P in blk && P + blk[P].size == B
  {
    assert IsBlock(blk, B) && IsBlock(blk, lo);
    P := lo;
    while P + blk[P].size != B
      invariant IsBlock(blk, P) && P < B
      decreases B - P
    {
      assert BlockOk(blk, hi, P);
      var Q := P + blk[P].size;
      assert IsBlock(blk, Q) && IsBlock(blk, P);
      P := Q;
    }
  }

  lemma Successor(blk: Blocks, lo: int, hi: int, B: int)
    requires Tiled(blk, lo, hi) && B in blk
    ensures blk[B].size > 0
    ensures B + blk[B].size in blk <==> B + blk[B].size < hi
  {
    assert IsBlock(blk, B);
    assert B + blk[B].size in blk ==> IsBlock(blk, B + blk[B].size);
  }

  lemma NoBlockBelow(blk: Blocks, lo: int, hi: int, B: int)
    requires Tiled(blk, lo, hi) && B < lo
    ensures B !in blk
  {
    assert B in blk ==> IsBlock(blk, B);
  }

  // ---- free lists ------------------------------------------------------------------

  type Lists = seq<seq<int>>

  ghost predicate NoDup(l: seq<int>) {
    forall i, j :: 0 <= i < j < |l| ==> l[i] != l[j]
  }

  function IndexOf(l: seq<int>, x: int): (k: int)
    requires x in l
    ensures 0 <= k < |l| && l[k] == x
  {
    if l[0] == x then 0 else 1 + IndexOf(l[1..], x)
  }

  function Without(l: seq<int>, x: int): seq<int> {
    if x in l then var k := IndexOf(l, x); l[..k] + l[k + 1..] else l
  }

  lemma RemovedAt(l: seq<int>, k: nat)
    requires NoDup(l) && k < |l|
    ensures var w := l[..k] + l[k + 1..];
      NoDup(w) && forall y :: y in w <==> y in l && y != l[k]
  {
    var w := l[..k] + l[k + 1..];
    forall y | y in l && y != l[k] ensures y in w {
      var j :| 0 <= j < |l| && l[j] == y;
      assert w[if j < k then j else j - 1] == y;
    }
    forall y | y in w ensures y in l && y != l[k] {
      var j :| 0 <= j < |w| && w[j] == y;
      assert y == l[if j < k then j else j + 1];
    }
  }

  lemma WithoutFacts(l: seq<int>, x: int)
    requires NoDup(l)
    ensures NoDup(Without(l, x))
    ensures forall y :: y in Without(l, x) <==> y in l && y != x
  {
    hide IndexOf;
    if x in l {
      RemovedAt(l, IndexOf(l, x));
    }
  }

  /** The free blocks and their sizes. */
  ghost function FreeSizes(blk: Blocks): map<int, int> {
    map B | B in blk && blk[B].free :: blk[B].size
  }

  /** The bins hold exactly the free blocks `sizes`, each once and in the bin of its size. */
  ghost predicate Binned(lists: Lists, sizes: map<int, int>) {
    && |lists| == NBINS
    && (forall i :: 0 <= i < NBINS ==> NoDup(lists[i]))
    && (forall B :: B in sizes ==> sizes[B] > 0 && B in lists[BinIndex(sizes[B])])
    && (forall i, B {:trigger B in lists[i]} :: 0 <= i < NBINS && B in lists[i] ==>
          B in sizes && BinIndex(sizes[B]) == i)
  }

  function Unlist(lists: Lists, B: int, size: int): Lists
    requires |lists| == NBINS && size > 0
  {
    lists[BinIndex(size) := Without(lists[BinIndex(size)], B)]
  }

  function Enlist(lists: Lists, B: int, size: int): Lists
    requires |lists| == NBINS && size > 0
  {
    lists[BinIndex(size) := [B] + lists[BinIndex(size)]]
  }

  lemma UnlistKeepsBinned(lists: Lists, sizes: map<int, int>, B: int)
    requires Binned(lists, sizes) && B in sizes
    ensures Binned(Unlist(lists, B, sizes[B]), sizes - {B})
  {
    WithoutFacts(lists[BinIndex(sizes[B])], B);
  }

  lemma EnlistKeepsBinned(lists: Lists, sizes: map<int, int>, B: int, size: int)
    requires Binned(lists, sizes) && B !in sizes && size > 0
    ensures Binned(Enlist(lists, B, size), sizes[B := size])
  {
    assert B !in lists[BinIndex(size)];
  }

  // ---- the heap and its invariant --------------------------------------------------

  datatype Heap = Heap(blocks: Blocks, lists: Lists)

  ghost predicate Inv(h: Heap, lo: int, hi: int) {
    && |h.lists| == NBINS
    && Tiled(h.blocks, lo, hi)
    && Coalesced(h.blocks)
    && Binned(h.lists, FreeSizes(h.blocks))
  }

  /** Block B is free and at least `need` bytes long. */
  predicate Fits(blk: Blocks, B: int, need: int) {
    B in blk && blk[B].free && blk[B].size >= need
  }

  /** B is at position k of bin i, and nothing before it in search order fits. */
  ghost predicate FirstFit(h: Heap, need: int, i: int, k: int)
    requires |h.lists| == NBINS && need > 0
  {
    && BinIndex(need) <= i < NBINS
    && 0 <= k < |h.lists[i]|
    && Fits(h.blocks, h.lists[i][k], need)
    && (forall q :: 0 <= q < k ==> !Fits(h.blocks, h.lists[i][q], need))
    && (forall j, B {:trigger B in h.lists[j]} :: BinIndex(need) <= j < i && B in h.lists[j] ==>
          !Fits(h.blocks, B, need))
  }

  /** The search is complete: when no listed block from bin BinIndex(need) on fits,
      no block of the whole heap fits. */
  lemma SearchComplete(h: Heap, lo: int, hi: int, need: int)
    requires Inv(h, lo, hi) && need > 0
    requires forall j, B {:trigger B in h.lists[j]} :: BinIndex(need) <= j < NBINS && B in h.lists[j] ==>
               !Fits(h.blocks, B, need)
    ensures forall B :: !Fits(h.blocks, B, need)
  {
    forall B | B in FreeSizes(h.blocks) ensures FreeSizes(h.blocks)[B] < need {
      var size := FreeSizes(h.blocks)[B];
      assert B in h.lists[BinIndex(size)];
      if need <= size { BinIndexMonotone(need, size); }
    }
    assert forall B :: B in h.blocks && h.blocks[B].free ==> B in FreeSizes(h.blocks);
  }

  lemma FirstFitUnique(h: Heap, need: int, i: int, k: int, j: int, l: int)
    requires |h.lists| == NBINS && need > 0 && FirstFit(h, need, i, k) && FirstFit(h, need, j, l)
    ensures i == j && k == l
  {
    assert h.lists[i][k] in h.lists[i] && h.lists[j][l] in h.lists[j];
  }

  /** The first fitting block in search order, 0 when there is none. */
  ghost function FirstFitting(h: Heap, need: int): (B: int)
    requires |h.lists| == NBINS && need > 0
    ensures B == 0 || Fits(h.blocks, B, need)
  {
    if exists i, k :: FirstFit(h, need, i, k) then
      var i, k :| FirstFit(h, need, i, k);
      h.lists[i][k]
    else 0
  }

  lemma FirstFittingIs(h: Heap, need: int, i: int, k: int)
    requires |h.lists| == NBINS && need > 0 && FirstFit(h, need, i, k)
    ensures FirstFitting(h, need) == h.lists[i][k]
  {
    hide FirstFit;
    forall j, l | FirstFit(h, need, j, l) ensures j == i && l == k {
      FirstFitUnique(h, need, i, k, j, l);
    }
  }

  lemma NoneFitting(h: Heap, need: int)
    requires |h.lists| == NBINS && need > 0 && forall B :: !Fits(h.blocks, B, need)
    ensures FirstFitting(h, need) == 0
  {
  }

  // ---- allocation ------------------------------------------------------------------

  /** Whether taking `need` bytes of block B leaves a remainder large enough for a block. */
  predicate Splits(blk: Blocks, B: int, need: int)
    requires B in blk
  {
    blk[B].size - need >= MIN_BSIZE
  }

  function Carve(h: Heap, B: int, need: int): Heap
    requires B in h.blocks && |h.lists| == NBINS && h.blocks[B].size >= need > 0
  {
    var size := h.blocks[B].size;
    var lists := Unlist(h.lists, B, size);
    if Splits(h.blocks, B, need) then
      Heap(h.blocks[B := Block(need, false)][B + need := Block(size - need, true)],
           Enlist(lists, B + need, size - need))
    else
      Heap(h.blocks[B := Block(size, false)], lists)
  }

  /** Splitting the allocated block B after `need` bytes; the remainder is free and listed. */
  function SplitHeap(h: Heap, B: int, need: int): Heap
    requires B in h.blocks && |h.lists| == NBINS && h.blocks[B].size > need
  {
    var rest := h.blocks[B].size - need;
    Heap(h.blocks[B := Block(need, false)][B + need := Block(rest, true)], Enlist(h.lists, B + need, rest))
  }

  /** blk' is blk with `need` bytes taken from the free block B: a block shorter than need + 32
      goes as a whole, of any other the rest stays as one free block. */
  ghost predicate Taken(blk: Blocks, B: int, need: int, blk': Blocks) {
    && B in blk && blk[B].free && blk[B].size >= need
    && B in blk' && !blk'[B].free && need <= blk'[B].size < need + 32
    && (blk[B].size < need + 32 ==> blk'[B].size == blk[B].size)
    && (blk[B].size >= need + 32 ==>
          && blk'[B].size == need
          && B + need in blk' && blk'[B + need] == Block(blk[B].size - need, true))
    && forall C :: C != B && (C != B + need || blk[B].size < need + 32) ==>
         (C in blk' <==> C in blk) && (C in blk ==> blk'[C] == blk[C])
  }

  lemma CarveTakes(h: Heap, B: int, need: int)
    requires |h.lists| == NBINS && need > 0 && B in h.blocks && h.blocks[B].free && h.blocks[B].size >= need
    ensures Taken(h.blocks, B, need, Carve(h, B, need).blocks)
  {
    hide Enlist, Unlist;
  }

  /** The first fit is of the least size class that has a block of at least `need` bytes. */
  lemma FirstFitLeastClass(h: Heap, lo: int, hi: int, need: int, i: int, k: int, C: int)
    requires Inv(h, lo, hi) && need > 0 && FirstFit(h, need, i, k)
    requires C in h.blocks && h.blocks[C].free && h.blocks[C].size >= need
    ensures h.lists[i][k] in h.blocks && h.blocks[h.lists[i][k]].size >= need
    ensures BinIndex(h.blocks[h.lists[i][k]].size) <= BinIndex(h.blocks[C].size)
  {
    hide Tiled, Coalesced, BinIndex;
    var B := h.lists[i][k];
    assert B in h.lists[i] && FreeSizes(h.blocks)[B] == h.blocks[B].size;
    assert C in FreeSizes(h.blocks) && C in h.lists[BinIndex(h.blocks[C].size)];
    BinIndexMonotone(need, h.blocks[C].size);
  }

  lemma CarveInTwoSteps(h: Heap, B: int, need: int)
    requires B in h.blocks && |h.lists| == NBINS && need > 0 && h.blocks[B].size > 0 && Splits(h.blocks, B, need)
    ensures SplitHeap(Carve(h, B, h.blocks[B].size), B, need) == Carve(h, B, need)
  {
  }

  lemma SixteenSums(x: int, y: int)
    requires x % 16 == 0 && y % 16 == 0
    ensures (x + y) % 16 == 0 && (x - y) % 16 == 0
  {
    var q, r := x / 16, y / 16;
    QuotientUnique(x + y, 16, q + r, 0);
    QuotientUnique(x - y, 16, q - r, 0);
  }

  lemma CarveTiles(h: Heap, B: int, need: int, lo: int, hi: int)
    requires Inv(h, lo, hi) && Fits(h.blocks, B, need) && need >= MIN_BSIZE && need % 16 == 0
    ensures Tiled(Carve(h, B, need).blocks, lo, hi)
  {
    hide Coalesced, Binned, Enlist, Unlist;
    var blk, blk' := h.blocks, Carve(h, B, need).blocks;
    assert IsBlock(blk, B) && BlockOk(blk, hi, B);
    var R := B + need;
    SixteenSums(B, need);
    SixteenSums(blk[B].size, need);
    if Splits(blk, B, need) { RemainderIsNew(blk, B, R, lo, hi); }
    forall C {:trigger IsBlock(blk', C)} | IsBlock(blk', C) ensures lo <= C && BlockOk(blk', hi, C) {
      if C in blk { assert IsBlock(blk, C); }
    }
    forall C, D {:trigger IsBlock(blk', C), IsBlock(blk', D)} | IsBlock(blk', C) && IsBlock(blk', D) && C < D
      ensures C + blk'[C].size <= D
    {
      assert C in blk ==> IsBlock(blk, C);
      assert D in blk ==> IsBlock(blk, D);
    }
  }

  /** No block begins strictly inside block B. */
  lemma RemainderIsNew(blk: Blocks, B: int, R: int, lo: int, hi: int)
    requires Tiled(blk, lo, hi) && B in blk && B < R < B + blk[B].size
    ensures R !in blk
  {
    assert IsBlock(blk, B);
    assert R in blk ==> IsBlock(blk, R);
  }

  lemma CarveCoalesced(h: Heap, B: int, need: int, lo: int, hi: int)
    requires Inv(h, lo, hi) && Fits(h.blocks, B, need) && need >= MIN_BSIZE && need % 16 == 0
    ensures Coalesced(Carve(h, B, need).blocks)
  {
    var blk, blk' := h.blocks, Carve(h, B, need).blocks;
    assert IsBlock(blk, B);
    var R := B + need;
    if Splits(blk, B, need) { RemainderIsNew(blk, B, R, lo, hi); }
    forall C, D {:trigger IsBlock(blk', C), IsBlock(blk', D)} |
      IsBlock(blk', C) && IsBlock(blk', D) && D == C + blk'[C].size
      ensures !blk'[C].free || !blk'[D].free
    {
      assert C in blk ==> IsBlock(blk, C);
      assert D in blk ==> IsBlock(blk, D);
    }
  }

  lemma CarveBins(h: Heap, B: int, need: int, lo: int, hi: int)
    requires Inv(h, lo, hi) && Fits(h.blocks, B, need) && need >= MIN_BSIZE && need % 16 == 0
    ensures Binned(Carve(h, B, need).lists, FreeSizes(Carve(h, B, need).blocks))
  {
    var blk, blk' := h.blocks, Carve(h, B, need).blocks;
    var sizes, size := FreeSizes(blk), blk[B].size;
    UnlistKeepsBinned(h.lists, sizes, B);
    if Splits(blk, B, need) {
      var R := B + need;
      RemainderIsNew(blk, B, R, lo, hi);
      EnlistKeepsBinned(Unlist(h.lists, B, size), sizes - {B}, R, size - need);
      assert FreeSizes(blk') == (sizes - {B})[R := size - need];
    } else {
      assert FreeSizes(blk') == sizes - {B};
    }
  }

  lemma CarveKeepsInv(h: Heap, B: int, need: int, lo: int, hi: int)
    requires Inv(h, lo, hi) && Fits(h.blocks, B, need) && need >= MIN_BSIZE && need % 16 == 0
    ensures Inv(Carve(h, B, need), lo, hi)
  {
    CarveTiles(h, B, need, lo, hi);
    CarveCoalesced(h, B, need, lo, hi);
    CarveBins(h, B, need, lo, hi);
  }

  // ---- release ---------------------------------------------------------------------

  /** Merge the free block N into the physically preceding block B; the union has the
      given flag. Used with B allocated (forward) and with B free (backward). */
  function Merge(blk: Blocks, B: int, N: int, free: bool): Blocks
    requires B in blk && N in blk && B != N
  {
    (blk - {N})[B := Block(blk[B].size + blk[N].size, free)]
  }

  lemma MergeTiles(blk: Blocks, B: int, N: int, lo: int, hi: int)
    requires Tiled(blk, lo, hi) && B in blk && N == B + blk[B].size && N in blk && N != B
    ensures Tiled(Merge(blk, B, N, false), lo, hi)
  {
    var blk' := Merge(blk, B, N, false);
    assert IsBlock(blk, B) && IsBlock(blk, N);
    forall C {:trigger IsBlock(blk', C)} | IsBlock(blk', C) ensures lo <= C && BlockOk(blk', hi, C) {
      assert IsBlock(blk, C);
    }
    forall C, D {:trigger IsBlock(blk', C), IsBlock(blk', D)} | IsBlock(blk', C) && IsBlock(blk', D) && C < D
      ensures C + blk'[C].size <= D
    {
      assert IsBlock(blk, C) && IsBlock(blk, D);
    }
  }

  lemma MergeCoalesced(blk: Blocks, B: int, N: int, lo: int, hi: int)
    requires Tiled(blk, lo, hi) && Coalesced(blk) && B in blk && N == B + blk[B].size && N in blk && N != B
    ensures Coalesced(Merge(blk, B, N, false))
  {
    var blk' := Merge(blk, B, N, false);
    forall C, D {:trigger IsBlock(blk', C), IsBlock(blk', D)} |
      IsBlock(blk', C) && IsBlock(blk', D) && D == C + blk'[C].size
      ensures !blk'[C].free || !blk'[D].free
    {
      assert IsBlock(blk, C) && IsBlock(blk, D);
    }
  }

  /** Forward coalescing of the allocated block B with a free successor. */
  function AbsorbNext(h: Heap, B: int): Heap
    requires B in h.blocks && |h.lists| == NBINS
  {
    var N := B + h.blocks[B].size;
    if B != N && N in h.blocks && h.blocks[N].free && h.blocks[N].size > 0 then
      Heap(Merge(h.blocks, B, N, false), Unlist(h.lists, N, h.blocks[N].size))
    else h
  }

  /** Backward coalescing: the allocated block B joins its free predecessor P. */
  function AbsorbInto(h: Heap, P: int, B: int): Heap
    requires P in h.blocks && B in h.blocks && P != B && |h.lists| == NBINS && h.blocks[P].size > 0
  {
    Heap(Merge(h.blocks, P, B, false), Unlist(h.lists, P, h.blocks[P].size))
  }

  function SetFree(h: Heap, B: int): Heap
    requires B in h.blocks && |h.lists| == NBINS && h.blocks[B].size > 0
  {
    Heap(h.blocks[B := Block(h.blocks[B].size, true)], Enlist(h.lists, B, h.blocks[B].size))
  }

  ghost predicate FreeAt(h: Heap, B: int) {
    B in h.blocks && h.blocks[B].free
  }

  lemma AbsorbNextKeepsInv(h: Heap, B: int, lo: int, hi: int)
    requires Inv(h, lo, hi) && B in h.blocks && !h.blocks[B].free
    ensures var h' := AbsorbNext(h, B);
      && Inv(h', lo, hi) && B in h'.blocks && !h'.blocks[B].free
      && !FreeAt(h', B + h'.blocks[B].size)
  {
    var blk, h' := h.blocks, AbsorbNext(h, B);
    var blk' := h'.blocks;
    var N := B + blk[B].size;
    assert IsBlock(blk, B) && (N in blk ==> IsBlock(blk, N));
    if FreeAt(h, N) {
      MergeTiles(blk, B, N, lo, hi);
      MergeCoalesced(blk, B, N, lo, hi);
      UnlistKeepsBinned(h.lists, FreeSizes(blk), N);
      assert FreeSizes(blk') == FreeSizes(blk) - {N};
      var E := N + blk[N].size;
      assert E in blk ==> IsBlock(blk, E);
    }
  }

  lemma AbsorbIntoKeepsInv(h: Heap, P: int, B: int, lo: int, hi: int)
    requires Inv(h, lo, hi) && B in h.blocks && !h.blocks[B].free
    requires FreeAt(h, P) && P + h.blocks[P].size == B && P != B && h.blocks[P].size > 0
    requires !FreeAt(h, B + h.blocks[B].size)
    ensures var h' := AbsorbInto(h, P, B);
      && Inv(h', lo, hi) && P in h'.blocks && !h'.blocks[P].free
      && !FreeAt(h', P + h'.blocks[P].size)
      && NoFreeBefore(h', P)
  {
    var blk, h' := h.blocks, AbsorbInto(h, P, B);
    var blk' := h'.blocks;
    assert IsBlock(blk, B) && IsBlock(blk, P);
    MergeTiles(blk, P, B, lo, hi);
    MergeCoalesced(blk, P, B, lo, hi);
    UnlistKeepsBinned(h.lists, FreeSizes(blk), P);
    assert FreeSizes(blk') == FreeSizes(blk) - {P};
    forall Q {:trigger IsBlock(blk', Q)} | IsBlock(blk', Q) && blk'[Q].free
      ensures Q + blk'[Q].size != P
    {
      assert IsBlock(blk, Q);
    }
  }

  /** The block physically before B, if any, is not free. */
  ghost predicate NoFreeBefore(h: Heap, B: int) {
    forall Q {:trigger IsBlock(h.blocks, Q)} :: IsBlock(h.blocks, Q) && h.blocks[Q].free ==>
      Q + h.blocks[Q].size != B
  }

  /** A block ends where B begins only if it is the predecessor P. */
  lemma OnlyPredecessor(h: Heap, P: int, B: int, lo: int, hi: int)
    requires Tiled(h.blocks, lo, hi) && P in h.blocks && P + h.blocks[P].size == B && !h.blocks[P].free
    ensures NoFreeBefore(h, B)
  {
    assert IsBlock(h.blocks, P);
  }

  lemma FirstHasNoPredecessor(h: Heap, B: int, lo: int, hi: int)
    requires Tiled(h.blocks, lo, hi) && B <= lo
    ensures NoFreeBefore(h, B)
  {
  }

  lemma SetFreeKeepsInv(h: Heap, B: int, lo: int, hi: int)
    requires Inv(h, lo, hi) && B in h.blocks && !h.blocks[B].free && h.blocks[B].size > 0
    requires !FreeAt(h, B + h.blocks[B].size) && NoFreeBefore(h, B)
    ensures Inv(SetFree(h, B), lo, hi)
  {
    var blk, h' := h.blocks, SetFree(h, B);
    var blk' := h'.blocks;
    assert IsBlock(blk, B);
    forall C {:trigger IsBlock(blk', C)} | IsBlock(blk', C) ensures lo <= C && BlockOk(blk', hi, C) {
      assert IsBlock(blk, C);
    }
    forall C, D {:trigger IsBlock(blk', C), IsBlock(blk', D)} | IsBlock(blk', C) && IsBlock(blk', D)
      ensures C < D ==> C + blk'[C].size <= D
      ensures D == C + blk'[C].size ==> !blk'[C].free || !blk'[D].free
    {
      assert IsBlock(blk, C) && IsBlock(blk, D);
    }
    EnlistKeepsBinned(h.lists, FreeSizes(blk), B, blk[B].size);
    assert FreeSizes(blk') == FreeSizes(blk)[B := blk[B].size];
  }

  /** The heap after freeing block B, where S is the start of the coalesced free block:
      B itself, or its free physical predecessor. */
  ghost predicate Coalesces(h: Heap, B: int, S: int) {
    if S == B then NoFreeBefore(h, B)
    else FreeAt(h, S) && S + h.blocks[S].size == B && h.blocks[S].size > 0
  }

  /** h' is h after freeing block B, with the coalesced free block starting at S. */
  ghost predicate ReleasedFrom(h: Heap, B: int, S: int, h': Heap)
    requires B in h.blocks && |h.lists| == NBINS
  {
    var h1 := AbsorbNext(h, B);
    && Coalesces(h1, B, S)
    && (S != B ==> B in h1.blocks)
    && var h2 := if S == B then h1 else AbsorbInto(h1, S, B);
       S in h2.blocks && h2.blocks[S].size > 0 && h' == SetFree(h2, S)
  }

  /** The heap that freeing block B leaves. */
  ghost function FreedHeap(h: Heap, B: int): (h': Heap)
    ensures |h.lists| == NBINS ==> |h'.lists| == NBINS
  {
    if B in h.blocks && |h.lists| == NBINS && exists S, h' :: ReleasedFrom(h, B, S, h') then
      var S, h' :| ReleasedFrom(h, B, S, h');
      h'
    else h
  }

  /** Freeing leaves one heap: at most one free block ends where B begins. */
  lemma ReleaseUnique(h: Heap, B: int, S: int, h1: Heap, T: int, h2: Heap, lo: int, hi: int)
    requires Inv(h, lo, hi) && B in h.blocks && !h.blocks[B].free
    requires ReleasedFrom(h, B, S, h1) && ReleasedFrom(h, B, T, h2)
    ensures h1 == h2
  {
    hide AbsorbNext, AbsorbInto, SetFree, Coalesced, Binned;
    AbsorbNextKeepsInv(h, B, lo, hi);
    var blk := AbsorbNext(h, B).blocks;
    assert S in blk ==> IsBlock(blk, S);
    assert T in blk ==> IsBlock(blk, T);
  }

  lemma FreedIs(h: Heap, B: int, h': Heap, lo: int, hi: int)
    requires Inv(h, lo, hi) && B in h.blocks && !h.blocks[B].free
    requires exists S :: ReleasedFrom(h, B, S, h')
    ensures FreedHeap(h, B) == h'
  {
    hide Tiled, Coalesced, Binned, ReleasedFrom;
    var S :| ReleasedFrom(h, B, S, h');
    forall T, h2 | ReleasedFrom(h, B, T, h2) ensures h2 == h' {
      ReleaseUnique(h, B, S, h', T, h2, lo, hi);
    }
  }

  // ---- whole-heap consequences -----------------------------------------------------

  /** Coalescing is complete: a heap in which every block is free is one single block. */
  lemma AllFreeIsOneBlock(h: Heap, lo: int, hi: int)
    requires Inv(h, lo, hi)
    requires forall B :: B in h.blocks ==> h.blocks[B].free
    ensures h.blocks == map[lo := Block(hi - lo, true)]
  {
    var blk := h.blocks;
    var e := lo + blk[lo].size;
    assert IsBlock(blk, lo) && (e in blk ==> IsBlock(blk, e));
    forall B | B in blk ensures B == lo {
      assert IsBlock(blk, B);
    }
  }

  ghost function AllocatedSizes(blk: Blocks): map<int, int> {
    map B | B in blk && !blk[B].free :: blk[B].size
  }

  /** The physical layout is a function of the allocated blocks alone: no history of splits
      and merges can leave a different one. */
  lemma LayoutIsCanonical(blk1: Blocks, blk2: Blocks, lo: int, hi: int)
    requires Tiled(blk1, lo, hi) && Coalesced(blk1) && Tiled(blk2, lo, hi) && Coalesced(blk2)
    requires AllocatedSizes(blk1) == AllocatedSizes(blk2)
    ensures blk1 == blk2
  {
    SameFrom(blk1, blk2, lo, hi, lo);
    forall B ensures B in blk1 <==> B in blk2 {
      assert B in blk1 ==> IsBlock(blk1, B);
      assert B in blk2 ==> IsBlock(blk2, B);
    }
    forall B | B in blk1 ensures blk1[B] == blk2[B] {
      assert IsBlock(blk1, B);
    }
  }

  lemma {:induction false} SameFrom(blk1: Blocks, blk2: Blocks, lo: int, hi: int, B: int)
    requires Tiled(blk1, lo, hi) && Coalesced(blk1) && Tiled(blk2, lo, hi) && Coalesced(blk2)
    requires AllocatedSizes(blk1) == AllocatedSizes(blk2)
    requires B in blk1 && B in blk2
    ensures forall C :: C >= B ==> (C in blk1 <==> C in blk2)
    ensures forall C :: C >= B && C in blk1 ==> blk1[C] == blk2[C]
    decreases hi - B
  {
    SameBlockAt(blk1, blk2, lo, hi, B);
    var E := B + blk1[B].size;
    assert IsBlock(blk1, B) && IsBlock(blk2, B);
    forall C | B < C < E ensures C !in blk1 && C !in blk2 {
      RemainderIsNew(blk1, B, C, lo, hi);
      RemainderIsNew(blk2, B, C, lo, hi);
    }
    if E < hi {
      SameFrom(blk1, blk2, lo, hi, E);
    } else {
      forall C | C >= E ensures C !in blk1 && C !in blk2 {
        assert C in blk1 ==> IsBlock(blk1, C);
        assert C in blk2 ==> IsBlock(blk2, C);
      }
    }
  }

  lemma SameBlockAt(blk1: Blocks, blk2: Blocks, lo: int, hi: int, B: int)
    requires Tiled(blk1, lo, hi) && Coalesced(blk1) && Tiled(blk2, lo, hi) && Coalesced(blk2)
    requires AllocatedSizes(blk1) == AllocatedSizes(blk2)
    requires B in blk1 && B in blk2
    ensures blk1[B] == blk2[B]
  {
    assert B in AllocatedSizes(blk1) <==> B in AllocatedSizes(blk2);
    if blk1[B].free {
      FreeBlockNotLonger(blk1, blk2, lo, hi, B);
      FreeBlockNotLonger(blk2, blk1, lo, hi, B);
    } else {
      assert AllocatedSizes(blk1)[B] == AllocatedSizes(blk2)[B];
    }
  }

  lemma FreeBlockNotLonger(blk1: Blocks, blk2: Blocks, lo: int, hi: int, B: int)
    requires Tiled(blk1, lo, hi) && Coalesced(blk1) && Tiled(blk2, lo, hi)
    requires AllocatedSizes(blk1) == AllocatedSizes(blk2)
    requires B in blk1 && B in blk2 && blk1[B].free
    ensures blk1[B].size >= blk2[B].size
  {
    var E := B + blk1[B].size;
    assert IsBlock(blk1, B) && IsBlock(blk2, B);
    if E in blk1 {
      assert IsBlock(blk1, E);
      assert E in AllocatedSizes(blk1);
      assert E in AllocatedSizes(blk2);
      assert IsBlock(blk2, E);
    }
  }
}
