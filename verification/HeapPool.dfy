/** The heap pool of src/memory/heap_pool.cpp over a concrete array of 8-byte words. */
module HeapPool {
  import opened Bits
  import opened HeapModel
  import opened HeapMemory
  import opened HeapCheck
  import opened HeapRequest

  type Word = w: int | 0 <= w < WORD

  lemma PointerArithmetic(B: int, size: int, p: int)
    requires B % 16 == 0 && size % 16 == 0 && p % 16 == 0
    ensures p % 8 == 0 && (p - 8) % 8 == 0 && (B + size - 8 - p) % 8 == 0
  {
    SixteensAreEights(p, 0);
    SixteensAreEights(B - p, size);
  }

  lemma WordInside(p: int, i: int)
    requires p % 8 == 0
    ensures (p + 8 * i) % 8 == 0
  {
    QuotientUnique(p + 8 * i, 8, p / 8 + i, 0);
  }

  /** The source's masks on a header word: `& ~ALLOC_BIT` is the size, `& ALLOC_BIT` the flag. */
  lemma HeaderMasks(w: Word)
    ensures And(w, WORD - 2) == SizeOf(w) && And(w, 1) == w % 2
  {
    assert Pow2(1) == 2 && Pow2(0) == 1;
    MaskIsFloor(w, 1);
    AndPow2(w, 0);
  }

  lemma HeaderBits(size: int)
    requires size % 16 == 0
    ensures size % 2 == 0 && (size + 1) % 2 == 1
  {
    assert size == 2 * (8 * (size / 16));
  }

  lemma SixteensAreEights(x: int, y: int)
    requires x % 16 == 0 && y % 16 == 0
    ensures x % 8 == 0 && (x + 8) % 8 == 0 && (x + 16) % 8 == 0 && (x + y - 8) % 8 == 0
  {
    var q, r := 2 * (x / 16), 2 * (y / 16);
    assert x == 8 * q && y == 8 * r;
    QuotientUnique(x, 8, q, 0);
    QuotientUnique(x + 8, 8, q + 1, 0);
    QuotientUnique(x + 16, 8, q + 2, 0);
    QuotientUnique(x + y - 8, 8, q + r - 1, 0);
  }

  lemma PageAligned(x: int)
    requires x % 4096 == 0
    ensures x % 16 == 0 && x % 8 == 0
  {
    var q := x / 4096;
    assert x == 4096 * q;
    QuotientUnique(x, 16, 256 * q, 0);
    QuotientUnique(x, 8, 512 * q, 0);
  }

  /** The words of an array as a map from addresses. */
  ghost function ImageOf(words: seq<Word>, base: int): (m: Mem)
    ensures forall i {:trigger words[i]} :: 0 <= i < |words| ==> At(m, base + 8 * i) == words[i]
  {
    if words == [] then map[]
    else
      var n := |words| - 1;
      assert forall i :: 0 <= i < n ==> words[..n][i] == words[i];
      ImageOf(words[..n], base)[base + 8 * n := words[n]]
  }

  /** A lone free block keeps its tags when only its own link words change. */
  lemma SingleTagKept(m: Mem, m': Mem, base: int, res: int)
    requires res >= MIN_BSIZE && base % 16 == 0 && res % 16 == 0
    requires At(m, base) == res && At(m, base + res - FTR) == res
    requires SameExceptLinks(m, m', map[base := res])
    ensures Tags(m', InitialHeap(base, res).blocks, -1)
    ensures Owned(m', InitialHeap(base, res).blocks, map[])
  {
    assert forall B :: IsBlock(InitialHeap(base, res).blocks, B) ==> B == base;
    assert At(m', base) == res && At(m', base + res - FTR) == res;
  }

  /** Every owned block ends at or before `top`. */
  ghost predicate BlocksBelow(own: map<int, int>, blk: Blocks, top: int) {
    forall B {:trigger B in own} :: B in own && B in blk ==> B + blk[B].size <= top
  }

  function NoLists(): Lists {
    seq(NBINS, _ => [])
  }

  function InitialHeap(base: int, res: int): Heap
    requires res > 0
  {
    Heap(map[base := Block(res, true)], Enlist(NoLists(), base, res))
  }

  lemma EmptyBins(m: Mem, bins: seq<int>)
    requires |bins| == NBINS && forall i :: 0 <= i < NBINS ==> bins[i] == 0
    ensures Linked(m, bins, NoLists()) && Binned(NoLists(), map[])
  {
  }

  lemma InitialHeapInv(base: int, res: int)
    requires base > 0 && base % 16 == 0 && res >= MIN_BSIZE && res % 16 == 0
    ensures Inv(InitialHeap(base, res), base, base + res)
  {
    var blk := InitialHeap(base, res).blocks;
    assert forall B :: IsBlock(blk, B) ==> B == base;
    assert Binned(NoLists(), map[]);
    EnlistKeepsBinned(NoLists(), map[], base, res);
    assert FreeSizes(blk) == map[base := res];
  }

  // ---- the pool --------------------------------------------------------------------

  class Pool {
    const base: int
    const res: int
    const mem: array<Word>
    const bins: array<int>
    var high: int

    ghost var img: Mem
    ghost var heap: Heap
    ghost var own: map<int, int>

    ghost predicate Shape() {
      && base > 0 && res > 0 && base + res < WORD
      && base % 8 == 0 && mem.Length * 8 == res && bins.Length == NBINS
    }

    /** `img` is the reservation as a map from addresses to words. */
    ghost predicate Mapped()
      requires Shape()
      reads this`img, mem
    {
      forall i {:trigger mem[i]} :: 0 <= i < mem.Length ==> At(img, base + 8 * i) == mem[i]
    }

    function End(): int {
      base + res
    }

    /** g_high is at or after the end of every allocated block. */
    ghost predicate HighBounds()
      reads this`own, this`heap, this`high
    {
      BlocksBelow(own, heap.blocks, base + high)
    }

    lemma HighStillBounds(own0: map<int, int>, blk: Blocks, top: int)
      requires BlocksBelow(own0, blk, top) && top <= base + high && SameBlocks(blk, heap.blocks, own)
      requires forall B :: B in own ==> B in own0
      ensures HighBounds()
    {
    }

    /** mmap returns whole pages. */
    ghost predicate PageSized() {
      base % 4096 == 0 && res % 4096 == 0
    }

    ghost predicate Valid()
      reads this, mem, bins
    {
      && Shape() && Mapped() && PageSized()
      && Inv(heap, base, End())
      && Tags(img, heap.blocks, -1)
      && Linked(img, bins[..], heap.lists)
      && Owned(img, heap.blocks, own)
      && HighBounds()
    }

    /** ensure_init_locked on success: one free block covering the whole reservation. */
    constructor (base: int, res: int)
      requires base > 0 && base % 4096 == 0 && res > 0 && res % 4096 == 0 && base + res < WORD
      ensures Valid() && fresh(mem) && fresh(bins)
      ensures this.base == base && this.res == res && own == map[]
      ensures heap.blocks == map[base := Block(res, true)]
    {
      this.base, this.res := base, res;
      mem := new Word[res / 8];
      bins := new int[NBINS](_ => 0);
      high := 0;
      own := map[];
      img := map[];
      heap := InitialHeap(base, res);
      new;
      PageAligned(base);
      PageAligned(res);
      img := ImageOf(mem[..], base);
      FirstBlock();
    }

    /** set_block and bin_insert of the whole reservation. */
    method FirstBlock()
      requires Shape() && Mapped() && PageSized() && Region(base, res)
      requires heap == InitialHeap(base, res) && own == map[]
      requires forall i :: 0 <= i < NBINS ==> bins[i] == 0
      modifies this`img, mem, bins
      ensures Valid()
    {
      hide Mapped, PageSized, Load, BSize, Allocated, Linked, Binned, Tags, Tiled, Coalesced, Owned, HighBounds,
        SameExceptLinks;
      NothingOwned();
      SetBlock(base, res, false);
      ghost var m := img;
      EmptyBins(img, bins[..]);
      RegionWords(base, res);
      ReadTag(base, heap.blocks);
      BinInsert(base, res, NoLists(), map[]);
      InitialHeapInv(base, res);
      SingleTagKept(m, img, base, res);
    }

    lemma NothingOwned()
      requires own == map[]
      ensures HighBounds()
    {
    }

    // ---- word access ---------------------------------------------------------------

    /** The address of a word of the reservation. */
    predicate WordAt(a: int) {
      base <= a < End() && a % 8 == 0
    }

    function Load(a: int): (w: Word)
      requires Shape() && Mapped() && WordAt(a)
      reads this`img, mem
      ensures w == At(img, a)
    {
      mem[(a - base) / 8]
    }

    method Store(a: int, w: Word)
      requires Shape() && Mapped() && WordAt(a)
      modifies this`img, mem
      ensures Mapped()
      ensures img == old(img)[a := w]
    {
      mem[(a - base) / 8] := w;
      img := img[a := w];
    }

    function BSize(B: int): int
      requires Shape() && Mapped() && WordAt(B)
      reads this`img, mem
    {
      SizeOf(Load(B))
    }

    predicate Allocated(B: int)
      requires Shape() && Mapped() && WordAt(B)
      reads this`img, mem
    {
      Load(B) % 2 == 1
    }

    /** Reading an intact header gives the block's size and flag. */
    lemma ReadTag(B: int, blk: Blocks)
      requires Shape() && Mapped() && WordAt(B) && B in blk && blk[B].size % 16 == 0
      requires At(img, B) == HeaderWord(blk[B])
      ensures BSize(B) == blk[B].size && Allocated(B) == !blk[B].free
    {
      hide Mapped;
      HeaderBits(blk[B].size);
    }

    lemma ReadSize(B: int, size: int)
      requires Shape() && Mapped() && WordAt(B) && size % 16 == 0 && At(img, B) == size
      ensures BSize(B) == size
    {
      ReadTag(B, map[B := Block(size, true)]);
    }

    /** A region of whole 16-byte units inside the reservation. */
    ghost predicate Region(B: int, bs: int) {
      base <= B && B % 16 == 0 && bs >= MIN_BSIZE && bs % 16 == 0 && B + bs <= End()
    }

    lemma RegionWords(B: int, bs: int)
      requires Region(B, bs)
      ensures WordAt(B) && WordAt(B + HDR) && WordAt(B + HDR + PTR) && WordAt(B + bs - FTR)
    {
      SixteensAreEights(B, bs);
    }

    method SetBlock(B: int, bs: int, alloc: bool)
      requires Shape() && Mapped() && Region(B, bs)
      modifies this`img, mem
      ensures Mapped()
      ensures img == SetBlockMem(old(img), B, bs, !alloc)
      ensures At(img, B) == bs + (if alloc then 1 else 0) && At(img, B + bs - 8) == bs
    {
      RegionWords(B, bs);
      Store(B, bs + if alloc then 1 else 0);
      Store(B + bs - FTR, bs);
    }

    // ---- free lists ----------------------------------------------------------------

    ghost predicate FreeRegions(sizes: map<int, int>) {
      forall B {:trigger B in sizes} :: B in sizes ==> Region(B, sizes[B])
    }

    method BinInsert(B: int, ghost size: int, ghost lists: Lists, ghost sizes: map<int, int>)
      requires Shape() && Mapped() && WordAt(B) && Region(B, size) && BSize(B) == size
      requires Binned(lists, sizes) && FreeRegions(sizes) && Linked(img, bins[..], lists) && B !in sizes
      modifies this`img, mem, bins
      ensures Mapped()
      ensures Linked(img, bins[..], Enlist(lists, B, size))
      ensures bins[..] == old(bins[..])[BinIndex(size) := B]
      ensures SameExceptLinks(old(img), img, sizes[B := size])
    {
      hide Mapped, PageSized, Load, BSize, Linked, Binned, SameExceptLinks;
      ghost var m, heads := img, bins[..];
      RegionWords(B, size);
      var i := BinIndex(BSize(B));
      var head := bins[i];
      HeadIsListed(m, heads, lists, sizes, i);
      if head != 0 {
        RegionWords(head, sizes[head]);
      }
      Store(B + HDR + PTR, 0);
      Store(B + HDR, head);
      if head != 0 {
        Store(head + HDR + PTR, B);
      }
      bins[i] := B;
      InsertLinked(m, heads, lists, sizes, B, size);
      assert bins[..] == heads[i := B];
    }

    method BinRemove(B: int, ghost lists: Lists, ghost sizes: map<int, int>)
      requires Shape() && Mapped() && Binned(lists, sizes) && FreeRegions(sizes) && Linked(img, bins[..], lists)
      requires B in sizes && At(img, B) == sizes[B]
      modifies this`img, mem, bins
      ensures Mapped()
      ensures Linked(img, bins[..], Unlist(lists, B, sizes[B]))
      ensures SameExceptLinks(old(img), img, sizes)
    {
      hide Mapped, PageSized, Load, BSize, Allocated, Linked, SameExceptLinks, ListLinked, NoDup;
      ghost var m, heads := img, bins[..];
      RemoveLinked(m, heads, lists, sizes, B);
      RegionWords(B, sizes[B]);
      ReadSize(B, sizes[B]);
      var p := Load(B + HDR + PTR);
      var n := Load(B + HDR);
      var i := BinIndex(BSize(B));
      if p != 0 {
        RegionWords(p, sizes[p]);
        Store(p + HDR, n);
      } else {
        bins[i] := n;
        assert bins[..] == heads[i := n];
      }
      if n != 0 {
        RegionWords(n, sizes[n]);
        Store(n + HDR + PTR, p);
      }
    }

    // ---- freeing -------------------------------------------------------------------

    /** Block X is being released: its tags are out of date and it is no longer owned. */
    ghost predicate Releasing(X: int)
      reads this, mem, bins
    {
      && Shape() && Mapped()
      && Inv(heap, base, End())
      && X in heap.blocks && !heap.blocks[X].free
      && Tags(img, heap.blocks, X)
      && Linked(img, bins[..], heap.lists)
      && OwnsAllBut(own, heap.blocks, X)
    }

    lemma BlockRegion(B: int)
      requires Shape() && Tiled(heap.blocks, base, End()) && B in heap.blocks
      ensures Region(B, heap.blocks[B].size)
    {
      assert IsBlock(heap.blocks, B);
    }

    lemma FreeBlockRegions()
      requires Shape() && Tiled(heap.blocks, base, End())
      ensures FreeRegions(FreeSizes(heap.blocks))
    {
      forall B | B in FreeSizes(heap.blocks) ensures Region(B, FreeSizes(heap.blocks)[B]) {
        BlockRegion(B);
      }
    }

    /** Lines 140-144: join the released block with a free successor. */
    method ForwardCoalesce(B: int, bs: int) returns (bs': int)
      requires Releasing(B) && bs == heap.blocks[B].size
      modifies this`img, this`heap, mem, bins
      ensures Releasing(B) && heap == AbsorbNext(old(heap), B) && bs' == heap.blocks[B].size
      ensures !FreeAt(heap, B + bs')
      ensures SameBlocks(old(heap.blocks), heap.blocks, own)
      ensures SameAllocations(old(img), img, heap.blocks, own)
    {
      hide Mapped, PageSized, Load, BSize, Allocated, Linked, Tags, Tiled, Coalesced, Binned, SameExceptLinks;
      ghost var m, h := img, heap;
      AbsorbNextKeepsInv(h, B, base, End());
      var next := B + bs;
      bs' := bs;
      Successor(h.blocks, base, End(), B);
      if next < End() {
        TagOf(img, h.blocks, B, next);
        BlockRegion(next);
        RegionWords(next, h.blocks[next].size);
        FreeBlockRegions();
        ReadTag(next, h.blocks);
        if !Allocated(next) {
          BinRemove(next, h.lists, FreeSizes(h.blocks));
          LinksKeepTags(m, img, h.blocks, base, End(), B);
          LinksKeepAllocations(m, img, h.blocks, own, base, End());
          TagOf(img, h.blocks, B, next);
          ReadTag(next, h.blocks);
          bs' := bs' + BSize(next);
          MergeTags(img, h.blocks, B, next, B);
          heap := AbsorbNext(h, B);
          AllocationsCompose(m, img, img, h.blocks, heap.blocks, own);
        }
      }
    }

    /** Lines 145-153: join the released block with a free predecessor. */
    method BackwardCoalesce(B: int, bs: int) returns (X: int, bs': int)
      requires Releasing(B) && bs == heap.blocks[B].size && !FreeAt(heap, B + bs)
      modifies this`img, this`heap, mem, bins
      ensures Releasing(X) && bs' == heap.blocks[X].size
      ensures Coalesces(old(heap), B, X)
      ensures heap == if X == B then old(heap) else AbsorbInto(old(heap), X, B)
      ensures !FreeAt(heap, X + bs') && NoFreeBefore(heap, X)
      ensures SameBlocks(old(heap.blocks), heap.blocks, own)
      ensures SameAllocations(old(img), img, heap.blocks, own)
    {
      hide Mapped, PageSized, Load, BSize, Allocated, Linked, Tags, Tiled, Coalesced, Binned, SameExceptLinks;
      ghost var m, h := img, heap;
      X, bs' := B, bs;
      if B > base {
        ghost var P := Predecessor(h.blocks, base, End(), B);
        BlockRegion(P);
        TagOf(img, h.blocks, B, P);
        RegionWords(P, h.blocks[P].size);
        FreeBlockRegions();
        ReadTag(P, h.blocks);
        var prevBs := Load(B - FTR);
        var prev := B - prevBs;
        assert prev == P;
        if prev >= base && !Allocated(prev) {
          AbsorbIntoKeepsInv(h, prev, B, base, End());
          BinRemove(prev, h.lists, FreeSizes(h.blocks));
          LinksKeepTags(m, img, h.blocks, base, End(), B);
          LinksKeepAllocations(m, img, h.blocks, own, base, End());
          TagOf(img, h.blocks, B, prev);
          ReadTag(prev, h.blocks);
          bs' := bs' + BSize(prev);
          X := prev;
          MergeTags(img, h.blocks, prev, B, B);
          heap := AbsorbInto(h, prev, B);
          AllocationsCompose(m, img, img, h.blocks, heap.blocks, own);
        } else {
          OnlyPredecessor(h, P, B, base, End());
        }
      } else {
        FirstHasNoPredecessor(h, B, base, End());
      }
    }

    /** Lines 140-153: join the released block with its free neighbours. */
    method Coalesce(B: int, bs0: int) returns (X: int, bs: int)
      requires Releasing(B) && bs0 == heap.blocks[B].size
      modifies this`img, this`heap, mem, bins
      ensures Releasing(X) && bs == heap.blocks[X].size > 0
      ensures Coalesces(AbsorbNext(old(heap), B), B, X)
      ensures heap == if X == B then AbsorbNext(old(heap), B) else AbsorbInto(AbsorbNext(old(heap), B), X, B)
      ensures !FreeAt(heap, X + bs) && NoFreeBefore(heap, X)
      ensures SameBlocks(old(heap.blocks), heap.blocks, own)
      ensures SameAllocations(old(img), img, heap.blocks, own)
    {
      hide Mapped, PageSized, Load, BSize, Allocated, Linked, Tags, SameAllocations, Tiled, Coalesced, Binned;
      ghost var m0 := img;
      bs := ForwardCoalesce(B, bs0);
      ghost var m1, blk1 := img, heap.blocks;
      X, bs := BackwardCoalesce(B, bs);
      BlockRegion(X);
      AllocationsCompose(m0, m1, img, blk1, heap.blocks, own);
    }

    method BlockFree(B: int)
      requires Valid() && B in own
      modifies this`img, this`heap, this`own, mem, bins
      ensures Valid() && own == old(own) - {B}
      ensures exists S :: ReleasedFrom(old(heap), B, S, heap)
      ensures SameBlocks(old(heap.blocks), heap.blocks, own)
      ensures SameAllocations(old(img), img, heap.blocks, own)
    {
      hide Mapped, PageSized, Load, BSize, Allocated, Linked, Tags, Tiled, SameAllocations, SameBlocks, Coalesced,
        Binned, BlocksBelow, OwnsAllBut;
      ghost var m0, h0, own0, high0 := img, heap, own, high;
      var bs := DropOwner(B);
      var X;
      X, bs := Coalesce(B, bs);
      ghost var m2, blk2 := img, heap.blocks;
      FinishFree(X, bs);
      assert ReleasedFrom(h0, B, X, heap);
      BlocksCompose(h0.blocks, blk2, heap.blocks, own);
      AllocationsCompose(m0, m2, img, blk2, heap.blocks, own);
      OwnedAfterRelease(m0, img, h0.blocks, heap.blocks, own0, own, B);
      HighStillBounds(own0, h0.blocks, base + high);
    }

    /** Line 139: read the size of block B, which from here on has no owner. */
    method DropOwner(B: int) returns (bs: int)
      requires Valid() && B in own
      modifies this`own
      ensures bs == heap.blocks[B].size && own == old(own) - {B} && Releasing(B)
    {
      hide Mapped, PageSized, Load, BSize, Allocated, Linked, Tags, Tiled, Coalesced, Binned, BlocksBelow, OwnsAllBut;
      BlockRegion(B);
      RegionWords(B, heap.blocks[B].size);
      NoBlockBelow(heap.blocks, base, End(), -1);
      TagOf(img, heap.blocks, -1, B);
      TagsExcept(img, heap.blocks, B);
      OwnsWithout(img, heap.blocks, own, B);
      ReadTag(B, heap.blocks);
      bs := BSize(B);
      own := own - {B};
    }

    /** Lines 154-155: write the tags of the coalesced block and put it in its bin. */
    method FinishFree(X: int, bs: int)
      requires Releasing(X) && bs == heap.blocks[X].size > 0
      requires !FreeAt(heap, X + bs) && NoFreeBefore(heap, X)
      modifies this`img, this`heap, mem, bins
      ensures Shape() && Mapped() && heap == SetFree(old(heap), X)
      ensures Inv(heap, base, End()) && Tags(img, heap.blocks, -1) && Linked(img, bins[..], heap.lists)
      ensures OwnsExactly(own, heap.blocks)
      ensures SameBlocks(old(heap.blocks), heap.blocks, own)
      ensures SameAllocations(old(img), img, heap.blocks, own)
    {
      hide Mapped, PageSized, Load, BSize, Allocated, Linked, SameAllocations, Tiled, Coalesced, Binned,
        SameExceptLinks;
      ghost var m, h := img, heap;
      SetFreeKeepsInv(h, X, base, End());
      WriteFreeTags(X, bs);
      ghost var m2 := img;
      heap := SetFree(h, X);
      OwnsAfterSetFree(own, h.blocks, X);
      assert X > 0 by { BlockRegion(X); }
      TagOf(img, heap.blocks, -1, X);
      BlockRegion(X);
      RegionWords(X, bs);
      ReadTag(X, heap.blocks);
      BinInsert(X, bs, h.lists, FreeSizes(h.blocks));
      assert FreeSizes(heap.blocks) == FreeSizes(h.blocks)[X := bs];
      LinksKeepTags(m2, img, heap.blocks, base, End(), -1);
      LinksKeepAllocations(m2, img, heap.blocks, own, base, End());
      AllocationsCompose(m, m2, img, h.blocks, heap.blocks, own);
    }

    method WriteFreeTags(X: int, bs: int)
      requires Releasing(X) && bs == heap.blocks[X].size
      modifies this`img, mem
      ensures Mapped()
      ensures Tags(img, heap.blocks[X := Block(bs, true)], -1) && Linked(img, bins[..], heap.lists)
      ensures FreeRegions(FreeSizes(heap.blocks))
      ensures SameAllocations(old(img), img, heap.blocks, own)
    {
      hide Mapped, PageSized, Load, BSize, Allocated, Linked, Tags, SameAllocations, Tiled, Coalesced, Binned;
      ghost var blk := heap.blocks;
      BlockRegion(X);
      FreeBlockRegions();
      OthersAvoid(blk, own, X, base, End());
      SetBlockKeepsLinks(img, bins[..], heap.lists, FreeSizes(blk), X, bs, true);
      SetBlockFixesTags(img, blk, X, true, base, End());
      SetBlockKeepsAllocations(img, blk, own, X, bs, true);
      SetBlock(X, bs, false);
    }

    /** Lines 179-180: the alignment in use is a power of two of at least 16. */
    method RoundAlign(align: int) returns (a: int)
      requires align >= 0 && AlignFor(align) < WORD
      ensures a == AlignFor(align)
    {
      a := if align < ALIGN then ALIGN else align;
      AlignForIsLeastPow2(align);
      AndPredecessor(a);
      assert Pow2(4) == ALIGN;
      if And(a, a - 1) != 0 {
        var b := ALIGN;
        while b < a
          invariant b > 0 && DoubleUntil(b, align) == AlignFor(align)
          decreases a - b
        {
          b := 2 * b;
        }
        a := b;
      }
    }

    // ---- allocating ----------------------------------------------------------------

    /** A listed block is a free block whose tags are intact. */
    lemma ListedBlock(i: int, k: int)
      requires Valid() && 0 <= i < NBINS && 0 <= k < |heap.lists[i]|
      ensures var B := heap.lists[i][k];
        && B in heap.blocks && heap.blocks[B].free && Region(B, heap.blocks[B].size)
        && At(img, B) == heap.blocks[B].size && At(img, B + HDR) == Nth(heap.lists[i], k + 1)
    {
      var B := heap.lists[i][k];
      assert B in heap.lists[i];
      assert B in FreeSizes(heap.blocks);
      BlockRegion(B);
      TagOf(img, heap.blocks, -1, B);
      assert LinkOk(img, heap.lists[i], k);
    }

    /** Lines 114-117: walk the bins from the request's class upwards, each to its end. */
    method Search(need: int) returns (B: int, ghost i: int, ghost k: int)
      requires Valid() && need > 0
      ensures B != 0 ==> FirstFit(heap, need, i, k) && B == heap.lists[i][k]
      ensures B == 0 ==> forall C :: !Fits(heap.blocks, C, need)
    {
      hide Mapped, PageSized, Load, BSize, Allocated, Tags, Linked, Tiled, Coalesced, Binned, Owned, BlocksBelow;
      var bin := BinIndex(need);
      i := bin;
      B, k := 0, 0;
      while bin < NBINS
        invariant BinIndex(need) <= bin <= NBINS
        invariant forall j, C {:trigger C in heap.lists[j]} :: BinIndex(need) <= j < bin && C in heap.lists[j] ==>
                    !Fits(heap.blocks, C, need)
        invariant B == 0
      {
        B, k := WalkBin(bin, need);
        if B != 0 {
          i := bin;
          return;
        }
        bin := bin + 1;
      }
      SearchComplete(heap, base, End(), need);
    }

    /** The inner loop: the first block of one bin that fits, or null at its end. */
    method WalkBin(bin: int, need: int) returns (B: int, ghost k: int)
      requires Valid() && need > 0 && 0 <= bin < NBINS
      ensures B != 0 ==>
        && 0 <= k < |heap.lists[bin]| && B == heap.lists[bin][k] && Fits(heap.blocks, B, need)
        && (forall q :: 0 <= q < k ==> !Fits(heap.blocks, heap.lists[bin][q], need))
      ensures B == 0 ==> forall C :: C in heap.lists[bin] ==> !Fits(heap.blocks, C, need)
    {
      hide Mapped, PageSized, Load, BSize, Allocated, Tags, Linked, Tiled, Coalesced, Binned, Owned, BlocksBelow;
      HeadOfBin(bin);
      B, k := bins[bin], 0;
      while B != 0
        invariant 0 <= k <= |heap.lists[bin]| && B == Nth(heap.lists[bin], k)
        invariant forall q :: 0 <= q < k ==> !Fits(heap.blocks, heap.lists[bin][q], need)
        decreases |heap.lists[bin]| - k
      {
        ListedBlock(bin, k);
        RegionWords(B, heap.blocks[B].size);
        ReadTag(B, heap.blocks);
        var bs := BSize(B);
        if bs >= need {
          return;
        }
        B := Load(B + HDR);
        k := k + 1;
      }
      ListIsNonNull(bin, k);
    }

    lemma HeadOfBin(i: int)
      requires Valid() && 0 <= i < NBINS
      ensures bins[i] == Nth(heap.lists[i], 0)
    {
      assert bins[..][i] == Nth(heap.lists[i], 0);
    }

    lemma ListIsNonNull(i: int, k: int)
      requires Valid() && 0 <= i < NBINS && 0 <= k <= |heap.lists[i]| && Nth(heap.lists[i], k) == 0
      ensures k == |heap.lists[i]|
    {
      if k < |heap.lists[i]| { ListedBlock(i, k); }
    }

    /** Lines 118-126: unlink block B, then split it or use it whole. */
    method TakeBlock(B: int, need: int)
      requires Valid() && Fits(heap.blocks, B, need) && need >= MIN_BSIZE && need % 16 == 0
      modifies this`img, this`heap, mem, bins
      ensures Shape() && Mapped() && heap == Carve(old(heap), B, need)
      ensures Inv(heap, base, End()) && Tags(img, heap.blocks, -1) && Linked(img, bins[..], heap.lists)
      ensures OwnsAllBut(own, heap.blocks, B)
      ensures SameBlocks(old(heap.blocks), heap.blocks, own)
      ensures SameAllocations(old(img), img, heap.blocks, own)
    {
      hide Mapped, PageSized, Load, BSize, Allocated, Linked, SameAllocations, Tiled, Coalesced, Binned, Tags;
      ghost var m, h := img, heap;
      CarveKeepsInv(h, B, need, base, End());
      var bs := UnlinkBlock(B);
      ghost var m1, h1 := img, heap;
      if bs - need >= MIN_BSIZE {
        CarveInTwoSteps(h, B, need);
        SplitBlock(B, bs, need);
      } else {
        UseWhole(B, bs);
      }
      AllocationsCompose(m, m1, img, h1.blocks, heap.blocks, own);
    }

    method UnlinkBlock(B: int) returns (bs: int)
      requires Valid() && B in heap.blocks && heap.blocks[B].free
      modifies this`img, this`heap, mem, bins
      ensures bs == old(heap.blocks)[B].size >= MIN_BSIZE && bs % 16 == 0
      ensures heap == Carve(old(heap), B, bs) && Releasing(B)
      ensures SameBlocks(old(heap.blocks), heap.blocks, own)
      ensures SameAllocations(old(img), img, heap.blocks, own)
    {
      hide Mapped, PageSized, Load, BSize, Allocated, Linked, SameAllocations, Tiled, Coalesced, Binned, Tags,
        SameExceptLinks;
      ghost var m, h := img, heap;
      BlockRegion(B);
      RegionWords(B, h.blocks[B].size);
      TagOf(img, h.blocks, -1, B);
      FreeBlockRegions();
      ReadTag(B, heap.blocks);
      bs := BSize(B);
      CarveKeepsInv(h, B, bs, base, End());
      BinRemove(B, h.lists, FreeSizes(h.blocks));
      LinksKeepTags(m, img, h.blocks, base, End(), -1);
      LinksKeepAllocations(m, img, h.blocks, own, base, End());
      heap := Carve(h, B, bs);
      NoBlockBelow(h.blocks, base, End(), -1);
      TagsOfTaken(img, h.blocks, B, bs);
      AllocationsCompose(m, img, img, h.blocks, heap.blocks, own);
    }

    method UseWhole(B: int, bs: int)
      requires Releasing(B) && bs == heap.blocks[B].size
      modifies this`img, mem
      ensures Shape() && Mapped()
      ensures Tags(img, heap.blocks, -1) && Linked(img, bins[..], heap.lists)
      ensures SameAllocations(old(img), img, heap.blocks, own)
    {
      hide Mapped, PageSized, Load, BSize, Allocated, Linked, SameAllocations, Tiled, Coalesced, Binned, Tags;
      BlockRegion(B);
      OthersAvoid(heap.blocks, own, B, base, End());
      SetBlockKeepsLinks(img, bins[..], heap.lists, FreeSizes(heap.blocks), B, bs, false);
      SetBlockFixesTags(img, heap.blocks, B, false, base, End());
      SetBlockKeepsAllocations(img, heap.blocks, own, B, bs, false);
      assert heap.blocks[B := Block(bs, false)] == heap.blocks;
      SetBlock(B, bs, true);
    }

    method SplitBlock(B: int, bs: int, need: int)
      requires Releasing(B) && bs == heap.blocks[B].size && MIN_BSIZE <= need && need % 16 == 0
      requires bs - need >= MIN_BSIZE && bs % 16 == 0
      requires Inv(SplitHeap(heap, B, need), base, End())
      modifies this`img, this`heap, mem, bins
      ensures Shape() && Mapped() && heap == SplitHeap(old(heap), B, need)
      ensures Tags(img, heap.blocks, -1) && Linked(img, bins[..], heap.lists)
      ensures SameBlocks(old(heap.blocks), heap.blocks, own)
      ensures SameAllocations(old(img), img, heap.blocks, own)
    {
      hide Mapped, PageSized, Load, BSize, Allocated, Linked, SameAllocations, Tiled, Coalesced, Binned, Tags;
      ghost var m, h := img, heap;
      ghost var sizes := FreeSizes(h.blocks);
      var R := B + need;
      WriteSplitTags(B, bs, need);
      ghost var m2 := img;
      heap := SplitHeap(h, B, need);
      RemainderIsNew(h.blocks, B, R, base, End());
      BlockRegion(R);
      RegionWords(R, bs - need);
      NoBlockBelow(heap.blocks, base, End(), -1);
      TagOf(img, heap.blocks, -1, R);
      ReadTag(R, heap.blocks);
      BinInsert(R, bs - need, h.lists, sizes);
      assert FreeSizes(heap.blocks) == sizes[R := bs - need];
      LinksKeepTags(m2, img, heap.blocks, base, End(), -1);
      LinksKeepAllocations(m2, img, heap.blocks, own, base, End());
      AllocationsCompose(m, m2, img, h.blocks, heap.blocks, own);
    }

    /** Lines 120-122: tag the two halves. */
    method WriteSplitTags(B: int, bs: int, need: int)
      requires Releasing(B) && bs == heap.blocks[B].size && MIN_BSIZE <= need && need % 16 == 0
      requires bs - need >= MIN_BSIZE && bs % 16 == 0
      modifies this`img, mem
      ensures Mapped()
      ensures Tags(img, SplitHeap(heap, B, need).blocks, -1) && Linked(img, bins[..], heap.lists)
      ensures FreeRegions(FreeSizes(heap.blocks))
      ensures SameAllocations(old(img), img, heap.blocks, own)
    {
      hide Mapped, PageSized, Load, BSize, Allocated, Linked, SameAllocations, Tiled, Coalesced, Binned, Tags,
        Enlist, HeaderWord;
      ghost var m, blk := img, heap.blocks;
      BlockRegion(B);
      SixteenSums(B, need);
      SixteenSums(bs, need);
      FreeBlockRegions();
      OthersAvoid(blk, own, B, base, End());
      SplitFixesTags(m, blk, B, need, base, End());
      ghost var m1 := SetBlockMem(m, B, need, false);
      SetBlockKeepsLinks(m, bins[..], heap.lists, FreeSizes(blk), B, need, false);
      SetBlockKeepsLinks(m1, bins[..], heap.lists, FreeSizes(blk), B + need, bs - need, true);
      SetBlockKeepsAllocations(m, blk, own, B, need, false);
      SetBlockKeepsAllocations(m1, blk, own, B + need, bs - need, true);
      SetBlock(B, need, true);
      SetBlock(B + need, bs - need, false);
      AllocationsCompose(m, m1, img, blk, blk, own);
    }

    /** block_alloc: the first fitting block in search order, or null when none fits. */
    method BlockAlloc(need: int) returns (B: int, ghost i: int, ghost k: int)
      requires Valid() && need >= MIN_BSIZE && need % 16 == 0
      modifies this`img, this`heap, this`high, mem, bins
      ensures B == 0 <==>
        forall C :: C in old(heap.blocks) && old(heap.blocks)[C].free ==> old(heap.blocks)[C].size < need
      ensures B == 0 ==> Valid() && heap == old(heap) && img == old(img) && high == old(high)
      ensures B != 0 ==>
        && FirstFit(old(heap), need, i, k) && B == old(heap).lists[i][k] && B > 0
        && heap == Carve(old(heap), B, need) && Taken(old(heap.blocks), B, need, heap.blocks)
        && (forall C :: C in old(heap.blocks) && old(heap.blocks)[C].free && old(heap.blocks)[C].size >= need ==>
              BinIndex(old(heap.blocks)[B].size) <= BinIndex(old(heap.blocks)[C].size))
        && Shape() && Mapped() && Inv(heap, base, End())
        && Tags(img, heap.blocks, -1) && Linked(img, bins[..], heap.lists)
        && OwnsAllBut(own, heap.blocks, B) && HighBounds()
        && SameBlocks(old(heap.blocks), heap.blocks, own)
        && SameAllocations(old(img), img, heap.blocks, own)
      ensures B != 0 ==>
        var end := B - base + heap.blocks[B].size;
        high == if end > old(high) then end else old(high)
    {
      hide Mapped, PageSized, Load, BSize, Allocated, Linked, SameAllocations, Tiled, Coalesced, Binned, Tags,
        OwnsAllBut;
      ghost var blk0, high0 := heap.blocks, high;
      B, i, k := Search(need);
      if B == 0 {
        assert forall C :: C in heap.blocks && heap.blocks[C].free ==> !Fits(heap.blocks, C, need);
        return;
      }
      ListedBlock(i, k);
      CarveTakes(heap, B, need);
      LeastClass(need, i, k);
      TakeBlock(B, need);
      BlockRegion(B);
      RegionWords(B, heap.blocks[B].size);
      NoBlockBelow(heap.blocks, base, End(), -1);
      TagOf(img, heap.blocks, -1, B);
      ReadTag(B, heap.blocks);
      var end := B - base + BSize(B);
      if end > high {
        high := end;
      }
      HighStillBounds(own, blk0, base + high0);
    }

    lemma LeastClass(need: int, i: int, k: int)
      requires Valid() && need > 0 && FirstFit(heap, need, i, k)
      ensures heap.lists[i][k] in heap.blocks && heap.blocks[heap.lists[i][k]].size > 0
      ensures forall C :: C in heap.blocks && heap.blocks[C].free && heap.blocks[C].size >= need ==>
                BinIndex(heap.blocks[heap.lists[i][k]].size) <= BinIndex(heap.blocks[C].size)
    {
      hide Mapped, PageSized, Tags, Linked, Tiled, Coalesced, Binned, Owned, BlocksBelow, BinIndex;
      assert Fits(heap.blocks, heap.lists[i][k], need);
      forall C | C in heap.blocks && heap.blocks[C].free && heap.blocks[C].size >= need
        ensures BinIndex(heap.blocks[heap.lists[i][k]].size) <= BinIndex(heap.blocks[C].size)
      {
        FirstFitLeastClass(heap, base, End(), need, i, k, C);
      }
    }

    // ---- public operations ---------------------------------------------------------

    /** Bytes from the pointer of block B to the block's footer. */
    ghost function Usable(B: int): int
      requires B in own && B in heap.blocks
      reads this`own, this`heap
    {
      B + heap.blocks[B].size - FTR - own[B]
    }

    /** px_pool_alloc. */
    method Alloc(size: int, align: int) returns (p: int, ghost B: int, ghost i: int, ghost k: int)
      requires Valid() && Representable(size, align)
      modifies this`img, this`heap, this`own, this`high, mem, bins
      ensures Valid()
      ensures var need := RequestBytes(size, align); var x := (if size == 0 then 1 else size) + AlignFor(align) + 24;
        && need % 16 == 0 && x <= need < x + 16
        && (p == 0 <==>
              forall C :: C in old(heap.blocks) && old(heap.blocks)[C].free ==> old(heap.blocks)[C].size < need)
        && (p != 0 ==> Taken(old(heap.blocks), B, need, heap.blocks))
        && (p != 0 ==>
              forall C :: C in old(heap.blocks) && old(heap.blocks)[C].free && old(heap.blocks)[C].size >= need ==>
                BinIndex(old(heap.blocks)[B].size) <= BinIndex(old(heap.blocks)[C].size))
      ensures p != 0 ==>
        var end := B - base + heap.blocks[B].size;
        high == if end > old(high) then end else old(high)
      ensures p != 0 ==> p % AlignFor(align) == 0 && B + 16 <= p < B + 16 + AlignFor(align)
      ensures p != 0 ==> forall q :: q % AlignFor(align) == 0 && q >= B + 16 ==> p <= q
      ensures p != 0 && align <= 16 ==> p == B + 16 && Usable(B) == heap.blocks[B].size - 24
      ensures p == 0 ==> heap == old(heap) && img == old(img) && own == old(own) && high == old(high)
      ensures p != 0 ==>
        && var need := RequestBytes(size, align);
        && need > 0 && FirstFit(old(heap), need, i, k) && B == old(heap).lists[i][k]
        && B in old(heap).blocks && heap == Carve(old(heap), B, need)
        && B !in old(own) && own == old(own)[B := p]
        && p % AlignFor(align) == 0 && Usable(B) >= NonZero(size)
        && SameBlocks(old(heap.blocks), heap.blocks, old(own))
        && SameAllocations(old(img), img, heap.blocks, old(own))
      ensures var g := Granted(old(heap), size, align); p == g.ptr && heap == g.heap && (p != 0 ==> B == g.block)
    {
      hide Mapped, PageSized, Load, BSize, Allocated, Linked, SameAllocations, Tiled, Coalesced, Binned, Tags, Carve,
        SameBlocks, HighBounds, FirstFitting, Granted, PayloadStart;
      ghost var m0, blk0, own0 := img, heap.blocks, own;
      var a := RoundAlign(align);
      var sz := if size == 0 then 1 else size;
      AlignForIsLeastPow2(align);
      NeedWithoutWrap(sz, a);
      RequestIsLeast(size, align);
      B, i, k := 0, 0, 0;
      var block;
      block, i, k := BlockAlloc(NeedBytes(sz, a));
      if block == 0 {
        NothingGranted(heap, size, align);
        return 0, 0, i, k;
      }
      B := block;
      GrantedIs(old(heap), size, align, i, k);
      assert Fits(blk0, B, RequestBytes(size, align));
      CarvedSize(old(heap), B, NeedBytes(sz, a));
      p := PublishPointer(block, sz, a, m0, blk0);
    }

    /** Lines 190-192: align the pointer and store the block's address before it. */
    method PublishPointer(B: int, size: int, a: int, ghost m0: Mem, ghost blk0: Blocks) returns (p: int)
      requires Shape() && Mapped() && PageSized() && Inv(heap, base, End())
      requires Tags(img, heap.blocks, -1) && Linked(img, bins[..], heap.lists)
      requires B in heap.blocks && !heap.blocks[B].free && OwnsAllBut(own, heap.blocks, B)
      requires Owned(m0, blk0, own) && SameBlocks(blk0, heap.blocks, own)
      requires SameAllocations(m0, img, heap.blocks, own)
      requires HighBounds() && B - base + heap.blocks[B].size <= high
      requires ALIGN <= a < WORD && IsPow2(a) && size >= 1 && heap.blocks[B].size >= size + a + HDR + PTR + FTR
      modifies this`img, this`own, mem
      ensures Valid() && own == old(own)[B := p]
      ensures B > 0 && p == PayloadStart(B, a) != 0 && p % a == 0 && Usable(B) >= size
      ensures B + 16 <= p < B + 16 + a && (a == 16 ==> p == B + 16)
      ensures forall q :: q % a == 0 && q >= B + 16 ==> p <= q
      ensures SameAllocations(m0, img, heap.blocks, old(own))
    {
      hide Mapped, PageSized, Load, BSize, Allocated, Linked, SameAllocations, Tiled, Coalesced, Binned, Tags,
        SameBlocks;
      ghost var m1, own1 := img, own;
      BlockRegion(B);
      PayloadFits(B, a, size, heap.blocks[B].size);
      PayloadIsFirst(B, a);
      p := PayloadStart(B, a);
      SixteensAreEights(p, 0);
      PayloadWrite(img, bins[..], heap, own, B, p - PTR, B, base, End());
      Store(p - PTR, B);
      AllocationsCompose(m0, m1, img, heap.blocks, heap.blocks, own);
      OwnedAfterAlloc(m0, img, heap.blocks, blk0, own, B, p);
      own := own[B := p];
    }

    lemma CarvedSize(h: Heap, B: int, need: int)
      requires B in h.blocks && |h.lists| == NBINS && h.blocks[B].size >= need > 0
      ensures var blk := Carve(h, B, need).blocks;
        B in blk && !blk[B].free && blk[B].size >= need
    {
    }

    lemma OwnedAreBlocks()
      requires Valid()
      ensures forall B {:trigger B in own} :: B in own ==> B in heap.blocks
    {
      hide Mapped, PageSized, Linked, Tiled, Coalesced, Binned, Tags, HighBounds;
    }

    /** Lines 164-169: one header and its footer. */
    method CheckBlock(off: int) returns (r: CheckResult, next: int)
      requires Shape() && Mapped() && base % 16 == 0 && res % 16 == 0 && 0 <= off < res && off % 16 == 0
      ensures r == Consistent ==> Step(img, base, res, off, next) && 0 < next <= res && next % 16 == 0
      ensures r != Consistent ==> forall n :: !Step(img, base, res, off, n)
      ensures r == OutOfRange <==> WrapsToStart(img, base, off)
    {
      hide Mapped, PageSized, Load, Step, WrapAdd, SizeOf, At;
      var B := base + off;
      SixteensAreEights(B, 0);
      var bs := SizeOf(Load(B));
      next := WrapAdd(off, bs);
      if bs < MIN_BSIZE || bs % 16 != 0 || next > res {
        NoStep(img, base, res, off);
        return Corrupt, next;
      }
      if next == 0 {
        NoStep(img, base, res, off);
        return OutOfRange, next;
      }
      StepStaysAligned(off, bs, next);
      SixteensAreEights(base, next);
      if Load(base + next - FTR) != bs {
        NoStep(img, base, res, off);
        return Corrupt, next;
      }
      StepIntro(img, base, res, off, next);
      r := Consistent;
    }

    lemma MappedWords()
      requires Shape() && Mapped()
      ensures Words64(img, base, res)
    {
      forall a {:trigger At(img, a)} | base <= a < base + res && a % 8 == 0 ensures 0 <= At(img, a) < WORD {
        var i := (a - base) / 8;
        assert a == base + 8 * i;
        assert At(img, base + 8 * i) == mem[i];
      }
    }

    /** px_pool_check: walk headers and footers from the start of the reservation. Requires
        nothing of the contents. The walk always ends; it ends with OutOfRange exactly when
        the header at its last offset leads back to 0. It decides whether a tiling exists as
        long as no step wraps, which small words rule out. */
    method CheckLocked() returns (r: CheckResult, ghost path: seq<int>)
      requires Shape() && Mapped() && base % 16 == 0 && res % 16 == 0
      ensures IsWalk(img, base, res, path) && |path| > 0
      ensures r == Consistent <==> path[|path| - 1] == res
      ensures r == Consistent <==> exists q :: Reaches(img, base, res, q)
      ensures r == OutOfRange <==> path[|path| - 1] < res && WrapsToStart(img, base, path[|path| - 1])
      ensures r == Consistent ==> (TilingExists(img, base, res) <==> Ascending(path))
      ensures TilingExists(img, base, res) ==> r == Consistent
      ensures WordsUpTo(img, base, res, WORD - res) ==> (r == Consistent <==> TilingExists(img, base, res))
    {
      hide Mapped, PageSized, Load, Step, IsWalk, Reaches, Distinct, WrapsToStart, TilingExists, Ascending, WordsUpTo;
      MappedWords();
      TilingsAreWalked(img, base, res);
      WalkStarts(img, base, res);
      var off := 0;
      path := [0];
      ghost var universe := Offsets(res);
      ghost var seen := {0};
      while off < res
        invariant 0 <= off <= res && off % 16 == 0
        invariant IsWalk(img, base, res, path) && |path| > 0 && path[|path| - 1] == off && Distinct(path)
        invariant seen <= universe && forall o :: o in path <==> o in seen
        decreases universe - seen
      {
        var next;
        r, next := CheckBlock(off);
        if r != Consistent {
          StuckWalk(img, base, res, path, off);
          return;
        }
        WalkNeverRepeats(img, base, res, path, next);
        path := Extend(img, base, res, path, next);
        seen := seen + {next};
        off := next;
      }
      r := Consistent;
      WalkEnds(img, base, res, path);
      CheckDecidesTiling(img, base, res, path);
      if WordsUpTo(img, base, res, WORD - res) {
        SmallHeadersAscend(img, base, res, path);
      }
    }

    /** px_pool_check on a pool in use. */
    method Check() returns (r: CheckResult)
      requires Valid()
      ensures r == Consistent
    {
      hide Mapped, Linked, Tiled, Coalesced, Binned, Tags, HighBounds, Owned, IsWalk;
      PageAligned(base);
      PageAligned(res);
      ghost var q := TilingIsWalked(img, heap.blocks, base, res);
      ghost var path;
      r, path := CheckLocked();
    }

    /** When nothing is allocated the reservation is one free block again. */
    lemma NothingLive()
      requires Valid() && own == map[]
      ensures heap.blocks == map[base := Block(res, true)]
    {
      hide Mapped, PageSized, Linked, Binned, Tags, HighBounds, Tiled, Coalesced;
      forall B | B in heap.blocks ensures heap.blocks[B].free {
        assert B !in own;
      }
      AllFreeIsOneBlock(heap, base, End());
    }

    /** The back-pointer word of a live pointer, and the first address after its payload. */
    lemma LivePointer(B: int)
      requires Valid() && B in own
      ensures var p := own[B];
        && p != 0 && WordAt(p) && WordAt(p - PTR) && At(img, p - PTR) == B
        && B in heap.blocks && !heap.blocks[B].free && Region(B, heap.blocks[B].size) && WordAt(B)
        && At(img, B) == HeaderWord(heap.blocks[B])
        && Usable(B) > 0 && Usable(B) % 8 == 0 && p + Usable(B) < End()
        && B + HDR + PTR <= p
    {
      hide Mapped, PageSized, Linked, Tiled, Coalesced, Binned, Tags, HighBounds;
      BlockRegion(B);
      RegionWords(B, heap.blocks[B].size);
      NoBlockBelow(heap.blocks, base, End(), -1);
      TagOf(img, heap.blocks, -1, B);
      PointerArithmetic(B, heap.blocks[B].size, own[B]);
    }

    /** px_pool_free. B names the block that a non-null pointer came from. */
    method Free(ptr: int, ghost B: int)
      requires Valid() && (ptr != 0 ==> B in own && own[B] == ptr)
      modifies this`img, this`heap, this`own, mem, bins
      ensures Valid()
      ensures ptr == 0 ==> heap == old(heap) && img == old(img) && own == old(own)
      ensures ptr != 0 ==>
        && own == old(own) - {B} && heap == FreedHeap(old(heap), B)
        && (exists S :: B in old(heap).blocks && ReleasedFrom(old(heap), B, S, heap))
      ensures SameBlocks(old(heap.blocks), heap.blocks, own)
      ensures SameAllocations(old(img), img, heap.blocks, own)
    {
      hide Mapped, PageSized, Load, Linked, Tiled, Coalesced, Binned, Tags;
      if ptr == 0 {
        return;
      }
      LivePointer(B);
      ghost var h := heap;
      var block := Load(ptr - PTR);
      BlockFree(block);
      FreedIs(h, B, heap, base, End());
    }

    /** px_pool_usable_size. */
    method UsableSize(ptr: int, ghost B: int) returns (n: int)
      requires Valid() && (ptr != 0 ==> B in own && own[B] == ptr)
      ensures ptr == 0 ==> n == 0
      ensures ptr != 0 ==> n == Usable(B) && ptr + n == B + heap.blocks[B].size - 8
    {
      hide Mapped, PageSized, Load, BSize, Linked, Tiled, Coalesced, Binned, Tags;
      if ptr == 0 {
        return 0;
      }
      LivePointer(B);
      var block := Load(ptr - PTR);
      ReadTag(block, heap.blocks);
      var end := block + BSize(block) - FTR;
      n := end - ptr;
    }

    /** The client stores word w at the i-th word of its payload. */
    method UserWrite(ghost B: int, p: int, i: int, w: Word)
      requires Valid() && B in own && own[B] == p && 0 <= 8 * i < Usable(B)
      modifies this`img, mem
      ensures Valid() && img == old(img)[p + 8 * i := w]
      ensures SameAllocations(old(img), img, heap.blocks, own - {B})
    {
      hide Mapped, PageSized, Load, Linked, SameAllocations, Tiled, Coalesced, Binned, Tags, Owned, HighBounds;
      ghost var m := img;
      LivePointer(B);
      OwnsWithout(img, heap.blocks, own, B);
      WordInside(p, i);
      PayloadWrite(img, bins[..], heap, own - {B}, B, p + 8 * i, w, base, End());
      Store(p + 8 * i, w);
      OwnedAfterWrite(m, img, heap.blocks, own, B);
    }

    /** The client reads back the i-th word of its payload. */
    method UserRead(ghost B: int, p: int, i: int) returns (w: Word)
      requires Valid() && B in own && own[B] == p && 0 <= 8 * i < Usable(B)
      ensures w == At(img, p + 8 * i)
    {
      hide Mapped, PageSized, Load, Linked, Tiled, Coalesced, Binned, Tags, Owned, HighBounds;
      LivePointer(B);
      WordInside(p, i);
      w := Load(p + 8 * i);
    }

    /** memcpy of n bytes between two live payloads. */
    method CopyPayload(ghost B: int, dst: int, ghost C: int, src: int, n: int)
      requires Valid() && B in own && own[B] == dst && C in own && own[C] == src && B != C
      requires 0 <= n <= Usable(B) && n <= Usable(C) && n % 8 == 0
      modifies this`img, mem
      ensures Valid()
      ensures forall j :: 0 <= 8 * j < n ==> At(img, dst + 8 * j) == old(At(img, src + 8 * j))
      ensures SameAllocations(old(img), img, heap.blocks, own - {B})
    {
      hide Mapped, PageSized, Linked, Tiled, Coalesced, Binned, Tags, HighBounds;
      ghost var m := img;
      for i := 0 to n / 8
        invariant Valid()
        invariant forall j :: 0 <= j < i ==> At(img, dst + 8 * j) == At(m, src + 8 * j)
        invariant SameAllocations(m, img, heap.blocks, own - {B})
      {
        LivePointer(C);
        assert InAllocation(src + 8 * i, C, heap.blocks, own - {B});
        var w := UserRead(C, src, i);
        UserWrite(B, dst, i, w);
      }
    }

    /** Lines 218-222: move the payload to a larger block. */
    method Grow(ptr: int, newSize: int, oldSize: int, ghost C: int) returns (np: int, ghost B: int)
      requires Valid() && Representable(newSize, ALIGN) && C in own && own[C] == ptr
      requires oldSize == Usable(C) < newSize
      modifies this`img, this`heap, this`own, this`high, mem, bins
      ensures Valid()
      ensures np == 0 ==> own == old(own) && heap == old(heap) && img == old(img)
      ensures var g := Granted(old(heap), newSize, ALIGN);
        np == g.ptr && (np != 0 ==> B == g.block && heap == FreedHeap(g.heap, C))
      ensures var need := RequestBytes(newSize, 16);
        && need % 16 == 0 && newSize + 40 <= need < newSize + 56
        && (np == 0 <==>
              forall D :: D in old(heap.blocks) && old(heap.blocks)[D].free ==> old(heap.blocks)[D].size < need)
        && (np != 0 ==> np == B + 16)
      ensures np != 0 ==>
        && B !in old(own) && own == (old(own) - {C})[B := np] && Usable(B) >= newSize
        && (forall j :: 0 <= 8 * j < oldSize ==> At(img, np + 8 * j) == old(At(img, ptr + 8 * j)))
        && SameBlocks(old(heap.blocks), heap.blocks, old(own) - {C})
        && SameAllocations(old(img), img, heap.blocks, old(own) - {C})
    {
      hide Mapped, PageSized, Linked, Tiled, Coalesced, Binned, Tags, HighBounds, Carve, FirstFit, ReleasedFrom, Owned,
        SameBlocks, SameAllocations, FirstFitting, FreedHeap, Granted;
      ghost var m0, blk0, own0 := img, heap.blocks, own;
      OwnedAreBlocks();
      LivePointer(C);
      ghost var i, k;
      np, B, i, k := Alloc(newSize, ALIGN);
      if np == 0 {
        return;
      }
      ghost var m1, blk1 := img, heap.blocks;
      OwnedAreBlocks();
      KeptBlock(blk0, blk1, own0, C);
      assert forall D :: D in own0 ==> D in own;
      PayloadWords(m0, m1, blk1, own0, C, ptr, oldSize);
      CopyPayload(B, np, C, ptr, oldSize);
      ghost var m2 := img;
      Free(ptr, C);
      OwnedAreBlocks();
      assert own == (own0 - {C})[B := np];
      KeptBlock(blk1, heap.blocks, own, B);
      PayloadWords(m2, img, heap.blocks, own, B, np, oldSize);
      MovedAllocations(m0, m1, m2, img, blk0, blk1, heap.blocks, own0, own0 - {C}, B, np);
    }

    lemma NothingMoved(m: Mem, blk: Blocks, kept: map<int, int>)
      requires forall D :: D in kept ==> D in blk
      ensures SameBlocks(blk, blk, kept) && SameAllocations(m, m, blk, kept)
    {
    }

    lemma DefaultAlignment()
      ensures AlignFor(ALIGN) == 16
    {
    }

    /** px_pool_realloc of block C's pointer. On success B is the block of the result. */
    method Realloc(ptr: int, newSize: int, ghost C: int) returns (np: int, ghost B: int)
      requires Valid() && Representable(newSize, ALIGN) && (ptr != 0 ==> C in own && own[C] == ptr)
      modifies this`img, this`heap, this`own, this`high, mem, bins
      ensures Valid()
      ensures ptr != 0 && newSize == 0 ==> np == 0 && own == old(own) - {C} && heap == FreedHeap(old(heap), C)
      ensures np == 0 && (ptr == 0 || newSize > 0) ==>
        own == old(own) && heap == old(heap) && img == old(img)
      ensures ptr != 0 && 0 < newSize <= old(Usable(C)) ==> np == ptr
      ensures np != 0 ==> B in own && own[B] == np && Usable(B) >= newSize
      ensures np != 0 && ptr == 0 ==> B !in old(own) && own == old(own)[B := np]
      ensures var g := Granted(old(heap), newSize, ALIGN);
        && (ptr == 0 ==> np == g.ptr && heap == g.heap)
        && (ptr != 0 && newSize > 0 && newSize > old(Usable(C)) ==>
              np == g.ptr && (np != 0 ==> B == g.block && heap == FreedHeap(g.heap, C)))
      ensures np != 0 && ptr != 0 ==>
        && newSize > 0
        && own == (old(own) - {C})[B := np]
        && (if newSize <= old(Usable(C)) then B == C && np == ptr && img == old(img) && heap == old(heap)
            else B !in old(own))
        && (forall j :: 0 <= 8 * j < Min(old(Usable(C)), newSize) ==> At(img, np + 8 * j) == old(At(img, ptr + 8 * j)))
      ensures ptr == 0 || (newSize > 0 && newSize > old(Usable(C))) ==>
        var need := RequestBytes(newSize, 16); var x := if newSize == 0 then 41 else newSize + 40;
        && need % 16 == 0 && x <= need < x + 16
        && (np == 0 <==>
              forall D :: D in old(heap.blocks) && old(heap.blocks)[D].free ==> old(heap.blocks)[D].size < need)
        && (np != 0 ==> np == B + 16)
      ensures SameBlocks(old(heap.blocks), heap.blocks, Others(old(own), ptr, C))
      ensures SameAllocations(old(img), img, heap.blocks, Others(old(own), ptr, C))
    {
      hide Mapped, PageSized, Linked, Tiled, Coalesced, Binned, Tags, HighBounds, FreedHeap, Granted, Carve, FirstFit,
        SameBlocks, SameAllocations, Taken, BinIndex, RequestBytes, Owned, AlignFor, BlocksBelow;
      B := C;
      OwnedAreBlocks();
      NothingMoved(img, heap.blocks, Others(own, ptr, C));
      if ptr == 0 {
        ghost var i, k;
        DefaultAlignment();
        np, B, i, k := Alloc(newSize, ALIGN);
        return;
      }
      if newSize == 0 {
        Free(ptr, C);
        return 0, B;
      }
      var usable := UsableSize(ptr, C);
      if newSize <= usable {
        return ptr, C;
      }
      np, B := Grow(ptr, newSize, usable, C);
    }
  }

  function Min(a: int, b: int): int {
    if a < b then a else b
  }

  /** The allocations other than the one being resized. */
  function Others(own: map<int, int>, ptr: int, C: int): map<int, int> {
    if ptr == 0 then own else own - {C}
  }
}
