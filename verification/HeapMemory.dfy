/** How the bytes of the reservation encode a Heap: boundary tags, intrusive free-list
    links and back-pointers. Memory is a map from 8-aligned addresses to words. */
module HeapMemory {
  import opened HeapModel

  type Mem = map<int, int>

  function At(m: Mem, a: int): int {
    if a in m then m[a] else 0
  }

  // ---- boundary tags ---------------------------------------------------------------

  function HeaderWord(b: Block): int {
    b.size + if b.free then 0 else 1
  }

  ghost predicate TagOk(m: Mem, blk: Blocks, B: int)
    requires B in blk
  {
    At(m, B) == HeaderWord(blk[B]) && At(m, B + blk[B].size - FTR) == blk[B].size
  }

  /** Header and footer of every block except `stale` record its size and its flag. */
  ghost predicate Tags(m: Mem, blk: Blocks, stale: int) {
    forall B {:trigger IsBlock(blk, B)} :: IsBlock(blk, B) && B != stale ==> TagOk(m, blk, B)
  }

  lemma TagOf(m: Mem, blk: Blocks, stale: int, B: int)
    requires Tags(m, blk, stale) && B in blk && B != stale
    ensures TagOk(m, blk, B)
  {
    assert IsBlock(blk, B);
  }

  lemma TagsExcept(m: Mem, blk: Blocks, B: int)
    requires Tags(m, blk, -1) && -1 !in blk
    ensures Tags(m, blk, B)
  {
  }

  lemma TagsOfTaken(m: Mem, blk: Blocks, B: int, size: int)
    requires Tags(m, blk, -1) && -1 !in blk
    ensures Tags(m, blk[B := Block(size, false)], B)
  {
    var blk' := blk[B := Block(size, false)];
    forall C {:trigger IsBlock(blk', C)} | IsBlock(blk', C) && C != B ensures TagOk(m, blk', C) {
      assert IsBlock(blk, C) && TagOk(m, blk, C);
    }
  }

  // ---- free-list links -------------------------------------------------------------

  function Nth(l: seq<int>, k: int): int {
    if 0 <= k < |l| then l[k] else 0
  }

  ghost predicate LinkOk(m: Mem, l: seq<int>, k: int)
    requires 0 <= k < |l|
  {
    At(m, l[k] + HDR) == Nth(l, k + 1) && At(m, l[k] + HDR + PTR) == Nth(l, k - 1)
  }

  ghost predicate ListLinked(m: Mem, l: seq<int>) {
    forall k {:trigger LinkOk(m, l, k)} :: 0 <= k < |l| ==> LinkOk(m, l, k)
  }

  /** Every bin head and every next/prev word spells out the lists. */
  ghost predicate Linked(m: Mem, bins: seq<int>, lists: Lists) {
    && |bins| == |lists| == NBINS
    && (forall i {:trigger bins[i]} {:trigger lists[i]} :: 0 <= i < NBINS ==>
          bins[i] == Nth(lists[i], 0) && ListLinked(m, lists[i]))
  }

  lemma HeadIsListed(m: Mem, bins: seq<int>, lists: Lists, sizes: map<int, int>, i: int)
    requires Linked(m, bins, lists) && Binned(lists, sizes) && 0 <= i < NBINS
    ensures |bins| == NBINS && (bins[i] != 0 ==> bins[i] in sizes)
  {
    assert bins[i] == Nth(lists[i], 0);
    if lists[i] != [] { assert lists[i][0] in lists[i]; }
  }

  ghost predicate Aligned(sizes: map<int, int>) {
    forall B :: B in sizes ==> B > 0 && B % 16 == 0
  }

  /** a is a link word of one of the blocks in `sizes`. */
  ghost predicate IsLinkWord(a: int, sizes: map<int, int>) {
    a - HDR in sizes || a - HDR - PTR in sizes
  }

  ghost predicate SameExceptLinks(m: Mem, m': Mem, sizes: map<int, int>) {
    forall a {:trigger At(m', a)} :: !IsLinkWord(a, sizes) ==> At(m', a) == At(m, a)
  }

  /** The writes of bin_insert(B), bin i. */
  function InsertMem(m: Mem, bins: seq<int>, i: int, B: int): Mem
    requires 0 <= i < |bins|
  {
    var m1 := m[B + HDR + PTR := 0][B + HDR := bins[i]];
    if bins[i] != 0 then m1[bins[i] + HDR + PTR := B] else m1
  }

  lemma InsertTouchesLinks(m: Mem, bins: seq<int>, lists: Lists, sizes: map<int, int>, B: int, size: int)
    requires Binned(lists, sizes) && Linked(m, bins, lists) && size > 0
    ensures SameExceptLinks(m, InsertMem(m, bins, BinIndex(size), B), sizes[B := size])
  {
    hide BinIndex;
    var i := BinIndex(size);
    assert bins[i] == Nth(lists[i], 0);
    assert lists[i] != [] ==> lists[i][0] in lists[i];
  }

  lemma InsertLinked(m: Mem, bins: seq<int>, lists: Lists, sizes: map<int, int>, B: int, size: int)
    requires Binned(lists, sizes) && Aligned(sizes) && Linked(m, bins, lists)
    requires B !in sizes && B > 0 && B % 16 == 0 && size > 0
    ensures var i := BinIndex(size); var m' := InsertMem(m, bins, i, B);
      && Linked(m', bins[i := B], Enlist(lists, B, size))
      && SameExceptLinks(m, m', sizes[B := size])
  {
    hide BinIndex, SameExceptLinks;
    var i := BinIndex(size);
    var m', lists' := InsertMem(m, bins, i, B), Enlist(lists, B, size);
    assert lists[i] != [] ==> lists[i][0] in lists[i];
    InsertTouchesLinks(m, bins, lists, sizes, B, size);
    forall j | 0 <= j < NBINS ensures ListLinked(m', lists'[j]) {
      var l, l' := lists[j], lists'[j];
      assert bins[j] == Nth(l, 0);
      forall k | 0 <= k < |l'| ensures LinkOk(m', l', k) {
        if j == i {
          if k > 0 { assert LinkOk(m, l, k - 1); assert l[k - 1] in l; }
        } else {
          assert LinkOk(m, l, k);
          assert l[k] in l;
        }
      }
    }
  }

  /** The writes of bin_remove for a block with neighbours p and n. */
  function RemoveMem(m: Mem, p: int, n: int): Mem {
    var m1 := if p != 0 then m[p + HDR := n] else m;
    if n != 0 then m1[n + HDR + PTR := p] else m1
  }

  lemma RemoveLinked(m: Mem, bins: seq<int>, lists: Lists, sizes: map<int, int>, B: int)
    requires Binned(lists, sizes) && Aligned(sizes) && Linked(m, bins, lists) && B in sizes
    ensures var i := BinIndex(sizes[B]); var p := At(m, B + HDR + PTR); var n := At(m, B + HDR);
      var m' := RemoveMem(m, p, n);
      && Linked(m', if p != 0 then bins else bins[i := n], Unlist(lists, B, sizes[B]))
      && SameExceptLinks(m, m', sizes)
      && (p != 0 ==> p in sizes) && (n != 0 ==> n in sizes)
  {
    hide BinIndex, IndexOf, SameExceptLinks, RemoveMem, LinkOk;
    var i := BinIndex(sizes[B]);
    var l := lists[i];
    var k := IndexOf(l, B);
    var p, n := Nth(l, k - 1), Nth(l, k + 1);
    Neighbours(m, bins, lists, sizes, B);
    var m', lists' := RemoveMem(m, p, n), Unlist(lists, B, sizes[B]);
    var bins' := if p != 0 then bins else bins[i := n];
    forall j | 0 <= j < NBINS ensures bins'[j] == Nth(lists'[j], 0) && ListLinked(m', lists'[j]) {
      assert bins[j] == Nth(lists[j], 0);
      if j == i {
        assert forall q :: 0 <= q < |l| ==> l[q] in l;
        RemoveRelinks(m, l, k);
      } else {
        OtherListKept(m, lists, sizes, i, j, p, n);
      }
    }
    RemoveTouchesLinks(m, p, n, sizes);
  }

  /** The link words of a listed block name its neighbours in the list. */
  lemma Neighbours(m: Mem, bins: seq<int>, lists: Lists, sizes: map<int, int>, B: int)
    requires Binned(lists, sizes) && Aligned(sizes) && Linked(m, bins, lists) && B in sizes
    ensures var l := lists[BinIndex(sizes[B])]; var k := IndexOf(l, B);
      var p := At(m, B + HDR + PTR); var n := At(m, B + HDR);
      && p == Nth(l, k - 1) && n == Nth(l, k + 1)
      && (p == 0 <==> k == 0)
      && (p != 0 ==> p in l && p in sizes) && (n != 0 ==> n in l && n in sizes)
  {
    var l := lists[BinIndex(sizes[B])];
    var k := IndexOf(l, B);
    assert LinkOk(m, l, k);
    if k > 0 { assert l[k - 1] in l; }
    if k + 1 < |l| { assert l[k + 1] in l; }
  }

  lemma RemoveTouchesLinks(m: Mem, p: int, n: int, sizes: map<int, int>)
    requires (p != 0 ==> p in sizes) && (n != 0 ==> n in sizes)
    ensures SameExceptLinks(m, RemoveMem(m, p, n), sizes)
  {
  }

  /** Relinking two members of list i leaves list j alone. */
  lemma OtherListKept(m: Mem, lists: Lists, sizes: map<int, int>, i: int, j: int, p: int, n: int)
    requires Binned(lists, sizes) && Aligned(sizes) && 0 <= i < NBINS && 0 <= j < NBINS && i != j
    requires (p != 0 ==> p in lists[i]) && (n != 0 ==> n in lists[i]) && ListLinked(m, lists[j])
    ensures ListLinked(RemoveMem(m, p, n), lists[j])
  {
    var l := lists[j];
    forall q | 0 <= q < |l| ensures LinkOk(RemoveMem(m, p, n), l, q) {
      assert LinkOk(m, l, q);
      assert l[q] in l;
    }
  }

  lemma RemoveRelinks(m: Mem, l: seq<int>, k: int)
    requires ListLinked(m, l) && NoDup(l) && 0 <= k < |l|
    requires forall q :: 0 <= q < |l| ==> l[q] > 0 && l[q] % 16 == 0
    ensures ListLinked(RemoveMem(m, Nth(l, k - 1), Nth(l, k + 1)), l[..k] + l[k + 1..])
  {
    var m', l' := RemoveMem(m, Nth(l, k - 1), Nth(l, k + 1)), l[..k] + l[k + 1..];
    forall q | 0 <= q < |l'| ensures LinkOk(m', l', q) {
      var o := if q < k then q else q + 1;
      assert l'[q] == l[o];
      assert LinkOk(m, l, o);
      assert Nth(l', q + 1) == if q + 1 < k then Nth(l, q + 1) else Nth(l, q + 2);
      assert Nth(l', q - 1) == if q - 1 < k then Nth(l, q - 1) else Nth(l, q);
    }
  }

  // ---- what link writes and tag writes leave alone ---------------------------------

  lemma LinksKeepTags(m: Mem, m': Mem, blk: Blocks, lo: int, hi: int, stale: int)
    requires Tiled(blk, lo, hi) && Tags(m, blk, stale) && SameExceptLinks(m, m', FreeSizes(blk))
    ensures Tags(m', blk, stale)
  {
    forall B {:trigger IsBlock(blk, B)} | IsBlock(blk, B) && B != stale ensures TagOk(m', blk, B) {
      assert TagOk(m, blk, B);
      TagIsNotLink(blk, B, lo, hi);
    }
  }

  lemma TagIsNotLink(blk: Blocks, B: int, lo: int, hi: int)
    requires Tiled(blk, lo, hi) && B in blk
    ensures !IsLinkWord(B, FreeSizes(blk)) && !IsLinkWord(B + blk[B].size - FTR, FreeSizes(blk))
  {
    assert IsBlock(blk, B);
    var C, D := B - HDR - PTR, B + blk[B].size - FTR - HDR;
    assert C in blk ==> IsBlock(blk, C);
    assert D in blk ==> IsBlock(blk, D);
    assert B - HDR in blk ==> IsBlock(blk, B - HDR);
    assert D - PTR in blk ==> IsBlock(blk, D - PTR);
  }

  /** The words of an allocated block after its header are not link words. */
  lemma PayloadIsNotLink(blk: Blocks, B: int, a: int, lo: int, hi: int)
    requires Tiled(blk, lo, hi) && B in blk && !blk[B].free && B < a < B + blk[B].size
    ensures !IsLinkWord(a, FreeSizes(blk))
  {
    assert IsBlock(blk, B);
    var C, D := a - HDR, a - HDR - PTR;
    assert C in blk ==> IsBlock(blk, C);
    assert D in blk ==> IsBlock(blk, D);
  }

  function SetBlockMem(m: Mem, B: int, bs: int, free: bool): Mem {
    m[B := HeaderWord(Block(bs, free))][B + bs - FTR := bs]
  }

  /** Writing the tags of a region that holds no free block keeps every list linked. */
  lemma SetBlockKeepsLinks(m: Mem, bins: seq<int>, lists: Lists, sizes: map<int, int>, X: int, bs: int, free: bool)
    requires Linked(m, bins, lists) && Binned(lists, sizes) && X % 16 == 0 && bs % 16 == 0 && bs >= MIN_BSIZE
    requires forall C :: C in sizes ==>
               C % 16 == 0 && sizes[C] >= MIN_BSIZE && (C + sizes[C] <= X || X + bs <= C)
    ensures Linked(SetBlockMem(m, X, bs, free), bins, lists)
  {
    var m' := SetBlockMem(m, X, bs, free);
    forall j | 0 <= j < NBINS ensures bins[j] == Nth(lists[j], 0) && ListLinked(m', lists[j]) {
      forall k | 0 <= k < |lists[j]| ensures LinkOk(m', lists[j], k) {
        assert LinkOk(m, lists[j], k);
        assert lists[j][k] in lists[j];
      }
    }
  }

  lemma SetBlockFixesTags(m: Mem, blk: Blocks, X: int, free: bool, lo: int, hi: int)
    requires Tiled(blk, lo, hi) && X in blk && Tags(m, blk, X)
    ensures Tags(SetBlockMem(m, X, blk[X].size, free), blk[X := Block(blk[X].size, free)], -1)
  {
    var m', blk' := SetBlockMem(m, X, blk[X].size, free), blk[X := Block(blk[X].size, free)];
    assert IsBlock(blk, X);
    forall B {:trigger IsBlock(blk', B)} | IsBlock(blk', B) && B != -1 ensures TagOk(m', blk', B) {
      assert IsBlock(blk, B);
      assert B != X ==> TagOk(m, blk, B);
    }
  }

  lemma SplitFixesTags(m: Mem, blk: Blocks, B: int, need: int, lo: int, hi: int)
    requires Tiled(blk, lo, hi) && B in blk && Tags(m, blk, B)
    requires MIN_BSIZE <= need && need % 16 == 0 && Splits(blk, B, need)
    ensures var rest := blk[B].size - need;
      Tags(SetBlockMem(SetBlockMem(m, B, need, false), B + need, rest, true),
           blk[B := Block(need, false)][B + need := Block(rest, true)], -1)
  {
    var R, rest := B + need, blk[B].size - need;
    var m' := SetBlockMem(SetBlockMem(m, B, need, false), R, rest, true);
    var blk' := blk[B := Block(need, false)][R := Block(rest, true)];
    assert IsBlock(blk, B);
    forall C {:trigger IsBlock(blk', C)} | IsBlock(blk', C) && C != -1 ensures TagOk(m', blk', C) {
      if C != B && C != R {
        assert IsBlock(blk, C);
        assert TagOk(m, blk, C);
      }
    }
  }

  /** Merging N into B leaves only the tags of the union out of date. */
  lemma MergeTags(m: Mem, blk: Blocks, B: int, N: int, stale: int)
    requires B in blk && N in blk && B != N && Tags(m, blk, stale) && (stale == B || stale == N)
    ensures Tags(m, Merge(blk, B, N, false), B)
  {
    var blk' := Merge(blk, B, N, false);
    forall C {:trigger IsBlock(blk', C)} | IsBlock(blk', C) && C != B ensures TagOk(m, blk', C) {
      assert IsBlock(blk, C);
      assert TagOk(m, blk, C);
    }
  }

  // ---- live allocations ------------------------------------------------------------

  /** The keys of `own` are the allocated blocks. */
  ghost predicate OwnsExactly(own: map<int, int>, blk: Blocks) {
    forall B {:trigger B in own} :: B in own <==> B in blk && !blk[B].free
  }

  /** `own` maps every allocated block to the pointer handed out for it; the word before the
      pointer points back to the block, and at least one word of payload follows it. */
  ghost predicate Owned(m: Mem, blk: Blocks, own: map<int, int>) {
    && OwnsExactly(own, blk)
    && (forall B {:trigger own[B]} :: B in own ==>
          && own[B] % 16 == 0
          && B + HDR + PTR <= own[B] < B + blk[B].size - FTR
          && At(m, own[B] - PTR) == B)
  }

  /** Address a belongs to the allocation of block B: its back-pointer or its payload. */
  ghost predicate InAllocation(a: int, B: int, blk: Blocks, own: map<int, int>)
    requires B in own && B in blk
  {
    own[B] - PTR <= a < B + blk[B].size - FTR
  }

  /** Every allocation of `own` has the same words in m and m'. */
  ghost predicate SameAllocations(m: Mem, m': Mem, blk: Blocks, own: map<int, int>)
    requires forall B :: B in own ==> B in blk
  {
    forall a, B {:trigger InAllocation(a, B, blk, own)} ::
      B in own && InAllocation(a, B, blk, own) ==> At(m', a) == At(m, a)
  }

  lemma LinksKeepAllocations(m: Mem, m': Mem, blk: Blocks, own: map<int, int>, lo: int, hi: int)
    requires Tiled(blk, lo, hi) && SameExceptLinks(m, m', FreeSizes(blk))
    requires forall B :: B in own ==> B in blk && !blk[B].free && B + HDR + PTR <= own[B]
    ensures SameAllocations(m, m', blk, own)
  {
    forall a, B {:trigger InAllocation(a, B, blk, own)} | B in own && InAllocation(a, B, blk, own)
      ensures At(m', a) == At(m, a)
    {
      PayloadIsNotLink(blk, B, a, lo, hi);
    }
  }

  /** Tag writes inside [X, X + bs) touch no allocation whose block lies outside it. */
  lemma SetBlockKeepsAllocations(m: Mem, blk: Blocks, own: map<int, int>, X: int, bs: int, free: bool)
    requires bs >= MIN_BSIZE
    requires forall B :: B in own ==> B in blk && B + HDR + PTR <= own[B] && (B + blk[B].size <= X || X + bs <= B)
    ensures SameAllocations(m, SetBlockMem(m, X, bs, free), blk, own)
  {
  }

  /** `own` covers the allocated blocks except X. */
  ghost predicate OwnsAllBut(own: map<int, int>, blk: Blocks, X: int) {
    && (forall B :: B in own <==> B in blk && !blk[B].free && B != X)
    && (forall B {:trigger own[B]} :: B in own ==> B + HDR + PTR <= own[B])
  }

  /** The blocks of `own` are the same in both tilings. */
  ghost predicate SameBlocks(blk: Blocks, blk': Blocks, own: map<int, int>) {
    forall B {:trigger own[B]} {:trigger B in own} :: B in own ==> B in blk && B in blk' && blk'[B] == blk[B]
  }

  lemma KeptBlock(blk: Blocks, blk': Blocks, own: map<int, int>, B: int)
    requires SameBlocks(blk, blk', own) && B in own
    ensures B in blk && B in blk' && blk'[B] == blk[B]
  {
  }

  lemma BlocksCompose(blk: Blocks, blk1: Blocks, blk2: Blocks, own: map<int, int>)
    requires SameBlocks(blk, blk1, own) && SameBlocks(blk1, blk2, own)
    ensures SameBlocks(blk, blk2, own)
  {
  }

  /** Two memory changes, both of which keep the allocations, keep them together. */
  lemma AllocationsCompose(m: Mem, m1: Mem, m2: Mem, blk: Blocks, blk1: Blocks, own: map<int, int>)
    requires SameBlocks(blk, blk1, own)
    requires SameAllocations(m, m1, blk, own) && SameAllocations(m1, m2, blk1, own)
    ensures SameAllocations(m, m2, blk, own) && SameAllocations(m, m2, blk1, own)
  {
    forall a, B | B in own && (InAllocation(a, B, blk, own) || InAllocation(a, B, blk1, own))
      ensures At(m2, a) == At(m, a)
    {
      assert InAllocation(a, B, blk, own) && InAllocation(a, B, blk1, own);
    }
  }

  /** Every free block and every owned block other than X lies outside block X. */
  lemma OthersAvoid(blk: Blocks, own: map<int, int>, X: int, lo: int, hi: int)
    requires Tiled(blk, lo, hi) && X in blk && !blk[X].free && OwnsAllBut(own, blk, X)
    ensures forall C :: C in FreeSizes(blk) ==>
              C % 16 == 0 && blk[C].size >= MIN_BSIZE && (C + blk[C].size <= X || X + blk[X].size <= C)
    ensures forall B :: B in own ==> B in blk && (B + blk[B].size <= X || X + blk[X].size <= B)
  {
    assert IsBlock(blk, X);
    forall C | C in blk && C != X
      ensures C % 16 == 0 && blk[C].size >= MIN_BSIZE && (C + blk[C].size <= X || X + blk[X].size <= C)
    {
      assert IsBlock(blk, C);
    }
  }

  /** Dropping block B from `own` keeps the rest of the ownership intact. */
  lemma OwnedAfterRelease(m: Mem, m': Mem, blk: Blocks, blk': Blocks, own: map<int, int>, own': map<int, int>, B: int)
    requires Owned(m, blk, own) && own' == own - {B}
    requires SameBlocks(blk, blk', own') && SameAllocations(m, m', blk', own') && OwnsExactly(own', blk')
    ensures Owned(m', blk', own')
  {
    forall C | C in own' ensures At(m', own'[C] - PTR) == C {
      assert InAllocation(own[C] - PTR, C, blk', own');
    }
  }

  lemma OwnsWithout(m: Mem, blk: Blocks, own: map<int, int>, B: int)
    requires Owned(m, blk, own)
    ensures OwnsAllBut(own - {B}, blk, B)
  {
  }

  lemma OwnsAfterSetFree(own: map<int, int>, blk: Blocks, X: int)
    requires OwnsAllBut(own, blk, X) && X in blk
    ensures OwnsExactly(own, blk[X := Block(blk[X].size, true)])
    ensures SameBlocks(blk, blk[X := Block(blk[X].size, true)], own)
  {
  }

  // ---- writes inside an allocation -------------------------------------------------

  /** A write to a word of an allocated block other than its tags disturbs no tag, no link
      and no other allocation. */
  lemma PayloadWrite(m: Mem, bins: seq<int>, h: Heap, own: map<int, int>, B: int, a: int, w: int, lo: int, hi: int)
    requires Inv(h, lo, hi) && Tags(m, h.blocks, -1) && Linked(m, bins, h.lists)
    requires B in h.blocks && !h.blocks[B].free && B < a < B + h.blocks[B].size - FTR
    requires OwnsAllBut(own, h.blocks, B)
    ensures Tags(m[a := w], h.blocks, -1) && Linked(m[a := w], bins, h.lists)
    ensures SameAllocations(m, m[a := w], h.blocks, own)
  {
    PayloadIsNotLink(h.blocks, B, a, lo, hi);
    PayloadKeepsTags(m, h.blocks, B, a, w, lo, hi);
    NonLinkKeepsLists(m, bins, h.lists, FreeSizes(h.blocks), a, w);
    PayloadKeepsOthers(m, h.blocks, own, B, a, w, lo, hi);
  }

  lemma PayloadKeepsTags(m: Mem, blk: Blocks, B: int, a: int, w: int, lo: int, hi: int)
    requires Tiled(blk, lo, hi) && Tags(m, blk, -1) && B in blk && B < a < B + blk[B].size - FTR
    ensures Tags(m[a := w], blk, -1)
  {
    assert IsBlock(blk, B);
    forall C {:trigger IsBlock(blk, C)} | IsBlock(blk, C) && C != -1 ensures TagOk(m[a := w], blk, C) {
      assert TagOk(m, blk, C);
    }
  }

  lemma NonLinkKeepsLists(m: Mem, bins: seq<int>, lists: Lists, sizes: map<int, int>, a: int, w: int)
    requires Binned(lists, sizes) && Linked(m, bins, lists) && !IsLinkWord(a, sizes)
    ensures Linked(m[a := w], bins, lists)
  {
    var m' := m[a := w];
    forall j | 0 <= j < NBINS ensures bins[j] == Nth(lists[j], 0) && ListLinked(m', lists[j]) {
      forall k | 0 <= k < |lists[j]| ensures LinkOk(m', lists[j], k) {
        assert LinkOk(m, lists[j], k);
        assert lists[j][k] in lists[j];
      }
    }
  }

  lemma PayloadKeepsOthers(m: Mem, blk: Blocks, own: map<int, int>, B: int, a: int, w: int, lo: int, hi: int)
    requires Tiled(blk, lo, hi) && B in blk && B < a < B + blk[B].size - FTR && OwnsAllBut(own, blk, B)
    ensures SameAllocations(m, m[a := w], blk, own)
  {
    assert IsBlock(blk, B);
    forall x, C {:trigger InAllocation(x, C, blk, own)} | C in own && InAllocation(x, C, blk, own)
      ensures At(m[a := w], x) == At(m, x)
    {
      assert IsBlock(blk, C);
    }
  }

  /** Storing the back-pointer makes block B owned by pointer p. */
  lemma OwnedAfterAlloc(m: Mem, m': Mem, blk: Blocks, blk0: Blocks, own: map<int, int>, B: int, p: int)
    requires Owned(m, blk0, own) && OwnsAllBut(own, blk, B) && SameBlocks(blk0, blk, own)
    requires SameAllocations(m, m', blk, own) && B in blk && !blk[B].free
    requires p % 16 == 0 && B + HDR + PTR <= p < B + blk[B].size - FTR && At(m', p - PTR) == B
    ensures Owned(m', blk, own[B := p])
  {
    var own' := own[B := p];
    forall C | C in own' && C != B ensures At(m', own'[C] - PTR) == C {
      assert InAllocation(own[C] - PTR, C, blk, own);
    }
  }

  lemma OwnedAfterWrite(m: Mem, m': Mem, blk: Blocks, own: map<int, int>, B: int)
    requires Owned(m, blk, own) && B in own && SameAllocations(m, m', blk, own - {B})
    requires At(m', own[B] - PTR) == At(m, own[B] - PTR)
    ensures Owned(m', blk, own)
  {
    forall C | C in own ensures At(m', own[C] - PTR) == C {
      if C != B { assert InAllocation(own[C] - PTR, C, blk, own - {B}); }
    }
  }

  /** Distinct live allocations, back-pointers included, occupy disjoint address ranges. */
  lemma AllocationsDisjoint(m: Mem, blk: Blocks, own: map<int, int>, B: int, C: int, lo: int, hi: int)
    requires Tiled(blk, lo, hi) && Owned(m, blk, own) && B in own && C in own && B != C
    ensures own[B] != own[C]
    ensures forall a :: !InAllocation(a, B, blk, own) || !InAllocation(a, C, blk, own)
  {
    assert IsBlock(blk, B) && IsBlock(blk, C);
  }

  /** An allocation that is kept has the same payload words. */
  lemma PayloadWords(m: Mem, m': Mem, blk: Blocks, own: map<int, int>, B: int, p: int, n: int)
    requires (forall C :: C in own ==> C in blk) && B in own && own[B] == p && SameAllocations(m, m', blk, own)
    requires n <= B + blk[B].size - FTR - p
    ensures forall j :: 0 <= 8 * j < n ==> At(m', p + 8 * j) == At(m, p + 8 * j)
  {
    forall j | 0 <= 8 * j < n ensures At(m', p + 8 * j) == At(m, p + 8 * j) {
      assert InAllocation(p + 8 * j, B, blk, own);
    }
  }

  /** Allocate B, fill it, free C: the allocations `rest` are the same throughout. */
  lemma MovedAllocations(m0: Mem, m1: Mem, m2: Mem, m3: Mem, blk0: Blocks, blk1: Blocks, blk3: Blocks,
                         own: map<int, int>, rest: map<int, int>, B: int, p: int)
    requires SameBlocks(blk0, blk1, own) && SameAllocations(m0, m1, blk1, own)
    requires (forall D :: D in rest ==> D in own && own[D] == rest[D]) && B !in own
    requires (forall D :: D in own[B := p] ==> D in blk1) && (forall D :: D in rest[B := p] ==> D in blk3)
    requires SameAllocations(m1, m2, blk1, own[B := p] - {B})
    requires SameBlocks(blk1, blk3, rest[B := p]) && SameAllocations(m2, m3, blk3, rest[B := p])
    ensures SameBlocks(blk0, blk3, rest) && SameAllocations(m0, m3, blk3, rest)
  {
    assert forall D :: D in rest ==> rest[B := p][D] == own[D];
    forall a, D {:trigger InAllocation(a, D, blk3, rest)} | D in rest && InAllocation(a, D, blk3, rest)
      ensures At(m3, a) == At(m0, a)
    {
      assert InAllocation(a, D, blk3, rest[B := p]);
      assert InAllocation(a, D, blk1, own);
      assert InAllocation(a, D, blk1, own[B := p] - {B});
    }
  }
}
