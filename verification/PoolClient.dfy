/** Every run of a client of the heap pool: an arbitrary program of allocations, frees,
    resizes and writes. What the client should find in its pointers is computed from the
    program alone (`After`); the run over the pool's memory is proved to agree with it. This is
    the stress run of tests/unit/test_heap.cpp for all programs. */
module PoolClient {
  import opened HeapModel
  import opened HeapMemory
  import opened HeapCheck
  import opened HeapPool
  import opened HeapRequest

  /** One client step. `slot` picks one of the live pointers; steps that pick none are skipped. */
  datatype Op =
    | Allocate(size: nat, align: nat)
    | Release(slot: nat)
    | Resize(slot: nat, newSize: nat)
    | Write(slot: nat, index: nat, word: Word)

  // ---- what a program should leave -------------------------------------------------

  /** The heap and, slot by slot, the client's pointers: their blocks and the words written
      through them. */
  datatype World = World(heap: Heap, blocks: seq<int>, ptrs: seq<int>, words: seq<map<int, int>>) {
    predicate Shape() {
      |heap.lists| == NBINS && |blocks| == |ptrs| == |words|
    }

    /** Bytes of payload behind pointer s. */
    function Room(s: nat): int
      requires s < |ptrs| && Shape()
    {
      if blocks[s] in heap.blocks then blocks[s] + heap.blocks[blocks[s]].size - FTR - ptrs[s] else 0
    }
  }

  function Drop<T>(l: seq<T>, s: nat): seq<T>
    requires s < |l|
  {
    l[..s] + l[s + 1..]
  }

  /** The world after one step. Requests that do not fit, and steps on slots that do not exist,
      change nothing. */
  ghost function Next(w: World, op: Op): (w': World)
    requires w.Shape()
    ensures w'.Shape()
  {
    match op
    case Allocate(size, align) =>
      if !Representable(size, align) then w
      else
        var g := Granted(w.heap, size, align);
        if g.ptr == 0 then w
        else World(g.heap, w.blocks + [g.block], w.ptrs + [g.ptr], w.words + [map[]])
    case Release(s) =>
      if s >= |w.ptrs| then w else Dropped(w, s)
    case Resize(s, size) =>
      if s >= |w.ptrs| || !Representable(size, ALIGN) then w
      else if size == 0 then Dropped(w, s)
      else if size <= w.Room(s) then w
      else
        var g := Granted(w.heap, size, ALIGN);
        if g.ptr == 0 then w
        else World(FreedHeap(g.heap, w.blocks[s]), w.blocks[s := g.block], w.ptrs[s := g.ptr], w.words)
    case Write(s, index, word) =>
      if s >= |w.ptrs| || 8 * index >= w.Room(s) then w
      else w.(words := w.words[s := w.words[s][index := word]])
  }

  ghost function Dropped(w: World, s: nat): (w': World)
    requires w.Shape() && s < |w.ptrs|
    ensures w'.Shape()
  {
    World(FreedHeap(w.heap, w.blocks[s]), Drop(w.blocks, s), Drop(w.ptrs, s), Drop(w.words, s))
  }

  /** The world after a program. */
  ghost function After(w: World, ops: seq<Op>): (w': World)
    requires w.Shape()
    ensures w'.Shape()
  {
    if ops == [] then w else Next(After(w, ops[..|ops| - 1]), ops[|ops| - 1])
  }

  /** The slot a step takes away: a release, or a resize to nothing. */
  predicate Removes(op: Op, s: nat) {
    op == Release(s) || op == Resize(s, 0)
  }

  lemma SmallRequest()
    ensures Representable(0, ALIGN)
  {
  }

  /** A remembered word survives every step but a write over it and the end of its own slot;
      it follows its slot when an earlier one goes. */
  lemma WordKept(w: World, op: Op, s: nat, i: int)
    requires w.Shape() && s < |w.ptrs| && i in w.words[s]
    requires !Removes(op, s) && !(op.Write? && op.slot == s && op.index == i)
    ensures var t := if exists r: nat :: r < s && Removes(op, r) then s - 1 else s;
      t < |Next(w, op).words| && i in Next(w, op).words[t] && Next(w, op).words[t][i] == w.words[s][i]
  {
    hide Granted, FreedHeap, Representable;
    if r: nat :| r < s && Removes(op, r) {
      SmallRequest();
      assert Next(w, op) == Dropped(w, r);
    } else if op.Release? {
      assert !Removes(op, op.slot) || op.slot > s;
    } else if op.Resize? {
      assert op.newSize == 0 ==> !Removes(op, op.slot) || op.slot > s;
    }
  }

  // ---- one slot in memory ----------------------------------------------------------

  /** The words the client wrote through pointer p of block B are all still there. */
  ghost predicate Intact(m: Mem, blk: Blocks, own: map<int, int>, B: int, p: int, written: map<int, int>) {
    && B in own && own[B] == p && B in blk
    && (forall i {:trigger i in written} :: i in written ==>
          0 <= 8 * i < B + blk[B].size - FTR - p && At(m, p + 8 * i) == written[i])
  }

  /** An allocation whose block and bytes are kept stays intact. */
  lemma IntactKept(m: Mem, m': Mem, blk: Blocks, blk': Blocks, own: map<int, int>, own': map<int, int>,
                   kept: map<int, int>, B: int, p: int, written: map<int, int>)
    requires Intact(m, blk, own, B, p, written)
    requires B in kept && kept[B] == p && B in own' && own'[B] == p
    requires SameBlocks(blk, blk', kept) && SameAllocations(m, m', blk', kept)
    ensures Intact(m', blk', own', B, p, written)
  {
    forall i | i in written ensures At(m', p + 8 * i) == written[i] {
      assert InAllocation(p + 8 * i, B, blk', kept);
    }
  }

  lemma KeptOwner(m: Mem, blk: Blocks, own: map<int, int>, B: int, p: int, written: map<int, int>)
    requires Intact(m, blk, own, B, p, written)
    ensures B in own && own[B] == p && B in blk
  {
  }

  lemma IntactMoved(m: Mem, m': Mem, blk: Blocks, blk': Blocks, own: map<int, int>, own': map<int, int>,
                    C: int, p: int, B: int, np: int, written: map<int, int>, usable: int)
    requires Intact(m, blk, own, C, p, written) && C in blk && usable == C + blk[C].size - FTR - p
    requires B in own' && own'[B] == np && B in blk'
    requires (B == C && np == p && m == m' && blk == blk')
          || (B + blk'[B].size - FTR - np >= usable
              && forall j :: 0 <= 8 * j < usable ==> At(m', np + 8 * j) == At(m, p + 8 * j))
    ensures Intact(m', blk', own', B, np, written)
  {
  }

  lemma IntactWritten(m: Mem, blk: Blocks, own: map<int, int>, C: int, p: int, written: map<int, int>, i: int, w: Word)
    requires Intact(m, blk, own, C, p, written) && C in blk && 0 <= 8 * i < C + blk[C].size - FTR - p
    ensures Intact(m[p + 8 * i := w], blk, own, C, p, written[i := w])
  {
  }

  lemma BlocksRefl(blk: Blocks, own: map<int, int>)
    requires forall B :: B in own ==> B in blk
    ensures SameBlocks(blk, blk, own)
  {
  }

  /** Putting block B in the slot of block C keeps the slots distinct and complete. */
  lemma ReplacedBlock(blocks: seq<int>, s: int, C: int, B: int, own: map<int, int>, own': map<int, int>, p: int)
    requires 0 <= s < |blocks| && blocks[s] == C && own' == (own - {C})[B := p]
    requires forall i, j :: 0 <= i < j < |blocks| ==> blocks[i] != blocks[j]
    requires (forall D :: D in own <==> D in blocks) && (B == C || B !in own)
    ensures var b := blocks[s := B];
      (forall i, j :: 0 <= i < j < |b| ==> b[i] != b[j]) && (forall D :: D in own' <==> D in b)
  {
    var b := blocks[s := B];
    assert b[s] == B;
    forall i, j | 0 <= i < j < |b| ensures b[i] != b[j] {
      assert blocks[i] in blocks && blocks[j] in blocks;
    }
    forall D ensures D in own' <==> D in b {
      if D in blocks && D != C {
        var t :| 0 <= t < |blocks| && blocks[t] == D;
        assert b[t] == D;
      }
    }
  }

  lemma NothingWritten(m: Mem, blk: Blocks, own: map<int, int>, B: int, p: int)
    requires B in own && own[B] == p && B in blk
    ensures Intact(m, blk, own, B, p, map[])
  {
  }

  class Client {
    const pool: Pool
    var ptrs: seq<int>
    ghost var blocks: seq<int>
    var written: seq<map<int, int>>

    ghost predicate Distinct() reads this {
      forall s, t :: 0 <= s < t < |blocks| ==> blocks[s] != blocks[t]
    }

    /** The slots are exactly the pool's live allocations, and all are intact. */
    ghost predicate Valid()
      reads this, pool, pool.mem, pool.bins
    {
      && pool.Valid() && Slots()
    }

    ghost function Now(): World
      reads this, pool
    {
      World(pool.heap, blocks, ptrs, written)
    }

    lemma NowShape()
      requires Valid()
      ensures Now().Shape()
    {
      hide SlotIntact, Pool.Mapped, Linked, Tiled, Coalesced, Binned, Tags;
    }

    ghost predicate Slots()
      reads this, pool
    {
      && |ptrs| == |blocks| == |written| && Distinct()
      && (forall B :: B in pool.own <==> B in blocks)
      && (forall s {:trigger SlotIntact(s)} :: 0 <= s < |ptrs| ==> SlotIntact(s))
    }

    ghost predicate SlotIntact(s: int)
      requires 0 <= s < |ptrs| && |ptrs| == |blocks| == |written|
      reads this, pool
    {
      Intact(pool.img, pool.heap.blocks, pool.own, blocks[s], ptrs[s], written[s])
    }

    constructor (pool: Pool)
      requires pool.Valid() && pool.own == map[]
      ensures Valid() && this.pool == pool && ptrs == []
    {
      this.pool := pool;
      ptrs, blocks, written := [], [], [];
    }

    method DoAllocate(size: nat, align: nat)
      requires Valid() && Representable(size, align)
      modifies this, pool, pool.mem, pool.bins
      ensures Valid() && old(Now().Shape()) && Now() == Next(old(Now()), Allocate(size, align))
    {
      hide Pool.Valid, Carve, FirstFit, Representable, SameBlocks, SameAllocations, Intact, Granted, FreedHeap;
      NowShape();
      ghost var m, blk, own := pool.img, pool.heap.blocks, pool.own;
      var p, B, i, k := pool.Alloc(size, align);
      if p != 0 {
        ptrs, blocks, written := ptrs + [p], blocks + [B], written + [map[]];
        pool.OwnedAreBlocks();
        forall s | 0 <= s < |ptrs| ensures SlotIntact(s) {
          if s < |ptrs| - 1 {
            assert old(SlotIntact(s));
            KeptOwner(m, blk, own, blocks[s], ptrs[s], written[s]);
            IntactKept(m, pool.img, blk, pool.heap.blocks, own, pool.own, own, blocks[s], ptrs[s], written[s]);
          } else {
            NothingWritten(pool.img, pool.heap.blocks, pool.own, B, p);
          }
        }
      }
    }

    /** The pointer and block of slot s. */
    lemma SlotOwner(s: int)
      requires Valid() && 0 <= s < |ptrs|
      ensures blocks[s] in pool.own && pool.own[blocks[s]] == ptrs[s] && ptrs[s] != 0
      ensures blocks[s] in pool.heap.blocks
    {
      hide Pool.Valid;
      assert SlotIntact(s);
      pool.LivePointer(blocks[s]);
    }

    method DoRelease(s: nat)
      requires Valid() && s < |ptrs|
      modifies this, pool, pool.mem, pool.bins
      ensures Valid() && old(Now().Shape()) && Now() == Dropped(old(Now()), s)
    {
      hide Pool.Valid, ReleasedFrom, SameBlocks, SameAllocations, Intact, FreedHeap, Drop;
      NowShape();
      ghost var m, blk, own := pool.img, pool.heap.blocks, pool.own;
      SlotOwner(s);
      pool.Free(ptrs[s], blocks[s]);
      forall t {:trigger blocks[t]} | 0 <= t < |ptrs| ensures Intact(m, blk, own, blocks[t], ptrs[t], written[t]) {
        assert old(SlotIntact(t));
      }
      DropSlot(s, m, blk, own);
    }

    /** Forget slot s, whose block is gone; the other allocations are where they were. */
    method DropSlot(s: nat, ghost m: Mem, ghost blk: Blocks, ghost own: map<int, int>)
      requires |ptrs| == |blocks| == |written| && s < |ptrs| && Distinct() && pool.Valid()
      requires forall B :: B in own <==> B in blocks
      requires forall t {:trigger blocks[t]} :: 0 <= t < |ptrs| ==> Intact(m, blk, own, blocks[t], ptrs[t], written[t])
      requires pool.own == own - {blocks[s]} && SameBlocks(blk, pool.heap.blocks, pool.own)
      requires SameAllocations(m, pool.img, pool.heap.blocks, pool.own)
      modifies this
      ensures ptrs == Drop(old(ptrs), s) && blocks == Drop(old(blocks), s) && written == Drop(old(written), s)
      ensures Valid()
    {
      hide Pool.Valid, SameBlocks, SameAllocations, Intact;
      RemoveSlot(s);
      forall t | 0 <= t < |ptrs| ensures SlotIntact(t) {
        var o := if t < s then t else t + 1;
        assert Intact(m, blk, own, old(blocks)[o], old(ptrs)[o], old(written)[o]);
        KeptOwner(m, blk, own, blocks[t], ptrs[t], written[t]);
        IntactKept(m, pool.img, blk, pool.heap.blocks, own, pool.own, pool.own, blocks[t], ptrs[t], written[t]);
      }
    }

    method RemoveSlot(s: nat)
      requires |ptrs| == |blocks| == |written| && s < |ptrs| && Distinct()
      requires forall B :: B in pool.own <==> B in blocks && B != blocks[s]
      modifies this
      ensures ptrs == Drop(old(ptrs), s) && blocks == Drop(old(blocks), s) && written == Drop(old(written), s)
      ensures |ptrs| == |blocks| == |written| == old(|ptrs|) - 1
      ensures forall t {:trigger blocks[t]} {:trigger ptrs[t]} {:trigger written[t]} :: 0 <= t < |ptrs| ==>
                var o := if t < s then t else t + 1;
                blocks[t] == old(blocks)[o] && ptrs[t] == old(ptrs)[o] && written[t] == old(written)[o]
      ensures Distinct() && forall B :: B in pool.own <==> B in blocks
    {
      ghost var before := blocks;
      ptrs, written := ptrs[..s] + ptrs[s + 1..], written[..s] + written[s + 1..];
      blocks := blocks[..s] + blocks[s + 1..];
      forall B | B in before && B != before[s] ensures B in blocks {
        var t :| 0 <= t < |before| && before[t] == B;
        assert blocks[if t < s then t else t - 1] == B;
      }
    }

    /** px_pool_realloc to size 0 frees. */
    method DoResizeToZero(s: nat)
      requires Valid() && s < |ptrs|
      modifies this, pool, pool.mem, pool.bins
      ensures Valid() && old(Now().Shape()) && Now() == Dropped(old(Now()), s)
    {
      hide Pool.Valid, Representable, SameBlocks, SameAllocations, Intact, Granted, FreedHeap, Carve;
      NowShape();
      ghost var m, blk, own := pool.img, pool.heap.blocks, pool.own;
      ghost var C := blocks[s];
      SlotOwner(s);
      SmallRequest();
      var np, B := pool.Realloc(ptrs[s], 0, C);
      forall t {:trigger blocks[t]} | 0 <= t < |ptrs| ensures Intact(m, blk, own, blocks[t], ptrs[t], written[t]) {
        assert old(SlotIntact(t));
      }
      DropSlot(s, m, blk, own);
    }

    /** px_pool_realloc to a positive size: in place, moved, or refused. */
    method DoResize(s: nat, newSize: nat)
      requires Valid() && s < |ptrs| && Representable(newSize, ALIGN) && newSize > 0
      modifies this, pool, pool.mem, pool.bins
      ensures Valid() && old(Now().Shape()) && Now() == Next(old(Now()), Resize(s, newSize))
    {
      hide Pool.Valid, Representable, SameBlocks, SameAllocations, Intact, Granted, FreedHeap, Carve;
      NowShape();
      ghost var m, blk, own := pool.img, pool.heap.blocks, pool.own;
      ghost var C, ptr := blocks[s], ptrs[s];
      SlotOwner(s);
      assert SlotIntact(s);
      ghost var usable := pool.Usable(C);
      var np, B := pool.Realloc(ptrs[s], newSize, C);
      pool.OwnedAreBlocks();
      if np == 0 {
        forall t | 0 <= t < |ptrs| ensures SlotIntact(t) {
          assert old(SlotIntact(t));
        }
      } else {
        forall t {:trigger blocks[t]} | 0 <= t < |ptrs| ensures Intact(m, blk, own, blocks[t], ptrs[t], written[t]) {
          assert old(SlotIntact(t));
        }
        MoveSlot(s, np, B, m, blk, own, usable);
      }
    }

    /** Slot s moves to block B; the other slots stay where they are. */
    method MoveSlot(s: nat, np: int, ghost B: int, ghost m: Mem, ghost blk: Blocks, ghost own: map<int, int>,
                    ghost usable: int)
      requires |ptrs| == |blocks| == |written| && s < |ptrs| && Distinct() && pool.Valid()
      requires forall D :: D in own <==> D in blocks
      requires forall t {:trigger blocks[t]} :: 0 <= t < |ptrs| ==> Intact(m, blk, own, blocks[t], ptrs[t], written[t])
      requires pool.own == (own - {blocks[s]})[B := np] && (B == blocks[s] || B !in own) && B in pool.heap.blocks
      requires blocks[s] in blk && usable == blocks[s] + blk[blocks[s]].size - FTR - ptrs[s]
      requires (B == blocks[s] && np == ptrs[s] && m == pool.img && blk == pool.heap.blocks)
            || (B + pool.heap.blocks[B].size - FTR - np >= usable
                && forall j :: 0 <= 8 * j < usable ==> At(pool.img, np + 8 * j) == At(m, ptrs[s] + 8 * j))
      requires SameBlocks(blk, pool.heap.blocks, own - {blocks[s]})
      requires SameAllocations(m, pool.img, pool.heap.blocks, own - {blocks[s]})
      modifies this
      ensures Valid() && ptrs == old(ptrs)[s := np] && blocks == old(blocks)[s := B] && written == old(written)
    {
      hide Pool.Valid, SameBlocks, SameAllocations, Intact;
      ghost var C, ptr := blocks[s], ptrs[s];
      ptrs, blocks := ptrs[s := np], blocks[s := B];
      ReplacedBlock(old(blocks), s, C, B, own, pool.own, np);
      forall t | 0 <= t < |ptrs| ensures SlotIntact(t) {
        assert Intact(m, blk, own, old(blocks)[t], old(ptrs)[t], written[t]);
        if t == s {
          IntactMoved(m, pool.img, blk, pool.heap.blocks, own, pool.own, C, ptr, B, np, written[s], usable);
        } else {
          KeptOwner(m, blk, own, blocks[t], ptrs[t], written[t]);
          IntactKept(m, pool.img, blk, pool.heap.blocks, own, pool.own, own - {C}, blocks[t], ptrs[t], written[t]);
        }
      }
    }

    method DoWrite(s: nat, index: nat, word: Word)
      requires Valid() && s < |ptrs|
      modifies this, pool, pool.mem, pool.bins
      ensures Valid() && old(Now().Shape()) && Now() == Next(old(Now()), Write(s, index, word))
      ensures var C := old(blocks[s]);
        && C in old(pool.heap.blocks)
        && (8 * index < C + old(pool.heap.blocks)[C].size - 8 - old(ptrs[s]) ==>
              written == old(written)[s := old(written[s])[index := word]])
    {
      hide Pool.Valid, SameBlocks, SameAllocations, Intact;
      NowShape();
      ghost var m, blk, own := pool.img, pool.heap.blocks, pool.own;
      ghost var C := blocks[s];
      SlotOwner(s);
      var usable := pool.UsableSize(ptrs[s], C);
      if 8 * index < usable {
        pool.UserWrite(C, ptrs[s], index, word);
        pool.OwnedAreBlocks();
        BlocksRefl(blk, own - {C});
        written := written[s := written[s][index := word]];
        forall t | 0 <= t < |ptrs| ensures SlotIntact(t) {
          assert old(SlotIntact(t));
          if t == s {
            IntactWritten(m, blk, own, C, ptrs[s], old(written[s]), index, word);
          } else {
            KeptOwner(m, blk, own, blocks[t], ptrs[t], written[t]);
            IntactKept(m, pool.img, blk, blk, own, own, own - {C}, blocks[t], ptrs[t], written[t]);
          }
        }
      }
    }

    /** Read back every word the client wrote through slot s. */
    method ReadSlot(s: nat) returns (words: map<int, int>)
      requires Valid() && s < |ptrs|
      ensures words == written[s]
    {
      hide Pool.Valid;
      SlotOwner(s);
      assert SlotIntact(s);
      pool.LivePointer(blocks[s]);
      words := map[];
      var usable := pool.UsableSize(ptrs[s], blocks[s]);
      assert forall j :: j in written[s] ==> 0 <= j < usable / 8;
      for i := 0 to usable / 8
        invariant forall j :: j in words <==> j in written[s] && 0 <= j < i
        invariant forall j :: j in words ==> words[j] == written[s][j]
      {
        if i in written[s] {
          var w := pool.UserRead(blocks[s], ptrs[s], i);
          words := words[i := w];
        }
      }
      assert forall j :: j in words <==> j in written[s];
    }

    method Perform(op: Op)
      requires Valid()
      modifies this, pool, pool.mem, pool.bins
      ensures Valid() && old(Now().Shape()) && Now() == Next(old(Now()), op)
      ensures op.Write? && op.slot < old(|ptrs|) ==>
        var C := old(blocks[op.slot]);
        && C in old(pool.heap.blocks)
        && (8 * op.index < C + old(pool.heap.blocks)[C].size - 8 - old(ptrs[op.slot]) ==>
              written == old(written)[op.slot := old(written[op.slot])[op.index := op.word]])
    {
      hide Valid, Representable, Granted, FreedHeap;
      NowShape();
      match op
      case Allocate(size, align) =>
        if Representable(size, align) { DoAllocate(size, align); }
      case Release(slot) =>
        if slot < |ptrs| { DoRelease(slot); }
      case Resize(slot, newSize) =>
        if slot < |ptrs| && Representable(newSize, ALIGN) {
          if newSize == 0 { DoResizeToZero(slot); } else { DoResize(slot, newSize); }
        }
      case Write(slot, index, word) =>
        if slot < |ptrs| { DoWrite(slot, index, word); }
    }

    /** Run any program, reading back one slot and checking the whole heap after every step: no
        check fails, and the run ends in the world that the program computes, with every word of
        it in memory. */
    method Run(ops: seq<Op>, probe: seq<nat>) returns (ok: bool)
      requires Valid() && |probe| == |ops|
      modifies this, pool, pool.mem, pool.bins
      ensures Valid() && ok && old(Now().Shape()) && Now() == After(old(Now()), ops)
      ensures forall s, i :: 0 <= s < |written| && i in written[s] ==> At(pool.img, ptrs[s] + 8 * i) == written[s][i]
    {
      hide Valid, Next;
      NowShape();
      ghost var w := Now();
      ok := true;
      for i := 0 to |ops|
        invariant Valid() && ok && Now() == After(w, ops[..i])
      {
        assert ops[..i + 1][..i] == ops[..i];
        Perform(ops[i]);
        ok := CheckAll(probe[i]);
      }
      assert ops[..|ops|] == ops;
      WordsInMemory();
    }

    lemma WordsInMemory()
      requires Valid()
      ensures |written| == |ptrs|
      ensures forall s, i :: 0 <= s < |written| && i in written[s] ==> At(pool.img, ptrs[s] + 8 * i) == written[s][i]
    {
      hide Pool.Valid;
      forall s, i | 0 <= s < |written| && i in written[s] ensures At(pool.img, ptrs[s] + 8 * i) == written[s][i] {
        assert SlotIntact(s);
      }
    }

    /** Read back one slot and run the heap check. */
    method CheckAll(s: nat) returns (ok: bool)
      requires Valid()
      ensures ok
    {
      ok := true;
      if s < |ptrs| {
        var words := ReadSlot(s);
        ok := words == written[s];
      }
      var r := pool.Check();
      ok := ok && r == Consistent;
    }

    /** Whatever a program did, freeing what it left makes the pool the single free block again. */
    method FreeAll()
      requires Valid()
      modifies this, pool, pool.mem, pool.bins
      ensures Valid() && ptrs == []
      ensures pool.heap.blocks == map[pool.base := Block(pool.res, true)]
    {
      hide Pool.Valid, SlotIntact, FreedHeap;
      while |ptrs| > 0
        invariant Valid()
        decreases |ptrs|
      {
        DoRelease(|ptrs| - 1);
      }
      assert blocks == [];
      assert forall B :: B !in pool.own;
      pool.NothingLive();
    }

    /** Any program followed by the release of everything it left: the pool ends as it began. */
    method RunAndFree(ops: seq<Op>, probe: seq<nat>) returns (ok: bool)
      requires Valid() && |probe| == |ops|
      modifies this, pool, pool.mem, pool.bins
      ensures Valid() && ok && ptrs == []
      ensures pool.heap.blocks == map[pool.base := Block(pool.res, true)]
    {
      hide Valid, After;
      ok := Run(ops, probe);
      FreeAll();
    }
  }
}
