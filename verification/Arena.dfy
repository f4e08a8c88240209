/** The suballocator of src/memory/arena.cpp for an arena with its own buffer: first fit over
    a list of freed blocks, then a bump pointer. */
module Arena {
  import opened Bits

  newtype Byte = b: int | 0 <= b < 256

  const DEFAULT_ALIGNMENT: int := 256

  datatype Block = Block(offset: int, size: int)

  predicate In(b: Block, x: int) {
    b.offset <= x < b.offset + b.size
  }

  /** Who owns a byte below the bump pointer. Padding dropped for alignment has no owner again. */
  datatype Owner = Live(ptr: int) | Free(offset: int) | Dropped

  /** Freed blocks begin at different offsets. */
  ghost predicate NoDup(l: seq<Block>) {
    forall i, j :: 0 <= i < j < |l| ==> l[i].offset != l[j].offset
  }

  /** 256-aligned, not empty, below the bump pointer. */
  ghost predicate BlockOk(b: Block, bump: int) {
    0 <= b.offset && b.size > 0 && b.offset % 256 == 0 && b.size % 256 == 0 && b.offset + b.size <= bump
  }

  /** The allocator invariant: every byte below the bump pointer has exactly one owner, and
      live and freed blocks own exactly the bytes they span. */
  ghost predicate AllocInv(base: int, bump: int, live: map<int, Block>, free: seq<Block>, owner: seq<Owner>) {
    && |owner| == bump && bump % 256 == 0
    && NoDup(free)
    && (forall p {:trigger live[p]} :: p in live ==> p == base + live[p].offset && BlockOk(live[p], bump))
    && (forall b {:trigger b in free} :: b in free ==> BlockOk(b, bump))
    && (forall p, x {:trigger In(live[p], x)} :: p in live && In(live[p], x) ==> owner[x] == Live(p))
    && (forall b, x {:trigger b in free, In(b, x)} :: b in free && In(b, x) ==> owner[x] == Free(b.offset))
    && (forall x {:trigger owner[x]} :: 0 <= x < bump ==> OwnerOk(owner[x], x, live, free))
  }

  ghost predicate OwnerOk(o: Owner, x: int, live: map<int, Block>, free: seq<Block>) {
    match o
    case Live(p) => p in live && In(live[p], x)
    case Free(off) => exists b :: b in free && b.offset == off && In(b, x)
    case Dropped => true
  }

  // ---- transitions -----------------------------------------------------------------

  /** Pad the bump pointer up to `off` and hand out [off, off + need). */
  ghost function BumpOwner(owner: seq<Owner>, off: int, need: int, p: int): (o: seq<Owner>)
    requires |owner| <= off && need > 0
    ensures |o| == off + need
  {
    seq(off + need, x requires 0 <= x < off + need =>
      if x < |owner| then owner[x] else if x < off then Dropped else Live(p))
  }

  lemma BumpKeepsInv(base: int, bump: int, live: map<int, Block>, free: seq<Block>, owner: seq<Owner>, off: int,
                     need: int)
    requires AllocInv(base, bump, live, free, owner)
    requires off >= bump && off % 256 == 0 && need > 0 && need % 256 == 0
    ensures var p := base + off;
      p !in live && AllocInv(base, off + need, live[p := Block(off, need)], free, BumpOwner(owner, off, need, p))
  {
    var p := base + off;
    forall q | q in live ensures q != p {
      assert BlockOk(live[q], bump);
    }
    var live', owner' := live[p := Block(off, need)], BumpOwner(owner, off, need, p);
    forall x {:trigger owner'[x]} | 0 <= x < off + need ensures OwnerOk(owner'[x], x, live', free) {
      if x < bump { assert OwnerOk(owner[x], x, live, free); }
    }
  }

  /** Carve [aoff, aoff + need) out of the freed block f: padding is dropped, the tail stays free. */
  ghost function ReuseOwner(owner: seq<Owner>, f: Block, aoff: int, need: int, p: int): (o: seq<Owner>)
    ensures |o| == |owner|
  {
    seq(|owner|, x requires 0 <= x < |owner| =>
      if !In(f, x) then owner[x]
      else if x < aoff then Dropped
      else if x < aoff + need then Live(p) else Free(aoff + need))
  }

  /** The free list after the block at position k gave up everything before `tail`. */
  function Shrink(free: seq<Block>, k: int, tail: int): seq<Block>
    requires 0 <= k < |free|
  {
    var remainder := free[k].offset + free[k].size - tail;
    if remainder > 0 then free[k := Block(tail, remainder)] else free[..k] + free[k + 1..]
  }

  lemma ShrinkMembers(free: seq<Block>, k: int, tail: int)
    requires NoDup(free) && 0 <= k < |free|
    ensures var f := free[k]; var rest := f.offset + f.size - tail;
      forall b :: b in Shrink(free, k, tail) <==>
        (b in free && b.offset != f.offset) || (rest > 0 && b == Block(tail, rest))
  {
    var f, l := free[k], Shrink(free, k, tail);
    var rest := f.offset + f.size - tail;
    forall b | b in free && b.offset != f.offset ensures b in l {
      var i :| 0 <= i < |free| && free[i] == b;
      assert rest > 0 ==> l[i] == b;
      assert rest <= 0 ==> l[if i < k then i else i - 1] == b;
    }
    if rest > 0 { assert l[k] == Block(tail, rest); }
  }

  lemma ShrinkNoDup(free: seq<Block>, k: int, tail: int)
    requires NoDup(free) && 0 <= k < |free|
    requires free[k].offset + free[k].size > tail ==>
               forall b :: b in free && b.offset != free[k].offset ==> b.offset != tail
    ensures NoDup(Shrink(free, k, tail))
  {
    var l := Shrink(free, k, tail);
    if free[k].offset + free[k].size > tail {
      forall i, j | 0 <= i < j < |l| ensures l[i].offset != l[j].offset {
        assert i != k ==> free[i] in free;
        assert j != k ==> free[j] in free;
      }
    }
  }

  lemma ReuseKeepsInv(base: int, bump: int, live: map<int, Block>, free: seq<Block>, owner: seq<Owner>,
                      k: int, aoff: int, need: int)
    requires AllocInv(base, bump, live, free, owner) && 0 <= k < |free|
    requires free[k].offset <= aoff && aoff + need <= free[k].offset + free[k].size
    requires aoff % 256 == 0 && need > 0 && need % 256 == 0
    ensures var p := base + aoff;
      p !in live && AllocInv(base, bump, live[p := Block(aoff, need)], Shrink(free, k, aoff + need),
                             ReuseOwner(owner, free[k], aoff, need, p))
  {
    var f, p, tail := free[k], base + aoff, aoff + need;
    var live', free' := live[p := Block(aoff, need)], Shrink(free, k, tail);
    var owner' := ReuseOwner(owner, f, aoff, need, p);
    OthersAvoidBlock(base, bump, live, free, owner, k);
    assert In(f, aoff);
    forall q | q in live ensures q != p {
      assert In(live[q], live[q].offset);
    }
    ReuseFreeList(base, bump, live, free, owner, k, aoff, need);
    forall q, x {:trigger In(live'[q], x)} | q in live' && In(live'[q], x)
      ensures 0 <= x < bump && owner'[x] == Live(q)
    {
      if q != p { assert In(live[q], x); }
    }
    forall x {:trigger owner'[x]} | 0 <= x < bump ensures OwnerOk(owner'[x], x, live', free') {
      assert OwnerOk(owner[x], x, live, free);
      OwnerAfterReuse(owner[x], owner'[x], x, live, live', free, free', k, aoff, need, p);
    }
  }

  /** The free-list half of the invariant after reuse. */
  lemma ReuseFreeList(base: int, bump: int, live: map<int, Block>, free: seq<Block>, owner: seq<Owner>,
                      k: int, aoff: int, need: int)
    requires AllocInv(base, bump, live, free, owner) && 0 <= k < |free|
    requires free[k].offset <= aoff && aoff + need <= free[k].offset + free[k].size
    requires aoff % 256 == 0 && need > 0 && need % 256 == 0
    ensures var f' := Shrink(free, k, aoff + need); var o' := ReuseOwner(owner, free[k], aoff, need, base + aoff);
      && NoDup(f') && (forall b {:trigger b in f'} :: b in f' ==> BlockOk(b, bump))
      && (forall b, x {:trigger b in f', In(b, x)} :: b in f' && In(b, x) ==> 0 <= x < bump && o'[x] == Free(b.offset))
      && BlockOk(Block(aoff, need), bump)
  {
    var f, tail := free[k], aoff + need;
    var free', owner' := Shrink(free, k, tail), ReuseOwner(owner, f, aoff, need, base + aoff);
    assert f in free && BlockOk(f, bump);
    OthersAvoidBlock(base, bump, live, free, owner, k);
    forall b | b in free && b.offset != f.offset ensures In(f, tail) ==> b.offset != tail {
      assert BlockOk(b, bump) && In(b, b.offset);
    }
    ShrinkNoDup(free, k, tail);
    ShrinkMembers(free, k, tail);
    forall b, x {:trigger b in free', In(b, x)} | b in free' && In(b, x)
      ensures 0 <= x < bump && owner'[x] == Free(b.offset)
    {
      if b in free && b.offset != f.offset { assert BlockOk(b, bump) && owner[x] == Free(b.offset); }
    }
  }

  /** No live block and no other freed block overlaps the freed block at position k. */
  lemma OthersAvoidBlock(base: int, bump: int, live: map<int, Block>, free: seq<Block>, owner: seq<Owner>, k: int)
    requires AllocInv(base, bump, live, free, owner) && 0 <= k < |free|
    ensures forall p, x {:trigger In(live[p], x)} :: p in live && In(live[p], x) ==> !In(free[k], x)
    ensures forall b, x {:trigger In(b, x)} :: b in free && b.offset != free[k].offset && In(b, x) ==> !In(free[k], x)
  {
    assert free[k] in free;
  }

  lemma OwnerAfterReuse(o: Owner, o': Owner, x: int, live: map<int, Block>, live': map<int, Block>,
                        free: seq<Block>, free': seq<Block>, k: int, aoff: int, need: int, p: int)
    requires OwnerOk(o, x, live, free) && NoDup(free) && 0 <= k < |free| && need > 0
    requires live' == live[p := Block(aoff, need)] && free' == Shrink(free, k, aoff + need)
    requires p !in live && free[k].offset <= aoff && aoff + need <= free[k].offset + free[k].size
    requires o' == if !In(free[k], x) then o
                   else if x < aoff then Dropped
                   else if x < aoff + need then Live(p) else Free(aoff + need)
    ensures OwnerOk(o', x, live', free')
  {
    var f := free[k];
    ShrinkMembers(free, k, aoff + need);
    if !In(f, x) && o.Free? {
      var b :| b in free && b.offset == o.offset && In(b, x);
      var i :| 0 <= i < |free| && free[i] == b;
      assert b.offset != f.offset by { if i < k {} else if i > k {} }
      assert b in free';
    } else if In(f, x) && x >= aoff + need {
      var rest := Block(aoff + need, f.offset + f.size - (aoff + need));
      assert rest in free' && In(rest, x);
    }
  }

  ghost function FreeOwner(owner: seq<Owner>, b: Block): (o: seq<Owner>)
    ensures |o| == |owner|
  {
    seq(|owner|, x requires 0 <= x < |owner| => if In(b, x) then Free(b.offset) else owner[x])
  }

  lemma DeallocateKeepsInv(base: int, bump: int, live: map<int, Block>, free: seq<Block>, owner: seq<Owner>, p: int)
    requires AllocInv(base, bump, live, free, owner) && p in live
    ensures AllocInv(base, bump, live - {p}, free + [live[p]], FreeOwner(owner, live[p]))
  {
    var b := live[p];
    assert BlockOk(b, bump);
    var live', free', owner' := live - {p}, free + [b], FreeOwner(owner, b);
    forall f | f in free ensures f.offset != b.offset && forall x :: In(f, x) ==> !In(b, x) {
      assert BlockOk(f, bump) && In(f, f.offset);
      assert In(live[p], b.offset);
    }
    forall q, x {:trigger In(live'[q], x)} | q in live' && In(live'[q], x)
      ensures 0 <= x < bump && owner'[x] == Live(q)
    {
      assert In(live[q], x) && BlockOk(live[q], bump);
    }
    forall i, j | 0 <= i < j < |free'| ensures free'[i].offset != free'[j].offset {
      assert i < |free| && free[i] in free;
    }
    forall x {:trigger owner'[x]} | 0 <= x < bump ensures OwnerOk(owner'[x], x, live', free') {
      assert OwnerOk(owner[x], x, live, free);
      if In(b, x) {
        assert b in free';
      } else if owner[x].Free? {
        var f :| f in free && f.offset == owner[x].offset && In(f, x);
        assert f in free';
      }
    }
  }

  // ---- the arena -------------------------------------------------------------------

  function Max(a: int, b: int): int {
    if a > b then a else b
  }

  /** Freed block b has room for `need` bytes at alignment a. */
  predicate Fits(b: Block, a: int, need: int)
    requires 0 < a < WORD && b.offset >= 0
  {
    b.size >= RoundUp(b.offset, a) - b.offset + need
  }

  /** Every byte below the bump pointer is live or free: no alignment padding was dropped. */
  ghost predicate ExactTiling(owner: seq<Owner>) {
    forall x :: 0 <= x < |owner| ==> !owner[x].Dropped?
  }

  /** Alignments are powers of two, and the 64-bit size arithmetic does not wrap. */
  ghost predicate Request(size: int, align: int, capacity: int) {
    size >= 0 && (align <= DEFAULT_ALIGNMENT || IsPow2(align))
    && size + 2 * Max(align, DEFAULT_ALIGNMENT) + capacity < WORD
  }

  lemma RoundedUp(x: int, a: int)
    requires x >= 0 && IsPow2(a) && DEFAULT_ALIGNMENT <= a < WORD && x + a < WORD
    ensures x <= RoundUp(x, a) < x + a && RoundUp(x, a) % a == 0 && RoundUp(x, a) % 256 == 0
    ensures a == 256 && x % 256 == 0 ==> RoundUp(x, a) == x
  {
    hide RoundUp;
    RoundUpIsLeastMultiple(x, a);
    assert Pow2(8) == 256;
    Pow2Multiple(a, 8);
    var q := RoundUp(x, a) / a;
    QuotientUnique(a, 256, a / 256, 0);
    assert RoundUp(x, a) == q * a == q * (a / 256) * 256;
    QuotientUnique(RoundUp(x, a), 256, q * (a / 256), 0);
  }

  // ---- the allocator as a function -------------------------------------------------

  /** The bump pointer, the freed blocks in list order and the live blocks. */
  datatype Space = Space(bump: nat, free: seq<Block>, live: map<int, Block>)

  /** The position of the first freed block from k on that fits, or the length of the list. */
  function FirstFit(free: seq<Block>, k: nat, a: int, need: int): (j: nat)
    requires k <= |free| && 0 < a < WORD
    ensures k <= j <= |free| && (j < |free| ==> free[j].offset >= 0)
    decreases |free| - k
  {
    if k == |free| || (free[k].offset >= 0 && Fits(free[k], a, need)) then k else FirstFit(free, k + 1, a, need)
  }

  lemma {:induction false} FirstFitIs(free: seq<Block>, k: nat, j: nat, a: int, need: int)
    requires k <= j <= |free| && 0 < a < WORD && NoneFits(free[..j], a, need)
    requires j < |free| ==> free[j].offset >= 0 && Fits(free[j], a, need)
    ensures FirstFit(free, k, a, need) == j
    decreases j - k
  {
    hide RoundUp;
    if k < j {
      assert free[..j][k] == free[k];
      FirstFitIs(free, k + 1, j, a, need);
    }
  }

  /** The pointer that a request gets from `s`, null when there is no room, and the space
      afterwards. */
  function Allocated(base: int, capacity: int, s: Space, size: nat, align: int): (int, Space)
    requires Max(align, DEFAULT_ALIGNMENT) < WORD
  {
    var a := Max(align, DEFAULT_ALIGNMENT);
    var need := RoundUp(size, a);
    var k := FirstFit(s.free, 0, a, need);
    if size == 0 then (0, s)
    else if k < |s.free| then
      var off := RoundUp(s.free[k].offset, a);
      (base + off, Space(s.bump, Shrink(s.free, k, off + need), s.live[base + off := Block(off, need)]))
    else
      var off := RoundUp(s.bump, a);
      if off + need > capacity then (0, s)
      else (base + off, Space(off + need, s.free, s.live[base + off := Block(off, need)]))
  }

  /** The space after the release of p; anything but a live pointer is ignored. */
  function Released(s: Space, p: int): Space {
    if p in s.live then Space(s.bump, s.free + [s.live[p]], s.live - {p}) else s
  }

  lemma NothingAllocated(base: int, capacity: int, s: Space, align: int)
    requires Max(align, DEFAULT_ALIGNMENT) < WORD
    ensures Allocated(base, capacity, s, 0, align) == (0, s)
  {
  }

  /** A request that no freed block fits is served at the bump pointer. */
  lemma AllocatedFresh(base: int, capacity: int, s: Space, size: nat, align: int, p: int, t: Space)
    requires Max(align, DEFAULT_ALIGNMENT) < WORD && size > 0
    requires var a := Max(align, DEFAULT_ALIGNMENT); var need := RoundUp(size, a); var off := RoundUp(s.bump, a);
      && NoneFits(s.free, a, need)
      && (if off + need > capacity then p == 0 && t == s
          else p == base + off && t == Space(off + need, s.free, s.live[p := Block(off, need)]))
    ensures (p, t) == Allocated(base, capacity, s, size, align)
  {
    hide RoundUp, NoneFits, Fits;
    assert s.free[..|s.free|] == s.free;
    FirstFitIs(s.free, 0, |s.free|, Max(align, DEFAULT_ALIGNMENT), RoundUp(size, Max(align, DEFAULT_ALIGNMENT)));
  }

  /** Any other request is served from the first freed block that fits. */
  lemma AllocatedReused(base: int, capacity: int, s: Space, size: nat, align: int, p: int, t: Space)
    requires Max(align, DEFAULT_ALIGNMENT) < WORD && size > 0
    requires var a := Max(align, DEFAULT_ALIGNMENT); var need := RoundUp(size, a);
      && ReusedFirstFit(s.free, a, need, p - base, t.free)
      && t.bump == s.bump && t.live == s.live[p := Block(p - base, need)]
    ensures (p, t) == Allocated(base, capacity, s, size, align)
  {
    hide RoundUp, NoneFits, Fits, Shrink;
    var a := Max(align, DEFAULT_ALIGNMENT);
    var need := RoundUp(size, a);
    var k :| 0 <= k < |s.free| && FitsFirst(s.free, k, a, need) && p - base == RoundUp(s.free[k].offset, a)
      && t.free == Shrink(s.free, k, p - base + need);
    FirstFitIs(s.free, 0, k, a, need);
  }

  // ---- what a request gets, in terms of ranges -------------------------------------

  predicate IsMultiple(x: int, a: int)
    requires a > 0
  {
    x % a == 0
  }

  /** [off, off + need) is an aligned range inside block b. */
  predicate Offers(b: Block, a: int, need: int, off: int)
    requires a > 0
  {
    IsMultiple(off, a) && b.offset <= off && off + need <= b.offset + b.size
  }

  /** `off` begins the first such range of the first freed block that has one, at position k. */
  ghost predicate FirstOffer(free: seq<Block>, a: int, need: int, k: int, off: int)
    requires a > 0
  {
    && 0 <= k < |free| && Offers(free[k], a, need, off)
    && (forall o {:trigger Offers(free[k], a, need, o)} :: Offers(free[k], a, need, o) ==> off <= o)
    && (forall j, o {:trigger Offers(free[j], a, need, o)} :: 0 <= j < k ==> !Offers(free[j], a, need, o))
  }

  ghost predicate NoOffer(free: seq<Block>, a: int, need: int)
    requires a > 0
  {
    forall j, o {:trigger Offers(free[j], a, need, o)} :: 0 <= j < |free| ==> !Offers(free[j], a, need, o)
  }

  /** `off` is the first multiple of a from x on. */
  ghost predicate FirstMultiple(off: int, a: int, x: int)
    requires a > 0
  {
    IsMultiple(off, a) && off >= x && forall o {:trigger IsMultiple(o, a)} :: IsMultiple(o, a) && o >= x ==> off <= o
  }

  /** A request of `need` bytes at alignment a in space s got p and left t: the first range that a
      freed block offers, of which the bytes behind stay a freed block; without one, the first
      aligned range from the bump pointer on; and null only when that leaves the arena. */
  ghost predicate Served(base: int, capacity: int, s: Space, a: int, need: int, p: int, t: Space)
    requires a > 0
  {
    var off := p - base;
    if p == 0 then
      && t == s && NoOffer(s.free, a, need)
      && forall o {:trigger IsMultiple(o, a)} :: IsMultiple(o, a) && o >= s.bump ==> o + need > capacity
    else if NoOffer(s.free, a, need) then
      && FirstMultiple(off, a, s.bump) && 0 <= off + need <= capacity
      && t == Space(off + need, s.free, s.live[p := Block(off, need)])
    else
      exists k :: FirstOffer(s.free, a, need, k, off)
        && var rest := s.free[k].offset + s.free[k].size - (off + need);
           t == Space(s.bump,
                      if rest > 0 then s.free[k := Block(off + need, rest)] else s.free[..k] + s.free[k + 1..],
                      s.live[p := Block(off, need)])
  }

  lemma RoundUpIsFirst(x: int, a: int)
    requires x >= 0 && IsPow2(a) && 0 < a && x + a < WORD
    ensures FirstMultiple(RoundUp(x, a), a, x)
  {
    hide RoundUp;
    RoundUpIsLeastMultiple(x, a);
    var r := RoundUp(x, a);
    forall o {:trigger IsMultiple(o, a)} | IsMultiple(o, a) && o >= x ensures r <= o {
      var k := r / a - o / a;
      assert r - o == k * a;
      MultipleBounds(k, a);
    }
  }

  /** The fit test of the source decides whether the block offers a range. */
  lemma FitsIffOffers(b: Block, a: int, need: int)
    requires b.offset >= 0 && IsPow2(a) && 0 < a && b.offset + a < WORD
    ensures Fits(b, a, need) ==> Offers(b, a, need, RoundUp(b.offset, a))
    ensures forall o {:trigger Offers(b, a, need, o)} ::
              Offers(b, a, need, o) ==> Fits(b, a, need) && RoundUp(b.offset, a) <= o
  {
    hide RoundUp;
    RoundUpIsFirst(b.offset, a);
  }

  lemma {:induction false} FirstFitFirst(free: seq<Block>, k: nat, a: int, need: int)
    requires k <= |free| && 0 < a < WORD && forall i :: 0 <= i < |free| ==> free[i].offset >= 0
    ensures var j := FirstFit(free, k, a, need);
      (j < |free| ==> Fits(free[j], a, need)) && forall i :: k <= i < j ==> !Fits(free[i], a, need)
    decreases |free| - k
  {
    hide Fits;
    if k < |free| && !Fits(free[k], a, need) { FirstFitFirst(free, k + 1, a, need); }
  }

  /** Sizes and offsets of a space stay inside the arena. */
  ghost predicate Within(capacity: int, s: Space) {
    && s.bump <= capacity
    && forall i {:trigger s.free[i]} :: 0 <= i < |s.free| ==> BlockIn(s.free[i], capacity)
  }

  predicate BlockIn(b: Block, capacity: int) {
    0 <= b.offset && b.size > 0 && b.offset + b.size <= capacity
  }

  lemma OffersOf(capacity: int, s: Space, a: int, need: int, i: nat)
    requires IsPow2(a) && 0 < a && capacity + a < WORD && Within(capacity, s) && i < |s.free|
    ensures s.free[i].offset >= 0
    ensures Fits(s.free[i], a, need) ==> Offers(s.free[i], a, need, RoundUp(s.free[i].offset, a))
    ensures forall o {:trigger Offers(s.free[i], a, need, o)} ::
              Offers(s.free[i], a, need, o) ==> Fits(s.free[i], a, need) && RoundUp(s.free[i].offset, a) <= o
  {
    hide RoundUp, Fits, Offers;
    assert BlockIn(s.free[i], capacity);
    FitsIffOffers(s.free[i], a, need);
  }

  /** The fit test finds the first offer, or there is none. */
  lemma FirstFitOffers(capacity: int, s: Space, a: int, need: int)
    requires IsPow2(a) && 0 < a && capacity + a < WORD && Within(capacity, s)
    ensures var k := FirstFit(s.free, 0, a, need);
      if k < |s.free| then FirstOffer(s.free, a, need, k, RoundUp(s.free[k].offset, a)) else NoOffer(s.free, a, need)
  {
    hide RoundUp, Fits, Offers, FirstFit, IsPow2;
    forall i | 0 <= i < |s.free| ensures s.free[i].offset >= 0 {
      OffersOf(capacity, s, a, need, i);
    }
    FirstFitFirst(s.free, 0, a, need);
    var k := FirstFit(s.free, 0, a, need);
    if k < |s.free| { OffersOf(capacity, s, a, need, k); }
    forall j, o {:trigger Offers(s.free[j], a, need, o)} | 0 <= j < k ensures !Offers(s.free[j], a, need, o) {
      OffersOf(capacity, s, a, need, j);
    }
  }

  /** What a request gets, without the fit test: block size and alignment are the least multiple
      and the larger of the two alignments, and the request is served as `Served` says. */
  lemma AllocatedServes(base: int, capacity: int, s: Space, size: nat, align: int)
    requires base > 0 && size > 0 && Request(size, align, capacity) && Within(capacity, s)
    ensures var a := if align > 256 then align else 256; var need := RoundUp(size, a);
      var (p, t) := Allocated(base, capacity, s, size, align);
      FirstMultiple(need, a, size) && Served(base, capacity, s, a, need, p, t)
  {
    hide RoundUp, Offers, FirstMultiple, FirstFit, FirstOffer, NoOffer;
    DefaultIsPow2();
    var a := Max(align, DEFAULT_ALIGNMENT);
    var need := RoundUp(size, a);
    RoundUpIsFirst(size, a);
    RoundUpIsFirst(s.bump, a);
    FirstFitOffers(capacity, s, a, need);
    var k := FirstFit(s.free, 0, a, need);
    if k < |s.free| {
      var off := RoundUp(s.free[k].offset, a);
      SomeOffer(s.free, a, need, k, off);
      assert FirstOffer(s.free, a, need, k, off);
    } else {
      BumpOrNull(capacity, s.bump, a, need);
    }
  }

  lemma SomeOffer(free: seq<Block>, a: int, need: int, k: int, off: int)
    requires a > 0 && FirstOffer(free, a, need, k, off)
    ensures 0 <= k < |free| && !NoOffer(free, a, need)
  {
  }

  lemma BumpOrNull(capacity: int, bump: nat, a: int, need: int)
    requires 0 < a < WORD && FirstMultiple(RoundUp(bump, a), a, bump)
    ensures RoundUp(bump, a) + need > capacity ==>
              forall o {:trigger IsMultiple(o, a)} :: IsMultiple(o, a) && o >= bump ==> o + need > capacity
  {
    hide RoundUp;
  }

  /** A block that was released can be had again: the same request does not get null. */
  lemma ReallocateReleased(base: int, capacity: int, s: Space, size: nat, align: int)
    requires base > 0 && Request(size, align, capacity) && Within(capacity, s)
    ensures var (p, t) := Allocated(base, capacity, s, size, align);
      p != 0 ==> Allocated(base, capacity, Released(t, p), size, align).0 != 0
  {
    hide RoundUp, Allocated;
    var (p, t) := Allocated(base, capacity, s, size, align);
    if size == 0 {
      NothingAllocated(base, capacity, s, align);
    } else if p != 0 {
      var a := Max(align, DEFAULT_ALIGNMENT);
      var need := RoundUp(size, a);
      AllocatedServes(base, capacity, s, size, align);
      var u := Released(t, p);
      assert u.free[|t.free|] == Block(p - base, need);
      assert Offers(u.free[|t.free|], a, need, p - base);
      WithinAfter(base, capacity, s, a, need, p, t);
      AllocatedServes(base, capacity, u, size, align);
    }
  }

  /** A list of blocks inside the arena stays one when an entry shrinks or goes. */
  lemma StillIn(free: seq<Block>, k: nat, b: Block, gone: bool, capacity: int)
    requires k < |free| && forall i {:trigger free[i]} :: 0 <= i < |free| ==> BlockIn(free[i], capacity)
    requires gone || BlockIn(b, capacity)
    ensures var l := if gone then free[..k] + free[k + 1..] else free[k := b];
      forall i {:trigger l[i]} :: 0 <= i < |l| ==> BlockIn(l[i], capacity)
  {
    hide BlockIn;
    var l := if gone then free[..k] + free[k + 1..] else free[k := b];
    forall i {:trigger l[i]} | 0 <= i < |l| ensures BlockIn(l[i], capacity) {
      assert l[i] == if gone && i >= k then free[i + 1] else if !gone && i == k then b else free[i];
    }
  }

  lemma WithinAfter(base: int, capacity: int, s: Space, a: int, need: int, p: int, t: Space)
    requires a > 0 && Within(capacity, s) && p != 0 && need > 0 && Served(base, capacity, s, a, need, p, t)
    ensures Within(capacity, t) && p in t.live && BlockIn(t.live[p], capacity)
    ensures Within(capacity, Released(t, p))
  {
    hide NoOffer, BlockIn;
    var off := p - base;
    if !NoOffer(s.free, a, need) {
      var k :| FirstOffer(s.free, a, need, k, off)
        && var rest := s.free[k].offset + s.free[k].size - (off + need);
           t == Space(s.bump,
                      if rest > 0 then s.free[k := Block(off + need, rest)] else s.free[..k] + s.free[k + 1..],
                      s.live[p := Block(off, need)]);
      var rest := s.free[k].offset + s.free[k].size - (off + need);
      InsideOffer(s.free[k], a, need, off, capacity);
      StillIn(s.free, k, Block(off + need, rest), rest <= 0, capacity);
    } else {
      FreshIn(off, need, s.bump, capacity);
    }
  }

  lemma FreshIn(off: int, need: int, bump: nat, capacity: int)
    requires off >= bump && need > 0 && off + need <= capacity
    ensures BlockIn(Block(off, need), capacity)
  {
  }

  lemma InsideOffer(b: Block, a: int, need: int, off: int, capacity: int)
    requires a > 0 && need > 0 && BlockIn(b, capacity) && Offers(b, a, need, off)
    ensures BlockIn(Block(off, need), capacity)
    ensures var rest := b.offset + b.size - (off + need); rest > 0 ==> BlockIn(Block(off + need, rest), capacity)
  {
  }

  /** The least multiple of 256 that is at least n. */
  function Rounded(n: nat): (r: nat)
    ensures r % 256 == 0 && n <= r < n + 256
  {
    (n + 255) / 256 * 256
  }

  lemma RoundedIsFirst(n: nat, r: int)
    requires FirstMultiple(r, 256, n)
    ensures r == Rounded(n)
  {
    assert IsMultiple(Rounded(n), 256);
    assert r <= Rounded(n) && r % 256 == 0;
  }

  /** Room for a request of default alignment: enough bytes behind the bump pointer always serve
      it, and without freed blocks nothing else does. */
  lemma RoomServes(base: int, capacity: int, s: Space, size: nat)
    requires base > 0 && size > 0 && size + 512 + capacity < WORD && Within(capacity, s) && s.bump % 256 == 0
    ensures var (p, t) := Allocated(base, capacity, s, size, 256);
      && (s.bump + Rounded(size) <= capacity ==> p != 0)
      && (s.free == [] ==> (p != 0 <==> s.bump + Rounded(size) <= capacity))
      && t.bump % 256 == 0 && Within(capacity, t) && t.bump <= s.bump + Rounded(size)
      && (s.free == [] ==> t.free == [] && (p != 0 ==> t.bump == s.bump + Rounded(size)))
  {
    hide RoundUp, Allocated, Served;
    var (p, t) := Allocated(base, capacity, s, size, 256);
    var need := RoundUp(size, 256);
    AllocatedServes(base, capacity, s, size, 256);
    RoundedIsFirst(size, need);
    ServedByRoom(base, capacity, s, need, p, t);
    if p != 0 { WithinAfter(base, capacity, s, 256, need, p, t); }
  }

  lemma ServedByRoom(base: int, capacity: int, s: Space, need: int, p: int, t: Space)
    requires need > 0 && need % 256 == 0 && s.bump % 256 == 0 && Served(base, capacity, s, 256, need, p, t)
    ensures s.bump + need <= capacity ==> p != 0
    ensures p == 0 ==> t == s
    ensures s.free == [] ==> t.free == [] && (p != 0 ==> t.bump == s.bump + need <= capacity)
    ensures t.bump % 256 == 0 && t.bump <= s.bump + need
  {
    hide FirstOffer;
    assert IsMultiple(s.bump, 256);
    if s.free == [] { assert NoOffer(s.free, 256, need); }
  }

  class UnifiedArena {
    const base: int
    const capacity: int
    const uma: bool
    const host: array<Byte>
    const device: array<Byte>
    var bump: nat
    var high: nat
    var freeList: seq<Block>
    var live: map<int, Block>
    ghost var owner: seq<Owner>

    /** On a UMA device the host mapping is the device memory; otherwise it is the staging buffer. */
    ghost predicate Shape() {
      && base > 0 && 0 < capacity < WORD && host.Length == device.Length == capacity
      && (uma <==> host == device)
    }

    ghost predicate Valid()
      reads this
    {
      && Shape()
      && AllocInv(base, bump, live, freeList, owner)
      && high == bump <= capacity
    }

    function Contents(): Space
      reads this`bump, this`freeList, this`live
    {
      Space(bump, freeList, live)
    }

    constructor (base: int, capacity: int, uma: bool)
      requires base > 0 && 0 < capacity < WORD
      ensures Valid() && fresh(host) && fresh(device)
      ensures this.base == base && this.capacity == capacity && this.uma == uma
      ensures Contents() == Space(0, [], map[]) && host[..] == device[..]
    {
      this.base, this.capacity, this.uma := base, capacity, uma;
      bump, high, freeList, live, owner := 0, 0, [], map[], [];
      var mapping := new Byte[capacity](_ => 0);
      var buffer := mapping;
      if !uma {
        buffer := new Byte[capacity](_ => 0);
      }
      host, device := mapping, buffer;
    }

    // ---- allocation ----------------------------------------------------------------

    /** Lines 349-367: the first freed block with room, or null. */
    method Reuse(a: int, need: int) returns (p: int)
      requires Valid() && Aligned(a, need, capacity)
      modifies this`freeList, this`live, this`owner
      ensures Valid()
      ensures p == 0 ==>
        NoneFits(freeList, a, need) && live == old(live) && freeList == old(freeList) && owner == old(owner)
      ensures p != 0 ==>
        && ReusedFirstFit(old(freeList), a, need, p - base, freeList)
        && p !in old(live) && live == old(live)[p := Block(p - base, need)] && (p - base) % a == 0
        && (a == DEFAULT_ALIGNMENT && ExactTiling(old(owner)) ==> ExactTiling(owner))
    {
      hide RoundUp, AllocInv, ExactTiling, NoneFits, ReusedFirstFit, Shrink;
      NoneFitsBegins(freeList, a, need);
      ghost var free := freeList;
      for k := 0 to |freeList|
        invariant Valid() && freeList == free && live == old(live) && owner == old(owner)
        invariant NoneFits(free[..k], a, need)
      {
        var b := freeList[k];
        FreedBlock(b);
        RoundedUp(b.offset, a);
        var off := RoundUp(b.offset, a);
        var pad := off - b.offset;
        if b.size >= pad + need {
          p := TakeFreed(k, off, need);
          FirstFitFound(free, k, a, need, off);
          return;
        }
        NoneFitsExtends(free, k, a, need);
      }
      p := 0;
      assert free[..|free|] == free;
    }

    /** Lines 353-365: shrink or erase the freed block at position k and hand out its bytes. */
    method TakeFreed(k: int, off: int, need: int) returns (p: int)
      requires Valid() && 0 <= k < |freeList| && off % 256 == 0 && need > 0 && need % 256 == 0
      requires freeList[k].offset <= off && off + need <= freeList[k].offset + freeList[k].size
      modifies this`freeList, this`live, this`owner
      ensures Valid() && p == base + off && p != 0
      ensures p !in old(live) && live == old(live)[p := Block(off, need)]
      ensures freeList == Shrink(old(freeList), k, off + need)
      ensures off == old(freeList)[k].offset && ExactTiling(old(owner)) ==> ExactTiling(owner)
    {
      hide AllocInv;
      var b := freeList[k];
      FreedBlock(b);
      ReuseKeepsInv(base, bump, live, freeList, owner, k, off, need);
      p := base + off;
      owner := ReuseOwner(owner, b, off, need, p);
      var remainder := b.offset + b.size - (off + need);
      if remainder > 0 {
        freeList := freeList[k := Block(off + need, remainder)];
      } else {
        freeList := freeList[..k] + freeList[k + 1..];
      }
      live := live[p := Block(off, need)];
    }

    lemma FreedBlock(b: Block)
      requires Valid() && b in freeList
      ensures BlockOk(b, bump)
    {
    }

    /** Lines 369-380: take fresh bytes at the bump pointer, or null when they run out. */
    method BumpAllocate(a: int, need: int) returns (p: int)
      requires Valid() && Aligned(a, need, capacity)
      modifies this`bump, this`high, this`live, this`owner
      ensures Valid() && bump >= old(bump)
      ensures p == 0 <==> RoundUp(old(bump), a) + need > capacity
      ensures p == 0 ==> bump == old(bump) && live == old(live) && owner == old(owner)
      ensures p != 0 ==>
        && p - base == RoundUp(old(bump), a) && bump == p - base + need
        && p !in old(live) && live == old(live)[p := Block(p - base, need)] && (p - base) % a == 0
        && (a == DEFAULT_ALIGNMENT && ExactTiling(old(owner)) ==> ExactTiling(owner))
    {
      hide RoundUp, AllocInv;
      BumpAligned();
      RoundedUp(bump, a);
      var off := RoundUp(bump, a);
      if off + need > capacity {
        return 0;
      }
      BumpKeepsInv(base, bump, live, freeList, owner, off, need);
      p := base + off;
      owner := BumpOwner(owner, off, need, p);
      bump := off + need;
      high := Max(high, bump);
      live := live[p := Block(off, need)];
    }

    lemma BumpAligned()
      requires Valid()
      ensures |owner| == bump && bump % 256 == 0 && bump >= 0
    {
    }

    lemma WithinArena()
      requires Valid()
      ensures Within(capacity, Contents())
    {
      forall i {:trigger freeList[i]} | 0 <= i < |freeList| ensures BlockIn(freeList[i], capacity) {
        assert freeList[i] in freeList && BlockOk(freeList[i], bump);
      }
    }

    /** UnifiedArena::allocate. */
    method Allocate(size: int, align: int) returns (p: int)
      requires Valid() && Request(size, align, capacity)
      modifies this`freeList, this`bump, this`high, this`live, this`owner
      ensures Valid() && bump >= old(bump)
      ensures var a := Max(align, DEFAULT_ALIGNMENT); var need := RoundUp(size, a);
        && (p == 0 <==> size == 0 || (NoneFits(old(freeList), a, need) && RoundUp(old(bump), a) + need > capacity))
        && (p == 0 ==> bump == old(bump) && live == old(live) && freeList == old(freeList) && owner == old(owner))
        && (p != 0 ==>
              && p !in old(live) && live == old(live)[p := Block(p - base, need)]
              && (p - base) % a == 0 && size <= need < size + a)
        && (p != 0 ==>
              if NoneFits(old(freeList), a, need)
              then freeList == old(freeList) && p - base == RoundUp(old(bump), a) && bump == p - base + need
              else bump == old(bump) && ReusedFirstFit(old(freeList), a, need, p - base, freeList))
        && (align <= DEFAULT_ALIGNMENT && ExactTiling(old(owner)) ==> ExactTiling(owner))
      ensures (p, Contents()) == Allocated(base, capacity, old(Contents()), size, align)
      ensures size > 0 ==> var a := if align > 256 then align else 256; var need := RoundUp(size, a);
        FirstMultiple(need, a, size) && Served(base, capacity, old(Contents()), a, need, p, Contents())
    {
      hide RoundUp, AllocInv, Allocated, NoneFits, ReusedFirstFit, ExactTiling, FirstMultiple, Served;
      if size == 0 {
        NothingAllocated(base, capacity, Contents(), align);
        return 0;
      }
      var a := Max(align, DEFAULT_ALIGNMENT);
      DefaultIsPow2();
      RoundedUp(size, a);
      var need := RoundUp(size, a);
      NeedMultiple(size, a);
      ghost var before := Contents();
      WithinArena();
      AllocatedServes(base, capacity, before, size, align);
      p := Reuse(a, need);
      if p != 0 {
        FirstFitFits(before.free, a, need, p - base, freeList);
        AllocatedReused(base, capacity, before, size, align, p, Contents());
        return;
      }
      p := BumpAllocate(a, need);
      AllocatedFresh(base, capacity, before, size, align, p, Contents());
    }

    /** UnifiedArena::deallocate: anything but a live pointer is ignored. */
    method Deallocate(p: int)
      requires Valid()
      modifies this`freeList, this`live, this`owner
      ensures Valid()
      ensures live == old(live) - {p}
      ensures freeList == if p in old(live) then old(freeList) + [old(live)[p]] else old(freeList)
      ensures Contents() == Released(old(Contents()), p)
      ensures ExactTiling(old(owner)) ==> ExactTiling(owner)
    {
      if p !in live {
        return;
      }
      DeallocateKeepsInv(base, bump, live, freeList, owner, p);
      owner := FreeOwner(owner, live[p]);
      freeList := freeList + [live[p]];
      live := live - {p};
    }

    predicate Contains(p: int) {
      p != 0 && base <= p < base + capacity
    }

    /** The high-water mark bounds every live block, so a migration copy covers them all, and
        no two live blocks share a byte. */
    lemma LiveBlocksCovered(p: int, q: int, x: int)
      requires Valid() && p in live && In(live[p], x)
      ensures 0 <= x < high <= capacity && Contains(base + x)
      ensures q in live && In(live[q], x) ==> p == q
    {
      assert BlockOk(live[p], bump);
      assert owner[x] == Live(p);
      if q in live && In(live[q], x) { assert owner[x] == Live(q); }
    }

    /** Every byte below the bump pointer belongs to one live block, or to one freed block, or
        was dropped as padding; the three exclude each other. */
    lemma BytesPartitioned(x: int)
      requires Valid() && 0 <= x < bump
      ensures (exists p :: p in live && In(live[p], x)) <==> owner[x].Live?
      ensures (exists b :: b in freeList && In(b, x)) <==> owner[x].Free?
    {
      assert OwnerOk(owner[x], x, live, freeList);
    }

    // ---- migration -----------------------------------------------------------------

    /** copy_range(src, dst, high_water_) between the two buffers. */
    method CopyRange(src: array<Byte>, dst: array<Byte>, size: int)
      requires src != dst && 0 <= size <= src.Length && src.Length == dst.Length
      modifies dst
      ensures dst[..] == src[..size] + old(dst[..])[size..]
    {
      for i := 0 to size
        invariant dst[..i] == src[..i] && dst[i..] == old(dst[..])[i..]
      {
        dst[i] := src[i];
      }
    }

    method FlushToDevice()
      requires Valid()
      modifies device
      ensures uma ==> device[..] == old(device[..])
      ensures !uma ==> device[..] == host[..high] + old(device[..])[high..]
    {
      if uma || high == 0 {
        return;
      }
      BumpAligned();
      CopyRange(host, device, high);
    }

    method InvalidateFromDevice()
      requires Valid()
      modifies host
      ensures uma ==> host[..] == old(host[..])
      ensures !uma ==> host[..] == device[..high] + old(host[..])[high..]
    {
      if uma || high == 0 {
        return;
      }
      BumpAligned();
      CopyRange(device, host, high);
    }
  }

  /** Alignment and size after rounding. */
  ghost predicate Aligned(a: int, need: int, capacity: int) {
    IsPow2(a) && a >= DEFAULT_ALIGNMENT && need > 0 && need % 256 == 0 && a + need + capacity < WORD
  }

  lemma DefaultIsPow2()
    ensures IsPow2(DEFAULT_ALIGNMENT)
  {
    assert Pow2(8) == 256;
  }

  lemma NeedMultiple(size: int, a: int)
    requires size > 0 && IsPow2(a) && DEFAULT_ALIGNMENT <= a < WORD && size + a < WORD
    ensures RoundUp(size, a) > 0 && RoundUp(size, a) % 256 == 0
  {
    hide RoundUp;
    RoundedUp(size, a);
  }

  ghost predicate NoneFits(free: seq<Block>, a: int, need: int)
    requires 0 < a < WORD
  {
    forall k {:trigger free[k]} :: 0 <= k < |free| ==> free[k].offset >= 0 && !Fits(free[k], a, need)
  }

  lemma NoneFitsBegins(free: seq<Block>, a: int, need: int)
    requires 0 < a < WORD
    ensures NoneFits(free[..0], a, need)
  {
  }

  lemma NoneFitsExtends(free: seq<Block>, k: int, a: int, need: int)
    requires 0 < a < WORD && 0 <= k < |free| && NoneFits(free[..k], a, need)
    requires free[k].offset >= 0 && !Fits(free[k], a, need)
    ensures NoneFits(free[..k + 1], a, need)
  {
    hide RoundUp;
    forall j {:trigger free[..k + 1][j]} | 0 <= j < k + 1
      ensures free[..k + 1][j].offset >= 0 && !Fits(free[..k + 1][j], a, need)
    {
      assert j < k ==> free[..k][j] == free[j];
    }
  }

  /** The request was served at offset `off` from the first freed block that fits. */
  ghost predicate ReusedFirstFit(free: seq<Block>, a: int, need: int, off: int, free': seq<Block>)
    requires 0 < a < WORD
  {
    exists k :: 0 <= k < |free| && FitsFirst(free, k, a, need) && off == RoundUp(free[k].offset, a)
      && free' == Shrink(free, k, off + need)
  }

  ghost predicate FitsFirst(free: seq<Block>, k: int, a: int, need: int)
    requires 0 < a < WORD && 0 <= k < |free|
  {
    NoneFits(free[..k], a, need) && free[k].offset >= 0 && Fits(free[k], a, need)
  }

  lemma FirstFitFound(free: seq<Block>, k: int, a: int, need: int, off: int)
    requires 0 < a < WORD && 0 <= k < |free| && NoneFits(free[..k], a, need) && free[k].offset >= 0
    requires off == RoundUp(free[k].offset, a) && Fits(free[k], a, need)
    ensures ReusedFirstFit(free, a, need, off, Shrink(free, k, off + need))
  {
    assert FitsFirst(free, k, a, need);
  }

  lemma FirstFitFits(free: seq<Block>, a: int, need: int, off: int, free': seq<Block>)
    requires 0 < a < WORD && ReusedFirstFit(free, a, need, off, free')
    ensures !NoneFits(free, a, need)
  {
    var k :| 0 <= k < |free| && FitsFirst(free, k, a, need);
    assert Fits(free[k], a, need);
  }
}
