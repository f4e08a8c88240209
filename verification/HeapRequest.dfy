/** The arithmetic of a pool request: alignment, block size and pointer, in 64-bit words. */
module HeapRequest {
  import opened Bits
  import opened HeapModel

  // ---- request arithmetic ----------------------------------------------------------

  /** Doubling a until it reaches `align`: the source's rounding of odd alignments. */
  function DoubleUntil(a: int, align: int): (r: int)
    requires a > 0
    ensures r >= a && r >= align
    decreases align - a
  {
    if a >= align then a else DoubleUntil(2 * a, align)
  }

  /** The alignment actually used for a request. */
  function AlignFor(align: int): (a: int)
    ensures a >= ALIGN && a >= align
  {
    DoubleUntil(ALIGN, align)
  }

  lemma {:induction false} DoubleUntilIsLeast(a: int, align: int, e: nat)
    requires a == Pow2(e)
    ensures IsPow2(DoubleUntil(a, align))
    ensures forall f: nat :: f >= e && Pow2(f) >= align ==> DoubleUntil(a, align) <= Pow2(f)
    decreases align - a
  {
    if a >= align {
      forall f: nat | f >= e ensures a <= Pow2(f) { Pow2Monotone(e, f); }
    } else {
      DoubleUntilIsLeast(2 * a, align, e + 1);
    }
  }

  /** AlignFor is the least power of two that is at least 16 and at least `align`. */
  lemma AlignForIsLeastPow2(align: int)
    ensures IsPow2(AlignFor(align))
    ensures forall p :: IsPow2(p) && p >= align && p >= ALIGN ==> AlignFor(align) <= p
  {
    assert Pow2(4) == ALIGN;
    DoubleUntilIsLeast(ALIGN, align, 4);
    forall p | IsPow2(p) && p >= align && p >= ALIGN ensures AlignFor(align) <= p {
      var f: nat :| Pow2(f) == p;
      if f < 4 { Pow2Monotone(f, 4); }
      assert f >= 4;
    }
  }

  /** Block size for a payload of `size` bytes at alignment a, in 64-bit arithmetic. */
  function NeedBytes(size: int, a: int): int
    requires size >= 0 && a >= 0
  {
    var payload := WrapAdd(WrapAdd(size, a), PTR);
    var bs := RoundUp(WrapAdd(WrapAdd(HDR, payload), FTR), ALIGN);
    if bs < MIN_BSIZE then MIN_BSIZE else bs
  }

  function NonZero(size: int): int {
    if size == 0 then 1 else size
  }

  /** The request is small enough for its 64-bit size computation not to wrap. */
  predicate Representable(size: int, align: int) {
    size >= 0 && align >= 0 && NonZero(size) + AlignFor(align) + HDR + PTR + FTR + (ALIGN - 1) < WORD
  }

  lemma NeedWithoutWrap(size: int, a: int)
    requires size >= 1 && a >= ALIGN && size + a + HDR + PTR + FTR + (ALIGN - 1) < WORD
    ensures NeedBytes(size, a) % 16 == 0 && NeedBytes(size, a) >= MIN_BSIZE
    ensures size + a + HDR + PTR + FTR <= NeedBytes(size, a) < size + a + HDR + PTR + FTR + ALIGN
  {
    assert Pow2(4) == ALIGN;
    var x := HDR + (size + a + PTR) + FTR;
    WrapAddExact(size, a);
    WrapAddExact(size + a, PTR);
    WrapAddExact(HDR, size + a + PTR);
    WrapAddExact(HDR + size + a + PTR, FTR);
    RoundUpIsLeastMultiple(x, ALIGN);
  }

  lemma NeedIsMultipleBelowWord(size: int, a: int)
    requires size >= 1 && a >= ALIGN
    ensures NeedBytes(size, a) <= WORD - ALIGN
  {
    assert Pow2(4) == ALIGN;
    var x := WrapAdd(WrapAdd(HDR, WrapAdd(WrapAdd(size, a), PTR)), FTR);
    var y := WrapAdd(x, ALIGN - 1);
    MaskIsFloor(y, 4);
  }

  /** The computed block size has room for back-pointer, alignment slack and payload
      exactly when the request does not wrap. */
  lemma RoomIffNoWrap(size: int, a: int)
    requires size >= 1 && a >= ALIGN
    ensures NeedBytes(size, a) >= size + a + HDR + PTR + FTR
       <==> size + a + HDR + PTR + FTR + (ALIGN - 1) < WORD
  {
    if size + a + HDR + PTR + FTR + (ALIGN - 1) < WORD {
      NeedWithoutWrap(size, a);
    } else {
      NeedIsMultipleBelowWord(size, a);
    }
  }

  /** The block size requested for an allocation of `size` bytes at alignment `align`. */
  function RequestBytes(size: int, align: int): int
    requires size >= 0
  {
    NeedBytes(NonZero(size), AlignFor(align))
  }

  /** The block size requested is the least multiple of 16 with room for header, back-pointer,
      alignment slack, payload and footer. */
  lemma RequestIsLeast(size: int, align: int)
    requires Representable(size, align)
    ensures var x := (if size == 0 then 1 else size) + AlignFor(align) + 24; var need := RequestBytes(size, align);
      need % 16 == 0 && x <= need < x + 16
  {
    NeedWithoutWrap(NonZero(size), AlignFor(align));
  }

  /** The payload begins at the first multiple of the alignment after header and back-pointer. */
  lemma PayloadIsFirst(B: int, a: int)
    requires B > 0 && B % 16 == 0 && ALIGN <= a && IsPow2(a) && B + 16 + a < WORD
    ensures var p := PayloadStart(B, a);
      && p % a == 0 && B + 16 <= p < B + 16 + a && (a == 16 ==> p == B + 16)
      && forall q :: q % a == 0 && q >= B + 16 ==> p <= q
  {
    hide RoundUp;
    RoundUpIsLeastMultiple(B + 16, a);
    var p := PayloadStart(B, a);
    forall q | q % a == 0 && q >= B + 16 ensures p <= q {
      LeastMultiple(p, q, a, B + 16);
    }
    if a == 16 {
      QuotientUnique(B + 16, 16, B / 16 + 1, 0);
      LeastMultiple(p, B + 16, a, B + 16);
    }
  }

  /** A multiple of a less than a above x is below no other multiple that is at least x. */
  lemma LeastMultiple(p: int, q: int, a: int, x: int)
    requires a > 0 && p % a == 0 && q % a == 0 && p < x + a && q >= x
    ensures p <= q
  {
    var k := p / a - q / a;
    assert p - q == k * a;
    MultipleBounds(k, a);
  }

  /** What a request gets: the heap afterwards, and block and pointer, null when nothing fits. */
  datatype Grant = Grant(heap: Heap, block: int, ptr: int)

  ghost function Granted(h: Heap, size: int, align: int): (g: Grant)
    requires |h.lists| == NBINS && Representable(size, align)
    ensures |g.heap.lists| == NBINS
  {
    var B := FirstFitting(h, RequestBytes(size, align));
    if B <= 0 then Grant(h, 0, 0)
    else Grant(Carve(h, B, RequestBytes(size, align)), B, PayloadStart(B, AlignFor(align)))
  }

  lemma NothingGranted(h: Heap, size: int, align: int)
    requires |h.lists| == NBINS && Representable(size, align)
    requires forall B :: !Fits(h.blocks, B, RequestBytes(size, align))
    ensures Granted(h, size, align) == Grant(h, 0, 0)
  {
    NoneFitting(h, RequestBytes(size, align));
  }

  lemma GrantedIs(h: Heap, size: int, align: int, i: int, k: int)
    requires |h.lists| == NBINS && Representable(size, align)
    requires FirstFit(h, RequestBytes(size, align), i, k) && h.lists[i][k] > 0
    ensures var B := h.lists[i][k];
      Granted(h, size, align) == Grant(Carve(h, B, RequestBytes(size, align)), B, PayloadStart(B, AlignFor(align)))
  {
    hide Carve, FirstFitting, PayloadStart;
    FirstFittingIs(h, RequestBytes(size, align), i, k);
  }

  /** Where the payload of block B begins for alignment a. */
  function PayloadStart(B: int, a: int): int
    requires B >= 0 && 0 < a < WORD
  {
    RoundUp(B + HDR + PTR, a)
  }

  /** The payload is aligned, leaves room for the back-pointer after the header, and its
      last requested byte lies before the footer. */
  lemma PayloadFits(B: int, a: int, size: int, bs: int)
    requires B >= 0 && B % 16 == 0 && ALIGN <= a && IsPow2(a) && size >= 1
    requires bs >= size + a + HDR + PTR + FTR && B + bs < WORD
    ensures var p := PayloadStart(B, a);
      && p % a == 0 && p % 16 == 0
      && B + HDR <= p - PTR && p + size <= B + bs - FTR
  {
    RoundUpIsLeastMultiple(B + HDR + PTR, a);
    var e: nat :| Pow2(e) == a;
    assert Pow2(4) == ALIGN;
    if e < 4 { Pow2Monotone(e, 4); }
    Pow2Product(e - 4, 4);
    var p := PayloadStart(B, a);
    MultipleOfMultiple(p, a, Pow2(e - 4), ALIGN);
  }
}
