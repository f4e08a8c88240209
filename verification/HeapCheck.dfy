/** What px_pool_check decides about arbitrary words: the walk over headers and footers, in
    64-bit arithmetic, and its relation to the tilings of the reservation. */
module HeapCheck {
  import opened Bits
  import opened HeapModel
  import opened HeapMemory

  /** The outcome of check_locked. When a header sends the walk back to offset 0 the source
      reads the word before the reservation; that read is reported as OutOfRange. */
  datatype CheckResult = Corrupt | Consistent | OutOfRange

  /** The size part of a header word. */
  function SizeOf(w: int): int {
    w - w % 2
  }

  /** The header size at offset `off` is plausible and leads to `next` with a matching footer. */
  ghost predicate Step(m: Mem, lo: int, res: int, off: int, next: int) {
    var bs := SizeOf(At(m, lo + off));
    && bs >= MIN_BSIZE && bs % 16 == 0
    && next == WrapAdd(off, bs)
    && 0 < next <= res
    && At(m, lo + next - FTR) == bs
  }

  /** The header size at offset `off` is plausible and leads back to offset 0, past the guard
      `off + bs > res`. */
  ghost predicate WrapsToStart(m: Mem, lo: int, off: int) {
    var bs := SizeOf(At(m, lo + off));
    bs >= MIN_BSIZE && bs % 16 == 0 && WrapAdd(off, bs) == 0
  }

  /** A sequence of steps from offset 0. */
  ghost predicate IsWalk(m: Mem, lo: int, res: int, path: seq<int>) {
    && |path| > 0 && path[0] == 0
    && (forall k {:trigger path[k]} :: 0 <= k < |path| ==> 0 <= path[k] <= res)
    && (forall k {:trigger StepAt(m, lo, res, path, k)} :: 0 <= k < |path| - 1 ==> StepAt(m, lo, res, path, k))
  }

  ghost predicate StepAt(m: Mem, lo: int, res: int, path: seq<int>, k: int)
    requires 0 <= k < |path| - 1
  {
    path[k] < res && Step(m, lo, res, path[k], path[k + 1])
  }

  /** A walk that reaches the end of the reservation. */
  ghost predicate Reaches(m: Mem, lo: int, res: int, path: seq<int>) {
    IsWalk(m, lo, res, path) && path[|path| - 1] == res
  }

  ghost predicate Distinct(path: seq<int>) {
    forall i, j :: 0 <= i < j < |path| ==> path[i] != path[j]
  }

  /** A footer names the only offset the walk can have come from, so no offset is visited
      twice: this is why check_locked terminates on every content of the reservation. */
  lemma WalkNeverRepeats(m: Mem, lo: int, res: int, path: seq<int>, next: int)
    requires IsWalk(m, lo, res, path) && res < WORD && Distinct(path)
    requires path[|path| - 1] < res && Step(m, lo, res, path[|path| - 1], next)
    ensures next !in path && Distinct(path + [next])
  {
    if next in path {
      var last := |path| - 1;
      var j :| 0 <= j < |path| && path[j] == next;
      assert j > 0;
      assert StepAt(m, lo, res, path, j - 1);
      SamePredecessor(path[j - 1], path[last], At(m, lo + next - FTR), next);
    }
  }

  lemma WalkStarts(m: Mem, lo: int, res: int)
    requires res >= 0
    ensures IsWalk(m, lo, res, [0]) && Distinct([0])
  {
  }

  lemma WalkEnds(m: Mem, lo: int, res: int, path: seq<int>)
    requires IsWalk(m, lo, res, path) && path[|path| - 1] == res
    ensures Reaches(m, lo, res, path)
  {
  }

  lemma SamePredecessor(a: int, b: int, d: int, next: int)
    requires 0 <= a < WORD && 0 <= b < WORD
    requires WrapAdd(a, d) == next && WrapAdd(b, d) == next
    ensures a == b
  {
  }

  // ---- walks and tilings -----------------------------------------------------------

  /** Words m describe the tiling blk of [lo, lo + res): flags are the low header bits. */
  ghost predicate Describes(m: Mem, blk: Blocks, lo: int, res: int) {
    Tiled(blk, lo, lo + res) && Tags(m, blk, -1)
  }

  ghost predicate TilingExists(m: Mem, lo: int, res: int) {
    exists blk :: Describes(m, blk, lo, res)
  }

  /** No step of the walk wraps around 2^64. */
  ghost predicate Ascending(path: seq<int>) {
    forall i, j :: 0 <= i < j < |path| ==> path[i] < path[j]
  }

  /** A described tiling is walked from end to end: every reachable heap passes the check. */
  lemma TilingIsWalked(m: Mem, blk: Blocks, lo: int, res: int) returns (path: seq<int>)
    requires Describes(m, blk, lo, res) && lo + res < WORD
    ensures Reaches(m, lo, res, path) && Ascending(path)
  {
    path := [0];
    var B := lo;
    while B != lo + res
      invariant B == lo + res || B in blk
      invariant lo <= B <= lo + res
      invariant IsWalk(m, lo, res, path) && Ascending(path)
      invariant path[|path| - 1] == B - lo
      decreases lo + res - B
    {
      var E := B + blk[B].size;
      TiledStep(m, blk, lo, res, B);
      path := Extend(m, lo, res, path, E - lo);
      B := E;
    }
  }

  lemma TiledStep(m: Mem, blk: Blocks, lo: int, res: int, B: int)
    requires Describes(m, blk, lo, res) && lo + res < WORD && B in blk
    ensures var E := B + blk[B].size;
      && Step(m, lo, res, B - lo, E - lo) && B < E <= lo + res && (E == lo + res || E in blk) && lo <= B
  {
    assert IsBlock(blk, B);
    NoBlockBelow(blk, lo, lo + res, -1);
    TagOf(m, blk, -1, B);
    assert HeaderWord(blk[B]) % 2 == if blk[B].free then 0 else 1;
  }

  lemma Extend(m: Mem, lo: int, res: int, path: seq<int>, next: int) returns (path': seq<int>)
    requires IsWalk(m, lo, res, path) && path[|path| - 1] < res && Step(m, lo, res, path[|path| - 1], next)
    ensures path' == path + [next] && IsWalk(m, lo, res, path')
    ensures Ascending(path) && path[|path| - 1] < next ==> Ascending(path')
  {
    path' := path + [next];
    forall k | 0 <= k < |path'| - 1 ensures StepAt(m, lo, res, path', k) {
      if k < |path| - 1 {
        assert StepAt(m, lo, res, path, k);
      }
    }
    if Ascending(path) && path[|path| - 1] < next {
      forall i, j | 0 <= i < j < |path'| ensures path'[i] < path'[j] {
        if j == |path| && i < |path| - 1 { assert path[i] < path[|path| - 1]; }
      }
    }
  }

  /** The tiling that a walk spells out: its offsets below the end are the block bases. */
  ghost function BlocksOf(m: Mem, lo: int, res: int, path: seq<int>): Blocks {
    map B | lo <= B < lo + res && B - lo in path :: BlockAt(m, B)
  }

  function BlockAt(m: Mem, B: int): Block {
    Block(SizeOf(At(m, B)), At(m, B) % 2 == 0)
  }

  /** The reservation holds words of at most `top`. */
  ghost predicate WordsUpTo(m: Mem, lo: int, res: int, top: int) {
    forall a {:trigger At(m, a)} :: lo <= a < lo + res && a % 8 == 0 ==> 0 <= At(m, a) <= top
  }

  /** The reservation holds 64-bit words. */
  ghost predicate Words64(m: Mem, lo: int, res: int) {
    WordsUpTo(m, lo, res, WORD - 1)
  }

  lemma WordInBounds(m: Mem, lo: int, res: int, a: int)
    requires Words64(m, lo, res) && lo <= a < lo + res && a % 8 == 0
    ensures 0 <= At(m, a) < WORD
  {
  }

  lemma HeaderIsWord(lo: int, off: int)
    requires lo % 16 == 0 && off % 16 == 0
    ensures (lo + off) % 8 == 0 && (lo + off) % 16 == 0
  {
    var q, r := lo / 16, off / 16;
    assert lo + off == 16 * (q + r);
    QuotientUnique(lo + off, 16, q + r, 0);
    QuotientUnique(lo + off, 8, 2 * (q + r), 0);
  }

  /** Step k of an ascending walk is an intact block that ends where step k + 1 begins. */
  lemma WalkBlock(m: Mem, lo: int, res: int, path: seq<int>, k: int)
    requires Reaches(m, lo, res, path) && Ascending(path) && Words64(m, lo, res)
    requires lo > 0 && res > 0 && lo % 16 == 0 && lo + res < WORD && 0 <= k < |path| - 1
    ensures var B := lo + path[k]; var b := BlockAt(m, B);
      && lo <= B && B % 16 == 0 && b.size >= MIN_BSIZE && b.size % 16 == 0
      && B + b.size == lo + path[k + 1] <= lo + res
      && (path[k + 1] == res || k + 1 < |path| - 1)
      && At(m, B) == HeaderWord(b) && At(m, B + b.size - FTR) == b.size
  {
    hide Words64, WrapAdd;
    WalkOffsetsAligned(m, lo, res, path, k);
    HeaderIsWord(lo, path[k]);
    assert StepAt(m, lo, res, path, k);
    assert path[k] < path[k + 1];
    WordInBounds(m, lo, res, lo + path[k]);
    AscendingStep(path[k], SizeOf(At(m, lo + path[k])), path[k + 1]);
  }

  lemma WalkIsTiling(m: Mem, lo: int, res: int, path: seq<int>)
    requires Reaches(m, lo, res, path) && Ascending(path) && Words64(m, lo, res)
    requires lo > 0 && res > 0 && lo % 16 == 0 && lo + res < WORD
    ensures Describes(m, BlocksOf(m, lo, res, path), lo, res)
  {
    var blk := BlocksOf(m, lo, res, path);
    assert path[0] in path;
    forall B {:trigger IsBlock(blk, B)} | IsBlock(blk, B)
      ensures lo <= B && BlockOk(blk, lo + res, B) && TagOk(m, blk, B)
    {
      WalkBlockAt(m, lo, res, path, B);
    }
    forall B, C {:trigger IsBlock(blk, B), IsBlock(blk, C)} | IsBlock(blk, B) && IsBlock(blk, C) && B < C
      ensures B + blk[B].size <= C
    {
      WalkBlockAt(m, lo, res, path, B);
    }
  }

  lemma WalkBlockAt(m: Mem, lo: int, res: int, path: seq<int>, B: int)
    requires Reaches(m, lo, res, path) && Ascending(path) && Words64(m, lo, res)
    requires lo > 0 && res > 0 && lo % 16 == 0 && lo + res < WORD && lo <= B < lo + res && B - lo in path
    ensures var b := BlockAt(m, B);
      && B % 16 == 0 && b.size >= MIN_BSIZE && b.size % 16 == 0
      && B + b.size <= lo + res && B + b.size - lo in path
      && At(m, B) == HeaderWord(b) && At(m, B + b.size - FTR) == b.size
      && forall o :: o in path && B - lo < o ==> B + b.size - lo <= o
  {
    var k :| 0 <= k < |path| && path[k] == B - lo;
    WalkBlock(m, lo, res, path, k);
    forall o | o in path && B - lo < o ensures B + BlockAt(m, B).size - lo <= o {
      var j :| 0 <= j < |path| && path[j] == o;
      assert k + 1 < j ==> path[k + 1] < path[j];
    }
  }

  lemma {:induction false} WalkOffsetsAligned(m: Mem, lo: int, res: int, path: seq<int>, k: int)
    requires IsWalk(m, lo, res, path) && 0 <= k < |path| && res < WORD
    ensures path[k] % 16 == 0
    decreases k
  {
    if k > 0 {
      WalkOffsetsAligned(m, lo, res, path, k - 1);
      assert StepAt(m, lo, res, path, k - 1);
      StepStaysAligned(path[k - 1], SizeOf(At(m, lo + path[k - 1])), path[k]);
    }
  }

  /** A step that goes up did not wrap, provided the size is below 2^64. */
  lemma AscendingStep(off: int, bs: int, next: int)
    requires 0 <= off < next < WORD && next == WrapAdd(off, bs)
    ensures 0 <= bs < WORD ==> next == off + bs
  {
  }

  /** Each offset determines the next one, so there is only one walk to the end. */
  lemma {:induction false} WalksAgree(m: Mem, lo: int, res: int, p: seq<int>, q: seq<int>, k: int)
    requires IsWalk(m, lo, res, p) && Reaches(m, lo, res, q) && 0 <= k < |p|
    ensures k < |q| && p[k] == q[k]
    decreases k
  {
    if k > 0 {
      WalksAgree(m, lo, res, p, q, k - 1);
      assert StepAt(m, lo, res, p, k - 1);
      assert k < |q| && StepAt(m, lo, res, q, k - 1);
    }
  }

  /** A walk that cannot be continued shows that no walk reaches the end. */
  lemma StuckWalk(m: Mem, lo: int, res: int, path: seq<int>, off: int)
    requires IsWalk(m, lo, res, path) && path[|path| - 1] == off < res
    requires forall n :: !Step(m, lo, res, off, n)
    ensures forall q :: !Reaches(m, lo, res, q)
  {
    forall q | Reaches(m, lo, res, q) ensures false {
      WalkContinues(m, lo, res, path, q);
    }
  }

  lemma WalkContinues(m: Mem, lo: int, res: int, path: seq<int>, q: seq<int>)
    requires IsWalk(m, lo, res, path) && path[|path| - 1] < res && Reaches(m, lo, res, q)
    ensures |path| < |q| && Step(m, lo, res, path[|path| - 1], q[|path|])
  {
    WalksAgree(m, lo, res, path, q, |path| - 1);
    assert |path| < |q| && StepAt(m, lo, res, q, |path| - 1);
  }

  lemma StepIntro(m: Mem, lo: int, res: int, off: int, next: int)
    requires SizeOf(At(m, lo + off)) >= MIN_BSIZE && SizeOf(At(m, lo + off)) % 16 == 0
    requires next == WrapAdd(off, SizeOf(At(m, lo + off))) && 0 < next <= res
    requires At(m, lo + next - FTR) == SizeOf(At(m, lo + off))
    ensures Step(m, lo, res, off, next)
  {
  }

  lemma NoStep(m: Mem, lo: int, res: int, off: int)
    requires var bs := SizeOf(At(m, lo + off)); var next := WrapAdd(off, bs);
      bs < MIN_BSIZE || bs % 16 != 0 || next == 0 || next > res || At(m, lo + next - FTR) != bs
    ensures forall n :: !Step(m, lo, res, off, n)
  {
  }

  lemma StepStaysAligned(off: int, bs: int, next: int)
    requires off % 16 == 0 && bs % 16 == 0 && next == WrapAdd(off, bs)
    ensures next % 16 == 0
  {
    var q := (off + bs) / 0x1_0000_0000_0000_0000;
    var z := off / 16 + bs / 16 - q * 0x1000_0000_0000_0000;
    assert off == 16 * (off / 16) && bs == 16 * (bs / 16);
    assert next == off + bs - q * 0x1_0000_0000_0000_0000 == 16 * z;
  }

  /** The offsets 0 .. n. */
  ghost function Offsets(n: int): (s: set<int>)
    ensures forall o :: o in s <==> 0 <= o <= n
  {
    if n < 0 then {} else Offsets(n - 1) + {n}
  }

  /** When the check passes, a header/footer tiling of the reservation exists exactly when no
      step of the walk wrapped around 2^64. */
  lemma CheckDecidesTiling(m: Mem, lo: int, res: int, path: seq<int>)
    requires Reaches(m, lo, res, path) && Words64(m, lo, res)
    requires lo > 0 && res > 0 && lo % 16 == 0 && lo + res < WORD
    ensures TilingExists(m, lo, res) <==> Ascending(path)
  {
    if Ascending(path) {
      WalkIsTiling(m, lo, res, path);
    }
    if TilingExists(m, lo, res) {
      var blk :| Describes(m, blk, lo, res);
      var q := TilingIsWalked(m, blk, lo, res);
      forall k | 0 <= k < |path| ensures k < |q| && path[k] == q[k] {
        WalksAgree(m, lo, res, path, q, k);
      }
    }
  }

  /** Words that have a tiling are walked to the end. */
  lemma TilingsAreWalked(m: Mem, lo: int, res: int)
    requires lo + res < WORD
    ensures TilingExists(m, lo, res) ==> exists q :: Reaches(m, lo, res, q)
  {
    if TilingExists(m, lo, res) {
      var blk :| Describes(m, blk, lo, res);
      var q := TilingIsWalked(m, blk, lo, res);
    }
  }

  /** Headers too small to wrap: then every passing walk ascends. */
  lemma SmallHeadersAscend(m: Mem, lo: int, res: int, path: seq<int>)
    requires IsWalk(m, lo, res, path) && res < WORD && lo % 16 == 0
    requires WordsUpTo(m, lo, res, WORD - res)
    ensures Ascending(path)
  {
    forall k | 0 <= k < |path| - 1 ensures path[k] < path[k + 1] {
      WalkOffsetsAligned(m, lo, res, path, k);
      HeaderIsWord(lo, path[k]);
      assert StepAt(m, lo, res, path, k);
    }
    AscendingFromSteps(path);
  }

  lemma {:induction false} AscendingFromSteps(path: seq<int>)
    requires forall k :: 0 <= k < |path| - 1 ==> path[k] < path[k + 1]
    ensures Ascending(path)
  {
    if |path| > 1 {
      var init := path[..|path| - 1];
      assert forall k :: 0 <= k < |init| - 1 ==> init[k] < init[k + 1];
      AscendingFromSteps(init);
      var last := |path| - 1;
      forall i, j | 0 <= i < j < |path| ensures path[i] < path[j] {
        if j == last {
          assert i < last - 1 ==> init[i] < init[last - 1];
          assert path[last - 1] < path[last - 1 + 1];
        } else {
          assert init[i] < init[j];
        }
      }
    }
  }

  /** A forged header at offset 64 that sends the walk back to offset 32, inside the first
      block of a 4096-byte reservation at address 4096. */
  function Forged(): Mem {
    map[4096 := 64, 4152 := 64, 4160 := WORD - 32, 4120 := WORD - 32, 4128 := 4064, 8184 := 4064]
  }

  lemma ForgedWords()
    ensures Words64(Forged(), 4096, 4096)
    ensures At(Forged(), 4096) == 64 && At(Forged(), 4152) == 64 && At(Forged(), 4160) == WORD - 32
    ensures At(Forged(), 4120) == WORD - 32 && At(Forged(), 4128) == 4064 && At(Forged(), 8184) == 4064
  {
  }

  lemma WalkOfFour(m: Mem, lo: int, res: int, a: int, b: int)
    requires Step(m, lo, res, 0, a) && Step(m, lo, res, a, b) && Step(m, lo, res, b, res)
    requires 0 <= a < res && 0 <= b < res
    ensures Reaches(m, lo, res, [0, a, b, res])
  {
    hide Step;
    var path := [0, a, b, res];
    assert StepAt(m, lo, res, path, 0) && StepAt(m, lo, res, path, 1) && StepAt(m, lo, res, path, 2);
  }

  lemma ForgedWalk()
    ensures Reaches(Forged(), 4096, 4096, [0, 64, 32, 4096])
  {
    hide Forged, Step, WrapAdd, SizeOf, Reaches;
    var m := Forged();
    ForgedWords();
    ForgedSizes();
    StepIntro(m, 4096, 4096, 0, 64);
    StepIntro(m, 4096, 4096, 64, 32);
    StepIntro(m, 4096, 4096, 32, 4096);
    WalkOfFour(m, 4096, 4096, 64, 32);
  }

  lemma ForgedSizes()
    ensures SizeOf(64) == 64 && SizeOf(4064) == 4064 && SizeOf(WORD - 32) == WORD - 32 && (WORD - 32) % 16 == 0
    ensures WrapAdd(0, 64) == 64 && WrapAdd(64, WORD - 32) == 32 && WrapAdd(32, 4064) == 4096
  {
    hide WrapAdd;
    WrapAddExact(0, 64);
    WrapAddExact(64, WORD - 32);
    WrapAddExact(32, 4064);
    assert WORD - 32 == 16 * 0xFFF_FFFF_FFFF_FFFE;
  }

  /** Words on which the check passes although no tiling exists. */
  lemma CheckCanPassWithoutTiling()
    ensures Words64(Forged(), 4096, 4096) && Reaches(Forged(), 4096, 4096, [0, 64, 32, 4096])
    ensures !TilingExists(Forged(), 4096, 4096)
  {
    hide Forged, Reaches, TilingExists;
    var path := [0, 64, 32, 4096];
    ForgedWords();
    ForgedWalk();
    CheckDecidesTiling(Forged(), 4096, 4096, path);
    assert path[1] > path[2];
  }

  /** Words that send the walk from offset 64 back to the start: past the first block of 64
      bytes the header holds 2^64 - 64, and so does the word before the reservation. */
  function Endless(): Mem {
    map[4088 := WORD - 64, 4096 := 64, 4152 := 64, 4160 := WORD - 64]
  }

  /** Words on which the source's loop never ends: every test it makes at offset 64 passes and
      the next offset is 0 again. */
  lemma CheckCanRunForever()
    ensures Words64(Endless(), 4096, 4096) && IsWalk(Endless(), 4096, 4096, [0, 64])
    ensures WrapsToStart(Endless(), 4096, 64) && At(Endless(), 4096 - FTR) == SizeOf(At(Endless(), 4096 + 64))
  {
    hide WrapAdd;
    WrapAddExact(0, 64);
    WrapAddExact(64, WORD - 64);
    assert WORD - 64 == 16 * 0xFFF_FFFF_FFFF_FFFC;
    assert SizeOf(WORD - 64) == WORD - 64;
    StepIntro(Endless(), 4096, 4096, 0, 64);
    assert StepAt(Endless(), 4096, 4096, [0, 64], 0);
  }
}
