/** The bitonic sort of `launch_sort` and shaders/bitonic.comp: the schedule of stages, and
    the dispatch of one stage with its lanes in any order. */
module BitonicSort {
  import opened Bits
  import opened BitonicMerge
  import opened Lanes

  // ---- the invariant of the schedule -----------------------------------------------

  ghost predicate Ascends(i: int, k: int)
    requires i >= 0 && k > 0
  {
    i / k % 2 == 0
  }

  /** Within a k-block, elements of different w-blocks are in order. */
  ghost predicate BlocksOrdered(s: seq<int>, k: int, w: int)
    requires k > 0 && w > 0
  {
    forall p, q {:trigger s[p], s[q]} :: 0 <= p < q < |s| && p / k == q / k && p / w < q / w ==>
      Ordered(s[p], s[q], Ascends(p, k))
  }

  /** Every w-block is bitonic. */
  ghost predicate BlocksBitonic(s: seq<int>, w: int)
    requires w > 0
  {
    forall b {:trigger BlockAt(s, w, b)} :: BlockAt(s, w, b) ==> Bitonic(s, b, b + w)
  }

  /** b is the start of a w-block of s. */
  ghost predicate BlockAt(s: seq<int>, w: int, b: int)
    requires w > 0
  {
    0 <= b && b + w <= |s| && b % w == 0
  }

  /** The state between stages: in phase k = 2^a, before the stage with j = 2^(c-1). */
  ghost predicate Merged(s: seq<int>, a: nat, c: nat) {
    BlocksBitonic(s, Pow2(c)) && BlocksOrdered(s, Pow2(a), Pow2(c))
  }

  lemma MergedAtStart(s: seq<int>)
    ensures Merged(s, 0, 0)
  {
    forall p | 0 <= p ensures p / 1 == p { }
    assert forall b {:trigger BlockAt(s, 1, b)} :: BlockAt(s, 1, b) ==> Bitonic(s, b, b + 1);
  }

  ghost predicate Sorted(s: seq<int>) {
    forall p, q :: 0 <= p < q < |s| ==> s[p] <= s[q]
  }

  /** The last phase leaves the whole sequence ascending. */
  lemma MergedAtEnd(s: seq<int>, m: nat)
    requires |s| == Pow2(m) && Merged(s, m, 0)
    ensures Sorted(s)
  {
    forall p, q | 0 <= p < q < |s| ensures s[p] <= s[q] {
      QuotientUnique(p, Pow2(m), 0, p);
      QuotientUnique(q, Pow2(m), 0, q);
      assert p / 1 < q / 1;
    }
  }

  /** From one phase to the next: an ascending block followed by a descending one is bitonic. */
  lemma NextPhase(s: seq<int>, a: nat)
    requires Merged(s, a, 0)
    ensures Merged(s, a + 1, a + 1)
  {
    var h, k := Pow2(a), Pow2(a + 1);
    forall b {:trigger BlockAt(s, k, b)} | BlockAt(s, k, b) ensures Bitonic(s, b, b + k) {
      PhaseBlockBitonic(s, h, b);
    }
  }

  lemma PhaseBlockBitonic(s: seq<int>, h: int, b: int)
    requires h > 0 && BlocksOrdered(s, h, 1) && BlockAt(s, 2 * h, b)
    ensures Bitonic(s, b, b + 2 * h)
  {
    hide BlocksOrdered, Bitonic, Monotone;
    var v := b / (2 * h);
    assert b == 2 * h * v;
    MultipleForms(h, v, b);
    HalfMonotone(s, h, 2 * v);
    HalfMonotone(s, h, 2 * v + 1);
    UpDownIsBitonic(s, b, b + h, b + 2 * h);
  }

  lemma MultipleForms(h: int, v: int, b: int)
    requires b == 2 * h * v
    ensures h * (2 * v) == b && h * (2 * v + 1) == b + h
    ensures h > 0 && b >= 0 ==> v >= 0
  {
    if h > 0 && v < 0 { MultipleBounds(v, 2 * h); }
  }

  /** After a phase, the v-th h-block is sorted in its own direction. */
  lemma HalfMonotone(s: seq<int>, h: int, v: int)
    requires h > 0 && v >= 0 && BlocksOrdered(s, h, 1) && h * v + h <= |s|
    ensures 0 <= h * v && Monotone(s, h * v, h * v + h, v % 2 == 0)
  {
    var b := h * v;
    assert b >= 0;
    forall p, q | b <= p < q < b + h ensures Ordered(s[p], s[q], v % 2 == 0) {
      QuotientUnique(p, h, v, p - b);
      QuotientUnique(q, h, v, q - b);
      assert p / 1 < q / 1;
    }
  }

  // ---- one stage keeps the invariant -----------------------------------------------

  /** Index arithmetic of a stage: in the 2j-block v, the low half is paired with the high
      half, and all of it has one direction. */
  lemma PairOf(i: nat, a: nat, c: nat)
    requires c < a
    ensures var j, k := Pow2(c), Pow2(a); var v := i / (2 * j);
      && i / k == v / Pow2(a - c - 1)
      && And(i, k) == (if Ascends(i, k) then 0 else k)
      && (if i / j % 2 == 0 then Xor(i, j) == i + j && (i + j) / (2 * j) == v && (i + j) / j % 2 == 1
          else Xor(i, j) == i - j >= 0 && (i - j) / (2 * j) == v && (i - j) / j % 2 == 0)
  {
    hide Xor, And;
    XorPow2(i, c);
    AndPow2(i, a);
    Pow2Product(c + 1, a - c - 1);
    DivideTwice(i, 2 * Pow2(c), Pow2(a - c - 1));
    PairArithmetic(i, Pow2(c));
  }

  lemma PairArithmetic(i: int, j: int)
    requires i >= 0 && j > 0
    ensures i / j % 2 == 0 ==> (i + j) / (2 * j) == i / (2 * j) && (i + j) / j % 2 == 1
    ensures i / j % 2 == 1 ==> i >= j && (i - j) / (2 * j) == i / (2 * j) && (i - j) / j % 2 == 0
  {
    var h, r := i / j, i % j;
    assert i == h * j + r;
    QuotientUnique(i + j, j, h + 1, r);
    DivideTwice(i, j, 2);
    DivideTwice(i + j, j, 2);
    if h % 2 == 1 {
      MultipleBounds(h, j);
      QuotientUnique(i - j, j, h - 1, r);
      DivideTwice(i - j, j, 2);
    }
  }

  /** The 2j-block v occupies [2j * v, 2j * v + 2j), low half first. */
  lemma HalvesOf(i: int, j: int, v: int)
    requires i >= 0 && j > 0 && i / (2 * j) == v
    ensures 2 * j * v <= i < 2 * j * v + 2 * j
    ensures i / j % 2 == 0 <==> i < 2 * j * v + j
  {
    DivideTwice(i, j, 2);
    var h, r := i / j, i % j;
    assert i == h * j + r;
    assert h == 2 * v + h % 2;
    assert h * j == 2 * j * v + h % 2 * j;
    assert h % 2 == 0 || h % 2 == 1;
  }

  /** A stage half-cleans every 2j-block. */
  lemma StageHalfCleans(s: seq<int>, a: nat, c: nat, v: nat, lo: int, asc: bool)
    requires c < a && lo == 2 * Pow2(c) * v && 0 <= lo && lo + 2 * Pow2(c) <= |s|
    requires asc == (v / Pow2(a - c - 1) % 2 == 0)
    ensures HalfCleaned(s, Stage(s, Pow2(a), Pow2(c)), lo, Pow2(c), asc)
  {
    hide Xor, And, Lower, Upper;
    var j := Pow2(c);
    var s' := Stage(s, Pow2(a), j);
    forall i | lo <= i < lo + j
      ensures s'[i] == Lower(s[i], s[i + j], asc) && s'[i + j] == Upper(s[i], s[i + j], asc)
    {
      StagePair(s, i, a, c, v);
    }
  }

  lemma StagePair(s: seq<int>, i: int, a: nat, c: nat, v: nat)
    requires c < a && 0 <= 2 * Pow2(c) * v <= i < 2 * Pow2(c) * v + Pow2(c) && i + Pow2(c) < |s|
    ensures var j := Pow2(c); var s' := Stage(s, Pow2(a), j); var asc := v / Pow2(a - c - 1) % 2 == 0;
      s'[i] == Lower(s[i], s[i + j], asc) && s'[i + j] == Upper(s[i], s[i + j], asc)
  {
    hide Xor, And, Lower, Upper;
    PairedLanes(i, a, c, v);
  }

  /** Lane i of the low half of block v and its partner. */
  lemma PairedLanes(i: int, a: nat, c: nat, v: nat)
    requires c < a && 0 <= 2 * Pow2(c) * v <= i < 2 * Pow2(c) * v + Pow2(c)
    ensures var j, k := Pow2(c), Pow2(a); var asc := v / Pow2(a - c - 1) % 2 == 0;
      && Xor(i, j) == i + j && Xor(i + j, j) == i
      && (And(i, k) == 0 <==> asc)
  {
    hide Xor, And;
    var j := Pow2(c);
    QuotientUnique(i, 2 * j, v, i - 2 * j * v);
    HalvesOf(i, j, v);
    PairOf(i, a, c);
    PairOf(i + j, a, c);
  }

  lemma StageKeepsBitonic(s: seq<int>, a: nat, c: nat)
    requires c < a && BlocksBitonic(s, Pow2(c + 1)) && |s| % Pow2(c + 1) == 0
    ensures BlocksBitonic(Stage(s, Pow2(a), Pow2(c)), Pow2(c))
  {
    var j := Pow2(c);
    var s' := Stage(s, Pow2(a), j);
    forall b {:trigger BlockAt(s', j, b)} | BlockAt(s', j, b) ensures Bitonic(s', b, b + j) {
      var lo, asc := PairedBlock(s, a, c, j, b);
      HalfStart(b, j);
      LowHalfBitonic(s, s', lo, j, asc);
      HighHalfBitonic(s, s', lo, j, asc);
    }
  }

  /** The bitonic 2j-block that contains index b, half-cleaned by the stage. */
  lemma PairedBlock(s: seq<int>, a: nat, c: nat, j: int, b: int) returns (lo: int, asc: bool)
    requires c < a && j == Pow2(c) && BlocksBitonic(s, 2 * j) && |s| % (2 * j) == 0
    requires 0 <= b < |s|
    ensures 0 <= lo && lo + 2 * j <= |s| && lo == 2 * j * (b / (2 * j)) && asc == Ascends(b, Pow2(a))
    ensures Bitonic(s, lo, lo + 2 * j)
    ensures HalfCleaned(s, Stage(s, Pow2(a), j), lo, j, asc)
  {
    hide Xor, And, Bitonic, HalfCleaned, Stage;
    var v := b / (2 * j);
    asc := Ascends(b, Pow2(a));
    lo := 2 * j * v;
    BlockStart(|s|, j, v, b, lo);
    PairOf(b, a, c);
    StageHalfCleans(s, a, c, v, lo, asc);
    assert BlockAt(s, 2 * j, lo);
  }

  lemma BlockStart(n: int, j: int, v: int, b: int, lo: int)
    requires j > 0 && n % (2 * j) == 0 && 0 <= b < n && v == b / (2 * j) && lo == 2 * j * v
    ensures 0 <= v && 0 <= lo <= b && lo + 2 * j <= n && lo % (2 * j) == 0
  {
    HalvesOf(b, j, v);
    MultipleForms(j, v, lo);
    BlockInside(n, 2 * j, v, b);
    if v < 0 { MultipleBounds(v, 2 * j); }
    QuotientUnique(lo, 2 * j, v, 0);
  }

  /** A j-block starts at the low or at the high half of its 2j-block. */
  lemma HalfStart(b: int, j: int)
    requires b >= 0 && j > 0 && b % j == 0
    ensures var lo := 2 * j * (b / (2 * j)); b == lo || b == lo + j
  {
    DivideTwice(b, j, 2);
    var h, v := b / j, b / (2 * j);
    assert b == h * j && h == 2 * v + h % 2;
    assert h % 2 == 0 ==> b == 2 * v * j;
    assert h % 2 == 1 ==> b == (2 * v + 1) * j == 2 * v * j + j;
    assert 2 * v * j == 2 * j * v;
  }

  /** When d divides n, the d-block of an index below n lies below n. */
  lemma BlockInside(n: int, d: int, v: int, b: int)
    requires d > 0 && n % d == 0 && 0 <= b < n && v == b / d
    ensures d * v + d <= n
  {
    var u := n / d;
    assert n == u * d && b == v * d + b % d;
    if v >= u {
      assert v * d >= u * d by { MultipleBounds(v - u + 1, d); }
    } else {
      assert (v + 1) * d <= u * d by { MultipleBounds(u - v, d); }
    }
  }

  /** After half-cleaning, every element of the block is one of its old elements. */
  lemma CleanedValue(s: seq<int>, s': seq<int>, lo: int, j: int, asc: bool, p: int) returns (x: int)
    requires |s| == |s'| && 0 <= lo && 0 < j && lo + 2 * j <= |s| && HalfCleaned(s, s', lo, j, asc)
    requires lo <= p < lo + 2 * j
    ensures lo <= x < lo + 2 * j && s'[p] == s[x]
  {
    var i := if p < lo + j then p else p - j;
    assert s'[i] == Lower(s[i], s[i + j], asc);
    x := if s'[p] == s[i] then i else i + j;
  }

  lemma SameDirection(x: nat, p: nat, a: nat, c: nat)
    requires c < a && x / (2 * Pow2(c)) == p / (2 * Pow2(c))
    ensures x / Pow2(a) == p / Pow2(a)
  {
    hide Xor, And;
    PairOf(x, a, c);
    PairOf(p, a, c);
  }

  lemma StageOrders(s: seq<int>, a: nat, c: nat, j: int, p: int, q: int)
    requires c < a && j == Pow2(c) && BlocksBitonic(s, 2 * j) && BlocksOrdered(s, Pow2(a), 2 * j)
    requires |s| % (2 * j) == 0 && 0 <= p < q < |s| && p / Pow2(a) == q / Pow2(a) && p / j < q / j
    ensures Ordered(Stage(s, Pow2(a), j)[p], Stage(s, Pow2(a), j)[q], Ascends(p, Pow2(a)))
  {
    hide Xor, And, Bitonic, HalfCleaned, Stage, BlocksBitonic, Ordered, Pow2;
    var s' := Stage(s, Pow2(a), j);
    var lo, asc := PairedBlock(s, a, c, j, p);
    var lo', asc' := PairedBlock(s, a, c, j, q);
    HalvesOf(p, j, p / (2 * j));
    HalvesOf(q, j, q / (2 * j));
    DivideTwice(p, j, 2);
    DivideTwice(q, j, 2);
    if p / (2 * j) == q / (2 * j) {
      HalvesOrdered(s, s', lo, j, asc, p, q);
    } else {
      var x := CleanedValue(s, s', lo, j, asc, p);
      var y := CleanedValue(s, s', lo', j, asc', q);
      InBlock(x, j, p / (2 * j));
      InBlock(y, j, q / (2 * j));
      SameDirection(x, p, a, c);
      SameDirection(y, q, a, c);
      BlocksApart(s, Pow2(a), 2 * j, x, y);
    }
  }

  lemma InBlock(x: int, j: int, v: int)
    requires j > 0 && 2 * j * v <= x < 2 * j * v + 2 * j
    ensures x / (2 * j) == v
  {
    QuotientUnique(x, 2 * j, v, x - 2 * j * v);
  }

  lemma BlocksApart(s: seq<int>, k: int, w: int, x: int, y: int)
    requires k > 0 && w > 0 && BlocksOrdered(s, k, w)
    requires 0 <= x < |s| && 0 <= y < |s| && x / k == y / k && x / w < y / w
    ensures Ordered(s[x], s[y], Ascends(x, k))
  {
    if y <= x {
      var d := x / w - y / w;
      assert x == x / w * w + x % w && y == y / w * w + y % w;
      MultipleBounds(y / w - x / w, w);
    }
  }

  /** One stage of the schedule takes the invariant from j-blocks twice as long to j-blocks. */
  lemma StageKeepsMerged(s: seq<int>, a: nat, c: nat)
    requires c < a && Merged(s, a, c + 1) && |s| % Pow2(c + 1) == 0
    ensures Merged(Stage(s, Pow2(a), Pow2(c)), a, c)
  {
    hide Xor, And, Bitonic, Stage, Ordered, BlocksBitonic;
    var j, k := Pow2(c), Pow2(a);
    var s' := Stage(s, k, j);
    StageKeepsBitonic(s, a, c);
    forall p, q {:trigger s'[p], s'[q]} | 0 <= p < q < |s'| && p / k == q / k && p / j < q / j
      ensures Ordered(s'[p], s'[q], Ascends(p, k))
    {
      StageOrders(s, a, c, j, p, q);
    }
  }

  lemma {:induction false} Pow2Divides(m: nat, c: nat)
    requires c <= m
    ensures Pow2(m) % Pow2(c) == 0
  {
    Pow2Product(m - c, c);
    QuotientUnique(Pow2(m), Pow2(c), Pow2(m - c), 0);
  }

  // ---- the kernel ------------------------------------------------------------------

  /** What lane i writes in the stage (k, j). */
  function LaneWrite(s: seq<int>, k: nat, j: nat, i: nat): (t: seq<int>)
    ensures |t| == |s|
  {
    var l := Xor(i, j);
    if i < l < |s| then
      s[i := Lower(s[i], s[l], And(i, k) == 0)][l := Upper(s[i], s[l], And(i, k) == 0)]
    else s
  }

  /** The lanes of a stage commute: no two of them touch the same pair. */
  lemma LanesCommute(s: seq<int>, k: nat, j: nat, i1: nat, i2: nat)
    ensures LaneWrite(LaneWrite(s, k, j, i1), k, j, i2) == LaneWrite(LaneWrite(s, k, j, i2), k, j, i1)
  {
    hide Xor, And, Lower, Upper;
    XorInvolutive(i1, j);
    XorInvolutive(i2, j);
  }

  /** The lane that compares element i. */
  function Owner(n: nat, j: nat, i: nat): nat {
    var l := Xor(i, j);
    if l < i && l < n then l else i
  }

  /** t is s after the lanes outside `todo` have run. */
  ghost predicate Partial(s: seq<int>, t: seq<int>, k: nat, j: nat, todo: set<int>) {
    && |t| == |s|
    && forall i {:trigger t[i]} :: 0 <= i < |s| ==>
         t[i] == if Owner(|s|, j, i) in todo then s[i] else StageAt(s, k, j, i)
  }

  lemma LaneStep(s: seq<int>, t: seq<int>, k: nat, j: nat, todo: set<int>, lane: nat)
    requires Partial(s, t, k, j, todo) && lane in todo
    ensures Partial(s, LaneWrite(t, k, j, lane), k, j, todo - {lane})
  {
    hide Xor, And, Lower, Upper;
    var l := Xor(lane, j);
    var t' := LaneWrite(t, k, j, lane);
    XorInvolutive(lane, j);
    forall i: int {:trigger t'[i]} | 0 <= i < |s|
      ensures t'[i] == if Owner(|s|, j, i) in todo - {lane} then s[i] else StageAt(s, k, j, i)
    {
      XorInvolutive(i, j);
      assert t[i] == if Owner(|s|, j, i) in todo then s[i] else StageAt(s, k, j, i);
      if i == lane || i == l {
        assert lane < |s| ==> Owner(|s|, j, lane) in todo ==> t[lane] == s[lane];
        assert l < |s| ==> Owner(|s|, j, l) in todo ==> t[l] == s[l];
      }
    }
  }

  /** shaders/bitonic.comp: invocation i of the stage (k, j). */
  method BitonicLane(data: array<int>, count: nat, k: nat, j: nat, i: nat)
    requires data.Length == count
    modifies data
    ensures data[..] == LaneWrite(old(data[..]), k, j, i)
    ensures multiset(data[..]) == multiset(old(data[..]))
  {
    hide Xor, And;
    if i >= count {
      return;
    }
    var l := Xor(i, j);
    if l > i && l < count {
      var ascending := And(i, k) == 0;
      var a, b := data[i], data[l];
      if (a > b) == ascending {
        data[i], data[l] := b, a;
      }
    }
  }

  /** One dispatch of the stage, lanes in any order. */
  method DispatchStage(data: array<int>, count: nat, k: nat, j: nat, groups: nat)
    requires data.Length == count <= 256 * groups
    modifies data
    ensures data[..] == Stage(old(data[..]), k, j)
    ensures multiset(data[..]) == multiset(old(data[..]))
  {
    hide Xor, And, LaneWrite, Partial;
    ghost var s := data[..];
    var todo := Indices(256 * groups);
    NothingRun(s, k, j, todo);
    while todo != {}
      invariant Partial(s, data[..], k, j, todo) && multiset(data[..]) == multiset(s)
      invariant forall i :: i in todo ==> i >= 0
      decreases todo
    {
      Inhabited(todo);
      var i :| i in todo;
      LaneStep(s, data[..], k, j, todo, i);
      BitonicLane(data, count, k, j, i);
      todo := todo - {i};
    }
    AllRun(s, data[..], k, j);
  }

  lemma NothingRun(s: seq<int>, k: nat, j: nat, todo: set<int>)
    requires forall i :: 0 <= i < |s| ==> i in todo
    ensures Partial(s, s, k, j, todo)
  {
    hide Xor, And;
  }

  lemma AllRun(s: seq<int>, t: seq<int>, k: nat, j: nat)
    requires Partial(s, t, k, j, {})
    ensures t == Stage(s, k, j)
  {
    hide Xor, And;
  }

  // ---- the schedule ----------------------------------------------------------------

  /** The points (k, j) of one phase, from j on. */
  function Phase(k: nat, j: nat): seq<(nat, nat)> {
    if j == 0 then [] else [(k, j)] + Phase(k, j / 2)
  }

  /** The schedule for 2^m elements. */
  function Schedule(m: nat): seq<(nat, nat)> {
    if m == 0 then [] else Schedule(m - 1) + Phase(Pow2(m), Pow2(m) / 2)
  }

  /** The sequence after the stages of the given points. */
  function Stages(s: seq<int>, points: seq<(nat, nat)>): (t: seq<int>)
    ensures |t| == |s|
    decreases |points|
  {
    if points == [] then s else Stages(Stage(s, points[0].0, points[0].1), points[1..])
  }

  lemma {:induction false} StagesThen(s: seq<int>, p: seq<(nat, nat)>, q: seq<(nat, nat)>)
    ensures Stages(s, p + q) == Stages(Stages(s, p), q)
    decreases |p|
  {
    hide Stage;
    if p == [] {
      assert p + q == q;
    } else {
      assert (p + q)[1..] == p[1..] + q;
      StagesThen(Stage(s, p[0].0, p[0].1), p[1..], q);
    }
  }

  lemma OneStage(s: seq<int>, k: nat, j: nat)
    ensures Stages(s, [(k, j)]) == Stage(s, k, j)
  {
    hide Stage;
  }

  lemma PhaseLength(k: nat, c: nat)
    ensures |Phase(k, Pow2(c) / 2)| == c
  {
    if c > 0 { PhaseLength(k, c - 1); }
  }

  /** The schedule of 2^m elements has m (m + 1) / 2 points. */
  lemma {:induction false} ScheduleLength(m: nat)
    ensures 2 * |Schedule(m)| == m * (m + 1)
  {
    hide Phase;
    if m > 0 {
      ScheduleLength(m - 1);
      PhaseLength(Pow2(m), m);
      assert |Schedule(m)| == |Schedule(m - 1)| + m;
      assert (m - 1) * m + 2 * m == m * (m + 1);
    }
  }

  lemma {:induction false} SchedulePrefix(a: nat, m: nat)
    requires a <= m
    ensures Schedule(a) <= Schedule(m)
    decreases m
  {
    if a < m { SchedulePrefix(a, m - 1); }
  }

  /** A stage rearranges the elements: its lanes, run in index order, only exchange pairs. */
  lemma StagePermutes(s: seq<int>, k: nat, j: nat)
    ensures multiset(Stage(s, k, j)) == multiset(s)
  {
    hide Xor, And, LaneWrite, Partial, Stage;
    var t, todo := s, Indices(|s|);
    NothingRun(s, k, j, todo);
    while todo != {}
      invariant Partial(s, t, k, j, todo) && multiset(t) == multiset(s)
      invariant forall i :: i in todo ==> i >= 0
      decreases todo
    {
      Inhabited(todo);
      var i :| i in todo;
      LaneStep(s, t, k, j, todo, i);
      LanePermutes(t, k, j, i);
      t, todo := LaneWrite(t, k, j, i), todo - {i};
    }
    AllRun(s, t, k, j);
  }

  lemma LanePermutes(s: seq<int>, k: nat, j: nat, i: nat)
    ensures multiset(LaneWrite(s, k, j, i)) == multiset(s)
  {
    hide Xor, And;
  }

  lemma {:induction false} StagesPermute(s: seq<int>, points: seq<(nat, nat)>)
    ensures multiset(Stages(s, points)) == multiset(s)
    decreases |points|
  {
    hide Stage;
    if points != [] {
      StagePermutes(s, points[0].0, points[0].1);
      StagesPermute(Stage(s, points[0].0, points[0].1), points[1..]);
    }
  }

  /** The rest of phase a, from j = 2^(c - 1) on, ends it. */
  lemma {:induction false} PhaseMerges(s: seq<int>, m: nat, a: nat, c: nat)
    requires |s| == Pow2(m) && c <= a <= m && Merged(s, a, c)
    ensures Merged(Stages(s, Phase(Pow2(a), Pow2(c) / 2)), a, 0)
    decreases c
  {
    hide Merged, Stage;
    if c > 0 {
      var k, j := Pow2(a), Pow2(c - 1);
      Pow2Divides(m, c);
      StageKeepsMerged(s, a, c - 1);
      PhaseMerges(Stage(s, k, j), m, a, c - 1);
      assert Phase(k, j)[1..] == Phase(k, j / 2);
    }
  }

  lemma {:induction false} PhasesMerge(s: seq<int>, m: nat, a: nat)
    requires |s| == Pow2(m) && a <= m
    ensures Merged(Stages(s, Schedule(a)), a, 0)
    decreases a
  {
    hide Merged, Stage;
    if a == 0 {
      MergedAtStart(s);
    } else {
      PhasesMerge(s, m, a - 1);
      var t := Stages(s, Schedule(a - 1));
      NextPhase(t, a - 1);
      PhaseMerges(t, m, a, a);
      StagesThen(s, Schedule(a - 1), Phase(Pow2(a), Pow2(a) / 2));
    }
  }

  /** The whole schedule sorts every sequence of 2^m elements. */
  lemma ScheduleSorts(s: seq<int>, m: nat)
    requires |s| == Pow2(m)
    ensures Sorted(Stages(s, Schedule(m))) && multiset(Stages(s, Schedule(m))) == multiset(s)
  {
    hide Merged, Sorted;
    PhasesMerge(s, m, m);
    MergedAtEnd(Stages(s, Schedule(m)), m);
    StagesPermute(s, Schedule(m));
  }

  // ---- the launcher ----------------------------------------------------------------

  /** Largest count the 32-bit schedule handles: for 2^31 the loop variable k wraps to 0. */
  const MAX_SORT: int := 0x4000_0000

  /** The points dispatched for `count` elements: the whole schedule of a power of two up to
      2^30, and none from 2^32 on, where the 32-bit count is 0. */
  ghost function SortPoints(count: nat): seq<(nat, nat)> {
    if 1 < count <= MAX_SORT && IsPow2(count) then Schedule(Log2(count)) else []
  }

  lemma {:induction false} Log2OfPow2(m: nat)
    ensures Log2(Pow2(m)) == m
  {
    if m > 0 { Log2OfPow2(m - 1); }
  }

  /** launch_sort over a buffer of `count` elements. The result is false, with nothing changed,
      for counts that are not powers of two; it is also false when a dispatch fails, and then
      the stages `done` so far have been run. Requires count != 2^31, for which the schedule
      never ends. */
  method LaunchSort(data: array<int>, count: nat, faulty: bool) returns (ok: bool, ghost done: seq<(nat, nat)>)
    requires data.Length == count && count != 2 * MAX_SORT
    modifies data
    ensures data[..] == Stages(old(data[..]), done) && multiset(data[..]) == multiset(old(data[..]))
    ensures done <= SortPoints(count) && (ok ==> done == SortPoints(count))
    ensures if faulty then ok ==> count <= 1 || IsPow2(count) else ok <==> count <= 1 || IsPow2(count)
    ensures count <= 1 || (IsPow2(count) && count > MAX_SORT) ==> ok
    ensures ok && count <= MAX_SORT ==> Sorted(data[..])
    ensures ok && 1 < count <= MAX_SORT ==> 2 * |done| == Log2(count) * (Log2(count) + 1)
    ensures count > MAX_SORT || (count > 1 && !IsPow2(count)) ==> data[..] == old(data[..])
  {
    hide Stages, Schedule, And, Log2, Pow2, Sorted;
    ghost var s := data[..];
    done := [];
    NoStages(s);
    if count <= 1 {
      SortedAlready(s);
      return true, [];
    }
    AndPredecessor(count);
    if And(count, count - 1) != 0 {
      return false, [];
    }
    ghost var m: nat :| Pow2(m) == count;
    Log2OfPow2(m);
    LowWordOfCount(count, m);
    var n := count % 0x1_0000_0000;
    ok, done := RunSchedule(data, n, Groups(n), m, faulty);
    StagesPermute(s, done);
    if ok && n != 0 {
      ScheduleSorts(s, m);
      ScheduleLength(m);
    }
  }

  lemma NoStages(s: seq<int>)
    ensures Stages(s, []) == s
  {
  }

  lemma SortedAlready(s: seq<int>)
    requires |s| <= 1
    ensures Sorted(s)
  {
  }

  /** Cast to 32 bits, a power of two is itself up to 2^31 and 0 beyond. */
  lemma LowWordOfCount(count: nat, m: nat)
    requires count == Pow2(m) && count != 2 * MAX_SORT
    ensures if count <= MAX_SORT then count % 0x1_0000_0000 == count && m <= 30 else count % 0x1_0000_0000 == 0
  {
    Pow2Of30();
    if m <= 30 {
      Pow2Monotone(m, 30);
    } else if m >= 32 {
      Pow2Monotone(32, m);
      Pow2Product(m - 32, 32);
      WordIsPow2();
      QuotientUnique(count, 0x1_0000_0000, Pow2(m - 32), 0);
    }
  }

  lemma Pow2Of30()
    ensures Pow2(1) == 2 && Pow2(30) == MAX_SORT && Pow2(31) == 2 * MAX_SORT
  {
    WordIsPow2();
    Pow2Product(2, 30);
    assert Pow2(2) == 4;
  }

  /** `x << 1` on 32-bit words. */
  function Shl32(x: nat): nat {
    2 * x % 0x1_0000_0000
  }

  lemma Shl32Exact(x: nat)
    requires x < 0x1_0000_0000
    ensures Shl32(x) == if x < 0x8000_0000 then 2 * x else 2 * x - 0x1_0000_0000
  {
  }

  /** The loops over (k, j), with the 32-bit wrap of k. They run the points of the schedule in
      its order, up to a failing dispatch. */
  method RunSchedule(data: array<int>, n: nat, groups: nat, ghost m: nat, faulty: bool)
    returns (ok: bool, ghost done: seq<(nat, nat)>)
    requires n == 0 || (n == data.Length == Pow2(m) && m <= 30 && n <= 256 * groups)
    modifies data
    ensures data[..] == Stages(old(data[..]), done)
    ensures !faulty || n == 0 ==> ok
    ensures n == 0 ==> done == []
    ensures n != 0 ==> done <= Schedule(m) && (ok ==> done == Schedule(m))
  {
    hide Stage, Stages, Pow2, Shl32;
    ghost var s := data[..];
    NoStages(s);
    done := [];
    var k := 2;
    ghost var a := 1;
    Pow2Of30();
    while k <= n
      invariant n == 0 ==> a == 1
      invariant n != 0 ==> 1 <= a <= m + 1
      invariant k == Pow2(a) && a >= 1 && done == Schedule(a - 1) && data[..] == Stages(s, done)
      decreases m + 1 - a
    {
      PhaseInRange(a, m);
      SchedulePrefix(a, m);
      ghost var phase;
      ok, phase := RunPhase(data, n, groups, k, faulty);
      StagesThen(s, done, phase);
      done := done + phase;
      if !ok {
        return;
      }
      Shl32Exact(k);
      k := Shl32(k);
      a := a + 1;
    }
    if n != 0 {
      PhaseAfterLast(a, m);
    }
    ok := true;
  }

  /** The inner loop: one phase, with j halving from k / 2 to 1. */
  method RunPhase(data: array<int>, n: nat, groups: nat, k: nat, faulty: bool)
    returns (ok: bool, ghost done: seq<(nat, nat)>)
    requires n == data.Length && n <= 256 * groups
    modifies data
    ensures data[..] == Stages(old(data[..]), done)
    ensures !faulty ==> ok
    ensures done <= Phase(k, k / 2) && (ok ==> done == Phase(k, k / 2))
  {
    hide Stage, Stages;
    ghost var s := data[..];
    NoStages(s);
    done := [];
    var j := k / 2;
    while j > 0
      invariant j >= 0 && done + Phase(k, j) == Phase(k, k / 2)
      invariant data[..] == Stages(s, done)
    {
      var failed := Fails(faulty);
      if failed {
        return false, done;
      }
      StagesThen(s, done, [(k, j)]);
      OneStage(data[..], k, j);
      DispatchStage(data, n, k, j, groups);
      assert done + Phase(k, j) == done + [(k, j)] + Phase(k, j / 2);
      done, j := done + [(k, j)], j / 2;
    }
    ok := true;
  }

  lemma PhaseInRange(a: nat, m: nat)
    requires Pow2(a) <= Pow2(m) && m <= 30
    ensures a <= m && 2 * Pow2(a) == Pow2(a + 1) < 0x1_0000_0000
  {
    Pow2Of30();
    if a > m { Pow2Monotone(m, a); }
    Pow2Monotone(a, 30);
  }

  lemma PhaseAfterLast(a: nat, m: nat)
    requires Pow2(a) > Pow2(m) && a <= m + 1
    ensures a == m + 1
  {
    if a <= m { Pow2Monotone(a, m); }
  }

  // ---- where the schedule stops being one ------------------------------------------

  /** The value of k after t rounds of `k <<= 1` in 32-bit arithmetic. */
  function KAfter(t: nat): nat {
    if t == 0 then 2 else Shl32(KAfter(t - 1))
  }

  lemma {:induction false} KAfterIs(t: nat)
    ensures KAfter(t) == if t <= 30 then Pow2(t + 1) else 0
  {
    hide Pow2, Shl32;
    Pow2Of30();
    if t > 0 {
      KAfterIs(t - 1);
      if t <= 31 { Pow2Monotone(t, 31); }
      Shl32Exact(KAfter(t - 1));
      if t <= 30 {
        Pow2Monotone(t + 1, 31);
        Pow2Step(t);
      }
    }
  }

  lemma Pow2Step(e: nat)
    ensures Pow2(e + 1) == 2 * Pow2(e)
  {
  }

  /** The outer loop ends for n = 2^m exactly when m <= 30: at 2^31 the variable k passes from
      2^31 to 0 and never exceeds n again. */
  lemma ScheduleEndsIff(m: nat)
    requires 1 <= m <= 31
    ensures (exists t: nat :: KAfter(t) > Pow2(m)) <==> m <= 30
  {
    Pow2Of30();
    if m <= 30 {
      KAfterIs(m);
      assert KAfter(m) > Pow2(m);
    } else {
      forall t: nat ensures KAfter(t) <= Pow2(m) {
        KAfterIs(t);
        if t <= 30 { Pow2Monotone(t + 1, 31); }
      }
    }
  }

  // ---- sorted permutations are unique ----------------------------------------------

  lemma HeadIsLeast(s: seq<int>, t: seq<int>)
    requires Sorted(s) && multiset(s) == multiset(t) && s != [] && t != []
    ensures s[0] <= t[0]
  {
    assert t[0] in multiset(s);
  }

  lemma TailIsSorted(s: seq<int>)
    requires Sorted(s) && s != []
    ensures Sorted(s[1..])
  {
  }

  /** Two sorted sequences with the same elements are equal. */
  lemma {:induction false} SortedIsUnique(s: seq<int>, t: seq<int>)
    requires Sorted(s) && Sorted(t) && multiset(s) == multiset(t)
    ensures s == t
  {
    hide Sorted;
    assert |s| == |multiset(s)| == |multiset(t)| == |t|;
    if s != [] {
      HeadIsLeast(s, t);
      HeadIsLeast(t, s);
      TailIsSorted(s);
      TailIsSorted(t);
      assert s == [s[0]] + s[1..] && t == [t[0]] + t[1..];
      assert multiset(s[1..]) == multiset(s) - multiset{s[0]};
      assert multiset(t[1..]) == multiset(t) - multiset{t[0]};
      SortedIsUnique(s[1..], t[1..]);
    }
  }
}
