/** The mathematics of the bitonic sorting network: one compare-exchange stage, and what it
    does to bitonic sequences. Sequences are compared through thresholds: for every c, the
    bits `s[i] >= c` of a bitonic sequence never alternate twice. */
module BitonicMerge {
  import opened Bits

  // ---- one stage -------------------------------------------------------------------

  /** The element that the lower index of a compared pair receives. */
  function Lower(a: int, b: int, ascending: bool): int {
    if (a > b) == ascending then b else a
  }

  function Upper(a: int, b: int, ascending: bool): int {
    if (a > b) == ascending then a else b
  }

  /** Element i after the stage (k, j) of shaders/bitonic.comp. */
  function StageAt(s: seq<int>, k: nat, j: nat, i: nat): int
    requires i < |s|
  {
    var l := Xor(i, j);
    if l >= |s| || l == i then s[i]
    else if i < l then Lower(s[i], s[l], And(i, k) == 0)
    else Upper(s[l], s[i], And(l, k) == 0)
  }

  function Stage(s: seq<int>, k: nat, j: nat): (t: seq<int>)
    ensures |t| == |s|
  {
    seq(|s|, i requires 0 <= i < |s| => StageAt(s, k, j, i))
  }

  // ---- bitonic sequences -----------------------------------------------------------

  predicate Bit(s: seq<int>, c: int, i: int)
    requires 0 <= i < |s|
  {
    s[i] >= c
  }

  predicate Alternates(s: seq<int>, c: int, p: int, q: int, r: int, t: int)
    requires 0 <= p < |s| && 0 <= q < |s| && 0 <= r < |s| && 0 <= t < |s|
  {
    Bit(s, c, p) == Bit(s, c, r) && Bit(s, c, q) == Bit(s, c, t) && Bit(s, c, p) != Bit(s, c, q)
  }

  ghost predicate Bitonic(s: seq<int>, lo: int, hi: int)
    requires 0 <= lo <= hi <= |s|
  {
    forall c, p, q, r, t {:trigger Alternates(s, c, p, q, r, t)} ::
      lo <= p < q < r < t < hi ==> !Alternates(s, c, p, q, r, t)
  }

  predicate Ordered(x: int, y: int, ascending: bool) {
    if ascending then x <= y else x >= y
  }

  ghost predicate Monotone(s: seq<int>, lo: int, hi: int, ascending: bool)
    requires 0 <= lo <= hi <= |s|
  {
    forall p, q :: lo <= p < q < hi ==> Ordered(s[p], s[q], ascending)
  }

  /** An ascending run followed by a descending run is bitonic. */
  lemma UpDownIsBitonic(s: seq<int>, lo: int, mid: int, hi: int)
    requires 0 <= lo <= mid <= hi <= |s| && Monotone(s, lo, mid, true) && Monotone(s, mid, hi, false)
    ensures Bitonic(s, lo, hi)
  {
    forall c, p, q, r, t {:trigger Alternates(s, c, p, q, r, t)} | lo <= p < q < r < t < hi
      ensures !Alternates(s, c, p, q, r, t)
    {
      assert q < mid ==> s[p] <= s[q];
      assert q >= mid ==> s[q] >= s[r];
      assert r < mid ==> s[q] <= s[r];
      assert r >= mid ==> s[r] >= s[t];
    }
  }

  // ---- the half-cleaner ------------------------------------------------------------

  /** s' is s after comparing every i of [lo, lo + j) with i + j. */
  ghost predicate HalfCleaned(s: seq<int>, s': seq<int>, lo: int, j: int, ascending: bool)
    requires |s| == |s'| && 0 <= lo && 0 < j && lo + 2 * j <= |s|
  {
    forall i {:trigger s'[i]} :: lo <= i < lo + j ==>
      s'[i] == Lower(s[i], s[i + j], ascending) && s'[i + j] == Upper(s[i], s[i + j], ascending)
  }

  /** Neither half of a cleaned bitonic sequence alternates twice: u is the whole low or the
      whole high half, whose bits are all conjunctions or all disjunctions of two old bits. */
  lemma HalfDoesNotAlternate(s: seq<int>, u: seq<int>, lo: int, j: int, conj: bool, c: int, p: int, q: int, r: int,
                             t: int)
    requires 0 <= lo && 0 < j && lo + 2 * j <= |s| && |u| == j && Bitonic(s, lo, lo + 2 * j)
    requires forall i {:trigger Bit(u, c, i)} :: 0 <= i < j ==>
               Bit(u, c, i) == if conj then Bit(s, c, lo + i) && Bit(s, c, lo + i + j)
                                       else Bit(s, c, lo + i) || Bit(s, c, lo + i + j)
    requires 0 <= p < q < r < t < j
    ensures !Alternates(u, c, p, q, r, t)
  {
    var p', q', r', t' := lo + p, lo + q, lo + r, lo + t;
    assert !Alternates(s, c, p', q', r', t');
    assert !Alternates(s, c, p', q', r', t' + j);
    assert !Alternates(s, c, p', q', r' + j, t' + j);
    assert !Alternates(s, c, p' + j, q' + j, r' + j, t' + j);
    assert !Alternates(s, c, q', r', t', p' + j);
    assert !Alternates(s, c, r', t', p' + j, q' + j);
  }

  lemma LowHalfBitonic(s: seq<int>, s': seq<int>, lo: int, j: int, ascending: bool)
    requires |s| == |s'| && 0 <= lo && 0 < j && lo + 2 * j <= |s|
    requires Bitonic(s, lo, lo + 2 * j) && HalfCleaned(s, s', lo, j, ascending)
    ensures Bitonic(s', lo, lo + j)
  {
    var u := s'[lo..lo + j];
    forall c, p, q, r, t {:trigger Alternates(s', c, p, q, r, t)} | lo <= p < q < r < t < lo + j
      ensures !Alternates(s', c, p, q, r, t)
    {
      forall i {:trigger Bit(u, c, i)} | 0 <= i < j
        ensures Bit(u, c, i) == if ascending then Bit(s, c, lo + i) && Bit(s, c, lo + i + j)
                                else Bit(s, c, lo + i) || Bit(s, c, lo + i + j)
      {
        assert s'[lo + i] == Lower(s[lo + i], s[lo + i + j], ascending);
      }
      HalfDoesNotAlternate(s, u, lo, j, ascending, c, p - lo, q - lo, r - lo, t - lo);
    }
  }

  lemma HighHalfBitonic(s: seq<int>, s': seq<int>, lo: int, j: int, ascending: bool)
    requires |s| == |s'| && 0 <= lo && 0 < j && lo + 2 * j <= |s|
    requires Bitonic(s, lo, lo + 2 * j) && HalfCleaned(s, s', lo, j, ascending)
    ensures Bitonic(s', lo + j, lo + 2 * j)
  {
    var u := s'[lo + j..lo + 2 * j];
    forall c, p, q, r, t {:trigger Alternates(s', c, p, q, r, t)} | lo + j <= p < q < r < t < lo + 2 * j
      ensures !Alternates(s', c, p, q, r, t)
    {
      forall i {:trigger Bit(u, c, i)} | 0 <= i < j
        ensures Bit(u, c, i) == if !ascending then Bit(s, c, lo + i) && Bit(s, c, lo + i + j)
                                else Bit(s, c, lo + i) || Bit(s, c, lo + i + j)
      {
        assert s'[lo + i] == Lower(s[lo + i], s[lo + i + j], ascending);
        assert u[i] == s'[lo + i + j];
      }
      var o := lo + j;
      HalfDoesNotAlternate(s, u, lo, j, !ascending, c, p - o, q - o, r - o, t - o);
    }
  }

  /** Every element of the low half is in order with every element of the high half. */
  lemma HalvesOrdered(s: seq<int>, s': seq<int>, lo: int, j: int, ascending: bool, p: int, q: int)
    requires |s| == |s'| && 0 <= lo && 0 < j && lo + 2 * j <= |s|
    requires Bitonic(s, lo, lo + 2 * j) && HalfCleaned(s, s', lo, j, ascending)
    requires lo <= p < lo + j <= q < lo + 2 * j
    ensures Ordered(s'[p], s'[q], ascending)
  {
    var q0 := q - j;
    assert s'[p] == Lower(s[p], s[p + j], ascending);
    assert s'[q0] == Lower(s[q0], s[q0 + j], ascending);
    var c := if ascending then s'[p] else s'[q];
    assert p < q0 ==> !Alternates(s, c, p, q0, p + j, q0 + j);
    assert q0 < p ==> !Alternates(s, c, q0, p, q0 + j, p + j);
  }
}
