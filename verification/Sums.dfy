/** Sums of ranges of a sequence. */
module Sums {

  function Sum(s: seq<int>, lo: int, hi: int): int
    requires 0 <= lo <= hi <= |s|
    decreases hi - lo
  {
    if lo == hi then 0 else Sum(s, lo, hi - 1) + s[hi - 1]
  }

  lemma {:induction false} SumSplit(s: seq<int>, lo: int, mid: int, hi: int)
    requires 0 <= lo <= mid <= hi <= |s|
    ensures Sum(s, lo, hi) == Sum(s, lo, mid) + Sum(s, mid, hi)
    decreases hi - mid
  {
    if mid < hi {
      SumSplit(s, lo, mid, hi - 1);
    }
  }

  /** Equal ranges have equal sums. */
  lemma {:induction false} SumShift(s: seq<int>, t: seq<int>, lo: int, hi: int, d: int)
    requires 0 <= lo <= hi <= |s| && 0 <= lo + d && hi + d <= |t|
    requires forall i :: lo <= i < hi ==> s[i] == t[i + d]
    ensures Sum(s, lo, hi) == Sum(t, lo + d, hi + d)
    decreases hi - lo
  {
    if lo < hi {
      SumShift(s, t, lo, hi - 1, d);
    }
  }

  lemma {:induction false} SumOfZeros(s: seq<int>, lo: int, hi: int)
    requires 0 <= lo <= hi <= |s| && forall i :: lo <= i < hi ==> s[i] == 0
    ensures Sum(s, lo, hi) == 0
    decreases hi - lo
  {
    if lo < hi {
      SumOfZeros(s, lo, hi - 1);
    }
  }

  /** Adding the upper half onto the lower half keeps the total. */
  lemma {:induction false} SumFolded(x: seq<int>, y: seq<int>, w: int, n: int)
    requires 0 <= n <= w && 2 * w <= |x| && w <= |y|
    requires forall i :: 0 <= i < w ==> y[i] == x[i] + x[i + w]
    ensures Sum(y, 0, n) == Sum(x, 0, n) + Sum(x, w, w + n)
    decreases n
  {
    if n > 0 {
      SumFolded(x, y, w, n - 1);
    }
  }
}
