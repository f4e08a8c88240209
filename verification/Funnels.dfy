/** The funnels of include/parallax/stdpar.hpp: each algorithm in place, staged through a
    scratch copy, or on the host, with the same result on every path. */
module Funnels {
  import opened Bits
  import opened Lanes
  import opened Sums
  import opened BitonicSort
  import Scan
  import Reduce
  import Compact

  /** How a funnel runs: no kernel or no scratch memory (the host loop), on the caller's arena
      buffers, or on scratch copies. */
  datatype Path = Host | InPlace | Staged

  /** memcpy between buffers of the same length. */
  method CopyBuffer(src: array<int>, dst: array<int>)
    requires src.Length == dst.Length
    modifies dst
    ensures dst[..] == old(src[..])
  {
    for i := 0 to src.Length
      invariant dst[..i] == old(src[..])[..i]
      invariant src == dst ==> dst[..] == old(src[..])
      invariant src != dst ==> src[..] == old(src[..])
    {
      dst[i] := src[i];
    }
  }

  // ---- scans and reduction ---------------------------------------------------------

  /** device_scan; the output may be the input. `ok` tells whether the launch succeeded, which
      the source does not look at: after a failed launch the caller gets the input itself or
      the scans of its blocks. */
  method DeviceScan(input: array<int>, output: array<int>, path: Path, faulty: bool) returns (ghost ok: bool)
    requires input.Length == output.Length < MAX_COUNT
    modifies output
    ensures path == Host || !faulty || input.Length <= 1 ==> ok
    ensures !ok ==> output[..] == old(input[..]) || Scan.PartlyScanned(old(input[..]), output[..], {})
    ensures ok ==> forall i :: 0 <= i < output.Length ==> output[i] == Sum(old(input[..]), 0, i + 1)
  {
    ghost var s := input[..];
    var n := input.Length;
    match path
    case InPlace =>
      if input != output {
        CopyBuffer(input, output);
      }
      var launched := Scan.LaunchScan(output, faulty);
      ok := launched;
    case Staged =>
      var scratch := new int[n];
      CopyBuffer(input, scratch);
      var launched := Scan.LaunchScan(scratch, faulty);
      CopyBuffer(scratch, output);
      ok := launched;
    case Host =>
      var acc := 0;
      for i := 0 to n
        invariant acc == Sum(s, 0, i)
        invariant forall j :: 0 <= j < i ==> output[j] == Sum(s, 0, j + 1)
        invariant forall j :: i <= j < n ==> input[j] == s[j]
      {
        acc := acc + input[i];
        output[i] := acc;
      }
      ok := true;
  }

  /** device_exclusive_scan has no in-place path: it falls under Staged. After a failed launch
      the output is what its scratch buffer happened to hold. */
  method DeviceExclusiveScan(input: array<int>, output: array<int>, init: int, path: Path, faulty: bool)
    returns (ghost ok: bool)
    requires input.Length == output.Length < MAX_COUNT
    modifies output
    ensures path == Host || !faulty || input.Length == 0 ==> ok
    ensures ok ==> forall i :: 0 <= i < output.Length ==> output[i] == init + Sum(old(input[..]), 0, i)
  {
    ghost var s := input[..];
    var n := input.Length;
    if path != Host {
      var scratch, result := new int[n], new int[n];
      CopyBuffer(input, scratch);
      var launched := Scan.LaunchExclusiveScan(scratch, result, init, faulty);
      CopyBuffer(result, output);
      ok := launched;
    } else {
      var acc := init;
      for i := 0 to n
        invariant acc == init + Sum(s, 0, i)
        invariant forall j :: 0 <= j < i ==> output[j] == init + Sum(s, 0, j)
        invariant forall j :: i <= j < n ==> input[j] == s[j]
      {
        var t := input[i];
        output[i] := acc;
        acc := acc + t;
      }
      ok := true;
    }
  }

  /** device_reduce. After a failed launch the caller gets `init`. */
  method DeviceReduce(data: array<int>, init: int, path: Path, faulty: bool) returns (r: int, ghost ok: bool)
    requires data.Length < MAX_COUNT
    ensures path == Host || !faulty || data.Length <= 1 ==> ok
    ensures r == if ok then init + Sum(data[..], 0, data.Length) else init
  {
    match path
    case InPlace =>
      var launched, gpu := Reduce.LaunchReduce(data, faulty);
      r, ok := init + gpu, launched;
    case Staged =>
      var scratch := new int[data.Length];
      CopyBuffer(data, scratch);
      var launched, gpu := Reduce.LaunchReduce(scratch, faulty);
      r, ok := init + gpu, launched;
    case Host =>
      r := init;
      for i := 0 to data.Length
        invariant r == init + Sum(data[..], 0, i)
      {
        r := r + data[i];
      }
      ok := true;
  }

  // ---- compaction ------------------------------------------------------------------

  /** device_copy_if into a separate output with room for the kept elements, returning their
      number. After a failed launch that number is 0 and the output is untouched. */
  method DeviceCopyIf(input: array<int>, output: array<int>, pred: int -> bool, path: Path, faulty: bool)
    returns (kept: int, ghost ok: bool)
    requires input != output && |Compact.Filter(input[..], pred)| <= output.Length && input.Length < MAX_COUNT
    modifies output
    ensures path == Host || !faulty || input.Length == 0 ==> ok
    ensures ok ==>
      var f := Compact.Filter(input[..], pred);
      kept == |f| <= output.Length && output[..kept] == f && output[kept..] == old(output[..])[kept..]
    ensures !ok ==> kept == 0 && output[..] == old(output[..])
  {
    ghost var s, out0 := input[..], output[..];
    var n := input.Length;
    if path != Host {
      Compact.FilterShorter(s, pred);
      var ai, ao := new int[n], new int[n];
      CopyBuffer(input, ai);
      var launched, k := Compact.LaunchCompact(ai, ao, pred, faulty);
      kept, ok := k, launched;
      ghost var f := ao[..kept];
      for i := 0 to kept
        invariant ao[..kept] == f && output[..i] == ao[..i] && output[i..] == out0[i..]
      {
        output[i] := ao[i];
      }
    } else {
      kept := HostCopyIf(input, output, pred);
      ok := true;
    }
  }

  /** The sequential loop. */
  method HostCopyIf(input: array<int>, output: array<int>, pred: int -> bool) returns (kept: int)
    requires input != output && |Compact.Filter(input[..], pred)| <= output.Length
    modifies output
    ensures var f := Compact.Filter(input[..], pred);
      kept == |f| <= output.Length && output[..kept] == f && output[kept..] == old(output[..])[kept..]
  {
    ghost var s, out0 := input[..], output[..];
    var n := input.Length;
    kept := 0;
    for i := 0 to n
      invariant kept == Compact.Place(s, pred, i) <= output.Length
      invariant output[..kept] == Compact.Filter(s[..i], pred) && output[kept..] == out0[kept..]
    {
      Compact.ScannedStep(s, pred, i);
      assert s[..i + 1][..i] == s[..i];
      if pred(input[i]) {
        Compact.KeptElement(s, pred, i);
        output[kept] := input[i];
        kept := kept + 1;
      }
    }
    assert s[..n] == s;
  }

  // ---- sort ------------------------------------------------------------------------

  function Insert(x: int, s: seq<int>): seq<int> {
    if s == [] || x <= s[0] then [x] + s else [s[0]] + Insert(x, s[1..])
  }

  /** The sorted permutation of s: what std::sort leaves in its range. */
  function SortedOf(s: seq<int>): seq<int> {
    if s == [] then [] else Insert(s[0], SortedOf(s[1..]))
  }

  lemma {:induction false} InsertElements(x: int, s: seq<int>)
    ensures multiset(Insert(x, s)) == multiset(s) + multiset{x}
  {
    if s != [] && x > s[0] {
      InsertElements(x, s[1..]);
      assert s == [s[0]] + s[1..];
    }
  }

  lemma {:induction false} InsertKeepsSorted(x: int, s: seq<int>)
    requires Sorted(s)
    ensures Sorted(Insert(x, s))
  {
    if s != [] && x > s[0] {
      InsertKeepsSorted(x, s[1..]);
      InsertElements(x, s[1..]);
      LeastHead(s[0], Insert(x, s[1..]), x, s[1..]);
    }
  }

  /** A value below x and below all of s goes in front of a sorted arrangement of them. */
  lemma LeastHead(y: int, t: seq<int>, x: int, s: seq<int>)
    requires Sorted(t) && multiset(t) == multiset(s) + multiset{x}
    requires y <= x && forall i :: 0 <= i < |s| ==> y <= s[i]
    ensures Sorted([y] + t)
  {
    forall i | 0 <= i < |t| ensures y <= t[i] {
      assert t[i] in multiset(t);
      assert t[i] == x || t[i] in multiset(s);
    }
  }

  lemma {:induction false} SortedOfIsSorted(s: seq<int>)
    ensures Sorted(SortedOf(s)) && multiset(SortedOf(s)) == multiset(s)
  {
    if s != [] {
      SortedOfIsSorted(s[1..]);
      InsertKeepsSorted(s[0], SortedOf(s[1..]));
      InsertElements(s[0], SortedOf(s[1..]));
      assert s == [s[0]] + s[1..];
    }
  }

  lemma SortedOfLength(s: seq<int>)
    ensures |SortedOf(s)| == |s|
  {
    SortedOfIsSorted(s);
    assert |SortedOf(s)| == |multiset(SortedOf(s))| == |multiset(s)| == |s|;
  }

  /** Padding with the greatest value is transparent: the sorted padded buffer is the sorted
      data followed by the padding. */
  lemma PaddingSortsToTheEnd(s: seq<int>, t: seq<int>, top: int, pad: nat)
    requires forall i :: 0 <= i < |s| ==> s[i] <= top
    requires Sorted(t) && multiset(t) == multiset(s + seq(pad, _ => top))
    ensures |t| == |s| + pad && t[..|s|] == SortedOf(s)
  {
    hide SortedOf, Sorted;
    var u, p := SortedOf(s), seq(pad, _ => top);
    SortedOfIsSorted(s);
    SortedOfLength(s);
    forall i | 0 <= i < |u| ensures u[i] <= top {
      assert u[i] in multiset(s);
    }
    PaddedSorted(u, top, p);
    assert multiset(u + p) == multiset(u) + multiset(p) == multiset(s + p);
    SortedIsUnique(t, u + p);
  }

  lemma PaddedSorted(u: seq<int>, top: int, p: seq<int>)
    requires Sorted(u) && (forall i :: 0 <= i < |u| ==> u[i] <= top) && forall i :: 0 <= i < |p| ==> p[i] == top
    ensures Sorted(u + p)
  {
  }

  /** The least power of two that is at least n; `m <<= 1` does not wrap up to 2^63. */
  method NextPow2(n: nat) returns (m: nat)
    requires n <= MAX_PADDED
    ensures IsPow2(m) && n <= m <= MAX_PADDED && (n >= 1 ==> m < 2 * n)
    ensures n <= MAX_SORT ==> m <= MAX_SORT
    ensures n <= 1 ==> m == 1
    ensures n > 2 * MAX_SORT ==> m > 2 * MAX_SORT
  {
    m := 1;
    ghost var e := 0;
    Pow2Of30();
    Pow2Of63();
    while m < n
      invariant m == Pow2(e) && 1 <= m <= MAX_PADDED && (n >= 1 ==> m < 2 * n)
      invariant e >= 0 && (n <= MAX_SORT ==> m <= MAX_SORT) && (n <= 1 ==> m == 1)
      decreases n - m
    {
      if e >= 63 { Pow2Monotone(63, e); }
      if e >= 30 { Pow2Monotone(30, e); }
      if e < 63 { Pow2Monotone(e + 1, 63); }
      if e < 30 { Pow2Monotone(e + 1, 30); }
      m, e := 2 * m, e + 1;
    }
  }

  /** The longest buffer whose padded length is a 64-bit word. */
  const MAX_PADDED: int := 0x8000_0000_0000_0000

  lemma Pow2Of63()
    ensures Pow2(63) == MAX_PADDED
  {
    WordIsPow2();
    assert Pow2(64) == 2 * Pow2(63);
  }

  /** device_sort, for a type whose greatest value is `top`: in place when the count is a power
      of two, else padded to the next one, or on the host. On the device paths more than 2^31
      elements come back as they were, because the 32-bit count of the padded buffer is 0; for
      more than 2^30 and at most 2^31 elements the schedule never ends, so these are excluded.
      After a failed launch every element is an old one or the padding. */
  method DeviceSort(data: array<int>, top: int, path: Path, faulty: bool) returns (ghost ok: bool)
    requires forall i :: 0 <= i < data.Length ==> data[i] <= top
    requires path != Host ==> !(MAX_SORT < data.Length <= 2 * MAX_SORT) && data.Length <= MAX_PADDED
    modifies data
    ensures path == Host || !faulty || data.Length <= 1 ==> ok
    ensures ok && (path == Host || data.Length <= MAX_SORT) ==> data[..] == SortedOf(old(data[..]))
    ensures path != Host && data.Length > 2 * MAX_SORT ==> data[..] == old(data[..])
    ensures !ok ==> forall x :: x in data[..] ==> x == top || x in old(data[..])
  {
    ghost var s := data[..];
    var n := data.Length;
    SortedOfIsSorted(s);
    if path != Host {
      var m := NextPow2(n);
      if m == n && path == InPlace {
        var launched, done := LaunchSort(data, n, faulty);
        ok := launched;
        if ok && n <= MAX_SORT {
          SortedIsUnique(data[..], SortedOf(s));
        }
        SameElements(data[..], s);
      } else {
        ok := SortPadded(data, top, m, faulty);
      }
    } else {
      HostSort(data);
      ok := true;
    }
  }

  lemma SameElements(t: seq<int>, s: seq<int>)
    requires multiset(t) == multiset(s)
    ensures forall x :: x in t ==> x in s
  {
    forall x | x in t ensures x in s {
      assert x in multiset(t);
    }
  }

  /** Lines 167-175: sort a padded copy and copy its first n elements back. */
  method SortPadded(data: array<int>, top: int, m: nat, faulty: bool) returns (ghost ok: bool)
    requires forall i :: 0 <= i < data.Length ==> data[i] <= top
    requires data.Length <= m != 2 * MAX_SORT && IsPow2(m)
    modifies data
    ensures !faulty || m <= 1 ==> ok
    ensures ok && m <= MAX_SORT ==> data[..] == SortedOf(old(data[..]))
    ensures m > MAX_SORT ==> data[..] == old(data[..])
    ensures forall x :: x in data[..] ==> x == top || x in old(data[..])
  {
    hide SortedOf, Sorted, Stages, SortPoints, Log2;
    ghost var s := data[..];
    var n := data.Length;
    var pad := Padded(data, top, m);
    ghost var padded := pad[..];
    var launched, done := LaunchSort(pad, m, faulty);
    ok := launched;
    if ok && m <= MAX_SORT {
      PaddingSortsToTheEnd(s, pad[..], top, m - n);
    }
    SameElements(pad[..], padded);
    CopyFront(pad, data);
    assert forall y :: y in data[..] ==> y in pad[..];
  }

  /** A buffer of m elements: the data, then the padding. */
  method Padded(data: array<int>, top: int, m: nat) returns (pad: array<int>)
    requires data.Length <= m
    ensures fresh(pad) && pad[..] == data[..] + seq(m - data.Length, _ => top)
  {
    pad := new int[m](_ => top);
    for i := 0 to data.Length
      invariant pad[..i] == data[..i]
      invariant forall j :: i <= j < m ==> pad[j] == top
    {
      pad[i] := data[i];
    }
  }

  /** memcpy of the first elements of a longer buffer. */
  method CopyFront(src: array<int>, dst: array<int>)
    requires src != dst && dst.Length <= src.Length
    modifies dst
    ensures dst[..] == src[..dst.Length]
  {
    for i := 0 to dst.Length
      invariant dst[..i] == src[..i]
    {
      dst[i] := src[i];
    }
  }

  /** std::sort, known by its result only. */
  method HostSort(data: array<int>)
    modifies data
    ensures data[..] == SortedOf(old(data[..]))
  {
    hide SortedOf;
    var t := SortedOf(data[..]);
    SortedOfLength(data[..]);
    for i := 0 to data.Length
      invariant data[..i] == t[..i]
    {
      data[i] := t[i];
    }
  }
}
