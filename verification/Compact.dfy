/** Stream compaction of `launch_compact`: flags, in-place scan of the flags, and the scatter
    of shaders/scatter.comp with its lanes in any order. */
module Compact {
  import opened Lanes
  import opened Sums
  import Scan

  /** The kept elements in order: what std::copy_if copies. */
  function Filter(s: seq<int>, pred: int -> bool): seq<int> {
    if s == [] then []
    else Filter(s[..|s| - 1], pred) + if pred(s[|s| - 1]) then [s[|s| - 1]] else []
  }

  function Flags(s: seq<int>, pred: int -> bool): (f: seq<int>)
    ensures |f| == |s|
  {
    seq(|s|, i requires 0 <= i < |s| => if pred(s[i]) then 1 else 0)
  }

  /** The number of elements kept before index i: the place of element i in the output. */
  function Place(s: seq<int>, pred: int -> bool, i: int): nat
    requires 0 <= i <= |s|
  {
    |Filter(s[..i], pred)|
  }

  /** The scanned flags count the kept elements. */
  lemma {:induction false} FlagSumIsPlace(s: seq<int>, pred: int -> bool, i: int)
    requires 0 <= i <= |s|
    ensures Sum(Flags(s, pred), 0, i) == Place(s, pred, i)
    decreases i
  {
    if i > 0 {
      FlagSumIsPlace(s, pred, i - 1);
      assert s[..i][..i - 1] == s[..i - 1];
    }
  }

  /** A kept element stands in the filtered sequence at its place. */
  lemma {:induction false} KeptElement(s: seq<int>, pred: int -> bool, i: int)
    requires 0 <= i < |s| && pred(s[i])
    ensures Place(s, pred, i) < |Filter(s, pred)| && Filter(s, pred)[Place(s, pred, i)] == s[i]
    decreases |s|
  {
    var init := s[..|s| - 1];
    if i < |s| - 1 {
      KeptElement(init, pred, i);
      assert init[..i] == s[..i];
    }
  }

  /** The index of the element that lands at place r. */
  function Keeper(s: seq<int>, pred: int -> bool, r: nat): (i: int)
    requires r < |Filter(s, pred)|
    ensures 0 <= i < |s| && pred(s[i])
  {
    var init := s[..|s| - 1];
    if r < |Filter(init, pred)| then Keeper(init, pred, r) else |s| - 1
  }

  lemma {:induction false} KeeperPlace(s: seq<int>, pred: int -> bool, r: nat)
    requires r < |Filter(s, pred)|
    ensures Place(s, pred, Keeper(s, pred, r)) == r
    decreases |s|
  {
    var init := s[..|s| - 1];
    if r < |Filter(init, pred)| {
      KeeperPlace(init, pred, r);
      assert init[..Keeper(init, pred, r)] == s[..Keeper(init, pred, r)];
    }
  }

  /** Scatter destinations are pairwise distinct. */
  lemma PlacesDistinct(s: seq<int>, pred: int -> bool, i: int, j: int)
    requires 0 <= i < j < |s| && pred(s[i])
    ensures Place(s, pred, i) < Place(s, pred, j)
  {
    KeptElement(s[..j], pred, i);
    assert s[..j][..i] == s[..i];
  }

  lemma KeeperOfPlace(s: seq<int>, pred: int -> bool, i: int)
    requires 0 <= i < |s| && pred(s[i])
    ensures Place(s, pred, i) < |Filter(s, pred)| && Keeper(s, pred, Place(s, pred, i)) == i
  {
    KeptElement(s, pred, i);
    var r := Place(s, pred, i);
    var k := Keeper(s, pred, r);
    KeeperPlace(s, pred, r);
    if k < i {
      PlacesDistinct(s, pred, k, i);
    } else if i < k {
      PlacesDistinct(s, pred, i, k);
    }
  }

  // ---- the kernels -----------------------------------------------------------------

  /** shaders/flags.comp with the caller's predicate, lanes in any order. */
  method DispatchFlags(input: array<int>, flags: array<int>, pred: int -> bool, groups: nat)
    requires input != flags && input.Length == flags.Length <= 256 * groups
    modifies flags
    ensures flags[..] == Flags(input[..], pred)
  {
    var todo := Indices(256 * groups);
    while todo != {}
      invariant todo <= Indices(256 * groups)
      invariant forall i :: 0 <= i < flags.Length && i !in todo ==> flags[i] == Flags(input[..], pred)[i]
      decreases todo
    {
      Inhabited(todo);
      var i :| i in todo;
      if i < input.Length {
        flags[i] := if pred(input[i]) then 1 else 0;
      }
      todo := todo - {i};
    }
  }

  /** The output after the lanes outside `todo` have run: place r is filled by its keeper. */
  ghost predicate PartlyScattered(s: seq<int>, pred: int -> bool, out0: seq<int>, out: seq<int>, todo: set<int>) {
    && |out| == |out0|
    && forall r {:trigger out[r]} :: 0 <= r < |out| ==>
         out[r] == if r < |Filter(s, pred)| && Keeper(s, pred, r) !in todo then Filter(s, pred)[r] else out0[r]
  }

  lemma LaneScatters(s: seq<int>, pred: int -> bool, out0: seq<int>, out: seq<int>, todo: set<int>, i: int)
    requires PartlyScattered(s, pred, out0, out, todo) && i in todo && 0 <= i < |s| && |Filter(s, pred)| <= |out0|
    ensures pred(s[i]) ==>
      (Place(s, pred, i) < |out| && PartlyScattered(s, pred, out0, out[Place(s, pred, i) := s[i]], todo - {i}))
    ensures !pred(s[i]) ==> PartlyScattered(s, pred, out0, out, todo - {i})
  {
    if pred(s[i]) {
      KeeperOfPlace(s, pred, i);
      KeptElement(s, pred, i);
      var p := Place(s, pred, i);
      forall r | 0 <= r < |Filter(s, pred)| && Keeper(s, pred, r) == i ensures r == p {
        KeeperPlace(s, pred, r);
      }
    }
  }

  lemma {:induction false} FilterShorter(s: seq<int>, pred: int -> bool)
    ensures |Filter(s, pred)| <= |s|
    decreases |s|
  {
    if s != [] { FilterShorter(s[..|s| - 1], pred); }
  }

  /** pos is the inclusive scan of the flags of s. */
  ghost predicate Scanned(s: seq<int>, pred: int -> bool, pos: seq<int>) {
    |pos| == |s| && forall i {:trigger pos[i]} :: 0 <= i < |s| ==> pos[i] == Place(s, pred, i + 1)
  }

  lemma ScannedStep(s: seq<int>, pred: int -> bool, i: int)
    requires 0 <= i < |s|
    ensures Place(s, pred, i + 1) == Place(s, pred, i) + if pred(s[i]) then 1 else 0
    ensures Place(s, pred, 0) == 0
  {
    assert s[..i + 1][..i] == s[..i];
  }

  /** shaders/scatter.comp, lanes in any order. */
  method DispatchScatter(input: array<int>, output: array<int>, pos: array<int>, groups: nat, ghost pred: int -> bool)
    requires output != input && output != pos && input.Length <= 256 * groups
    requires |Filter(input[..], pred)| <= output.Length
    requires Scanned(input[..], pred, pos[..])
    modifies output
    ensures PartlyScattered(input[..], pred, old(output[..]), output[..], {})
  {
    ghost var s, out0 := input[..], output[..];
    var todo := Indices(256 * groups);
    NoneScattered(s, pred, out0, todo);
    while todo != {}
      invariant todo <= Indices(256 * groups)
      invariant PartlyScattered(s, pred, out0, output[..], todo)
      decreases todo
    {
      Inhabited(todo);
      var i :| i in todo;
      ghost var out := output[..];
      if i < input.Length {
        LaneScatters(s, pred, out0, out, todo, i);
        ScannedStep(s, pred, i);
        assert pos[..][i] == Place(s, pred, i + 1);
        assert i > 0 ==> pos[..][i - 1] == Place(s, pred, i);
        var incl := pos[i];
        var prev := if i > 0 then pos[i - 1] else 0;
        if incl - prev > 0 {
          output[incl - 1] := input[i];
          assert output[..] == out[Place(s, pred, i) := s[i]];
        }
      } else {
        LanePastEnd(s, pred, out0, out, todo, i);
      }
      todo := todo - {i};
    }
  }

  lemma NoneScattered(s: seq<int>, pred: int -> bool, out0: seq<int>, todo: set<int>)
    requires forall i :: 0 <= i < |s| ==> i in todo
    ensures PartlyScattered(s, pred, out0, out0, todo)
  {
  }

  lemma LanePastEnd(s: seq<int>, pred: int -> bool, out0: seq<int>, out: seq<int>, todo: set<int>, i: int)
    requires PartlyScattered(s, pred, out0, out, todo) && i >= |s|
    ensures PartlyScattered(s, pred, out0, out, todo - {i})
  {
  }

  // ---- the launcher ----------------------------------------------------------------

  /** launch_compact: the kept elements in order at the front of the output, their number, and
      nothing else written. When a scratch allocation or a dispatch fails, nothing is written
      and the caller is told 0. */
  method LaunchCompact(input: array<int>, output: array<int>, pred: int -> bool, faulty: bool)
    returns (ok: bool, kept: int)
    requires input != output && |Filter(input[..], pred)| <= output.Length && input.Length < MAX_COUNT
    modifies output
    ensures !faulty || input.Length == 0 ==> ok
    ensures ok ==>
      var f := Filter(input[..], pred);
      kept == |f| <= output.Length && output[..kept] == f && output[kept..] == old(output[..])[kept..]
    ensures !ok ==> kept == 0 && output[..] == old(output[..])
  {
    var count := input.Length;
    if count == 0 {
      return true, 0;
    }
    var failed := Fails(faulty);
    if failed {
      return false, 0;
    }
    ghost var s := input[..];
    var positions := new int[count];
    var groups := Groups(count);
    failed := Fails(faulty);
    if failed {
      return false, 0;
    }
    DispatchFlags(input, positions, pred, groups);
    ok := Scan.LaunchScan(positions, faulty);
    if !ok {
      return false, 0;
    }
    forall i | 0 <= i < count ensures positions[i] == Place(s, pred, i + 1) {
      FlagSumIsPlace(s, pred, i + 1);
    }
    kept := positions[count - 1];
    assert s[..count] == s;
    failed := Fails(faulty);
    if failed {
      return false, 0;
    }
    DispatchScatter(input, output, positions, groups, pred);
  }
}
