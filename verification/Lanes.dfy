/** Dispatches: `groups` workgroups of 256 lanes. A phase between two barriers is a loop that
    picks its lanes in any order, so what is proved of it holds for every order. */
module Lanes {

  /** Element counts are passed to the kernels as 32-bit words. */
  const MAX_COUNT: int := 0x1_0000_0000

  /** The invocation indices 0 .. n - 1. */
  function Indices(n: nat): (s: set<int>)
    ensures forall i :: i in s <==> 0 <= i < n
  {
    if n == 0 then {} else Indices(n - 1) + {n - 1}
  }

  lemma Inhabited(s: set<int>)
    ensures s == {} || exists i :: i in s
  {
    if forall i :: i !in s {
      assert s == {};
    }
  }

  /** The number of workgroups for `count` elements: (count + 255) / 256. */
  function Groups(count: nat): (g: nat)
    ensures 256 * g >= count && 256 * g < count + 256
  {
    (count + 255) / 256
  }

  /** Asks for scratch memory or submits a dispatch; on a machine that is not faulty neither
      ever fails. */
  method Fails(faulty: bool) returns (failed: bool)
    ensures failed ==> faulty
  {
    failed := *;
    failed := failed && faulty;
  }

  /** The group count strictly falls, so level loops and recursions over it terminate. */
  lemma GroupsShrink(count: nat)
    ensures count >= 2 ==> 1 <= Groups(count) < count
    ensures count >= 1 ==> Groups(count) >= 1
  {
  }
}
