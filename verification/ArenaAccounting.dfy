/** Conservation of arena bytes: live, freed and dropped bytes add up to the bump pointer. */
module ArenaAccounting {
  import opened Arena

  /** The n integers from lo on. */
  function Interval(lo: int, n: nat): (s: set<int>)
    ensures forall y :: y in s <==> lo <= y < lo + n
    ensures |s| == n
  {
    if n == 0 then {} else Interval(lo, n - 1) + {lo + n - 1}
  }

  function SumSizes(l: seq<Block>): int {
    if l == [] then 0 else SumSizes(l[..|l| - 1]) + l[|l| - 1].size
  }

  /** One of the live pointers. */
  ghost function Pick(live: map<int, Block>): (p: int)
    requires live != map[]
    ensures p in live
  {
    NotEmpty(live);
    var p :| p in live; p
  }

  lemma NotEmpty(live: map<int, Block>)
    ensures live == map[] || exists p :: p in live
  {
    if forall p :: p !in live {
      assert live == map[];
    }
  }

  ghost function SumLive(live: map<int, Block>): int {
    if live == map[] then 0 else live[Pick(live)].size + SumLive(live - {Pick(live)})
  }

  /** Byte x has owner o. */
  ghost predicate OwnedBy(owner: seq<Owner>, x: int, o: Owner) {
    0 <= x < |owner| && owner[x] == o
  }

  /** The offsets whose padding was dropped. */
  ghost function DroppedBytes(owner: seq<Owner>): (s: set<int>)
    ensures forall x :: x in s <==> 0 <= x < |owner| && owner[x].Dropped?
  {
    if owner == [] then {}
    else
      var n := |owner| - 1;
      assert forall x :: 0 <= x < n ==> owner[..n][x] == owner[x];
      DroppedBytes(owner[..n]) + if owner[n].Dropped? then {n} else {}
  }

  /** Blocks of a list that own their bytes span as many bytes as their sizes add up to. */
  lemma {:induction false} FreeSpan(l: seq<Block>, owner: seq<Owner>) returns (s: set<int>)
    requires NoDup(l) && forall b :: b in l ==> b.size > 0
    requires forall b, x {:trigger b in l, In(b, x)} :: b in l && In(b, x) ==> OwnedBy(owner, x, Free(b.offset))
    ensures |s| == SumSizes(l)
    ensures forall x :: x in s <==> exists b :: b in l && In(b, x)
  {
    if l == [] {
      s := {};
    } else {
      var n := |l| - 1;
      var b, init := l[n], l[..n];
      assert forall c :: c in init ==> c in l;
      var rest := FreeSpan(init, owner);
      var own := Interval(b.offset, b.size);
      assert b in l;
      forall x | x in rest ensures x !in own {
        var c :| c in init && In(c, x);
        var i :| 0 <= i < n && init[i] == c;
        assert l[i] == c && c in l;
        assert In(b, x) ==> OwnedBy(owner, x, Free(b.offset));
      }
      s := rest + own;
      forall x ensures x in s <==> exists c :: c in l && In(c, x) {
        if x in own { assert In(b, x); }
        if x in rest {
          var c :| c in init && In(c, x);
          assert c in l;
        }
        if c :| c in l && In(c, x) {
          assert c in init || c == b;
        }
      }
      assert |s| == |rest| + |own|;
    }
  }

  lemma {:induction false} LiveSpan(live: map<int, Block>, owner: seq<Owner>) returns (s: set<int>)
    requires forall p :: p in live ==> live[p].size > 0
    requires forall p, x {:trigger In(live[p], x)} :: p in live && In(live[p], x) ==> OwnedBy(owner, x, Live(p))
    ensures |s| == SumLive(live)
    ensures forall x :: x in s <==> exists p :: p in live && In(live[p], x)
    decreases |live|
  {
    if live == map[] {
      s := {};
    } else {
      var p := Pick(live);
      var others := live - {p};
      forall q, x {:trigger In(others[q], x)} | q in others && In(others[q], x)
        ensures OwnedBy(owner, x, Live(q))
      {
        assert In(live[q], x);
      }
      var rest := LiveSpan(others, owner);
      var own := Interval(live[p].offset, live[p].size);
      forall x | x in rest ensures x !in own {
        var q :| q in others && In(others[q], x);
        assert In(live[q], x);
        assert In(live[p], x) ==> OwnedBy(owner, x, Live(p));
      }
      s := rest + own;
      forall x ensures x in s <==> exists q :: q in live && In(live[q], x) {
        if x in own { assert In(live[p], x); }
        if x in rest {
          var q :| q in others && In(others[q], x);
          assert q in live && In(live[q], x);
        }
        if q :| q in live && In(live[q], x) {
          assert q == p || (q in others && In(others[q], x));
        }
      }
      assert |s| == |rest| + |own|;
    }
  }

  /** Live plus freed plus dropped bytes are exactly the bytes below the bump pointer. */
  lemma BytesConserved(base: int, bump: nat, live: map<int, Block>, free: seq<Block>, owner: seq<Owner>)
    requires AllocInv(base, bump, live, free, owner)
    ensures SumLive(live) + SumSizes(free) + |DroppedBytes(owner)| == bump
    ensures ExactTiling(owner) ==> SumLive(live) + SumSizes(free) == bump
  {
    SpansMeetInvariant(base, bump, live, free, owner);
    var l := LiveSpan(live, owner);
    var f := FreeSpan(free, owner);
    var d := DroppedBytes(owner);
    SpansPartition(base, bump, live, free, owner, l, f, d);
    assert |l + f + d| == |l| + |f| + |d|;
    if ExactTiling(owner) { assert d == {}; }
  }

  lemma SpansMeetInvariant(base: int, bump: nat, live: map<int, Block>, free: seq<Block>, owner: seq<Owner>)
    requires AllocInv(base, bump, live, free, owner)
    ensures forall p :: p in live ==> live[p].size > 0
    ensures forall b :: b in free ==> b.size > 0
    ensures forall p, x {:trigger In(live[p], x)} :: p in live && In(live[p], x) ==> OwnedBy(owner, x, Live(p))
    ensures forall b, x {:trigger b in free, In(b, x)} :: b in free && In(b, x) ==> OwnedBy(owner, x, Free(b.offset))
  {
    forall p | p in live ensures BlockOk(live[p], bump) { }
    forall b | b in free ensures BlockOk(b, bump) { }
  }

  lemma SpansPartition(base: int, bump: nat, live: map<int, Block>, free: seq<Block>, owner: seq<Owner>,
                       l: set<int>, f: set<int>, d: set<int>)
    requires AllocInv(base, bump, live, free, owner) && d == DroppedBytes(owner)
    requires forall x :: x in l <==> exists p :: p in live && In(live[p], x)
    requires forall x :: x in f <==> exists b :: b in free && In(b, x)
    ensures l + f + d == Interval(0, bump) && l !! f && (l + f) !! d
  {
    SpansMeetInvariant(base, bump, live, free, owner);
    forall x | x in l ensures 0 <= x < bump && owner[x].Live? {
      var p :| p in live && In(live[p], x);
      assert OwnedBy(owner, x, Live(p));
    }
    forall x | x in f ensures 0 <= x < bump && owner[x].Free? {
      var b :| b in free && In(b, x);
      assert OwnedBy(owner, x, Free(b.offset));
    }
    forall x | 0 <= x < bump ensures x in l || x in f || x in d {
      assert OwnerOk(owner[x], x, live, free);
    }
    PartitionByOwner(owner, l, f, d);
  }

  lemma PartitionByOwner(owner: seq<Owner>, l: set<int>, f: set<int>, d: set<int>)
    requires forall x :: x in l ==> 0 <= x < |owner| && owner[x].Live?
    requires forall x :: x in f ==> 0 <= x < |owner| && owner[x].Free?
    requires forall x :: x in d ==> 0 <= x < |owner| && owner[x].Dropped?
    requires forall x :: 0 <= x < |owner| ==> x in l || x in f || x in d
    ensures l + f + d == Interval(0, |owner|) && l !! f && (l + f) !! d
  {
  }
}
