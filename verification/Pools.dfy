/** The size-class allocator on values: what the free and busy lists, the busy flags and
    the stored lengths of every pool are, and what mod_malloc and mod_free make of them.
    The class Allocator does the same work on linked nodes and is proved equal to this. */
module Pools {
  import opened Options
  import opened Seqs

  const OVERHEAD: nat := 28 // BLOCK_OVERHEAD_SIZE: the header without its data word
  const START_ORDER: nat := 10
  const TOTAL_POOLS: nat := 15

  // 1 << n
  function Pow2(n: nat): (r: nat)
    ensures r >= 1
  {
    if n == 0 then 1 else 2 * Pow2(n - 1)
  }

  // Bytes of one block of class i, header included.
  function ClassSize(i: nat): (r: nat)
    ensures r >= 1024
  {
    if i == 0 then 1024 else 2 * ClassSize(i - 1)
  }

  lemma {:induction false} ClassSizeIsShift(i: nat)
    ensures ClassSize(i) == Pow2(START_ORDER + i)
  {
    if i == 0 {
      assert Pow2(10) == 1024;
    } else {
      ClassSizeIsShift(i - 1);
    }
  }

  // One pool. Blocks are known by their number; a list holds its nodes' block numbers.
  datatype Pool = Pool(free: seq<nat>, busy: seq<nat>, flags: seq<bool>, lengths: seq<nat>) {
    // Payload bytes of a block of class i; an empty pool's heap is never filled in, so 0.
    function Capacity(i: nat): nat {
      if flags == [] then 0 else ClassSize(i) - OVERHEAD
    }

    // The two lists hold each block exactly once, and a stored length fits its block.
    ghost predicate Ordered(i: nat) {
      && |lengths| == |flags|
      && Distinct(free) && Distinct(busy)
      && (forall k | 0 <= k < |free| :: free[k] < |flags|)
      && (forall j :: j in free ==> j < |flags| && j !in busy)
      && (forall j :: j in busy ==> j < |flags|)
      && (forall j | 0 <= j < |flags| :: j in free || j in busy)
      && (forall j | 0 <= j < |flags| :: lengths[j] <= Capacity(i))
    }

    // And the headers say what the lists say: the busy flag is set exactly for busy blocks,
    // and a stored length is zero exactly for free ones.
    ghost predicate Inv(i: nat) {
      && Ordered(i)
      && (forall j :: j in free ==> j < |flags| && !flags[j])
      && (forall j :: j in busy ==> j < |flags| && flags[j])
      && (forall j | 0 <= j < |flags| :: flags[j] <==> lengths[j] > 0)
    }

    // mod_malloc_heap on a pool with a free block.
    function Take(size: nat): Pool
      requires free != [] && free[0] < |flags| == |lengths|
    {
      var j := free[0];
      Pool(free[1..], [j] + busy, flags[j := true], lengths[j := size])
    }

    // The locked part of mod_free for block j.
    function Give(j: nat): Pool
      requires j < |flags| == |lengths|
    {
      if flags[j] && j in busy then
        Pool([j] + free, Remove(busy, j), flags[j := false], lengths[j := 0])
      else
        this
    }
  }

  // The pool after mod_mem_init_heap: every block free, the last one first.
  function FreshPool(n: nat): (p: Pool) {
    Pool(CountDown(n), [], seq(n, _ => false), seq(n, _ => 0))
  }

  function CountDown(n: nat): (s: seq<nat>)
    ensures |s| == n && forall k | 0 <= k < n :: s[k] == n - 1 - k
  {
    if n == 0 then [] else [n - 1] + CountDown(n - 1)
  }

  lemma FreshPoolInv(n: nat, i: nat)
    ensures FreshPool(n).Inv(i)
  {
    var p := FreshPool(n);
    forall j | 0 <= j < n ensures j in p.free {
      assert p.free[n - 1 - j] == j;
    }
  }

  lemma TakeOrdered(p: Pool, i: nat, size: nat)
    requires p.Ordered(i) && p.free != [] && size <= p.Capacity(i)
    ensures p.Take(size).Ordered(i)
    ensures forall k :: k in p.Take(size).free <==> k in p.free && k != p.free[0]
    ensures forall k :: k in p.Take(size).busy <==> k in p.busy || k == p.free[0]
  {
    var j, q := p.free[0], p.Take(size);
    assert j in p.free;
    DistinctCons(j, p.busy);
    forall k ensures k in q.free <==> k in p.free && k != j {
      if k in p.free && k != j {
        var x :| 0 <= x < |p.free| && p.free[x] == k;
        assert q.free[x - 1] == k;
      }
    }
    forall k ensures k in q.busy <==> k in p.busy || k == j {
      assert q.busy[0] == j;
      if k in p.busy {
        var x :| 0 <= x < |p.busy| && p.busy[x] == k;
        assert q.busy[x + 1] == k;
      }
    }
  }

  lemma TakeMarks(p: Pool, i: nat, size: nat)
    requires p.Ordered(i) && p.free != []
    ensures var q, j := p.Take(size), p.free[0];
      j < |p.lengths| && |q.flags| == |p.flags| == |q.lengths| == |p.lengths| && q.lengths == p.lengths[j := size]
  {
    assert p.free[0] in p.free;
  }

  lemma GiveUndoesTake(p: Pool, i: nat, size: nat)
    requires p.Inv(i) && p.free != []
    ensures var q, j := p.Take(size), p.free[0]; j < |q.flags| == |q.lengths| && q.Give(j) == p
  {
    var j := p.free[0];
    assert j in p.free && !p.flags[j] && p.lengths[j] == 0;
    var q := p.Take(size);
    assert q.busy[0] == j && Remove(q.busy, j) == q.busy[1..] == p.busy;
    assert q.flags[j := false] == p.flags && q.lengths[j := 0] == p.lengths;
  }

  lemma TakeInv(p: Pool, i: nat, size: nat)
    requires p.Inv(i) && p.free != [] && 0 < size <= p.Capacity(i)
    ensures p.Take(size).Inv(i)
  {
    TakeOrdered(p, i, size);
    assert p.free[0] in p.free;
  }

  lemma GiveOrdered(p: Pool, i: nat, j: nat)
    requires p.Ordered(i) && j < |p.flags|
    ensures p.Give(j).Ordered(i)
    ensures p.flags[j] && j in p.busy ==>
              && (forall k :: k in p.Give(j).free <==> k in p.free || k == j)
              && (forall k :: k in p.Give(j).busy <==> k in p.busy && k != j)
  {
    if p.flags[j] && j in p.busy {
      var q := p.Give(j);
      RemoveDistinct(p.busy, j);
      DistinctCons(j, p.free);
      forall k ensures k in q.free <==> k in p.free || k == j {
        assert q.free[0] == j;
        if k in p.free {
          var x :| 0 <= x < |p.free| && p.free[x] == k;
          assert q.free[x + 1] == k;
        }
      }
      hide Remove;
    }
  }

  lemma GiveInv(p: Pool, i: nat, j: nat)
    requires p.Inv(i) && j < |p.flags|
    ensures p.Give(j).Inv(i)
  {
    GiveOrdered(p, i, j);
  }

  // ---------------------------------------------------------------- all pools

  // Block j of class i.
  datatype Spot = Spot(i: nat, j: nat)

  ghost predicate HeapsOrdered(hs: seq<Pool>) {
    forall i | 0 <= i < |hs| :: hs[i].Ordered(i)
  }

  ghost predicate HeapsInv(hs: seq<Pool>) {
    HeapsOrdered(hs) && forall i | 0 <= i < |hs| :: hs[i].Inv(i)
  }

  predicate Fits(hs: seq<Pool>, size: nat, i: nat)
    requires i < |hs|
  {
    size <= hs[i].Capacity(i)
  }

  // mod_malloc's loop from class i on.
  function MallocFrom(hs: seq<Pool>, size: nat, i: nat): (r: (seq<Pool>, Option<Spot>))
    requires HeapsOrdered(hs)
    ensures |r.0| == |hs|
    decreases |hs| - i
  {
    if i >= |hs| then (hs, None)
    else if Fits(hs, size, i) && hs[i].free != [] then
      assert hs[i].Ordered(i);
      (hs[i := hs[i].Take(size)], Some(Spot(i, hs[i].free[0])))
    else MallocFrom(hs, size, i + 1)
  }

  function Malloc(hs: seq<Pool>, size: nat): (r: (seq<Pool>, Option<Spot>))
    requires HeapsOrdered(hs)
    ensures |r.0| == |hs|
  {
    if size == 0 then (hs, None) else MallocFrom(hs, size, 0)
  }

  function FreeSpot(hs: seq<Pool>, s: Spot): (r: seq<Pool>)
    requires HeapsOrdered(hs) && s.i < |hs| && s.j < |hs[s.i].flags|
    ensures |r| == |hs|
  {
    assert hs[s.i].Ordered(s.i);
    hs[s.i := hs[s.i].Give(s.j)]
  }

  ghost predicate IsSpot(hs: seq<Pool>, s: Spot) {
    s.i < |hs| && s.j < |hs[s.i].flags|
  }

  ghost predicate BusySpot(hs: seq<Pool>, s: Spot) {
    IsSpot(hs, s) && s.j in hs[s.i].busy
  }

  ghost predicate SameShape(hs: seq<Pool>, hs': seq<Pool>) {
    |hs'| == |hs| && forall i | 0 <= i < |hs| :: |hs'[i].flags| == |hs[i].flags|
  }

  lemma {:induction false} MallocFromChoice(hs: seq<Pool>, size: nat, i: nat)
    requires HeapsOrdered(hs) && i <= |hs|
    ensures var r := MallocFrom(hs, size, i);
      && (r.1 == None <==> forall k | i <= k < |hs| :: Fits(hs, size, k) ==> hs[k].free == [])
      && (r.1 == None ==> r.0 == hs)
      && (r.1.Some? ==>
            var s := r.1.value;
            && i <= s.i < |hs| && Fits(hs, size, s.i) && hs[s.i].Ordered(s.i)
            && hs[s.i].free != [] && s.j == hs[s.i].free[0]
            && (forall k | i <= k < s.i :: Fits(hs, size, k) ==> hs[k].free == [])
            && r.0 == hs[s.i := hs[s.i].Take(size)])
    decreases |hs| - i
  {
    if i < |hs| {
      assert hs[i].Ordered(i);
      MallocFromChoice(hs, size, i + 1);
    }
  }

  // Whatever the headers say, mod_malloc and mod_free keep the lists in order.
  lemma MallocOrdered(hs: seq<Pool>, size: nat)
    requires HeapsOrdered(hs)
    ensures HeapsOrdered(Malloc(hs, size).0) && SameShape(hs, Malloc(hs, size).0)
    ensures var spot := Malloc(hs, size).1;
      spot.Some? ==> IsSpot(hs, spot.value) && spot.value.j in hs[spot.value.i].free
  {
    if size > 0 {
      MallocFromChoice(hs, size, 0);
      var spot := Malloc(hs, size).1;
      if spot.Some? {
        var i := spot.value.i;
        assert hs[i].free[0] in hs[i].free;
        TakeOrdered(hs[i], i, size);
      }
    }
  }

  lemma FreeOrdered(hs: seq<Pool>, s: Spot)
    requires HeapsOrdered(hs) && IsSpot(hs, s)
    ensures HeapsOrdered(FreeSpot(hs, s)) && SameShape(hs, FreeSpot(hs, s))
  {
    assert hs[s.i].Ordered(s.i);
    GiveOrdered(hs[s.i], s.i, s.j);
  }

  // mod_malloc picks the smallest class that fits and still has a free block, fails
  // exactly when no fitting class has one, marks that block busy with the asked length,
  // and touches no other block.
  lemma MallocChoice(hs: seq<Pool>, size: nat)
    requires HeapsInv(hs) && size > 0
    ensures var r := Malloc(hs, size);
      && HeapsInv(r.0) && SameShape(hs, r.0)
      && (r.1 == None <==> forall k | 0 <= k < |hs| :: Fits(hs, size, k) ==> hs[k].free == [])
      && (r.1 == None ==> r.0 == hs)
      && (r.1.Some? ==>
            var s := r.1.value;
            && IsSpot(hs, s) && s.j in hs[s.i].free && Fits(hs, size, s.i)
            && (forall k | 0 <= k < s.i :: Fits(hs, size, k) ==> hs[k].free == [])
            && !BusySpot(hs, s) && BusySpot(r.0, s) && r.0[s.i].lengths[s.j] == size
            && (forall t :: t != s && IsSpot(hs, t) ==>
                  (BusySpot(r.0, t) <==> BusySpot(hs, t)) && r.0[t.i].lengths[t.j] == hs[t.i].lengths[t.j]))
  {
    MallocFromChoice(hs, size, 0);
    var r := Malloc(hs, size);
    if r.1.Some? {
      var s := r.1.value;
      assert hs[s.i].Inv(s.i) && s.j in hs[s.i].free;
      TakeInv(hs[s.i], s.i, size);
      TakeOrdered(hs[s.i], s.i, size);
      TakeMarks(hs[s.i], s.i, size);
      hide Pool.Take;
      hide Pool.Ordered;
      hide Malloc;
    }
  }

  // Above the first class the block is less than twice as large as the request with its
  // header exactly when the class below is too small for it; and it is whenever the class
  // below still has a free block, or has blocks at all that do not fit.
  lemma MallocTight(hs: seq<Pool>, size: nat)
    requires HeapsInv(hs) && size > 0 && Malloc(hs, size).1.Some?
    ensures var i := Malloc(hs, size).1.value.i;
      0 < i < |hs| ==>
        && (ClassSize(i) < 2 * (size + OVERHEAD) <==> size > ClassSize(i - 1) - OVERHEAD)
        && (hs[i - 1].free != [] || (hs[i - 1].flags != [] && !Fits(hs, size, i - 1)) ==>
              ClassSize(i) < 2 * (size + OVERHEAD))
  {
    MallocChoice(hs, size);
    var i := Malloc(hs, size).1.value.i;
    if 0 < i < |hs| && hs[i - 1].free != [] {
      assert hs[i - 1].Inv(i - 1) && hs[i - 1].free[0] < |hs[i - 1].flags|;
    }
  }

  // Freeing what was just allocated restores every list, flag and length.
  lemma FreeUndoesMalloc(hs: seq<Pool>, size: nat)
    requires HeapsInv(hs) && size > 0 && Malloc(hs, size).1.Some?
    ensures var r := Malloc(hs, size);
      HeapsInv(r.0) && IsSpot(r.0, r.1.value) && FreeSpot(r.0, r.1.value) == hs
  {
    MallocChoice(hs, size);
    MallocFromChoice(hs, size, 0);
    var r := Malloc(hs, size);
    var s := r.1.value;
    assert hs[s.i].Inv(s.i);
    GiveUndoesTake(hs[s.i], s.i, size);
    assert FreeSpot(r.0, s) == hs[s.i := hs[s.i].Take(size)][s.i := hs[s.i]];
    hide Pool.Take;
    hide Pool.Give;
    hide Pool.Inv;
    hide Malloc;
  }

  // Freeing a busy block makes exactly that block free.
  lemma FreeBusy(hs: seq<Pool>, s: Spot)
    requires HeapsInv(hs) && IsSpot(hs, s)
    ensures var hs' := FreeSpot(hs, s);
      && HeapsInv(hs') && SameShape(hs, hs') && !BusySpot(hs', s)
      && (forall t :: t != s && IsSpot(hs, t) ==>
            (BusySpot(hs', t) <==> BusySpot(hs, t)) && hs'[t.i].lengths[t.j] == hs[t.i].lengths[t.j])
      && (BusySpot(hs, s) ==> hs'[s.i].free == [s.j] + hs[s.i].free)
  {
    assert hs[s.i].Inv(s.i);
    GiveInv(hs[s.i], s.i, s.j);
    GiveOrdered(hs[s.i], s.i, s.j);
  }

  // A second free of the same pointer changes nothing.
  lemma FreeTwice(hs: seq<Pool>, s: Spot)
    requires HeapsInv(hs) && IsSpot(hs, s)
    ensures HeapsInv(FreeSpot(hs, s)) && IsSpot(FreeSpot(hs, s), s)
    ensures FreeSpot(FreeSpot(hs, s), s) == FreeSpot(hs, s)
  {
    FreeBusy(hs, s);
    var hs' := FreeSpot(hs, s);
    assert hs'[s.i].Inv(s.i);
    assert !hs'[s.i].flags[s.j];
  }

  // ---------------------------------------------------------------- counting

  function Blocks(hs: seq<Pool>): nat {
    if hs == [] then 0 else Blocks(hs[..|hs| - 1]) + |hs[|hs| - 1].flags|
  }

  function BusyBlocks(hs: seq<Pool>): nat {
    if hs == [] then 0 else BusyBlocks(hs[..|hs| - 1]) + |hs[|hs| - 1].busy|
  }

  lemma {:induction false} BusyBlocksUpdate(hs: seq<Pool>, i: nat, p: Pool)
    requires i < |hs|
    ensures BusyBlocks(hs[i := p]) == BusyBlocks(hs) - |hs[i].busy| + |p.busy|
    ensures |p.flags| == |hs[i].flags| ==> Blocks(hs[i := p]) == Blocks(hs)
    decreases |hs|
  {
    var n := |hs| - 1;
    if i < n {
      BusyBlocksUpdate(hs[..n], i, p);
      assert hs[i := p][..n] == hs[..n][i := p];
    } else {
      assert hs[i := p][..n] == hs[..n];
    }
  }

  // A list without repetition inside a range is no longer than the range.
  lemma {:induction false} Pigeonhole(s: seq<nat>, n: nat)
    requires Distinct(s) && forall x :: x in s ==> x < n
    ensures |s| <= n
    decreases n, |s|
  {
    if s != [] {
      assert s[0] in s;
      if n - 1 in s {
        RemoveDistinct<nat>(s, n - 1);
        Pigeonhole(Remove<nat>(s, n - 1), n - 1);
      } else {
        Pigeonhole(s, n - 1);
      }
    }
  }

  lemma FreeAndBusyCount(p: Pool, i: nat)
    requires p.Inv(i)
    ensures |p.free| + |p.busy| <= |p.flags|
  {
    var s := p.free + p.busy;
    assert Distinct(s) by {
      forall a, b | 0 <= a < b < |s| ensures s[a] != s[b] {
        if a < |p.free| <= b {
          assert s[a] in p.free && s[b] in p.busy;
        }
      }
    }
    forall x | x in s ensures x < |p.flags| {}
    Pigeonhole(s, |p.flags|);
  }

  // As long as some pool has a free block, fewer blocks are busy than there are.
  lemma {:induction false} FreeBlockLeft(hs: seq<Pool>)
    requires HeapsInv(hs)
    ensures BusyBlocks(hs) <= Blocks(hs)
    ensures (exists i | 0 <= i < |hs| :: hs[i].free != []) ==> BusyBlocks(hs) < Blocks(hs)
    decreases |hs|
  {
    if hs != [] {
      var n := |hs| - 1;
      assert hs[n].Inv(n);
      FreeAndBusyCount(hs[n], n);
      forall i | 0 <= i < n ensures hs[..n][i].Inv(i) { assert hs[i].Inv(i); }
      FreeBlockLeft(hs[..n]);
      if i :| 0 <= i < |hs| && hs[i].free != [] {
        if i < n { assert hs[..n][i].free != []; }
      }
    }
  }
}
