/** mod_mem_init: the checks on the region, and carving it into the pools. */
module Setup {
  import opened Words
  import opened Options
  import opened Seqs
  import opened IntrusiveList
  import opened Locks
  import opened Pools
  import opened Layout
  import opened Allocator

  ghost predicate HeapStorage(heap: Heap, nodes: seq<Link<Header>>, blocks: seq<Header>, n: nat) {
    |nodes| == |blocks| == n && Distinct(nodes) && Distinct(blocks) && heap.free != heap.busy
  }

  // s_mod_heap_array and the node arrays are static, and the blocks' headers are where they
  // are: no object is used twice.
  ghost predicate Storage(heaps: seq<Heap>, nodes: seq<seq<Link<Header>>>, blocks: seq<seq<Header>>, counts: seq<nat>) {
    && |heaps| == |nodes| == |blocks| == |counts|
    && (forall i | 0 <= i < |heaps| ::
          HeapStorage(heaps[i], nodes[i], blocks[i], counts[i]))
    && (forall i, k | 0 <= i < k < |heaps| ::
          OwnObjects(heaps[i], nodes[i], blocks[i]) !! OwnObjects(heaps[k], nodes[k], blocks[k]))
  }

  // Static storage before anything has run.
  ghost predicate Zeroed(h: Heap, i: nat)
    reads h, h.Repr
  {
    && h.number == 0 && h.list == [] && h.headers == [] && h.pool == FreshPool(0)
    && h.Repr == OwnObjects(h, [], []) && h.Valid(i)
  }

  ghost predicate Ready(h: Heap, nodes: seq<Link<Header>>, blocks: seq<Header>, ppool: nat, localOnly: bool, i: nat)
    reads h, h.Repr
  {
    if blocks == [] then Zeroed(h, i)
    else h.AllFree(nodes, blocks, ppool, i) && (!localOnly ==> h.Headers(i))
  }

  // Every heap is set up, the i-th on the part of the region the layout gives it.
  ghost predicate AllReady(heaps: seq<Heap>, nodes: seq<seq<Link<Header>>>, blocks: seq<seq<Header>>, counts: seq<nat>,
                           base: nat, localOnly: bool)
    requires |heaps| == |nodes| == |blocks| == |counts|
    reads *
  {
    forall i | 0 <= i < |heaps| :: Ready(heaps[i], nodes[i], blocks[i], base + Offset(counts, i), localOnly, i)
  }

  // No pool's lock number is taken and no pool's size is negative as an int.
  ghost predicate Unhindered(keeper: LockKeeper, counts: seq<nat>)
    reads keeper.kept
  {
    LocksFrom(keeper, 0, |counts|) && forall i | 0 <= i < |counts| :: PoolSize(counts, i) < 0x8000_0000
  }

  ghost predicate AllZeroed(heaps: seq<Heap>)
    reads *
  {
    forall i | 0 <= i < |heaps| :: Zeroed(heaps[i], i)
  }

  ghost function Everything(heaps: seq<Heap>, nodes: seq<seq<Link<Header>>>, blocks: seq<seq<Header>>): set<object>
    requires |heaps| == |nodes| == |blocks|
  {
    set i, o | 0 <= i < |heaps| && o in OwnObjects(heaps[i], nodes[i], blocks[i]) :: o
  }

  // The lock numbers handed out once the first n pools are set up: each pool that is not
  // empty has taken its own.
  function Handed(kept: seq<bool>, counts: seq<nat>, n: nat): (r: seq<bool>)
    requires n <= |counts| && LOCK_SHM + START_ORDER + n <= |kept|
    ensures |r| == |kept|
    ensures forall l | 0 <= l < |kept| ::
              r[l] <==> kept[l] || (LOCK_SHM + START_ORDER <= l < LOCK_SHM + START_ORDER + n
                                    && counts[l - LOCK_SHM - START_ORDER] > 0)
  {
    if n == 0 then kept
    else
      var before := Handed(kept, counts, n - 1);
      if counts[n - 1] == 0 then before else before[LOCK_SHM + START_ORDER + n - 1 := true]
  }

  // The keeper holds what kept was, and the numbers of the first n pools.
  ghost predicate HandedOut(keeper: LockKeeper, kept: seq<bool>, counts: seq<nat>, n: nat)
    reads keeper.kept
  {
    && n <= |counts| && LOCK_SHM + START_ORDER + n <= |kept|
    && keeper.kept[..] == Handed(kept, counts, n)
  }

  // The region checks of mod_mem_init; the result is rounded_start when they pass.
  method CheckRegion(start: word, length: word, counts: seq<nat>) returns (r: Option<word>)
    requires LengthAsserted(start, length, counts)
    ensures r.Some? <==> |counts| <= TOTAL_POOLS && SizeChecked(start, length, counts)
    ensures r.Some? ==> r.value == PoolBase(start, counts)
  {
    hide Wrap;
    hide RoundDown;
    hide Offset;
    hide NumberSum;
    if |counts| > TOTAL_POOLS {
      return None;
    }
    var totalNumber := TotalShmNumber(counts);
    var controlSize: word := Wrap(Wrap(totalNumber * INFO_SIZE) + CONTROL_SIZE);
    var roundedStart: word := RoundDown(Wrap(start + controlSize + 4096 - 1), 1024);
    var roundedLength: word := Wrap(length - Wrap(roundedStart - start));
    var totalSize := TotalShmSize(counts);
    if roundedLength < totalSize {
      return None;
    }
    return Some(roundedStart);
  }

  method MemInit(start: word, length: word, counts: seq<nat>, heaps: seq<Heap>,
                 nodes: seq<seq<Link<Header>>>, blocks: seq<seq<Header>>, localOnly: bool, keeper: LockKeeper)
    returns (ret: int)
    requires Storage(heaps, nodes, blocks, counts) && keeper.kept.Length == LOCK_KEEPER_LENGTH
    requires keeper.kept as object !in Everything(heaps, nodes, blocks)
    requires AllZeroed(heaps)
    requires start + length <= TWO32 && SumsDoNotWrap(start, counts) && LengthAsserted(start, length, counts)
    modifies keeper.kept, Everything(heaps, nodes, blocks)
    ensures ret == 0 || ret == -1
    ensures |counts| > TOTAL_POOLS || !SizeChecked(start, length, counts) ==> ret == -1
    ensures ret == 0 ==> FitsRegion(start, length, counts)
    ensures ret == 0 ==> AllReady(heaps, nodes, blocks, counts, PoolBase(start, counts), localOnly)
    ensures |counts| <= TOTAL_POOLS && SizeChecked(start, length, counts) && old(Unhindered(keeper, counts))
      ==> ret == 0
    ensures ret == 0 ==> HandedOut(keeper, old(keeper.kept[..]), counts, |counts|)
  {
    var base := CheckRegion(start, length, counts);
    if base.None? {
      return -1;
    }
    CheckIsExact(start, length, counts);
    hide FitsRegion;
    hide SizeChecked;
    hide PoolBase;
    hide AllReady;
    hide AllZeroed;
    hide Unhindered;
    hide Storage;
    hide Everything;
    hide HandedOut;
    ret := CarveAll(start, base.value, counts, heaps, nodes, blocks, localOnly, keeper);
  }

  // The loop of mod_mem_init.
  method CarveAll(ghost start: word, base: nat, counts: seq<nat>, heaps: seq<Heap>,
                  nodes: seq<seq<Link<Header>>>, blocks: seq<seq<Header>>, localOnly: bool, keeper: LockKeeper)
    returns (ret: int)
    requires Storage(heaps, nodes, blocks, counts) && keeper.kept.Length == LOCK_KEEPER_LENGTH
    requires keeper.kept as object !in Everything(heaps, nodes, blocks)
    requires AllZeroed(heaps)
    requires SumsDoNotWrap(start, counts) && |counts| <= TOTAL_POOLS
    modifies keeper.kept, Everything(heaps, nodes, blocks)
    ensures ret == 0 || ret == -1
    ensures ret == 0 ==> AllReady(heaps, nodes, blocks, counts, base, localOnly)
    ensures old(Unhindered(keeper, counts)) ==> ret == 0
    ensures ret == 0 ==> HandedOut(keeper, old(keeper.kept[..]), counts, |counts|)
  {
    CarvingStarts(heaps, nodes, blocks, counts, base, localOnly);
    hide Everything;
    hide OwnObjects;
    hide Carving;
    hide Offset;
    hide SumsDoNotWrap;
    hide Storage;
    hide AllZeroed;
    ghost var unhindered, kept := Unhindered(keeper, counts), keeper.kept[..];
    assert HandedOut(keeper, kept, counts, 0);
    hide HandedOut;
    var ppool: nat := base;
    ret := 0;
    for i := 0 to |counts|
      invariant ret == 0 && ppool == base + Offset(counts, i)
      invariant Carving(heaps, nodes, blocks, counts, base, localOnly, i)
      invariant HandedOut(keeper, kept, counts, i)
      invariant LocksFrom(keeper, |counts|, |counts|) && (unhindered ==> LocksFrom(keeper, i, |counts|))
    {
      NextPool(start, counts, i);
      ghost var before := keeper.kept[..];
      var poolSize := CarveOne(i, counts, heaps, nodes, blocks, base, ppool, localOnly, keeper);
      NextHanded(keeper, kept, before, counts, i, poolSize);
      if poolSize < 0 {
        return -1;
      }
      ppool := ppool + poolSize;
    }
    CarvingEnds(heaps, nodes, blocks, counts, base, localOnly);
    hide AllReady;
  }

  lemma CarvingStarts(heaps: seq<Heap>, nodes: seq<seq<Link<Header>>>, blocks: seq<seq<Header>>, counts: seq<nat>,
                      base: nat, localOnly: bool)
    requires Storage(heaps, nodes, blocks, counts) && AllZeroed(heaps)
    ensures Carving(heaps, nodes, blocks, counts, base, localOnly, 0) && Offset(counts, 0) == 0
    ensures |heaps| == |nodes| == |blocks| == |counts|
    ensures forall k | 0 <= k < |heaps| :: OwnObjects(heaps[k], nodes[k], blocks[k]) <= Everything(heaps, nodes, blocks)
  {
    if |heaps| > 0 { Apartness(heaps, nodes, blocks, counts, 0); }
  }

  lemma CarvingEnds(heaps: seq<Heap>, nodes: seq<seq<Link<Header>>>, blocks: seq<seq<Header>>, counts: seq<nat>,
                    base: nat, localOnly: bool)
    requires |heaps| == |nodes| == |blocks| == |counts|
    requires Carving(heaps, nodes, blocks, counts, base, localOnly, |counts|)
    ensures AllReady(heaps, nodes, blocks, counts, base, localOnly)
  {
  }

  ghost predicate LocksFrom(keeper: LockKeeper, i: nat, n: nat)
    reads keeper.kept
  {
    && keeper.kept.Length == LOCK_KEEPER_LENGTH && n <= TOTAL_POOLS
    && forall l | LOCK_SHM + START_ORDER + i <= l < LOCK_SHM + START_ORDER + n :: !keeper.kept[l]
  }

  // The loop invariant: i heaps are set up, the others as they were.
  ghost predicate Carving(heaps: seq<Heap>, nodes: seq<seq<Link<Header>>>, blocks: seq<seq<Header>>, counts: seq<nat>,
                          base: nat, localOnly: bool, i: nat)
    requires |heaps| == |nodes| == |blocks| == |counts| && i <= |heaps|
    reads *
  {
    && (forall k | 0 <= k < |heaps| :: heaps[k].Repr <= OwnObjects(heaps[k], nodes[k], blocks[k]))
    && (forall k | 0 <= k < i :: Ready(heaps[k], nodes[k], blocks[k], base + Offset(counts, k), localOnly, k))
    && (forall k | i <= k < |heaps| :: Zeroed(heaps[k], k))
  }

  // What the set-up of one pool does to the lock numbers.
  ghost predicate OneHanded(keeper: LockKeeper, before: seq<bool>, counts: seq<nat>, i: nat)
    requires i < |counts|
    reads keeper.kept
  {
    && LOCK_SHM + START_ORDER + i < |before|
    && keeper.kept[..] == if counts[i] == 0 then before else before[LOCK_SHM + START_ORDER + i := true]
  }

  lemma NextHanded(keeper: LockKeeper, kept: seq<bool>, before: seq<bool>, counts: seq<nat>, i: nat, poolSize: int)
    requires i < |counts| && LOCK_SHM + START_ORDER + i < |kept| && before == Handed(kept, counts, i)
    requires poolSize >= 0 ==> OneHanded(keeper, before, counts, i)
    ensures poolSize >= 0 ==> HandedOut(keeper, kept, counts, i + 1)
  {
  }

  lemma NextPool(start: word, counts: seq<nat>, i: nat)
    requires i < |counts| && SumsDoNotWrap(start, counts)
    ensures Offset(counts, i + 1) == Offset(counts, i) + PoolSize(counts, i) && PoolSize(counts, i) < TWO32
  {
    OffsetMonotone(counts, i + 1, |counts|);
  }

  // One round of the loop.
  method CarveOne(i: nat, counts: seq<nat>, heaps: seq<Heap>, nodes: seq<seq<Link<Header>>>, blocks: seq<seq<Header>>,
                  ghost base: nat, ppool: nat, localOnly: bool, keeper: LockKeeper) returns (poolSize: int)
    requires |heaps| == |nodes| == |blocks| == |counts|
    requires Storage(heaps, nodes, blocks, counts) && LocksFrom(keeper, |counts|, |counts|)
    requires keeper.kept as object !in Everything(heaps, nodes, blocks)
    requires i < |heaps| && PoolSize(counts, i) < TWO32 && ppool == base + Offset(counts, i)
    requires Carving(heaps, nodes, blocks, counts, base, localOnly, i)
    modifies keeper.kept, OwnObjects(heaps[i], nodes[i], blocks[i])
    ensures poolSize >= 0 ==>
              poolSize == PoolSize(counts, i) && Carving(heaps, nodes, blocks, counts, base, localOnly, i + 1)
    ensures poolSize >= 0 ==> OneHanded(keeper, old(keeper.kept[..]), counts, i)
    ensures LocksFrom(keeper, |counts|, |counts|)
    ensures old(LocksFrom(keeper, i, |counts|)) ==> LocksFrom(keeper, i + 1, |counts|)
    ensures poolSize < 0 ==> !old(LocksFrom(keeper, i, |counts|)) || PoolSize(counts, i) >= 0x8000_0000
  {
    hide Storage;
    hide HeapStorage;
    hide LocksFrom;
    hide Everything;
    hide OwnObjects;
    hide Ready;
    hide Zeroed;
    hide Offset;
    hide PoolSize;
    Apartness(heaps, nodes, blocks, counts, i);
    poolSize := CarveHeap(i, counts, heaps[i], nodes[i], blocks[i], ppool, localOnly, keeper);
    forall k | 0 <= k < |heaps| && k != i
      ensures heaps[k].Repr == old(heaps[k].Repr)
      ensures k < i ==> Ready(heaps[k], nodes[k], blocks[k], base + Offset(counts, k), localOnly, k)
      ensures k > i ==> Zeroed(heaps[k], k)
    {
    }
  }

  lemma Apartness(heaps: seq<Heap>, nodes: seq<seq<Link<Header>>>, blocks: seq<seq<Header>>, counts: seq<nat>, i: nat)
    requires Storage(heaps, nodes, blocks, counts) && i < |heaps|
    ensures |heaps| == |nodes| == |blocks| == |counts|
    ensures forall k | 0 <= k < |heaps| ::
              HeapStorage(heaps[k], nodes[k], blocks[k], counts[k])
    ensures forall k | 0 <= k < |heaps| :: heaps[k] in OwnObjects(heaps[k], nodes[k], blocks[k])
    ensures forall k | 0 <= k < |heaps| :: OwnObjects(heaps[k], nodes[k], blocks[k]) <= Everything(heaps, nodes, blocks)
    ensures forall k | 0 <= k < |heaps| && i != k ::
              OwnObjects(heaps[i], nodes[i], blocks[i]) !! OwnObjects(heaps[k], nodes[k], blocks[k])
  {
  }

  method CarveHeap(i: nat, ghost counts: seq<nat>, heap: Heap, nodes: seq<Link<Header>>, blocks: seq<Header>,
                   ppool: nat, localOnly: bool, keeper: LockKeeper) returns (poolSize: int)
    requires i < |counts| && HeapStorage(heap, nodes, blocks, counts[i]) && PoolSize(counts, i) < TWO32
    requires Zeroed(heap, i) && LocksFrom(keeper, |counts|, |counts|)
    modifies keeper.kept, OwnObjects(heap, nodes, blocks)
    ensures poolSize >= 0 ==> poolSize == PoolSize(counts, i) && Ready(heap, nodes, blocks, ppool, localOnly, i)
    ensures poolSize >= 0 ==> heap.Repr <= OwnObjects(heap, nodes, blocks)
    ensures poolSize >= 0 ==> OneHanded(keeper, old(keeper.kept[..]), counts, i)
    ensures LocksFrom(keeper, |counts|, |counts|)
    ensures old(LocksFrom(keeper, i, |counts|)) ==> LocksFrom(keeper, i + 1, |counts|)
    ensures poolSize < 0 ==> !old(LocksFrom(keeper, i, |counts|)) || PoolSize(counts, i) >= 0x8000_0000
  {
    ClassSizeIsShift(i);
    hide Heap.Valid;
    hide Heap.Lists;
    hide Heap.Owned;
    hide Heap.Headers;
    poolSize := heap.Init(START_ORDER + i, |blocks|, nodes, blocks, ppool, localOnly, keeper, i);
    assert forall l | 0 <= l < keeper.kept.Length :: keeper.kept[l] == keeper.kept[..][l];
    assert forall l | 0 <= l < keeper.kept.Length :: old(keeper.kept[l]) == old(keeper.kept[..])[l];
  }

  // Memory holds the block headers at the addresses of the layout, and nothing else that
  // reads as a header.
  ghost predicate MemoryHolds(memory: map<nat, Header>, base: nat, counts: seq<nat>, blocks: seq<seq<Header>>) {
    && |blocks| == |counts| && (forall i | 0 <= i < |blocks| :: |blocks[i]| == counts[i])
    && (forall i, j | 0 <= i < |blocks| && 0 <= j < counts[i] ::
          var a := BlockAddr(base, counts, Spot(i, j));
          a in memory && memory[a] == blocks[i][j] && memory[a].addr == a)
    && (forall a | a in memory :: exists s :: InTable(counts, s) && a == BlockAddr(base, counts, s))
  }

  ghost predicate AllFreeOn(a: Allocator, heaps: seq<Heap>, locks: SystemLocks, memory: map<nat, Header>,
                            counts: seq<nat>, base: nat)
    reads a
  {
    && a.heaps == heaps && a.locks == locks && a.memory == memory && a.counts == counts && a.base == base
    && a.ready && a.pools == FreshHeaps(counts)
  }

  // The lock words are no object of a heap.
  lemma LocksApart(locks: SystemLocks, heaps: seq<Heap>, nodes: seq<seq<Link<Header>>>, blocks: seq<seq<Header>>)
    requires |heaps| == |nodes| == |blocks|
    ensures locks as object !in Everything(heaps, nodes, blocks)
  {
    forall i | 0 <= i < |heaps| ensures locks as object !in OwnObjects(heaps[i], nodes[i], blocks[i]) {
    }
  }

  // The last step of mod_init: from here on mod_malloc and mod_free work, on an allocator
  // whose every block is free.
  method SwitchOn(counts: seq<nat>, base: nat, heaps: seq<Heap>, nodes: seq<seq<Link<Header>>>,
                  blocks: seq<seq<Header>>, memory: map<nat, Header>, locks: SystemLocks) returns (a: Allocator)
    requires Storage(heaps, nodes, blocks, counts) && AllReady(heaps, nodes, blocks, counts, base, false)
    requires MemoryHolds(memory, base, counts, blocks) && base > 0
    ensures fresh(a) && a.Valid() && AllFreeOn(a, heaps, locks, memory, counts, base)
    ensures a.Repr == {a} + Everything(heaps, nodes, blocks)
  {
    hide Storage;
    hide AllReady;
    hide OwnObjects;
    hide Everything;
    hide FreshPool;
    hide Heap.Valid;
    hide BlockAddr;
    hide Offset;
    SettingsKnown(heaps, nodes, blocks, counts, base);
    SettingsApart(heaps, nodes, blocks, counts);
    a := new Allocator(heaps, locks, memory, true, counts, base, Settings(heaps),
                       FreshHeaps(counts), Everything(heaps, nodes, blocks));
    LocksApart(locks, heaps, nodes, blocks);
    assert a.Owned();
    assert a.Mapped();
  }

  lemma SettingsApart(heaps: seq<Heap>, nodes: seq<seq<Link<Header>>>, blocks: seq<seq<Header>>, counts: seq<nat>)
    requires Storage(heaps, nodes, blocks, counts)
    ensures |heaps| == |nodes| == |blocks|
    ensures forall i | 0 <= i < |heaps| ::
              heaps[i] in OwnObjects(heaps[i], nodes[i], blocks[i])
              && OwnObjects(heaps[i], nodes[i], blocks[i]) <= Everything(heaps, nodes, blocks)
    ensures forall i, k | 0 <= i < k < |heaps| ::
              OwnObjects(heaps[i], nodes[i], blocks[i]) !! OwnObjects(heaps[k], nodes[k], blocks[k])
  {
    forall i | 0 <= i < |heaps|
      ensures heaps[i] in OwnObjects(heaps[i], nodes[i], blocks[i])
        && OwnObjects(heaps[i], nodes[i], blocks[i]) <= Everything(heaps, nodes, blocks)
    {
      Apartness(heaps, nodes, blocks, counts, i);
    }
  }

  ghost function Settings(heaps: seq<Heap>): (s: seq<Setting>)
    reads heaps
    ensures |s| == |heaps| && forall i | 0 <= i < |heaps| :: s[i] == heaps[i].Fixed()
  {
    seq(|heaps|, i requires 0 <= i < |heaps| reads heaps => heaps[i].Fixed())
  }

  lemma SettingsKnown(heaps: seq<Heap>, nodes: seq<seq<Link<Header>>>, blocks: seq<seq<Header>>,
                      counts: seq<nat>, base: nat)
    requires Storage(heaps, nodes, blocks, counts) && AllReady(heaps, nodes, blocks, counts, base, false)
    ensures |heaps| == |nodes| == |blocks| == |counts|
    ensures forall i | 0 <= i < |heaps| :: Known(heaps[i], nodes[i], blocks[i], counts, base, i)
  {
    hide OwnObjects;
    hide Known;
    hide Ready;
    forall i | 0 <= i < |heaps| ensures Known(heaps[i], nodes[i], blocks[i], counts, base, i) {
      ReadyKnown(heaps[i], nodes[i], blocks[i], counts, base, i);
    }
  }

  // A heap set up with its part of the region, as the allocator needs it.
  ghost predicate Known(h: Heap, nodes: seq<Link<Header>>, blocks: seq<Header>, counts: seq<nat>, base: nat, i: nat)
    requires i < |counts|
    reads h, h.Repr
  {
    && h.number == counts[i] == |blocks| && h.headers == blocks && h.Repr == OwnObjects(h, nodes, blocks)
    && (counts[i] > 0 ==> h.head == base + Offset(counts, i) && h.end == base + Offset(counts, i + 1))
    && h.Valid(i) && h.pool == FreshPool(counts[i])
  }

  lemma ReadyKnown(h: Heap, nodes: seq<Link<Header>>, blocks: seq<Header>, counts: seq<nat>, base: nat, i: nat)
    requires i < |counts| && HeapStorage(h, nodes, blocks, counts[i])
    requires Ready(h, nodes, blocks, base + Offset(counts, i), false, i)
    ensures Known(h, nodes, blocks, counts, base, i)
  {
    ClassSizeIsShift(i);
    hide Heap.Headers;
    hide Pool.Inv;
  }
}
