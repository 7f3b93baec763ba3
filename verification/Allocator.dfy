/** The size-class allocator as the driver runs it: headers in shared memory, this core's
    static nodes and heaps, two intrusive lists per heap, one lock per heap. */
module Allocator {
  import opened Words
  import opened Options
  import opened Seqs
  import opened IntrusiveList
  import opened Locks
  import opened Pools
  import L = Layout
  import U = LockActs

  const MOD_SIGNATURE: word := 0x2FA0_978C

  // Bit 0 of m_flag, MOD_MEMORY_BUSY_FLAG: testing, setting and clearing it.
  predicate BusyBit(flag: word) { flag % 2 == 1 }
  function WithBusy(flag: word): word { if BusyBit(flag) then flag else flag + 1 }
  function WithoutBusy(flag: word): word { if BusyBit(flag) then flag - 1 else flag }

  // struct Mod_mem at the start of a block; addr is where it lies.
  class Header {
    const addr: nat
    var signature: word
    var order: nat
    var number: nat
    var length: nat
    var flag: word

    constructor (addr: nat)
      ensures this.addr == addr
    {
      this.addr := addr;
      signature, order, number, length, flag := 0, 0, 0, 0, 0;
    }

    method Reset(order: nat, number: nat)
      modifies this`signature, this`order, this`number, this`length, this`flag
      ensures signature == MOD_SIGNATURE && this.order == order && this.number == number && length == 0 && flag == 0
    {
      flag, signature, this.order, this.number, length := 0, MOD_SIGNATURE, order, number, 0;
    }

    // This is the header of block j of class i, with this busy flag and stored length.
    ghost predicate Says(i: nat, j: nat, busy: bool, length: nat)
      reads `signature, `order, `number, `length, `flag
    {
      && signature == MOD_SIGNATURE
      && order == START_ORDER + i && number == j
      && this.length == length
      && BusyBit(flag) == busy
    }
  }

  // What no operation on a heap that is set up ever changes.
  datatype Setting = Setting(number: nat, blockSize: nat, head: nat, end: nat,
                             list: seq<Link<Header>>, headers: seq<Header>, objects: set<object>)

  // The headers an initialisation writes: those of the first core only.
  ghost function Written(blocks: seq<Header>, localOnly: bool): seq<Header> {
    if localOnly then [] else blocks
  }

  // Bytes taken by number blocks of 1 << order bytes.
  function PoolSpan(order: nat, number: nat): nat { Pow2(order) * number }

  ghost function OwnObjects(h: Heap, nodes: seq<Link<Header>>, blocks: seq<Header>): set<object> {
    {h, h.lock, h.free, h.busy} + (set l | l in nodes) + (set b | b in blocks)
  }

  class Heap {
    var number: nat
    var blockSize: nat
    var order: nat
    var head: nat
    var end: nat
    var list: seq<Link<Header>>
    const lock: Mutex
    const free: ListHead<Header>
    const busy: ListHead<Header>

    ghost var headers: seq<Header> // the headers of this heap's blocks, by block number
    ghost var pool: Pool           // what lists and headers stand for
    ghost var Repr: set<object>

    // A heap as static storage holds it before it is set up.
    constructor ()
      ensures number == 0 && list == [] && headers == [] && pool == FreshPool(0) && blockSize == 0
      ensures fresh(lock) && fresh(free) && fresh(busy)
      ensures free.Valid() && free.elems == [] && busy.Valid() && busy.elems == []
      ensures Repr == {this, lock, free, busy} && forall i :: Valid(i)
    {
      number, blockSize, order, head, end, list := 0, 0, 0, 0, 0, [];
      headers, pool := [], FreshPool(0);
      lock := new Mutex();
      free := new ListHead();
      busy := new ListHead();
      new;
      Repr := {this, lock, free, busy};
    }

    ghost predicate Owned()
      reads this, Repr
    {
      && {this, lock, free, busy} <= Repr
      && (forall l :: l in list ==> l in Repr)
      && (forall h :: h in headers ==> h in Repr)
      && (forall l :: l in free.elems ==> l in list)
      && (forall l :: l in busy.elems ==> l in list)
    }

    ghost predicate Lists(i: nat)
      reads `list, free`next, free`number, free`elems, busy`next, busy`number, busy`elems
      reads free.elems`next, free.elems`prev, busy.elems`next, busy.elems`prev
      reads `number, `order, `blockSize, `headers, `pool, lock`lock, list`data
    {
      && Chains(list, free, busy, pool.free, pool.busy)
      && number == |list| == |headers| == |pool.flags|
      && (forall j | 0 <= j < number :: list[j].data == headers[j])
      && pool.Inv(i)
      && blockSize == pool.Capacity(i)
      && (number > 0 ==> order == START_ORDER + i && lock.lock == LOCK_SHM + order)
    }

    // The headers say the same as the lists.
    ghost predicate Headers(i: nat)
      reads `headers, `pool
      reads headers`signature, headers`order, headers`number, headers`length, headers`flag
    {
      && |headers| == |pool.flags| == |pool.lengths|
      && Distinct(headers)
      && forall j | 0 <= j < |headers| :: headers[j].Says(i, j, pool.flags[j], pool.lengths[j])
    }

    ghost predicate Valid(i: nat)
      reads this, Repr
    {
      Owned() && Lists(i) && Headers(i)
    }

    ghost function Fixed(): Setting
      reads this
    {
      Setting(number, blockSize, head, end, list, headers, Repr)
    }

    // The header writes of mod_malloc_heap; pool follows.
    method MarkBusy(pblock: Header, size: nat, ghost i: nat)
      requires Headers(i) && pool.free != [] && pool.free[0] < |headers| && headers[pool.free[0]] == pblock
      modifies pblock`flag, pblock`length, `pool
      ensures pool == old(pool.Take(size)) && Headers(i)
    {
      pblock.flag := WithBusy(pblock.flag);
      pblock.length := size;
      pool := pool.Take(size);
    }

    // The stored counts tell whether the lists are empty.
    lemma EmptyLists(i: nat)
      requires Lists(i)
      ensures free.number == |pool.free| && busy.number == |pool.busy|
      ensures pool.free != [] ==>
                && pool.free[0] < number == |pool.flags| == |pool.lengths|
                && pool.free[0] !in pool.busy && pool.free[0] !in pool.free[1..]
                && free.next == list[pool.free[0]]
    {
      assert pool.free != [] ==> pool.free[0] in pool.free;
    }

    // This heap's lock is taken.
    ghost predicate Locked(locks: SystemLocks)
      reads lock, locks`words
    {
      lock.lock < |locks.words| && locks.words[lock.lock] == 1
    }

    // What mod_malloc_heap does with the lock held when the free list is not empty.
    method TakeHead(size: nat, ghost locks: SystemLocks, ghost i: nat) returns (ret: nat)
      requires Locked(locks)
      requires Valid(i) && pool.free != [] && 0 < size <= blockSize
      modifies `pool, free`next, free`number, free`elems, busy`next, busy`number, busy`elems
      modifies list`next, list`prev, headers`flag, headers`length
      ensures Valid(i)
      ensures old(pool.free[0] < number && pool.free[0] < |pool.lengths|)
      ensures pool == old(pool.Take(size)) && ret == headers[old(pool.free[0])].addr + OVERHEAD
    {
      hide Chains;
      hide Headers;
      hide Pool.Inv;
      EmptyLists(i);
      var plist := free.next;
      TakeInv(pool, i, size);
      var pblock := plist.data;
      ret := pblock.addr + OVERHEAD;
      HeadToBusy(list, free, busy, plist, pool.free, pool.busy);
      MarkBusy(pblock, size, i);
      ChainsInList(list, free, busy, pool.free, pool.busy);
    }

    // mod_malloc_heap. The result is a payload address, or 0.
    method MallocHeap(size: nat, locks: SystemLocks, ghost i: nat) returns (ret: nat)
      requires Valid(i) && 0 < size <= blockSize
      requires lock.lock < |locks.words| && locks.words[lock.lock] == 0
      modifies Repr, locks
      ensures Valid(i) && Fixed() == old(Fixed()) && locks.words == old(locks.words)
      ensures locks.trace == old(locks.trace) + U.Around(old(lock.lock), [])
      ensures old(pool.free) == [] ==> ret == 0 && pool == old(pool)
      ensures old(pool.free) != [] ==>
                old(pool.free[0]) < number && old(pool.free[0] < |pool.lengths|)
                && pool == old(pool.Take(size)) && ret == headers[old(pool.free[0])].addr + OVERHEAD
    {
      hide Lists;
      hide Headers;
      EmptyLists(i);
      U.Enclosed(locks.trace, lock.lock, []);
      locks.Lock(lock.lock);
      if free.number != 0 {
        ret := TakeHead(size, locks, i);
        locks.Unlock(lock.lock);
      } else {
        locks.Unlock(lock.lock);
        ret := 0;
      }
    }

    // The header writes of mod_free; pool follows.
    method MarkFree(pmem: Header, ghost i: nat, ghost j: nat)
      requires Headers(i) && j < |headers| && headers[j] == pmem && pool.flags[j] && j in pool.busy
      modifies pmem`flag, pmem`length, `pool
      ensures pool == old(pool.Give(j)) && Headers(i)
    {
      pmem.flag := WithoutBusy(pmem.flag);
      pmem.length := 0;
      pool := pool.Give(j);
    }

    lemma SizeKnown(i: nat)
      requires Valid(i)
      ensures blockSize == pool.Capacity(i) && number == |pool.flags| == |pool.lengths|
      ensures blockSize > 0 ==> number > 0
      ensures number > 0 ==> lock.lock == LOCK_SHM + START_ORDER + i
    {
    }

    // The state mod_mem_init_heap leaves: every block on the free list.
    ghost predicate AllFree(nodes: seq<Link<Header>>, blocks: seq<Header>, ppool: nat, i: nat)
      reads this, Repr
    {
      && Owned() && Lists(i)
      && list == nodes && headers == blocks && pool == FreshPool(|blocks|)
      && Repr == OwnObjects(this, nodes, blocks)
      && head == ppool && end == ppool + PoolSpan(START_ORDER + i, |blocks|)
    }

    // mod_mem_init_heap. blocks are the headers that lie from ppool on, one every 1 << order
    // bytes; nodes are this pool's static list nodes.
    method Init(order: nat, number: nat, nodes: seq<Link<Header>>, blocks: seq<Header>, ppool: nat,
                localOnly: bool, keeper: LockKeeper, ghost i: nat) returns (ret: int)
      requires order == START_ORDER + i && |nodes| == |blocks| == number
      requires Distinct(nodes) && Distinct(blocks) && free != busy
      requires keeper.kept.Length == LOCK_KEEPER_LENGTH && LOCK_SHM + order < LOCK_KEEPER_LENGTH
      modifies this, lock, free, busy, nodes, keeper.kept
      modifies Written(blocks, localOnly)`signature, Written(blocks, localOnly)`order
      modifies Written(blocks, localOnly)`number, Written(blocks, localOnly)`length, Written(blocks, localOnly)`flag
      ensures number == 0 ==> ret == 0 && unchanged(this) && unchanged(lock) && unchanged(free) && unchanged(busy)
      ensures number == 0 ==> keeper.kept[..] == old(keeper.kept[..])
      ensures number > 0 && old(keeper.kept[LOCK_SHM + order]) ==>
                ret == -1 && keeper.kept[..] == old(keeper.kept[..])[0 := false]
      ensures number > 0 && !old(keeper.kept[LOCK_SHM + order]) ==>
                && ret == ToInt(Wrap(PoolSpan(order, number)))
                && keeper.kept[..] == old(keeper.kept[..])[LOCK_SHM + order := true]
                && AllFree(nodes, blocks, ppool, i)
                && (!localOnly ==> Headers(i))
    {
      hide AllFree;
      hide Headers;
      hide PoolSpan;
      ret := 0;
      if number == 0 {
        return;
      }
      lock.lock := 0;
      ret := keeper.Init(lock, LOCK_SHM + order);
      if ret != 0 {
        var _ := keeper.Destroy(lock);
        return -1;
      }
      ret := Carve(order, number, nodes, blocks, ppool, localOnly, i);
    }

    // mod_mem_init_heap once it has its lock.
    method Carve(order: nat, number: nat, nodes: seq<Link<Header>>, blocks: seq<Header>, ppool: nat,
                 localOnly: bool, ghost i: nat) returns (ret: int)
      requires order == START_ORDER + i && |nodes| == |blocks| == number > 0
      requires Distinct(nodes) && Distinct(blocks) && free != busy && lock.lock == LOCK_SHM + order
      modifies this, free`next, free`number, free`elems, busy`next, busy`number, busy`elems,
        nodes`data, nodes`next, nodes`prev
      modifies Written(blocks, localOnly)`signature, Written(blocks, localOnly)`order
      modifies Written(blocks, localOnly)`number, Written(blocks, localOnly)`length, Written(blocks, localOnly)`flag
      ensures ret == ToInt(Wrap(PoolSpan(order, number)))
      ensures AllFree(nodes, blocks, ppool, i)
      ensures !localOnly ==> Headers(i)
    {
      hide PoolSpan;
      hide Listed;
      hide Stamped;
      hide Lists;
      hide Owned;
      hide Headers;
      hide FieldsSet;
      SetFields(order, number, nodes, blocks, ppool, i);
      FillFree(number, nodes, blocks, order, localOnly, i);
      end := ppool + PoolSpan(order, number);
      hide OwnObjects;
      ret := ToInt(Wrap(PoolSpan(order, number)));
      hide AllFree;
      Carved(nodes, blocks, ppool, localOnly, i);
    }

    // The fields assigned before the loop, and the empty busy list.
    ghost predicate FieldsSet(nodes: seq<Link<Header>>, blocks: seq<Header>, ppool: nat, i: nat)
      reads `number, `order, `blockSize, `head, `list, `headers, `pool, `Repr
      reads busy`next, busy`number, busy`elems, busy.elems`next, busy.elems`prev
    {
      && number == |blocks| && order == START_ORDER + i && blockSize == ClassSize(i) - OVERHEAD
      && head == ppool && list == nodes && headers == blocks && pool == FreshPool(number)
      && Repr == OwnObjects(this, nodes, blocks)
      && busy.Valid() && busy.elems == []
    }

    method SetFields(order: nat, number: nat, nodes: seq<Link<Header>>, blocks: seq<Header>, ppool: nat, ghost i: nat)
      requires order == START_ORDER + i && free != busy && number == |blocks|
      modifies this, free`next, free`number, free`elems, busy`next, busy`number, busy`elems
      ensures FieldsSet(nodes, blocks, ppool, i) && free.Valid() && free.elems == []
    {
      ClassSizeIsShift(i);
      var fullBlockSize := Pow2(order);
      this.number, blockSize, this.order := number, fullBlockSize - OVERHEAD, order;
      head, list := ppool, nodes;
      headers, pool, Repr := blocks, FreshPool(number), OwnObjects(this, nodes, blocks);
      free.Clear();
      busy.Clear();
    }

    lemma Carved(nodes: seq<Link<Header>>, blocks: seq<Header>, ppool: nat, localOnly: bool, i: nat)
      requires |nodes| == |blocks| > 0
      requires Distinct(nodes) && Distinct(blocks) && free != busy && lock.lock == LOCK_SHM + START_ORDER + i
      requires FieldsSet(nodes, blocks, ppool, i) && Listed(nodes, blocks, |blocks|)
      requires Stamped(blocks, |blocks|, localOnly, i)
      requires end == ppool + PoolSpan(START_ORDER + i, |blocks|)
      ensures AllFree(nodes, blocks, ppool, i) && (!localOnly ==> Headers(i))
    {
      FreshPoolInv(number, i);
      hide Pool.Inv;
    }

    // The first k blocks are on the free list.
    ghost predicate Listed(nodes: seq<Link<Header>>, blocks: seq<Header>, k: nat)
      requires k <= |nodes| == |blocks|
      reads free`next, free`number, free`elems, free.elems`next, free.elems`prev, nodes`data
    {
      && free.Valid() && Names(nodes, free.elems, CountDown(k))
      && forall m | 0 <= m < k :: nodes[m].data == blocks[m]
    }

    // The first k headers are written, if that is asked for.
    ghost predicate Stamped(blocks: seq<Header>, k: nat, localOnly: bool, i: nat)
      requires k <= |blocks|
      reads blocks`signature, blocks`order, blocks`number, blocks`length, blocks`flag
    {
      !localOnly ==> forall m | 0 <= m < k :: blocks[m].Says(i, m, false, 0)
    }

    // The loop of mod_mem_init_heap.
    method FillFree(number: nat, nodes: seq<Link<Header>>, blocks: seq<Header>, order: nat,
                    localOnly: bool, ghost i: nat)
      requires |nodes| == |blocks| == number && Distinct(nodes) && Distinct(blocks) && order == START_ORDER + i
      requires free.Valid() && free.elems == []
      modifies free`next, free`number, free`elems, nodes`data, nodes`next, nodes`prev
      modifies Written(blocks, localOnly)`signature, Written(blocks, localOnly)`order
      modifies Written(blocks, localOnly)`number, Written(blocks, localOnly)`length, Written(blocks, localOnly)`flag
      ensures Listed(nodes, blocks, number) && Stamped(blocks, number, localOnly, i)
    {
      hide Listed;
      hide Stamped;
      NothingListed(nodes, blocks, localOnly, i);
      for k := 0 to number
        invariant Listed(nodes, blocks, k) && Stamped(blocks, k, localOnly, i)
      {
        Stamp(blocks, order, localOnly, k, i);
        PutFree(nodes, blocks, k);
      }
    }

    lemma NothingListed(nodes: seq<Link<Header>>, blocks: seq<Header>, localOnly: bool, i: nat)
      requires |nodes| == |blocks| && free.Valid() && free.elems == []
      ensures Listed(nodes, blocks, 0) && Stamped(blocks, 0, localOnly, i)
    {
    }

    method Stamp(blocks: seq<Header>, order: nat, localOnly: bool, k: nat, ghost i: nat)
      requires k < |blocks| && Distinct(blocks) && order == START_ORDER + i
      requires Stamped(blocks, k, localOnly, i)
      modifies Written(blocks, localOnly)`signature, Written(blocks, localOnly)`order
      modifies Written(blocks, localOnly)`number, Written(blocks, localOnly)`length, Written(blocks, localOnly)`flag
      ensures Stamped(blocks, k + 1, localOnly, i)
    {
      if !localOnly {
        blocks[k].Reset(order, k);
      }
    }

    method PutFree(nodes: seq<Link<Header>>, blocks: seq<Header>, k: nat)
      requires k < |nodes| == |blocks| && Distinct(nodes) && Listed(nodes, blocks, k)
      modifies free`next, free`number, free`elems, nodes`data, nodes`next, nodes`prev
      ensures Listed(nodes, blocks, k + 1)
    {
      NamesCons(nodes, free.elems, CountDown(k), k);
      nodes[k].data := blocks[k];
      free.AddHead(nodes[k]);
      assert CountDown(k + 1) == [k] + CountDown(k);
    }

    // What the lists and flags say about block j.
    lemma BlockKnown(i: nat, j: nat)
      requires Valid(i) && j < |headers|
      ensures j < number == |list| == |pool.flags| == |pool.lengths|
      ensures BusyBit(headers[j].flag) == pool.flags[j]
      ensures pool.flags[j] ==> j in pool.busy && j !in pool.free && busy.number > 0
      ensures headers[j].length <= blockSize
      ensures Distinct(pool.busy)
      ensures headers[j].Says(i, j, pool.flags[j], pool.lengths[j])
    {
      assert headers[j].Says(i, j, pool.flags[j], pool.lengths[j]);
    }

    method GiveBack(pmem: Header, plist: Link<Header>, ghost locks: SystemLocks, ghost i: nat, ghost j: nat)
      returns (ret: int)
      requires Locked(locks)
      requires Valid(i) && j < |headers| && headers[j] == pmem && j < |list| && plist == list[j]
      requires j < |pool.flags| && pool.flags[j]
      modifies `pool, free`next, free`number, free`elems, busy`next, busy`number, busy`elems
      modifies list`next, list`prev, headers`flag, headers`length
      ensures Valid(i) && ret == 0
      ensures j < |old(pool).flags| == |old(pool).lengths| && pool == old(pool).Give(j)
    {
      hide Chains;
      hide Headers;
      hide Pool.Inv;
      hide Remove;
      BlockKnown(i, j);
      GiveInv(pool, i, j);
      ret := EntryToFree(list, free, busy, plist, pool.free, pool.busy, j);
      MarkFree(pmem, i, j);
      ChainsInList(list, free, busy, pool.free, pool.busy);
    }

    // The part of mod_free from its lock on. Four of its five early returns cannot happen.
    method FreeBlock(ptr: nat, pmem: Header, plist: Link<Header>, locks: SystemLocks, ghost i: nat, ghost j: nat)
      requires Valid(i) && j < |headers| && headers[j] == pmem && j < |list| && plist == list[j]
      requires head <= ptr <= end
      requires lock.lock < |locks.words| && locks.words[lock.lock] == 0
      modifies Repr, locks
      ensures Valid(i) && Fixed() == old(Fixed()) && locks.words == old(locks.words)
      ensures locks.trace == old(locks.trace) + U.Around(old(lock.lock), [])
      ensures j < |old(pool).flags| == |old(pool).lengths| && pool == old(pool).Give(j)
    {
      hide Lists;
      hide Headers;
      BlockKnown(i, j);
      U.Enclosed(locks.trace, lock.lock, []);
      locks.Lock(lock.lock);
      if !BusyBit(pmem.flag) {
        locks.Unlock(lock.lock);
        return;
      }
      if ptr < head || ptr > end {
        assert false;
      }
      if pmem.length > blockSize {
        assert false;
      }
      if busy.number == 0 {
        assert false;
      }
      var removed := GiveBack(pmem, plist, locks, i, j);
      if removed != 0 {
        assert false;
      }
      locks.Unlock(lock.lock);
    }
  }

  // ---------------------------------------------------------------- all heaps

  class Allocator {
    const heaps: seq<Heap>
    const locks: SystemLocks
    const memory: map<nat, Header> // the block headers in shared memory, by address
    const ready: bool              // pshm_control_area and mod_mem_init_flag are set

    ghost const counts: seq<nat>
    ghost const base: nat
    ghost const settings: seq<Setting>
    ghost const Repr: set<object>
    ghost var pools: seq<Pool>

    constructor (heaps: seq<Heap>, locks: SystemLocks, memory: map<nat, Header>, ready: bool,
                 ghost counts: seq<nat>, ghost base: nat, ghost settings: seq<Setting>,
                 ghost pools: seq<Pool>, ghost objects: set<object>)
      ensures this.heaps == heaps && this.locks == locks && this.memory == memory && this.ready == ready
      ensures this.counts == counts && this.base == base && this.settings == settings
      ensures this.pools == pools && Repr == {this} + objects
    {
      this.heaps, this.locks, this.memory, this.ready := heaps, locks, memory, ready;
      this.counts, this.base, this.settings, this.pools := counts, base, settings, pools;
      Repr := {this} + objects;
    }

    // No object of one heap belongs to another or is this allocator.
    ghost predicate Owned() {
      && this in Repr && locks as object !in Repr
      && |heaps| == |settings|
      && (forall i | 0 <= i < |heaps| ::
            heaps[i] in Repr && heaps[i] in settings[i].objects
            && settings[i].objects <= Repr && this !in settings[i].objects)
      && (forall i, k | 0 <= i < k < |heaps| :: settings[i].objects !! settings[k].objects)
    }

    // Every block of the table has its header where the layout puts it.
    ghost predicate Mapped() {
      && |heaps| == |counts| == |settings|
      && (forall i | 0 <= i < |heaps| ::
            && settings[i].number == counts[i] == |settings[i].headers|
            && (counts[i] > 0 ==>
                  && settings[i].head == base + L.Offset(counts, i)
                  && settings[i].end == base + L.Offset(counts, i + 1)))
      && (forall i, j | 0 <= i < |heaps| && 0 <= j < counts[i] ::
            var a := L.BlockAddr(base, counts, Spot(i, j));
            a in memory && memory[a] == settings[i].headers[j] && memory[a].addr == a)
      && (forall a | a in memory :: exists s :: L.InTable(counts, s) && a == L.BlockAddr(base, counts, s))
      && base > 0
    }

    ghost predicate Valid()
      reads this, Repr
    {
      && Owned() && Mapped()
      && |pools| == |heaps|
      && (forall i | 0 <= i < |heaps| :: heaps[i].Fixed() == settings[i])
      && (forall i | 0 <= i < |heaps| :: heaps[i].Valid(i) && heaps[i].pool == pools[i])
    }

    // No heap lock is held.
    ghost predicate LocksClear()
      reads locks`words
    {
      && LOCK_SHM + START_ORDER + |heaps| <= |locks.words|
      && forall l | LOCK_SHM + START_ORDER <= l < LOCK_SHM + START_ORDER + |heaps| :: locks.words[l] == 0
    }

    lemma ValidPools()
      requires Valid()
      ensures HeapsInv(pools) && L.Shaped(pools, counts)
    {
      forall i | 0 <= i < |pools| ensures pools[i].Inv(i) && |pools[i].flags| == counts[i] {
        assert heaps[i].Valid(i);
      }
    }

    // An operation on heap i alone keeps the whole valid.
    twostate lemma OneHeap(i: nat)
      requires old(Valid()) && i < |heaps|
      requires heaps[i].Valid(i) && heaps[i].Fixed() == old(heaps[i].Fixed())
      requires forall o | o in Repr && o != this && o !in old(heaps[i].Repr) :: unchanged(o)
      requires pools == old(pools)[i := heaps[i].pool]
      ensures Valid()
    {
      hide Heap.Lists;
      hide Heap.Headers;
      hide Heap.Owned;
      hide Pool.Inv;
      hide Mapped;
      assert forall k | 0 <= k < |heaps| :: heaps[k].Fixed() == settings[k];
      assert forall k | 0 <= k < |heaps| && k != i :: heaps[k].Valid(k) && heaps[k].pool == old(heaps[k].pool);
    }

    // mod_malloc's attempt on one heap.
    method TryHeap(i: nat, size: nat) returns (ret: nat)
      requires Valid() && LocksClear() && i < |heaps| && 0 < size <= heaps[i].blockSize
      modifies Repr, locks
      ensures Valid() && locks.words == old(locks.words)
      ensures locks.trace == old(locks.trace) + U.Around(U.HeapLock(i), [])
      ensures i < |old(pools)|
      ensures old(pools)[i].free == [] ==> ret == 0 && pools == old(pools)
      ensures old(pools)[i].free != [] ==>
                && old(pools)[i].free[0] < |old(pools)[i].flags| == |old(pools)[i].lengths|
                && pools == old(pools)[i := old(pools)[i].Take(size)]
                && ret == Returned(Some(Spot(i, old(pools)[i].free[0])))
    {
      hide Heap.Lists;
      hide Heap.Headers;
      hide Heap.Owned;
      hide Pool.Inv;
      assert i < |counts| && old(pools)[i] == heaps[i].pool;
      heaps[i].SizeKnown(i);
      label before:
      ret := heaps[i].MallocHeap(size, locks, i);
      pools := pools[i := heaps[i].pool];
      OneHeap@before(i);
      assert ret != 0 ==> ret == Returned(Some(Spot(i, old(pools)[i].free[0])));
    }

    ghost function Returned(spot: Option<Spot>): nat {
      match spot
      case None => 0
      case Some(s) => if s.i < |counts| then L.Payload(base, counts, s) else 0
    }

    // What is still to be tried completes what has been done since the trace was before.
    ghost predicate TriesLeft(before: seq<Act>, now: seq<Act>, size: nat, i: nat)
      reads `pools
    {
      now + U.Tried(U.MallocTries(pools, size, i)) == before + U.Tried(U.MallocTries(pools, size, 0))
    }

    // One attempt on class i.
    lemma OneTried(hs: seq<Pool>, start: seq<Act>, before: seq<Act>, size: nat, i: nat)
      requires i < |hs| && Fits(hs, size, i)
      requires before + U.Tried(U.MallocTries(hs, size, i)) == start + U.Tried(U.MallocTries(hs, size, 0))
      ensures var now := before + U.Around(U.HeapLock(i), []);
        && (hs[i].free != [] ==> now == start + U.Tried(U.MallocTries(hs, size, 0)))
        && (hs[i].free == [] ==>
              now + U.Tried(U.MallocTries(hs, size, i + 1)) == start + U.Tried(U.MallocTries(hs, size, 0)))
    {
      if hs[i].free != [] {
        assert U.MallocTries(hs, size, i) == [i];
        hide U.MallocTries;
        U.TriedOne(i);
      } else {
        var rest := U.MallocTries(hs, size, i + 1);
        assert U.MallocTries(hs, size, i) == [i] + rest;
        hide U.MallocTries;
        U.TriedJoin(i, rest);
        hide U.Tried;
        hide U.Around;
        U.Regroup(before, U.Around(U.HeapLock(i), []), U.Tried(rest));
      }
    }

    // mod_malloc. The result is a payload address, or 0.
    method Malloc(size: nat) returns (ret: nat)
      requires Valid() && LocksClear()
      modifies Repr, locks
      ensures Valid() && locks.words == old(locks.words)
      ensures HeapsInv(old(pools)) && |old(pools)| == |counts|
      ensures var tries := if ready && size > 0 then U.MallocTries(old(pools), size, 0) else [];
        locks.trace == old(locks.trace) + U.Acts(U.Mallocs(tries))
      ensures !ready ==> ret == 0 && pools == old(pools)
      ensures ready ==> pools == Pools.Malloc(old(pools), size).0
      ensures ready ==> ret == Returned(Pools.Malloc(old(pools), size).1)
    {
      hide Heap.Lists;
      hide Heap.Headers;
      hide Heap.Owned;
      hide Pool.Inv;
      hide L.Offset;
      hide Mapped;
      hide Owned;
      ValidPools();
      if !ready || size == 0 {
        return 0;
      }
      var i := 0;
      ret := 0;
      while i < |heaps|
        invariant 0 <= i <= |heaps| && ret == 0
        invariant Valid() && LocksClear() && locks.words == old(locks.words) && pools == old(pools)
        invariant MallocFrom(pools, size, 0) == MallocFrom(pools, size, i)
        invariant TriesLeft(old(locks.trace), locks.trace, size, i)
      {
        heaps[i].SizeKnown(i);
        ghost var before := locks.trace;
        if size <= heaps[i].blockSize {
          ret := TryHeap(i, size);
          OneTried(old(pools), old(locks.trace), before, size, i);
          if ret != 0 {
            return;
          }
        }
        i := i + 1;
      }
    }

    // The block whose payload starts at ptr, if there is one.
    ghost predicate PointsTo(ptr: nat, s: Spot) {
      L.InTable(counts, s) && ptr == L.Payload(base, counts, s)
    }

    lemma HeaderOf(ptr: nat, s: Spot)
      requires Valid() && PointsTo(ptr, s)
      ensures ptr - OVERHEAD in memory
      ensures s.i < |heaps| && s.j < |heaps[s.i].headers| == |heaps[s.i].list|
      ensures memory[ptr - OVERHEAD] == heaps[s.i].headers[s.j]
      ensures heaps[s.i].headers[s.j].Says(s.i, s.j, pools[s.i].flags[s.j], pools[s.i].lengths[s.j])
      ensures IsSpot(pools, s)
      ensures heaps[s.i].head <= ptr <= heaps[s.i].end
    {
      hide Heap.Lists;
      hide Heap.Headers;
      hide Heap.Owned;
      hide Pool.Inv;
      hide L.Offset;
      heaps[s.i].BlockKnown(s.i, s.j);
      L.BlockInPool(base, counts, s);
    }

    ghost function Target(ptr: nat): (r: Option<Spot>)
      ensures match r case Some(s) => PointsTo(ptr, s) case None => forall s :: !PointsTo(ptr, s)
    {
      if s :| PointsTo(ptr, s) then Some(s) else None
    }

    lemma PointsToOne(ptr: nat, s: Spot)
      requires PointsTo(ptr, s)
      ensures forall t :: PointsTo(ptr, t) ==> t == s
      ensures Target(ptr) == Some(s)
    {
      forall t | PointsTo(ptr, t) ensures t == s {
        if t != s {
          L.BlocksDisjoint(base, counts, s, t);
        }
      }
    }

    // A header lies before ptr exactly when ptr is a block's payload.
    lemma PointsToMapped(ptr: nat)
      requires Valid()
      ensures (ptr >= OVERHEAD && ptr - OVERHEAD in memory) <==> exists s :: PointsTo(ptr, s)
    {
      if s :| PointsTo(ptr, s) {
        HeaderOf(ptr, s);
      }
      if ptr >= OVERHEAD && ptr - OVERHEAD in memory {
        ghost var s :| L.InTable(counts, s) && ptr - OVERHEAD == L.BlockAddr(base, counts, s);
        assert PointsTo(ptr, s);
      }
    }

    // mod_free. It insists on blocks above the first class.
    method Free(ptr: nat)
      requires Valid() && LocksClear()
      requires ready && ptr >= OVERHEAD && ptr - OVERHEAD in memory ==>
                 START_ORDER < memory[ptr - OVERHEAD].order < START_ORDER + |heaps|
      modifies Repr, locks
      ensures Valid() && locks.words == old(locks.words)
      ensures HeapsInv(old(pools))
      ensures ready && Target(ptr).Some? ==>
                var s := Target(ptr).value;
                && IsSpot(old(pools), s) && pools == FreeSpot(old(pools), s)
                && locks.trace == old(locks.trace) + U.Acts(U.Frees(s.i))
      ensures !ready || Target(ptr).None? ==> pools == old(pools) && locks.trace == old(locks.trace)
    {
      ValidPools();
      PointsToMapped(ptr);
      hide Valid;
      hide PointsTo;
      if !ready || ptr < OVERHEAD || ptr - OVERHEAD !in memory {
        return;
      }
      FreeAt(ptr, Target(ptr).value);
    }

    // mod_free past its first test, for a pointer to block s.
    method FreeAt(ptr: nat, ghost s: Spot)
      requires Valid() && LocksClear() && PointsTo(ptr, s) && ptr - OVERHEAD in memory
      requires START_ORDER < memory[ptr - OVERHEAD].order < START_ORDER + |heaps|
      modifies Repr, locks
      ensures Valid() && locks.words == old(locks.words)
      ensures HeapsInv(old(pools)) && IsSpot(old(pools), s) && pools == FreeSpot(old(pools), s)
      ensures locks.trace == old(locks.trace) + U.Acts(U.Frees(s.i))
    {
      hide Heap.Lists;
      hide Heap.Headers;
      hide Heap.Owned;
      hide Pool.Inv;
      hide L.Offset;
      hide L.BlockAddr;
      ValidPools();
      HeaderOf(ptr, s);
      var pmem := memory[ptr - OVERHEAD];
      var order, number := pmem.order, pmem.number;
      if pmem.signature != MOD_SIGNATURE {
        assert false;
      }
      var index := order - START_ORDER;
      var pheap := heaps[index];
      pheap.SizeKnown(index);
      label before:
      pheap.FreeBlock(ptr, pmem, pheap.list[number], locks, s.i, s.j);
      pools := pools[index := pheap.pool];
      OneHeap@before(index);
    }
  }
}
