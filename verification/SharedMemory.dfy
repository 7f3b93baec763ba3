/** The registry as the driver runs it: info entries threaded on two intrusive lists, blocks
    taken from the allocator, and the bytes of the blocks in memory. Each method is proved to
    do what the functions of RegistrySpec, Mailbox and Agreement say. The methods are what one
    core executes with the other outside the registry; TwoCores has the interleavings. */
module SharedMemory {
  import opened Words
  import opened Options
  import opened Seqs
  import opened IntrusiveList
  import opened Locks
  import opened Pools
  import opened RegistrySpec
  import opened Mailbox
  import opened Agreement
  import L = Layout
  import U = LockActs
  import Alloc = Allocator

  // struct Shm_block_info; id is its position in the info array.
  class Info {
    const id: nat
    var name: string
    var length: nat
    var mem: nat
    var open: set<nat>
    var update: set<nat>
    var size: nat
    var offset: nat

    constructor (id: nat)
      ensures this.id == id && Says(EmptyEntry())
    {
      this.id := id;
      name, length, mem, open, update, size, offset := "", 0, 0, {}, {}, 0, 0;
    }

    // The fields are those of e.
    ghost predicate Says(e: Entry)
      reads this
    {
      && name == e.name && length == e.length && mem == e.mem && open == e.open
      && update == e.update && size == e.size && offset == e.offset
    }
  }

  // Where an entry's data lies in memory.
  ghost predicate InRam(ram: seq<byte>, e: Entry) {
    e.mem + e.length <= |ram| && e.data == ram[e.mem..e.mem + e.length]
  }

  lemma FirstFree(reg: Reg)
    requires Good(reg) && reg.free != []
    ensures var h := reg.free[0]; h < |reg.entries| && h !in reg.busy && h !in reg.free[1..]
  {
    assert reg.free[0] in reg.free;
  }

  // The field writes of an open that creates its entry.
  method FillIn(info: Info, name: string, length: word, core: Core, pmem: nat, ghost e: Entry, ghost g: Grant)
    requires info.Says(e) && g.mem == pmem
    modifies info
    ensures info.Says(Created(e, name, length, core, g))
  {
    info.length := length;
    info.open := info.open + {core};
    info.mem := pmem;
    var size := if |name| >= NAME_MAX then NAME_MAX - 1 else |name|;
    info.name := name[..size];
    assert name[..size] == Stored(name);
  }

  ghost predicate InPlace(ram: seq<byte>, reg: Reg) {
    forall h | 0 <= h < |reg.entries| && reg.entries[h].mem != 0 :: InRam(ram, reg.entries[h])
  }

  // memcpy(ram + at, bytes, |bytes|).
  method CopyIn(ram: array<byte>, at: nat, bytes: seq<byte>)
    requires at + |bytes| <= ram.Length
    modifies ram
    ensures ram[..] == Splice(old(ram[..]), at, bytes)
  {
    forall k | 0 <= k < |bytes| {
      ram[at + k] := bytes[k];
    }
  }

  lemma SpliceInside(ram: seq<byte>, e: Entry, off: nat, bytes: seq<byte>)
    requires InRam(ram, e) && off + |bytes| <= e.length
    ensures InRam(Splice(ram, e.mem + off, bytes), e.(data := Splice(e.data, off, bytes)))
  {
  }

  lemma SpliceOutside(ram: seq<byte>, e: Entry, at: nat, bytes: seq<byte>)
    requires InRam(ram, e) && at + |bytes| <= |ram| && L.Apart(at, |bytes|, e.mem, e.length)
    ensures InRam(Splice(ram, at, bytes), e)
  {
  }

  lemma PartOfBlock(ram: seq<byte>, e: Entry, at: nat, size: nat)
    requires InRam(ram, e) && at + size <= e.length
    ensures |e.data| == e.length && ram[e.mem + at..e.mem + at + size] == e.data[at..at + size]
  {
    SliceOfSlice(ram, e.mem, e.length, at, size);
  }

  // The block of entry h overlaps no other entry's.
  ghost predicate Isolated(reg: Reg, h: nat)
    requires h < |reg.entries|
  {
    forall k | 0 <= k < |reg.entries| && k != h && reg.entries[k].mem != 0 ::
      L.Apart(reg.entries[h].mem, reg.entries[h].length, reg.entries[k].mem, reg.entries[k].length)
  }

  lemma SpliceInPlace(ram: seq<byte>, reg: Reg, h: nat, off: nat, bytes: seq<byte>)
    requires InPlace(ram, reg) && h < |reg.entries| && reg.entries[h].mem != 0
    requires off + |bytes| <= reg.entries[h].length
    requires Isolated(reg, h)
    ensures var e := reg.entries[h];
      && off + |bytes| <= |e.data| && e.mem + off + |bytes| <= |ram|
      && InPlace(Splice(ram, e.mem + off, bytes), Put(reg, h, e.(data := Splice(e.data, off, bytes))))
  {
    var e := reg.entries[h];
    hide Splice;
    assert InRam(ram, e);
    SpliceInside(ram, e, off, bytes);
    forall k | 0 <= k < |reg.entries| && k != h && reg.entries[k].mem != 0
      ensures InRam(Splice(ram, e.mem + off, bytes), reg.entries[k])
    {
      SpliceOutside(ram, reg.entries[k], e.mem + off, bytes);
    }
  }

  // What the locked part of a send makes of an entry.
  function Deposited(e: Entry, bytes: seq<byte>, off: nat, core: Core): Entry
    requires off + |bytes| <= |e.data|
  {
    e.(data := Splice(e.data, off, bytes), update := e.update + {core}, size := |bytes|, offset := off)
  }

  lemma SentIs(e: Entry, core: Core, bytes: seq<byte>)
    requires |e.data| == e.length
    ensures var size := Min(|bytes|, e.length);
      Sent(e, core, bytes) == Deposited(e, bytes[..size], 0, core) && Sent(e, core, bytes).size == size
  {
  }

  lemma SentAtIs(e: Entry, core: Core, bytes: seq<byte>, off: nat)
    requires |e.data| == e.length && e.length < TWO32 && off < e.length && |bytes| + off < TWO32
    ensures var size := ClipSize(|bytes|, off, e.length);
      && size <= |bytes| && off + size <= e.length
      && SentAt(e, core, bytes, off) == Deposited(e, bytes[..size], off, core)
      && SentAt(e, core, bytes, off).size == size
  {
    ClipInBlock(|bytes|, off, e.length);
  }

  lemma SliceIs(e: Entry, n: nat, off: nat)
    requires |e.data| == e.length && e.length < TWO32 && off < e.length && n + off < TWO32
    ensures var size := ClipSize(n, off, e.length);
      off + size <= e.length && SliceAt(e, n, off) == e.data[off..off + size] && |SliceAt(e, n, off)| == size
  {
    ClipInBlock(n, off, e.length);
  }

  lemma DepositInPlace(ram: seq<byte>, reg: Reg, h: nat, bytes: seq<byte>, off: nat, core: Core)
    requires h < |reg.entries| && off + |bytes| <= |reg.entries[h].data|
    requires InPlace(ram, Put(reg, h, reg.entries[h].(data := Splice(reg.entries[h].data, off, bytes))))
    ensures InPlace(ram, Put(reg, h, Deposited(reg.entries[h], bytes, off, core)))
  {
    hide Splice;
    var reg1 := Put(reg, h, reg.entries[h].(data := Splice(reg.entries[h].data, off, bytes)));
    var reg2 := Put(reg, h, Deposited(reg.entries[h], bytes, off, core));
    forall k | 0 <= k < |reg.entries| && reg2.entries[k].mem != 0 ensures InRam(ram, reg2.entries[k]) {
      assert reg1.entries[k].mem != 0 && InRam(ram, reg1.entries[k]);
    }
  }

  // Noting a transfer in an entry leaves the bytes of every entry where they are.
  lemma NotedInPlace(ram: seq<byte>, reg: Reg, h: nat, e: Entry)
    requires InPlace(ram, reg) && h < |reg.entries| && e.data == reg.entries[h].data && e.mem == reg.entries[h].mem
    requires e.length == reg.entries[h].length
    ensures InPlace(ram, Put(reg, h, e))
  {
  }

  // memcpy into an entry's block leaves the data of the others alone.
  method Store(ram: array<byte>, mem: nat, off: nat, bytes: seq<byte>, ghost reg: Reg, ghost h: nat)
    requires InPlace(ram[..], reg) && h < |reg.entries| && Isolated(reg, h)
    requires mem == reg.entries[h].mem != 0 && off + |bytes| <= reg.entries[h].length
    modifies ram
    ensures off + |bytes| <= |reg.entries[h].data|
    ensures InPlace(ram[..], Put(reg, h, reg.entries[h].(data := Splice(reg.entries[h].data, off, bytes))))
  {
    hide InPlace;
    hide Isolated;
    hide Splice;
    SpliceInPlace(ram[..], reg, h, off, bytes);
    CopyIn(ram, mem + off, bytes);
  }

  // The calls, by what they do to the lock words.
  function OpenCall(reg: Reg, hs: seq<Pool>, name: string, length: nat): U.Call {
    if length == 0 then U.Refused
    else U.Opens(if Creates(reg, name, length) then U.MallocTries(hs, length, 0) else [])
  }

  // The class of the block at ptr.
  ghost function ClassAt(base: nat, counts: seq<nat>, ptr: nat): Option<nat> {
    if s :| At(base, counts, s, ptr) then Some(s.i) else None
  }

  ghost function CloseCall(reg: Reg, base: nat, counts: seq<nat>, handle: int, core: Core): U.Call {
    if !(0 <= handle < |reg.entries|) || core !in reg.entries[handle].open then U.Refused
    else U.Closes(if LastClose(reg, handle, core) then ClassAt(base, counts, reg.entries[handle].mem) else None)
  }

  // A transfer locks when its tests, of this core's bit and up to this offset, let it through.
  predicate Passes(reg: Reg, handle: int, tested: Core, off: nat) {
    && 0 <= handle < |reg.entries|
    && reg.entries[handle].mem != 0 && tested in reg.entries[handle].open && off < reg.entries[handle].length
  }

  function MovesIf(passes: bool): U.Call { if passes then U.Moves else U.Refused }

  // So whatever the state, LockOrder's theorems are about these calls.
  lemma CallsWithin(reg: Reg, hs: seq<Pool>, base: nat, counts: seq<nat>, name: string, length: nat,
                    handle: int, core: Core)
    requires |hs| == |counts|
    ensures U.Within(OpenCall(reg, hs, name, length), |counts|)
    ensures U.Within(CloseCall(reg, base, counts, handle, core), |counts|)
  {
    U.TriesWithin(hs, length, 0);
  }

  class Registry {
    const infos: seq<Link<Info>>
    const free: ListHead<Info>
    const busy: ListHead<Info>
    const allocator: Alloc.Allocator
    const ram: array<byte>

    ghost const cells: seq<Info>
    ghost const owner: Core // the core whose image allocator belongs to
    ghost const Mine: set<object>
    ghost var reg: Reg

    constructor (infos: seq<Link<Info>>, free: ListHead<Info>, busy: ListHead<Info>, allocator: Alloc.Allocator,
                 ram: array<byte>, ghost cells: seq<Info>, ghost owner: Core, ghost reg: Reg)
      ensures this.infos == infos && this.free == free && this.busy == busy && this.allocator == allocator
      ensures this.ram == ram && this.cells == cells && this.owner == owner && this.reg == reg
      ensures Mine == {this, free, busy, ram} + (set l | l in infos) + (set c | c in cells)
    {
      this.infos, this.free, this.busy, this.allocator, this.ram := infos, free, busy, allocator, ram;
      this.cells, this.owner, this.reg := cells, owner, reg;
      Mine := {this, free, busy, ram} + (set l | l in infos) + (set c | c in cells);
    }

    ghost predicate Separate() {
      && Mine == {this, free, busy, ram} + (set l | l in infos) + (set c | c in cells)
      && Mine !! allocator.Repr
      && allocator.locks as object !in Mine && allocator.locks as object !in allocator.Repr
      && allocator.base + L.PoolBytes(allocator.counts) <= ram.Length
      && Distinct(cells) && |infos| == |cells|
    }

    ghost predicate Threads()
      reads `reg, infos`data
      reads free`next, free`number, free`elems, busy`next, busy`number, busy`elems
      reads free.elems`next, free.elems`prev, busy.elems`next, busy.elems`prev
    {
      && |infos| == |cells| && (forall h | 0 <= h < |infos| :: infos[h].data == cells[h])
      && Chains(infos, free, busy, reg.free, reg.busy)
    }

    ghost predicate Mirrors()
      reads `reg, cells
    {
      |cells| == |reg.entries| && forall h | 0 <= h < |cells| :: cells[h].id == h && cells[h].Says(reg.entries[h])
    }

    ghost predicate Bytes()
      reads `reg, ram
    {
      InPlace(ram[..], reg)
    }

    ghost predicate Agrees()
      reads `reg, allocator, allocator.Repr
    {
      && allocator.Valid() && allocator.ready
      && Agree(reg, allocator.pools, allocator.base, allocator.counts) && Sized(reg)
    }

    ghost predicate Valid()
      reads this, Mine, infos, cells, ram, allocator, allocator.Repr, free, busy, free.elems, busy.elems
    {
      Separate() && Threads() && Mirrors() && Bytes() && Agrees()
    }

    // No lock is held.
    ghost predicate Unlocked()
      reads allocator.locks`words
    {
      LOCK_SHM < |allocator.locks.words| && allocator.locks.words[LOCK_SHM] == 0 && allocator.LocksClear()
    }

    // s_mod_lock is taken, so what the methods that ask for this do falls between its lock and
    // its unlock.
    ghost predicate ModLocked()
      reads allocator.locks`words
    {
      LOCK_SHM < |allocator.locks.words| && allocator.locks.words[LOCK_SHM] == 1
    }

    // Since the trace was before, the lock words have seen what this call does to them.
    ghost predicate Locked(before: seq<Act>, call: U.Call)
      reads allocator.locks`trace
    {
      allocator.locks.trace == before + U.Acts(call)
    }

    // ---------------------------------------------------------------- open

    // The busy list, as its links name it.
    lemma BusyKnown()
      requires Valid()
      ensures |busy.elems| == |reg.busy| && |reg.entries| == |infos|
      ensures forall k | 0 <= k < |reg.busy| :: reg.busy[k] < |infos| && busy.elems[k] == infos[reg.busy[k]]
      ensures busy.next == (if reg.busy == [] then null else infos[reg.busy[0]])
      ensures forall i, j | 0 <= i < j < |reg.busy| && j == i + 1 :: busy.elems[i].next == busy.elems[j]
      ensures reg.busy != [] ==> busy.elems[|reg.busy| - 1].next == null
    {
      hide Agrees;
      hide Bytes;
      hide Separate;
      hide Info.Says;
    }

    // The scan of the busy list.
    method Scan(name: string) returns (pinfo: Link?<Info>)
      requires ModLocked()
      requires Valid()
      ensures match Find(reg, name)
              case None => pinfo == null
              case Some(h) => h < |infos| && pinfo == infos[h]
    {
      hide Chains;
      hide Agree;
      BusyKnown();
      pinfo := busy.next;
      ghost var k := 0;
      while pinfo != null
        invariant 0 <= k <= |reg.busy| == |busy.elems|
        invariant pinfo == (if k < |reg.busy| then infos[reg.busy[k]] else null)
        invariant Find(reg, name) == FindIn(reg.entries, reg.busy[k..], name)
        decreases |reg.busy| - k
      {
        if pinfo.data.name == name {
          return;
        }
        assert k + 1 < |reg.busy| ==> pinfo.next == busy.elems[k + 1];
        pinfo := pinfo.next;
        k := k + 1;
      }
    }

    // An open that found its name.
    method Reopen(pinfo: Info, length: word, core: Core, ghost h: nat) returns (ret: int, newLength: nat)
      requires ModLocked()
      requires Mirrors() && Distinct(cells) && h < |cells| && pinfo == cells[h]
      modifies `reg, pinfo`open
      ensures Mirrors() && h < |old(reg).entries|
      ensures var e := old(reg).entries[h];
              if length > e.length then ret == LENGTH_ERR && newLength == length && reg == old(reg)
              else ret == h && newLength == e.length && reg == Put(old(reg), h, Marked(e, core))
    {
      if length > pinfo.length {
        return LENGTH_ERR, length;
      }
      if core !in pinfo.open {
        pinfo.open := pinfo.open + {core};
      }
      assert pinfo.open == Marked(reg.entries[h], core).open;
      reg := Put(reg, h, Marked(reg.entries[h], core));
      return pinfo.id, pinfo.length;
    }

    // The branch of open that takes a free entry for memory at pmem.
    method Enter(pinfo: Link<Info>, name: string, length: word, core: Core, pmem: nat, ghost g: Grant)
      requires ModLocked()
      requires Threads() && Mirrors() && Good(reg) && Distinct(cells) && g.mem == pmem
      requires reg.free != [] && reg.free[0] < |infos| && pinfo == infos[reg.free[0]]
      modifies `reg, free`next, free`number, free`elems, busy`next, busy`number, busy`elems
      modifies infos`next, infos`prev, cells[reg.free[0]]
      ensures Threads() && Mirrors()
      ensures old(reg).free != [] && old(reg).free[0] < |old(reg).entries|
      ensures reg == Create(old(reg), name, length, core, g)
    {
      hide Good;
      hide Chains;
      FirstFree(reg);
      ghost var h := reg.free[0];
      HeadToBusy(infos, free, busy, pinfo, reg.free, reg.busy);
      hide Info.Says;
      hide Created;
      assert Mirrors() && pinfo.data == cells[h];
      FillIn(pinfo.data, name, length, core, pmem, reg.entries[h], g);
      reg := Create(reg, name, length, core, g);
    }

    // What mod_malloc hands out lies in memory.
    lemma PayloadInRam(size: nat)
      requires Separate() && Agrees() && size > 0
      ensures HeapsInv(allocator.pools)
      ensures var p := allocator.Returned(Pools.Malloc(allocator.pools, size).1);
        && p + size <= ram.Length + (if p == 0 then size else 0)
        && GrantOf(allocator.base, allocator.counts, Pools.Malloc(allocator.pools, size).1, []).mem == p
    {
      MallocChoice(allocator.pools, size);
      var r := Pools.Malloc(allocator.pools, size);
      if r.1.Some? {
        L.BlockInPool(allocator.base, allocator.counts, r.1.value);
      }
    }

    // All that Valid depends on, apart from the allocator, belongs to the registry.
    lemma MineApart()
      requires Separate() && Threads()
      ensures {this, free, busy, ram} <= Mine && Mine !! allocator.Repr
      ensures allocator.locks as object !in Mine && allocator.locks as object !in allocator.Repr
      ensures (forall l :: l in infos ==> l in Mine) && (forall c :: c in cells ==> c in Mine)
      ensures (forall l :: l in free.elems ==> l in Mine) && (forall l :: l in busy.elems ==> l in Mine)
    {
      ChainsInList(infos, free, busy, reg.free, reg.busy);
    }

    lemma AllMine()
      requires Valid()
      ensures Separate() && allocator in allocator.Repr
      ensures {this, free, busy, ram} <= Mine && Mine !! allocator.Repr
      ensures allocator.locks as object !in Mine && allocator.locks as object !in allocator.Repr
      ensures (forall l :: l in infos ==> l in Mine) && (forall c :: c in cells ==> c in Mine)
      ensures (forall l :: l in free.elems ==> l in Mine) && (forall l :: l in busy.elems ==> l in Mine)
    {
      ChainsInList(infos, free, busy, reg.free, reg.busy);
    }

    lemma HeadKnown()
      requires Valid()
      ensures free.next == null <==> reg.free == []
      ensures reg.free != [] ==> reg.free[0] < |infos| && free.next == infos[reg.free[0]]
    {
    }

    lemma BytesCreated(reg0: Reg, name: string, length: nat, core: Core, g: Grant)
      requires Good(reg0) && reg0.free != [] && reg == Create(reg0, name, length, core, g)
      requires InPlace(ram[..], reg0)
      requires g.mem + length <= ram.Length && g.data == ram[g.mem..g.mem + length]
      ensures Bytes()
    {
    }

    // Registry and allocator have become what an open alone makes of reg0 and pools0.
    ghost predicate Opened(reg0: Reg, pools0: seq<Pool>, name: string, length: nat, core: Core, junk: seq<byte>,
                           ret: int, newLength: nat)
      reads `reg, allocator`pools
    {
      && |junk| == length && Good(reg0) && HeapsInv(pools0)
      && var r := OpenWith(reg0, pools0, allocator.base, allocator.counts, name, length, core, junk);
         reg == r.0.reg && ret == r.0.ret && newLength == r.0.length && allocator.pools == r.1
    }

    // The branch of open that found neither its name nor an empty free list.
    method CreateEntry(name: string, length: word, core: Core) returns (ret: int, ghost junk: seq<byte>)
      requires ModLocked()
      requires Valid() && allocator.LocksClear()
      requires Creates(reg, name, length) && length > ClassSize(0) - OVERHEAD
      modifies Mine, allocator.Repr, allocator.locks
      ensures Valid() && allocator.locks.words == old(allocator.locks.words)
      ensures Opened(old(reg), old(allocator.pools), name, length, core, junk, ret, length)
      ensures allocator.locks.trace ==
              old(allocator.locks.trace) + U.Acts(U.Mallocs(U.MallocTries(old(allocator.pools), length, 0)))
    {
      hide U.Acts;
      hide U.MallocTries;
      hide Good;
      hide Chains;
      hide Alloc.Allocator.Valid;
      hide HeapsInv;
      hide L.Shaped;
      hide EntriesOwn;
      hide BlocksOwned;
      hide Info.Says;
      hide Pools.Malloc;
      hide InPlace;
      hide Separate;
      AllMine();
      HeadKnown();
      PayloadInRam(length);
      var pinfo := free.next;
      var pmem := allocator.Malloc(length);
      junk := seq(length, _ => 0);
      if pmem == 0 {
        ret := MALLOC_ERR;
      } else {
        junk := ram[pmem..pmem + length];
        Enter(pinfo, name, length, core, pmem, Grant(pmem, junk));
        BytesCreated(old(reg), name, length, core, Grant(pmem, junk));
        ret := pinfo.data.id;
      }
      OpenAgrees(old(reg), old(allocator.pools), allocator.base, allocator.counts, name, length, core, junk);
      hide OpenWith;
    }

    // Marking an entry open changes no byte and no agreement.
    lemma MarkedAgrees(reg0: Reg, name: string, length: nat, core: Core, junk: seq<byte>)
      requires allocator.Valid() && allocator.ready && Sized(reg0) && |junk| == length && length < TWO32
      requires Agree(reg0, allocator.pools, allocator.base, allocator.counts) && !Creates(reg0, name, length)
      requires reg == RegistrySpec.Open(reg0, name, length, core, Grant(0, [])).reg
      ensures Agrees()
    {
      hide Good;
      hide HeapsInv;
      hide L.Shaped;
      hide EntriesOwn;
      hide BlocksOwned;
      hide Alloc.Allocator.Valid;
      hide Find;
      OpenAgrees(reg0, allocator.pools, allocator.base, allocator.counts, name, length, core, junk);
    }

    lemma BytesMarked(reg0: Reg, name: string, length: nat, core: Core)
      requires Good(reg0) && reg == RegistrySpec.Open(reg0, name, length, core, Grant(0, [])).reg
        && !Creates(reg0, name, length)
      requires InPlace(ram[..], reg0)
      ensures Bytes()
    {
    }

    // The branches of open that leave the lists alone.
    method OpenKnown(pinfo: Link?<Info>, name: string, length: word, core: Core) returns (ret: int, newLength: nat)
      requires ModLocked()
      requires Valid() && length > 0 && !Creates(reg, name, length)
      requires match Find(reg, name)
               case None => pinfo == null
               case Some(h) => h < |infos| && pinfo == infos[h]
      modifies `reg, cells`open
      ensures Valid()
      ensures Opened(old(reg), old(allocator.pools), name, length, core, seq(length, _ => 0), ret, newLength)
    {
      hide Good;
      hide Chains;
      hide Alloc.Allocator.Valid;
      hide HeapsInv;
      hide L.Shaped;
      hide EntriesOwn;
      hide BlocksOwned;
      hide Info.Says;
      AllMine();
      ret, newLength := OPEN_ERR, length;
      if pinfo != null {
        ret, newLength := Reopen(pinfo.data, length, core, Find(reg, name).value);
      }
      hide Find;
      BytesMarked(old(reg), name, length, core);
      MarkedAgrees(old(reg), name, length, core, seq(length, _ => 0));
    }

    lemma NothingOpened(name: string, core: Core)
      requires Valid()
      ensures Opened(reg, allocator.pools, name, 0, core, seq(0, _ => 0), OPEN_ERR, 0)
    {
    }

    // Mpi_lock(&s_mod_lock).
    method Acquire()
      requires Unlocked()
      modifies allocator.locks
      ensures allocator.LocksClear() && ModLockTaken(old(allocator.locks.words)) && ModLocked()
      ensures allocator.locks.trace == old(allocator.locks.trace) + [Take(LOCK_SHM)]
    {
      allocator.locks.Lock(LOCK_SHM);
    }

    // The words are those of before with s_mod_lock taken.
    ghost predicate ModLockTaken(before: seq<int>)
      reads allocator.locks`words
    {
      && LOCK_SHM < |before| && before[LOCK_SHM] == 0
      && allocator.locks.words == before[LOCK_SHM := 1]
    }

    // Mpi_unlock(&s_mod_lock).
    method Release(ghost before: seq<int>)
      requires ModLockTaken(before)
      modifies allocator.locks
      ensures allocator.locks.words == before && allocator.locks.trace == old(allocator.locks.trace) + [Give(LOCK_SHM)]
    {
      allocator.locks.Unlock(LOCK_SHM);
    }

    // mpi_shm_open. OWNER and BIG are asked of opens that create.
    method Open(name: string, length: word, core: Core) returns (ret: int, newLength: nat, ghost junk: seq<byte>)
      requires Valid() && Unlocked()
      requires Creates(reg, name, length) ==> core == owner && length > ClassSize(0) - OVERHEAD
      modifies Mine, allocator.Repr, allocator.locks
      ensures Valid() && allocator.locks.words == old(allocator.locks.words)
      ensures Opened(old(reg), old(allocator.pools), name, length, core, junk, ret, newLength)
      ensures Locked(old(allocator.locks.trace), OpenCall(old(reg), old(allocator.pools), name, length))
    {
      hide Valid;
      hide Find;
      hide Opened;
      hide U.Around;
      hide U.MallocTries;
      ghost var start := allocator.locks.trace;
      assert start + [] == start;
      hide Alloc.Allocator.LocksClear;
      ret, newLength, junk := OPEN_ERR, length, seq(length, _ => 0);
      AllMine();
      if length == 0 {
        NothingOpened(name, core);
        return;
      }
      hide Unlocked;
      hide Separate;
      hide ModLockTaken;
      Acquire();
      var pinfo := Scan(name);
      HeadKnown();
      ghost var tries := if Creates(reg, name, length) then U.MallocTries(allocator.pools, length, 0) else [];
      U.Enclosed(start, LOCK_SHM, U.Tried(tries));
      if pinfo == null && free.next != null {
        ret, junk := CreateEntry(name, length, core);
      } else {
        ret, newLength := OpenKnown(pinfo, name, length, core);
      }
      Release(old(allocator.locks.words));
    }

    // ---------------------------------------------------------------- close

    // Registry and allocator have become what a close alone makes of reg0 and pools0.
    ghost predicate Closed(reg0: Reg, pools0: seq<Pool>, handle: int, core: Core, ret: int)
      reads `reg, allocator`pools
    {
      && HeapsInv(pools0) && L.Shaped(pools0, allocator.counts)
      && var r := CloseWith(reg0, pools0, allocator.base, allocator.counts, handle, core);
         reg == r.0.0 && ret == r.0.1 && allocator.pools == r.1
    }

    lemma ClassIs(base: nat, counts: seq<nat>, s: Spot, ptr: nat)
      requires At(base, counts, s, ptr)
      ensures ClassAt(base, counts, ptr) == Some(s.i)
    {
      forall t | At(base, counts, t, ptr) ensures t == s {
        OneAt(base, counts, s, t, ptr);
      }
    }

    // The block of an entry that is being closed for the last time.
    lemma BlockOf(ptr: nat, reg0: Reg, handle: nat, core: Core) returns (s: Spot)
      requires allocator.Valid() && allocator.ready
      requires Agree(reg0, allocator.pools, allocator.base, allocator.counts)
      requires LastClose(reg0, handle, core) && ptr == reg0.entries[handle].mem
      ensures HeapsInv(allocator.pools) && L.Shaped(allocator.pools, allocator.counts)
      ensures allocator.Target(ptr) == Some(s) && IsSpot(allocator.pools, s)
      ensures FreePtr(allocator.pools, allocator.base, allocator.counts, ptr) == FreeSpot(allocator.pools, s)
      ensures U.Freed(ClassAt(allocator.base, allocator.counts, ptr)) == U.Acts(U.Frees(s.i))
      ensures ptr - OVERHEAD in allocator.memory
      ensures START_ORDER < allocator.memory[ptr - OVERHEAD].order < START_ORDER + |allocator.heaps|
    {
      LastCloseFinds(reg0, allocator.pools, allocator.base, allocator.counts, handle, core);
      s :| Owns(allocator.pools, allocator.base, allocator.counts, reg0.entries[handle], s);
      assert allocator.PointsTo(ptr, s);
      allocator.HeaderOf(ptr, s);
      allocator.PointsToOne(ptr, s);
      FreePtrIs(allocator.pools, allocator.base, allocator.counts, s, ptr);
      ClassIs(allocator.base, allocator.counts, s, ptr);
      hide U.Freed;
      hide U.Acts;
      U.FreedActs(s.i);
    }

    // mod_free on the memory of an entry that is being closed for the last time.
    method FreeMem(ptr: nat, ghost reg0: Reg, ghost handle: nat, ghost core: Core)
      requires allocator.Valid() && allocator.ready && allocator.LocksClear()
      requires allocator.locks as object !in allocator.Repr
      requires Agree(reg0, allocator.pools, allocator.base, allocator.counts)
      requires LastClose(reg0, handle, core) && ptr == reg0.entries[handle].mem
      modifies allocator.Repr, allocator.locks
      ensures allocator.Valid() && allocator.locks.words == old(allocator.locks.words)
      ensures HeapsInv(old(allocator.pools)) && L.Shaped(old(allocator.pools), allocator.counts)
      ensures allocator.pools == FreePtr(old(allocator.pools), allocator.base, allocator.counts, ptr)
      ensures allocator.locks.trace ==
              old(allocator.locks.trace) + U.Freed(ClassAt(allocator.base, allocator.counts, ptr))
    {
      ghost var s := BlockOf(ptr, reg0, handle, core);
      hide Alloc.Allocator.Valid;
      hide Alloc.Allocator.Target;
      hide Agree;
      hide FreePtr;
      hide FreeSpot;
      hide ClassAt;
      hide U.Freed;
      hide U.Acts;
      allocator.Free(ptr);
    }

    lemma LastCloseIs(reg0: Reg, h: nat, core: Core)
      requires LastClose(reg0, h, core)
      ensures RegistrySpec.Close(reg0, h, core) ==
          (Drop(Put(reg0, h, Emptied(Unmarked(reg0.entries[h], core), core)), h), 0)
    {
    }

    // The lists of a last close. Neither "not in busy list" branch can be reached.
    method Unlist(pinfo: Link<Info>, ghost reg0: Reg, ghost h: nat)
      requires ModLocked()
      requires Chains(infos, free, busy, reg0.free, reg0.busy)
      requires Good(reg0) && h < |infos| && h < |reg0.entries| && pinfo == infos[h] && h in reg0.busy
      modifies free`next, free`number, free`elems, busy`next, busy`number, busy`elems, infos`next, infos`prev
      ensures Chains(infos, free, busy, [h] + reg0.free, Remove(reg0.busy, h))
    {
      if busy.number == 0 {
        assert false;
      }
      var removed := EntryToFree(infos, free, busy, pinfo, reg0.free, reg0.busy, h);
      if removed != 0 {
        assert false;
      }
    }

    // The field writes of a last close, around the call of mod_free.
    method Wipe(info: Info, core: Core, ghost e: Entry)
      requires info.Says(Unmarked(e, core))
      modifies info`name, info`length, info`update
      ensures info.Says(Emptied(Unmarked(e, core), core).(mem := e.mem))
    {
      info.name := "";
      info.length := 0;
      info.update := info.update - {core};
    }

    lemma BytesClosed(reg0: Reg, handle: int, core: Core)
      requires reg == RegistrySpec.Close(reg0, handle, core).0
      requires LastClose(reg0, handle, core)
        && InPlace(ram[..], Put(reg0, handle, Unmarked(reg0.entries[handle], core)))
      ensures Bytes()
    {
      var reg1 := Put(reg0, handle, Unmarked(reg0.entries[handle], core));
      assert forall h | 0 <= h < |reg0.entries| && h != handle :: reg.entries[h] == reg1.entries[h];
    }

    // A close by the last core, once its bit is cleared; reg0 is the registry before that.
    ghost predicate Leaving(reg0: Reg, h: nat, core: Core) {
      LastClose(reg0, h, core) && h < |infos|
    }

    // Erasing the entry and freeing its memory.
    method Forget(info: Info, core: Core, ghost reg0: Reg, ghost h: nat)
      requires ModLocked()
      requires Separate() && Threads() && Mirrors() && allocator.LocksClear()
      requires allocator.Valid() && allocator.ready
      requires Agree(reg0, allocator.pools, allocator.base, allocator.counts)
      requires Leaving(reg0, h, core) && info == cells[h]
      requires reg == Put(reg0, h, Unmarked(reg0.entries[h], core))
      modifies `reg, info, allocator.Repr, allocator.locks
      ensures Threads() && Mirrors() && reg == Put(reg0, h, Emptied(Unmarked(reg0.entries[h], core), core))
      ensures allocator.Valid() && allocator.locks.words == old(allocator.locks.words)
      ensures HeapsInv(old(allocator.pools)) && L.Shaped(old(allocator.pools), allocator.counts)
      ensures allocator.pools == FreePtr(old(allocator.pools), allocator.base, allocator.counts, reg0.entries[h].mem)
      ensures allocator.locks.trace ==
              old(allocator.locks.trace) + U.Freed(ClassAt(allocator.base, allocator.counts, reg0.entries[h].mem))
    {
      hide ClassAt;
      hide U.Freed;
      hide Chains;
      hide Alloc.Allocator.Valid;
      hide Agree;
      hide FreePtr;
      hide HeapsInv;
      hide L.Shaped;
      MineApart();
      Wipe(info, core, reg0.entries[h]);
      FreeMem(info.mem, reg0, h, core);
      info.mem := 0;
      reg := Put(reg0, h, Emptied(Unmarked(reg0.entries[h], core), core));
    }

    method LastOut(pinfo: Link<Info>, core: Core, ghost reg0: Reg, ghost h: nat)
      requires ModLocked()
      requires Separate() && Threads() && Mirrors() && Bytes() && allocator.LocksClear()
      requires allocator.Valid() && allocator.ready && Sized(reg0)
      requires Agree(reg0, allocator.pools, allocator.base, allocator.counts)
      requires Leaving(reg0, h, core) && pinfo == infos[h]
      requires reg == Put(reg0, h, Unmarked(reg0.entries[h], core))
      modifies Mine, allocator.Repr, allocator.locks
      ensures Valid() && allocator.locks.words == old(allocator.locks.words)
      ensures Closed(reg0, old(allocator.pools), h, core, 0)
      ensures allocator.locks.trace ==
              old(allocator.locks.trace) + U.Freed(ClassAt(allocator.base, allocator.counts, reg0.entries[h].mem))
    {
      hide ClassAt;
      hide U.Freed;
      hide Good;
      hide Chains;
      hide Alloc.Allocator.Valid;
      hide HeapsInv;
      hide L.Shaped;
      hide EntriesOwn;
      hide BlocksOwned;
      hide Info.Says;
      hide Remove;
      hide FreePtr;
      MineApart();
      LastCloseFinds(reg0, allocator.pools, allocator.base, allocator.counts, h, core);
      Forget(pinfo.data, core, reg0, h);
      Unlist(pinfo, reg0, h);
      LastCloseIs(reg0, h, core);
      hide RegistrySpec.Close;
      hide Emptied;
      hide Unmarked;
      hide InPlace;
      reg := Drop(reg, h);
      BytesClosed(reg0, h, core);
      CloseAgrees(reg0, old(allocator.pools), allocator.base, allocator.counts, h, core);
    }

    // A close with s_mod_lock taken.
    method CloseLocked(pinfo: Link<Info>, core: Core, ghost h: nat)
      requires ModLocked()
      requires Valid() && allocator.LocksClear()
      requires h < |infos| && pinfo == infos[h] && h < |reg.entries| && core in reg.entries[h].open
      modifies Mine, allocator.Repr, allocator.locks
      ensures Valid() && allocator.locks.words == old(allocator.locks.words)
      ensures Closed(old(reg), old(allocator.pools), h, core, 0)
      ensures CloseCall(old(reg), allocator.base, allocator.counts, h, core).Closes?
      ensures allocator.locks.trace ==
              old(allocator.locks.trace) + U.Freed(CloseCall(old(reg), allocator.base, allocator.counts, h, core).frees)
    {
      hide ClassAt;
      hide U.Freed;
      hide Good;
      hide Chains;
      hide Alloc.Allocator.Valid;
      hide HeapsInv;
      hide L.Shaped;
      hide EntriesOwn;
      hide BlocksOwned;
      AllMine();
      var info := pinfo.data;
      info.open := info.open - {core};
      reg := Put(reg, h, Unmarked(reg.entries[h], core));
      if info.open == {} {
        LastOut(pinfo, core, old(reg), h);
      } else {
        CloseAgrees(old(reg), allocator.pools, allocator.base, allocator.counts, h, core);
        U.NoneFreed(allocator.locks.trace);
      }
    }

    // The part of a close between its lock and its unlock.
    method CloseInside(pinfo: Link<Info>, core: Core, ghost h: nat)
      requires Valid() && Unlocked()
      requires h < |infos| && pinfo == infos[h] && h < |reg.entries| && core in reg.entries[h].open
      modifies Mine, allocator.Repr, allocator.locks
      ensures Valid() && allocator.locks.words == old(allocator.locks.words)
      ensures Closed(old(reg), old(allocator.pools), h, core, 0)
      ensures Locked(old(allocator.locks.trace), CloseCall(old(reg), allocator.base, allocator.counts, h, core))
    {
      hide Valid;
      hide Closed;
      hide ModLockTaken;
      hide Unlocked;
      hide Alloc.Allocator.LocksClear;
      hide CloseCall;
      hide U.Freed;
      AllMine();
      ghost var start := allocator.locks.trace;
      Acquire();
      CloseLocked(pinfo, core, h);
      ghost var call := CloseCall(old(reg), allocator.base, allocator.counts, h, core);
      U.Enclosed(start, LOCK_SHM, U.Freed(call.frees));
      Release(old(allocator.locks.words));
      hide U.Around;
    }

    // mpi_shm_close. OWNER is asked of the last close.
    method Close(handle: int, core: Core) returns (ret: int)
      requires Valid() && Unlocked() && (LastClose(reg, handle, core) ==> core == owner)
      modifies Mine, allocator.Repr, allocator.locks
      ensures Valid() && allocator.locks.words == old(allocator.locks.words)
      ensures Closed(old(reg), old(allocator.pools), handle, core, ret)
      ensures Locked(old(allocator.locks.trace), CloseCall(old(reg), allocator.base, allocator.counts, handle, core))
    {
      hide Valid;
      hide Closed;
      hide Locked;
      hide Unlocked;
      hide Alloc.Allocator.LocksClear;
      AllMine();
      InfoKnown();
      NothingDone(allocator.locks.trace);
      if handle < 0 || handle >= |infos| {
        NothingClosed(handle, core);
        return -1;
      }
      if core in infos[handle].data.open {
        CloseInside(infos[handle], core, handle);
        ret := 0;
      } else {
        NothingClosed(handle, core);
        ret := NOT_OPEN;
      }
    }

    // Every info entry shows the fields of its abstract entry.
    lemma InfoKnown()
      requires Valid()
      ensures |infos| == |reg.entries| && Good(reg) && Sized(reg)
      ensures forall h | 0 <= h < |infos| :: infos[h].data == cells[h] && cells[h].Says(reg.entries[h])
    {
    }

    lemma NothingClosed(handle: int, core: Core)
      requires Valid() && !(0 <= handle < |reg.entries| && core in reg.entries[handle].open)
      ensures Closed(reg, allocator.pools, handle, core, if 0 <= handle < |reg.entries| then NOT_OPEN else -1)
    {
    }

    // ---------------------------------------------------------------- transfers

    lemma BlockKnown(h: nat)
      requires Bytes() && Agrees() && h < |reg.entries| && reg.entries[h].open != {}
      ensures var e := reg.entries[h]; h in reg.busy && e.mem != 0 && InRam(ram[..], e) && |e.data| == e.length < TWO32
    {
    }

    lemma Alone(h: nat)
      requires Agrees() && h < |reg.entries| && h in reg.busy
      ensures Isolated(reg, h)
    {
      forall k | 0 <= k < |reg.entries| && k != h && reg.entries[k].mem != 0
        ensures L.Apart(reg.entries[h].mem, reg.entries[h].length, reg.entries[k].mem, reg.entries[k].length)
      {
        assert k in reg.busy;
        EntriesApart(reg, allocator.pools, allocator.base, allocator.counts, h, k);
      }
    }

    // A change to one busy entry that open and close do not work on keeps the agreement.
    lemma PutAgrees(reg0: Reg, h: nat, e: Entry)
      requires allocator.Valid() && allocator.ready && Sized(reg0)
      requires Agree(reg0, allocator.pools, allocator.base, allocator.counts)
      requires h < |reg0.entries| && reg0.entries[h].open != {} && SameItem(reg0.entries[h], e)
      requires reg == Put(reg0, h, e)
      ensures Agrees()
    {
      hide Agree;
      hide Alloc.Allocator.Valid;
      PutAgree(reg0, allocator.pools, allocator.base, allocator.counts, h, e);
    }

    // The field writes of a send and of a get.
    method Note(info: Info, update: set<nat>, size: nat, offset: nat, ghost h: nat, ghost e: Entry)
      requires ModLocked()
      requires Mirrors() && Distinct(cells) && h < |cells| && info == cells[h]
      requires e == reg.entries[h].(data := e.data, update := update, size := size, offset := offset)
      modifies `reg, info`update, info`size, info`offset
      ensures Mirrors() && h < |old(reg).entries| && reg == Put(old(reg), h, e)
    {
      info.update := update;
      info.size := size;
      info.offset := offset;
      reg := Put(reg, h, e);
    }

    // The locked part of a send: copy, mark the entry updated, note where the fragment is.
    method Deposit(info: Info, bytes: seq<byte>, off: nat, core: Core, ghost h: nat)
      requires ModLocked()
      requires Valid() && h < |cells| && info == cells[h] && h < |reg.entries| && reg.entries[h].open != {}
      requires off + |bytes| <= reg.entries[h].length
      modifies `reg, ram, info
      ensures Valid() && off + |bytes| <= |old(reg).entries[h].data|
      ensures reg == Put(old(reg), h, Deposited(old(reg).entries[h], bytes, off, core))
    {
      hide Chains;
      hide Agree;
      hide Good;
      hide Alloc.Allocator.Valid;
      hide Splice;
      hide InPlace;
      AllMine();
      BlockKnown(h);
      Alone(h);
      hide Isolated;
      Store(ram, info.mem, off, bytes, reg, h);
      DepositInPlace(ram[..], reg, h, bytes, off, core);
      Note(info, info.update + {core}, |bytes|, off, h, Deposited(reg.entries[h], bytes, off, core));
      PutAgrees(old(reg), h, reg.entries[h]);
    }

    // The part of a send between its lock and its unlock.
    method DepositLocked(info: Info, bytes: seq<byte>, off: nat, core: Core, ghost h: nat)
      requires Valid() && Unlocked() && h < |cells| && info == cells[h]
      requires h < |reg.entries| && reg.entries[h].open != {} && off + |bytes| <= reg.entries[h].length
      modifies Mine, allocator.locks
      ensures Valid() && allocator.locks.words == old(allocator.locks.words)
      ensures off + |bytes| <= |old(reg).entries[h].data|
      ensures reg == Put(old(reg), h, Deposited(old(reg).entries[h], bytes, off, core))
      ensures Locked(old(allocator.locks.trace), U.Moves)
    {
      hide Valid;
      hide Unlocked;
      hide ModLockTaken;
      hide Deposited;
      AllMine();
      ghost var start := allocator.locks.trace;
      Acquire();
      Deposit(info, bytes, off, core, h);
      Release(old(allocator.locks.words));
      MovesDone(start);
    }

    lemma MovesDone(start: seq<Act>)
      requires allocator.locks.trace == start + [Take(LOCK_SHM)] + [Give(LOCK_SHM)]
      ensures Locked(start, U.Moves)
    {
    }

    lemma NothingDone(start: seq<Act>)
      requires allocator.locks.trace == start
      ensures Locked(start, U.Refused)
    {
    }

    // The bytes a get copies out of the block.
    method CopyOut(info: Info, at: nat, size: nat, ghost h: nat) returns (out: seq<byte>)
      requires ModLocked()
      requires Valid() && h < |cells| && info == cells[h] && h < |reg.entries| && reg.entries[h].open != {}
      requires size == 0 || at + size <= reg.entries[h].length
      ensures size == 0 || at + size <= |reg.entries[h].data|
      ensures out == if size == 0 then [] else reg.entries[h].data[at..at + size]
    {
      hide Chains;
      hide Agree;
      hide Good;
      hide Alloc.Allocator.Valid;
      BlockKnown(h);
      ghost var e := reg.entries[h];
      if size == 0 {
        return [];
      }
      out := ram[info.mem + at..info.mem + at + size];
      PartOfBlock(ram[..], e, at, size);
      assert out == ram[..][e.mem + at..e.mem + at + size];
    }

    // What a get notes, with the bytes left alone.
    method NoteTaken(info: Info, update: set<nat>, size: nat, offset: nat, ghost h: nat, ghost e: Entry)
      requires ModLocked()
      requires Valid() && h < |cells| && info == cells[h] && h < |reg.entries| && reg.entries[h].open != {}
      requires e == reg.entries[h].(update := update, size := size, offset := offset)
      modifies `reg, info`update, info`size, info`offset
      ensures Valid() && reg == Put(old(reg), h, e)
    {
      hide Chains;
      hide Agree;
      hide Good;
      hide Alloc.Allocator.Valid;
      AllMine();
      BlockKnown(h);
      NotedInPlace(ram[..], reg, h, e);
      hide InPlace;
      Note(info, update, size, offset, h, e);
      PutAgrees(old(reg), h, e);
    }

    lemma HoldsBlock(h: nat)
      requires Valid() && h < |cells| && h < |reg.entries| && reg.entries[h].open != {}
      ensures cells[h].Says(reg.entries[h]) && |reg.entries[h].data| == reg.entries[h].length
    {
      hide Chains;
      hide Alloc.Allocator.Valid;
      BlockKnown(h);
    }

    // The locked part of a get with update == 0: the bytes copied out.
    method Withdraw(info: Info, at: nat, size: nat, core: Core, keep: bool, ghost h: nat) returns (out: seq<byte>)
      requires ModLocked()
      requires Valid() && h < |cells| && info == cells[h] && h < |reg.entries| && reg.entries[h].open != {}
      requires size == 0 || at + size <= reg.entries[h].length
      modifies `reg, info
      ensures Valid() && (size == 0 || at + size <= |old(reg).entries[h].data|)
      ensures out == if size == 0 then [] else old(reg).entries[h].data[at..at + size]
      ensures reg == Put(old(reg), h,
                              if keep then Peeked(old(reg).entries[h], core) else Taken(old(reg).entries[h], core))
    {
      hide Valid;
      HoldsBlock(h);
      ghost var e := reg.entries[h];
      out := CopyOut(info, at, size, h);
      if keep {
        NoteTaken(info, info.update - {1 - core}, info.size, info.offset, h, Peeked(e, core));
      } else {
        NoteTaken(info, info.update - {1 - core}, 0, 0, h, Taken(e, core));
      }
    }

    // The part of a get between its lock and its unlock.
    method WithdrawLocked(info: Info, at: nat, size: nat, core: Core, keep: bool, ghost h: nat) returns (out: seq<byte>)
      requires Valid() && Unlocked() && h < |cells| && info == cells[h]
      requires h < |reg.entries| && reg.entries[h].open != {} && (size == 0 || at + size <= reg.entries[h].length)
      modifies Mine, allocator.locks
      ensures Valid() && allocator.locks.words == old(allocator.locks.words)
      ensures size == 0 || at + size <= |old(reg).entries[h].data|
      ensures out == if size == 0 then [] else old(reg).entries[h].data[at..at + size]
      ensures reg == Put(old(reg), h,
                         if keep then Peeked(old(reg).entries[h], core) else Taken(old(reg).entries[h], core))
      ensures Locked(old(allocator.locks.trace), U.Moves)
    {
      hide Valid;
      hide Unlocked;
      hide ModLockTaken;
      hide Peeked;
      hide Taken;
      AllMine();
      ghost var start := allocator.locks.trace;
      Acquire();
      out := Withdraw(info, at, size, core, keep, h);
      Release(old(allocator.locks.words));
      MovesDone(start);
    }

    lemma EntryKnown(handle: nat)
      requires Valid() && handle < |infos|
      ensures handle < |reg.entries| && Good(reg) && Sized(reg) && infos[handle].data == cells[handle]
      ensures cells[handle].Says(reg.entries[handle]) && cells[handle] in Mine
      ensures var e := reg.entries[handle];
        && (e.mem != 0 <==> e.open != {}) && |e.data| == e.length < TWO32 && (e.mem != 0 ==> e.length > 0)
    {
      hide Chains;
      hide Alloc.Allocator.Valid;
      hide HeapsInv;
      hide EntriesOwn;
      hide BlocksOwned;
    }

    ghost predicate DidSend(reg0: Reg, handle: int, bytes: seq<byte>, core: Core, ret: int)
      reads `reg
    {
      Good(reg0) && (reg, ret) == Mailbox.Send(reg0, handle, bytes, core)
    }

    // mpi_shm_send.
    method Send(handle: int, bytes: seq<byte>, core: Core) returns (ret: int)
      requires Valid() && Unlocked() && |bytes| < TWO32
      modifies Mine, allocator.locks
      ensures Valid() && allocator.locks.words == old(allocator.locks.words)
      ensures DidSend(old(reg), handle, bytes, core, ret)
      ensures Locked(old(allocator.locks.trace), MovesIf(Passes(old(reg), handle, core, 0)))
    {
      hide Valid;
      hide Good;
      hide Unlocked;
      hide Deposited;
      hide Sent;
      hide Locked;
      AllMine();
      NothingDone(allocator.locks.trace);
      InfoKnown();
      if handle < 0 || handle >= |infos| {
        return OPEN_ERR;
      }
      EntryKnown(handle);
      var info := infos[handle].data;
      if info.mem == 0 {
        ret := NULL_MEM;
      } else if core in info.open {
        var size := if |bytes| > info.length then info.length else |bytes|;
        SentIs(reg.entries[handle], core, bytes);
        DepositLocked(info, bytes[..size], 0, core, handle);
        ret := size;
      } else {
        ret := NOT_OPEN;
      }
    }

    ghost predicate DidSendOffset(reg0: Reg, handle: int, bytes: seq<byte>, off: nat, core: Core, ret: int)
      reads `reg
    {
      && Good(reg0) && Sized(reg0) && |bytes| + off < TWO32
      && (reg, ret) == Mailbox.SendOffset(reg0, handle, bytes, off, core)
    }

    // mpi_shm_send_offset, NOWRAP.
    method SendOffset(handle: int, bytes: seq<byte>, off: nat, core: Core) returns (ret: int)
      requires Valid() && Unlocked() && |bytes| + off < TWO32
      modifies Mine, allocator.locks
      ensures Valid() && allocator.locks.words == old(allocator.locks.words)
      ensures DidSendOffset(old(reg), handle, bytes, off, core, ret)
      ensures Locked(old(allocator.locks.trace), MovesIf(Passes(old(reg), handle, core, off)))
    {
      hide Valid;
      hide Good;
      hide Sized;
      hide Unlocked;
      hide Deposited;
      hide SentAt;
      hide Locked;
      AllMine();
      NothingDone(allocator.locks.trace);
      InfoKnown();
      if handle < 0 || handle >= |infos| {
        return OPEN_ERR;
      }
      EntryKnown(handle);
      var info := infos[handle].data;
      if info.length <= off {
        return LENGTH_ERR;
      }
      if info.mem == 0 {
        ret := NULL_MEM;
      } else if core in info.open {
        var size := if Wrap(|bytes| + off) > info.length then Wrap(info.length - off) else |bytes|;
        SentAtIs(reg.entries[handle], core, bytes, off);
        DepositLocked(info, bytes[..size], off, core, handle);
        ret := size;
      } else {
        ret := NOT_OPEN;
      }
    }

    ghost predicate DidGet(reg0: Reg, handle: int, n: nat, core: Core, ret: int, out: seq<byte>)
      reads `reg
    {
      && Good(reg0) && SoundAt(reg0, handle) && (reg, ret, out) == Mailbox.Get(reg0, handle, n, core)
    }

    // mpi_shm_get with update == 0. FRESH: the pending fragment lies in the block.
    method Get(handle: int, n: nat, core: Core) returns (ret: int, out: seq<byte>)
      requires Valid() && Unlocked() && SoundAt(reg, handle)
      modifies Mine, allocator.locks
      ensures Valid() && allocator.locks.words == old(allocator.locks.words)
      ensures DidGet(old(reg), handle, n, core, ret, out)
      ensures Locked(old(allocator.locks.trace), MovesIf(n > 0 && Passes(old(reg), handle, 1 - core, 0)))
    {
      hide Valid;
      hide Good;
      hide Unlocked;
      hide Locked;
      AllMine();
      NothingDone(allocator.locks.trace);
      InfoKnown();
      out := [];
      if n == 0 {
        return INVALID, [];
      }
      if handle < 0 || handle >= |infos| {
        return OPEN_ERR, [];
      }
      EntryKnown(handle);
      var info := infos[handle].data;
      if info.mem == 0 {
        ret := NULL_MEM;
      } else if 1 - core in info.open {
        var size := if n > info.size then info.size else n;
        out := WithdrawLocked(info, info.offset, size, core, false, handle);
        ret := size;
      } else {
        ret := NOT_OPEN;
      }
    }

    ghost predicate DidGetOffset(reg0: Reg, handle: int, n: nat, off: nat, core: Core, ret: int, out: seq<byte>)
      reads `reg
    {
      && Good(reg0) && Sized(reg0) && n + off < TWO32
      && (reg, ret, out) == Mailbox.GetOffset(reg0, handle, n, off, core)
    }

    // mpi_shm_get_offset with update == 0, NOWRAP.
    method GetOffset(handle: int, n: nat, off: nat, core: Core) returns (ret: int, out: seq<byte>)
      requires Valid() && Unlocked() && n + off < TWO32
      modifies Mine, allocator.locks
      ensures Valid() && allocator.locks.words == old(allocator.locks.words)
      ensures DidGetOffset(old(reg), handle, n, off, core, ret, out)
      ensures Locked(old(allocator.locks.trace), MovesIf(n > 0 && Passes(old(reg), handle, 1 - core, off)))
    {
      hide Valid;
      hide Good;
      hide Sized;
      hide Unlocked;
      hide SliceAt;
      hide Peeked;
      hide Locked;
      AllMine();
      NothingDone(allocator.locks.trace);
      InfoKnown();
      out := [];
      if n == 0 {
        return INVALID, [];
      }
      if handle < 0 || handle >= |infos| {
        return OPEN_ERR, [];
      }
      EntryKnown(handle);
      var info := infos[handle].data;
      if info.length <= off {
        return LENGTH_ERR, [];
      }
      if info.mem == 0 {
        ret := NULL_MEM;
      } else if 1 - core in info.open {
        var size := if Wrap(n + off) > info.length then Wrap(info.length - off) else n;
        SliceIs(reg.entries[handle], n, off);
        out := WithdrawLocked(info, off, size, core, true, handle);
        ret := size;
      } else {
        ret := NOT_OPEN;
      }
    }
  }

  // ---------------------------------------------------------------- setting up

  // The info array as zeroed shared memory holds it, with the identifiers mod_init writes.
  ghost predicate BlankInfos(infos: seq<Link<Info>>, cells: seq<Info>)
    reads infos`data, cells
  {
    && |infos| == |cells| && Distinct(infos) && Distinct(cells)
    && forall h | 0 <= h < |infos| :: infos[h].data == cells[h] && cells[h].id == h && cells[h].Says(EmptyEntry())
  }

  ghost predicate NothingShared(infos: seq<Link<Info>>, cells: seq<Info>, free: ListHead<Info>, busy: ListHead<Info>,
                                allocator: Alloc.Allocator, ram: array<byte>)
  {
    && ({free, busy, ram} + (set l | l in infos) + (set c | c in cells)) !! allocator.Repr
    && allocator.locks as object !in allocator.Repr
    && allocator.locks as object !in {free, busy, ram} + (set l | l in infos) + (set c | c in cells)
  }

  // The loop of mod_init: every info entry goes to the head of the free list.
  method ThreadInfos(infos: seq<Link<Info>>, free: ListHead<Info>)
    requires Distinct(infos) && free.Valid() && free.elems == []
    modifies free`next, free`number, free`elems, infos`next, infos`prev
    ensures free.Valid() && Names(infos, free.elems, CountDown(|infos|))
  {
    for i := 0 to |infos|
      invariant free.Valid() && Names(infos, free.elems, CountDown(i))
    {
      NamesCons(infos, free.elems, CountDown(i), i);
      free.AddHead(infos[i]);
      assert CountDown(i + 1) == [i] + CountDown(i);
    }
  }

  // The registry mod_init leaves behind an allocator whose every block is free: one entry
  // for every block, all of them free.
  method SetUp(infos: seq<Link<Info>>, free: ListHead<Info>, busy: ListHead<Info>, allocator: Alloc.Allocator,
               ram: array<byte>, ghost cells: seq<Info>, ghost owner: Core) returns (r: Registry)
    requires BlankInfos(infos, cells) && NothingShared(infos, cells, free, busy, allocator, ram)
    requires free != busy && free.Valid() && free.elems == [] && busy.Valid() && busy.elems == []
    requires allocator.Valid() && allocator.ready && allocator.pools == L.FreshHeaps(allocator.counts)
    requires |infos| == Blocks(L.FreshHeaps(allocator.counts))
    requires allocator.base + L.PoolBytes(allocator.counts) <= ram.Length
    modifies free`next, free`number, free`elems, infos`next, infos`prev
    ensures fresh(r) && r.Valid() && r.reg == FreshReg(|infos|)
    ensures r.allocator == allocator && r.infos == infos && r.ram == ram && r.owner == owner
  {
    hide Alloc.Allocator.Valid;
    hide L.FreshHeaps;
    hide FreshReg;
    hide Registry.Valid;
    hide L.PoolBytes;
    ThreadInfos(infos, free);
    r := new Registry(infos, free, busy, allocator, ram, cells, owner, FreshReg(|infos|));
    FreshValid(r);
  }

  lemma FreshValid(r: Registry)
    requires r.Separate() && BlankInfos(r.infos, r.cells) && r.reg == FreshReg(|r.infos|)
    requires r.allocator.Valid() && r.allocator.ready && r.allocator.pools == L.FreshHeaps(r.allocator.counts)
    requires |r.infos| == Blocks(L.FreshHeaps(r.allocator.counts))
    requires r.free != r.busy && r.busy.Valid() && r.busy.elems == []
    requires r.free.Valid() && Names(r.infos, r.free.elems, CountDown(|r.infos|))
    ensures r.Valid()
  {
    FreshShared(r);
    FreshThreads(r);
    FreshMirrors(r);
    hide Registry.Threads;
    hide Registry.Mirrors;
    hide Registry.Bytes;
    hide Registry.Agrees;
    hide Registry.Separate;
  }

  lemma FreshThreads(r: Registry)
    requires |r.infos| == |r.cells| && (forall h | 0 <= h < |r.infos| :: r.infos[h].data == r.cells[h])
    requires Distinct(r.infos) && r.reg == FreshReg(|r.infos|)
    requires r.free != r.busy && r.busy.Valid() && r.busy.elems == []
    requires r.free.Valid() && Names(r.infos, r.free.elems, CountDown(|r.infos|))
    ensures r.Threads()
  {
  }

  lemma FreshMirrors(r: Registry)
    requires |r.infos| == |r.cells| && r.reg == FreshReg(|r.infos|)
    requires forall h | 0 <= h < |r.infos| :: r.cells[h].id == h && r.cells[h].Says(EmptyEntry())
    ensures r.Mirrors() && r.Bytes()
  {
  }

  lemma FreshShared(r: Registry)
    requires r.allocator.Valid() && r.allocator.ready && r.allocator.pools == L.FreshHeaps(r.allocator.counts)
    requires r.reg == FreshReg(Blocks(L.FreshHeaps(r.allocator.counts)))
    ensures r.Agrees()
  {
    assert r.allocator.base > 0;
    hide Alloc.Allocator.Valid;
    hide L.FreshHeaps;
    hide Agree;
    FreshAgrees(r.allocator.base, r.allocator.counts);
  }
}
