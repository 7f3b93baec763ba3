/** The registry and the allocator together. Headers and registry are shared, but lists and
    heaps are static in each core's image, so each core has an allocator of its own over the
    same blocks. OWNER: one core makes every creating open and every last close. BIG: what is
    opened does not fit a block of the first class, whose blocks mod_free refuses. */
module Agreement {
  import opened Options
  import opened Seqs
  import opened Pools
  import opened RegistrySpec
  import opened Mailbox
  import L = Layout

  // What the headers of one pool's blocks hold. Both cores read and write them.
  datatype Marks = Marks(flags: seq<bool>, lengths: seq<nat>)

  // One core's lists of those blocks.
  datatype Lists = Lists(free: seq<nat>, busy: seq<nat>)

  function Over(marks: seq<Marks>, lists: seq<Lists>): (hs: seq<Pool>)
    requires |marks| == |lists|
    ensures |hs| == |marks|
  {
    seq(|marks|, i requires 0 <= i < |marks| => Pool(lists[i].free, lists[i].busy, marks[i].flags, marks[i].lengths))
  }

  function MarksOf(hs: seq<Pool>): (r: seq<Marks>)
    ensures |r| == |hs|
  {
    seq(|hs|, i requires 0 <= i < |hs| => Marks(hs[i].flags, hs[i].lengths))
  }

  function ListsOf(hs: seq<Pool>): (r: seq<Lists>)
    ensures |r| == |hs|
  {
    seq(|hs|, i requires 0 <= i < |hs| => Lists(hs[i].free, hs[i].busy))
  }

  // The registry and the headers, and the lists of each core.
  datatype Joint = Joint(reg: Reg, marks: seq<Marks>, lists: seq<seq<Lists>>) {
    ghost predicate Formed() {
      |lists| == 2 && forall c: Core :: |lists[c]| == |marks|
    }

    // Core c's allocator: its own lists over the shared headers.
    ghost function Heaps(c: Core): (hs: seq<Pool>)
      requires Formed()
      ensures |hs| == |marks|
    {
      Over(marks, lists[c])
    }

    // Its work shows in the headers and in its own lists.
    ghost function With(reg: Reg, c: Core, hs: seq<Pool>): (r: Joint)
      requires Formed() && |hs| == |marks|
      ensures r.Formed() && r.Heaps(c) == hs && r.Heaps(1 - c) == Over(MarksOf(hs), lists[1 - c])
    {
      Joint(reg, MarksOf(hs), lists[c := ListsOf(hs)])
    }
  }

  datatype Call = Opening(name: string, size: nat, core: Core, junk: seq<byte>) | Closing(handle: int, core: Core)

  // The length stored in the header of block s.
  function LengthAt(hs: seq<Pool>, s: Spot): nat {
    if s.i < |hs| && s.j < |hs[s.i].lengths| then hs[s.i].lengths[s.j] else 0
  }

  // No block but s changes.
  ghost predicate OnlyAt(hs: seq<Pool>, hs': seq<Pool>, s: Spot) {
    forall t :: t != s ==> (BusySpot(hs', t) <==> BusySpot(hs, t)) && LengthAt(hs', t) == LengthAt(hs, t)
  }

  // ptr is the payload of block s.
  ghost predicate At(base: nat, counts: seq<nat>, s: Spot, ptr: nat) {
    L.InTable(counts, s) && ptr == L.Payload(base, counts, s)
  }

  // The block a registry entry should own.
  ghost predicate Owns(hs: seq<Pool>, base: nat, counts: seq<nat>, e: Entry, s: Spot) {
    At(base, counts, s, e.mem) && BusySpot(hs, s) && s.i > 0 && LengthAt(hs, s) == e.length
  }

  ghost predicate OwnsSome(hs: seq<Pool>, base: nat, counts: seq<nat>, e: Entry) {
    exists s :: Owns(hs, base, counts, e, s)
  }

  ghost predicate MemsDiffer(reg: Reg) {
    forall h, k | 0 <= h < |reg.entries| && 0 <= k < |reg.entries| && h in reg.busy && k in reg.busy && h != k ::
      reg.entries[h].mem != reg.entries[k].mem
  }

  ghost predicate EntriesOwn(reg: Reg, hs: seq<Pool>, base: nat, counts: seq<nat>) {
    MemsDiffer(reg) && forall h | 0 <= h < |reg.entries| && h in reg.busy :: OwnsSome(hs, base, counts, reg.entries[h])
  }

  ghost predicate OwnedBySome(reg: Reg, base: nat, counts: seq<nat>, s: Spot) {
    exists h :: 0 <= h < |reg.entries| && h in reg.busy && At(base, counts, s, reg.entries[h].mem)
  }

  ghost predicate BlocksOwned(reg: Reg, hs: seq<Pool>, base: nat, counts: seq<nat>) {
    forall s | BusySpot(hs, s) :: OwnedBySome(reg, base, counts, s)
  }

  // Busy entries and busy blocks are in bijection through m_mem, and the lengths agree.
  ghost predicate Agree(reg: Reg, hs: seq<Pool>, base: nat, counts: seq<nat>) {
    && Good(reg) && HeapsInv(hs) && L.Shaped(hs, counts) && base > 0
    && EntriesOwn(reg, hs, base, counts) && BlocksOwned(reg, hs, base, counts)
    && |reg.busy| == BusyBlocks(hs) && |reg.entries| == Blocks(hs)
  }

  // ---------------------------------------------------------------- one call

  function GrantOf(base: nat, counts: seq<nat>, spot: Option<Spot>, junk: seq<byte>): Grant {
    match spot
    case None => Grant(0, [])
    case Some(s) => if s.i < |counts| then Grant(L.Payload(base, counts, s), junk) else Grant(0, [])
  }

  // What mod_free does with a pointer.
  ghost function FreePtr(hs: seq<Pool>, base: nat, counts: seq<nat>, ptr: nat): seq<Pool>
    requires HeapsOrdered(hs) && L.Shaped(hs, counts)
    ensures |FreePtr(hs, base, counts, ptr)| == |hs|
  {
    if s :| At(base, counts, s, ptr) then FreeSpot(hs, s) else hs
  }

  // The allocator a core uses, after the call, and the registry.
  function OpenWith(reg: Reg, hs: seq<Pool>, base: nat, counts: seq<nat>, name: string, size: nat, core: Core,
                    junk: seq<byte>): (r: (OpenResult, seq<Pool>))
    requires Good(reg) && HeapsOrdered(hs)
    ensures |r.1| == |hs|
  {
    if Creates(reg, name, size) then
      var r := Malloc(hs, size);
      (Open(reg, name, size, core, GrantOf(base, counts, r.1, junk)), r.0)
    else (Open(reg, name, size, core, Grant(0, [])), hs)
  }

  ghost function CloseWith(reg: Reg, hs: seq<Pool>, base: nat, counts: seq<nat>, handle: int, core: Core)
    : (r: ((Reg, int), seq<Pool>))
    requires HeapsOrdered(hs) && L.Shaped(hs, counts)
    ensures |r.1| == |hs|
  {
    (Close(reg, handle, core),
     if LastClose(reg, handle, core) then FreePtr(hs, base, counts, reg.entries[handle].mem) else hs)
  }

  lemma OneAt(base: nat, counts: seq<nat>, s: Spot, t: Spot, ptr: nat)
    requires At(base, counts, s, ptr) && At(base, counts, t, ptr)
    ensures s == t
  {
    if s != t {
      L.BlocksDisjoint(base, counts, s, t);
    }
  }

  lemma FreePtrIs(hs: seq<Pool>, base: nat, counts: seq<nat>, s: Spot, ptr: nat)
    requires HeapsOrdered(hs) && L.Shaped(hs, counts) && At(base, counts, s, ptr)
    ensures IsSpot(hs, s) && FreePtr(hs, base, counts, ptr) == FreeSpot(hs, s)
  {
    forall t | At(base, counts, t, ptr) ensures t == s {
      OneAt(base, counts, s, t, ptr);
    }
  }

  // A request BIG enough is never served from the first class.
  lemma BigAvoidsFirstClass(hs: seq<Pool>, size: nat)
    requires HeapsInv(hs) && size > ClassSize(0) - OVERHEAD && Malloc(hs, size).1.Some?
    ensures Malloc(hs, size).1.value.i > 0
  {
    MallocChoice(hs, size);
  }

  // A request that is not is, as long as the first class has a free block, and then it can
  // never be freed.
  lemma SmallTakesFirstClass(hs: seq<Pool>, size: nat)
    requires HeapsInv(hs) && 0 < size <= ClassSize(0) - OVERHEAD && hs != [] && hs[0].free != []
    ensures Malloc(hs, size).1.Some? && Malloc(hs, size).1.value.i == 0
  {
    assert hs[0].Inv(0);
    assert hs[0].free[0] in hs[0].free;
    MallocChoice(hs, size);
  }

  lemma OpenAgrees(reg: Reg, hs: seq<Pool>, base: nat, counts: seq<nat>, name: string, size: nat,
                   core: Core, junk: seq<byte>)
    requires Agree(reg, hs, base, counts) && |junk| == size
    requires Creates(reg, name, size) ==> size > ClassSize(0) - OVERHEAD
    ensures var r := OpenWith(reg, hs, base, counts, name, size, core, junk);
      Agree(r.0.reg, r.1, base, counts)
  {
    if Creates(reg, name, size) {
      MallocChoice(hs, size);
      if Malloc(hs, size).1.Some? {
        CreateAgrees(reg, hs, base, counts, name, size, core, junk);
      }
    } else {
      MarkAgrees(reg, hs, base, counts, name, size, core);
    }
  }

  lemma MarkAgrees(reg: Reg, hs: seq<Pool>, base: nat, counts: seq<nat>, name: string, size: nat, core: Core)
    requires Agree(reg, hs, base, counts) && !Creates(reg, name, size)
    ensures Agree(Open(reg, name, size, core, Grant(0, [])).reg, hs, base, counts)
  {
    OpenKeeps(reg, name, size, core, Grant(0, []));
    OpenSame(reg, name, size, core);
    hide Open;
    hide Good;
    SameEntries(reg, Open(reg, name, size, core, Grant(0, [])).reg, hs, base, counts);
  }

  lemma OpenSame(reg: Reg, name: string, size: nat, core: Core)
    requires Good(reg) && !Creates(reg, name, size)
    ensures var reg' := Open(reg, name, size, core, Grant(0, [])).reg;
      && reg'.busy == reg.busy && |reg'.entries| == |reg.entries|
      && forall h | 0 <= h < |reg.entries| ::
           reg'.entries[h].mem == reg.entries[h].mem && reg'.entries[h].length == reg.entries[h].length
  {
    assert forall h :: h in reg.busy ==> h < |reg.entries|;
  }

  // Calls that leave lists, memory and lengths alone keep the agreement.
  lemma SameEntries(reg: Reg, reg': Reg, hs: seq<Pool>, base: nat, counts: seq<nat>)
    requires Agree(reg, hs, base, counts) && Good(reg')
    requires reg'.busy == reg.busy && |reg'.entries| == |reg.entries|
    requires forall h | 0 <= h < |reg.entries| ::
               reg'.entries[h].mem == reg.entries[h].mem && reg'.entries[h].length == reg.entries[h].length
    ensures Agree(reg', hs, base, counts)
  {
    hide Good;
    hide HeapsInv;
    hide BusySpot;
    hide OwnsSome;
    hide OwnedBySome;
    forall h | 0 <= h < |reg'.entries| && h in reg'.busy ensures OwnsSome(hs, base, counts, reg'.entries[h]) {
      SameOwns(hs, base, counts, reg.entries[h], reg'.entries[h]);
    }
    forall s | BusySpot(hs, s) ensures OwnedBySome(reg', base, counts, s) {
      SameOwned(reg, reg', base, counts, s);
    }
  }

  lemma PutAgree(reg: Reg, hs: seq<Pool>, base: nat, counts: seq<nat>, h: nat, e: Entry)
    requires Agree(reg, hs, base, counts) && Sized(reg)
    requires h < |reg.entries| && reg.entries[h].open != {} && SameItem(reg.entries[h], e)
    ensures Agree(Put(reg, h, e), hs, base, counts) && Sized(Put(reg, h, e))
  {
    PutKeeps(reg, h, e);
    hide Good;
    hide HeapsInv;
    hide L.Shaped;
    hide EntriesOwn;
    hide BlocksOwned;
    SameEntries(reg, Put(reg, h, e), hs, base, counts);
  }

  lemma SameOwns(hs: seq<Pool>, base: nat, counts: seq<nat>, e: Entry, e': Entry)
    requires OwnsSome(hs, base, counts, e) && e'.mem == e.mem && e'.length == e.length
    ensures OwnsSome(hs, base, counts, e')
  {
    var s :| Owns(hs, base, counts, e, s);
    assert Owns(hs, base, counts, e', s);
  }

  lemma SameOwned(reg: Reg, reg': Reg, base: nat, counts: seq<nat>, s: Spot)
    requires OwnedBySome(reg, base, counts, s) && |reg'.entries| == |reg.entries|
    requires forall h | 0 <= h < |reg.entries| && h in reg.busy && At(base, counts, s, reg.entries[h].mem) ::
               h in reg'.busy && reg'.entries[h].mem == reg.entries[h].mem
    ensures OwnedBySome(reg', base, counts, s)
  {
    hide At;
    var h :| 0 <= h < |reg.entries| && h in reg.busy && At(base, counts, s, reg.entries[h].mem);
    assert At(base, counts, s, reg'.entries[h].mem);
  }

  lemma CreateAgrees(reg: Reg, hs: seq<Pool>, base: nat, counts: seq<nat>, name: string, size: nat,
                     core: Core, junk: seq<byte>)
    requires Agree(reg, hs, base, counts) && |junk| == size && Creates(reg, name, size)
    requires size > ClassSize(0) - OVERHEAD && Malloc(hs, size).1.Some?
    ensures var r := OpenWith(reg, hs, base, counts, name, size, core, junk);
      Agree(r.0.reg, r.1, base, counts)
  {
    var (hs', spot) := Malloc(hs, size);
    var s := spot.value;
    var g := GrantOf(base, counts, spot, junk);
    TakenBlock(hs, counts, size);
    MallocCounts(hs, size);
    CreateGood(reg, name, size, core, g);
    CreatedEntry(reg, name, size, core, g);
    hide Good;
    hide HeapsInv;
    hide Malloc;
    hide BusySpot;
    hide LengthAt;
    hide L.InTable;
    hide L.Shaped;
    hide OnlyAt;
    hide EntriesOwn;
    hide BlocksOwned;
    CreatedOwn(reg, Create(reg, name, size, core, g), hs, hs', base, counts, reg.free[0], s);
  }

  // What mod_malloc does to the blocks.
  lemma TakenBlock(hs: seq<Pool>, counts: seq<nat>, size: nat)
    requires HeapsInv(hs) && L.Shaped(hs, counts) && size > ClassSize(0) - OVERHEAD && Malloc(hs, size).1.Some?
    ensures var (hs', spot) := Malloc(hs, size);
      var s := spot.value;
      && HeapsInv(hs') && L.Shaped(hs', counts) && OnlyAt(hs, hs', s)
      && L.InTable(counts, s) && s.i > 0 && s.i < |counts|
      && !BusySpot(hs, s) && BusySpot(hs', s) && LengthAt(hs', s) == size
  {
    MallocChoice(hs, size);
    BigAvoidsFirstClass(hs, size);
    var (hs', spot) := Malloc(hs, size);
    hide Malloc;
    forall i | 0 <= i < |hs| ensures |hs[i].lengths| == |hs[i].flags| == |hs'[i].flags| == |hs'[i].lengths| {
      assert hs[i].Inv(i) && hs'[i].Inv(i);
    }
  }

  // What creating does to the entries.
  lemma CreatedEntry(reg: Reg, name: string, size: nat, core: Core, g: Grant)
    requires Good(reg) && reg.free != []
    ensures var h, reg' := reg.free[0], Create(reg, name, size, core, g);
      && NewEntry(reg, reg', h) && reg'.entries[h].mem == g.mem && reg'.entries[h].length == size
      && |reg'.busy| == |reg.busy| + 1
  {
    var h, reg' := reg.free[0], Create(reg, name, size, core, g);
    assert h in reg.free && reg'.busy[0] == h && reg'.busy[1..] == reg.busy;
  }

  ghost predicate NewEntry(reg: Reg, reg': Reg, h: nat) {
    && |reg'.entries| == |reg.entries| && h < |reg.entries| && h !in reg.busy
    && (forall k :: k in reg'.busy <==> k == h || k in reg.busy)
    && (forall k | 0 <= k < |reg.entries| && k != h :: reg'.entries[k] == reg.entries[k])
  }

  lemma MallocCounts(hs: seq<Pool>, size: nat)
    requires HeapsInv(hs) && size > 0 && Malloc(hs, size).1.Some?
    ensures BusyBlocks(Malloc(hs, size).0) == BusyBlocks(hs) + 1 && Blocks(Malloc(hs, size).0) == Blocks(hs)
  {
    MallocFromChoice(hs, size, 0);
    var i := Malloc(hs, size).1.value.i;
    BusyBlocksUpdate(hs, i, hs[i].Take(size));
  }

  lemma CreatedOwn(reg: Reg, reg': Reg, hs: seq<Pool>, hs': seq<Pool>, base: nat, counts: seq<nat>, h: nat, s: Spot)
    requires EntriesOwn(reg, hs, base, counts) && BlocksOwned(reg, hs, base, counts)
    requires NewEntry(reg, reg', h) && OnlyAt(hs, hs', s)
    requires !BusySpot(hs, s) && Owns(hs', base, counts, reg'.entries[h], s)
    ensures EntriesOwn(reg', hs', base, counts) && BlocksOwned(reg', hs', base, counts)
  {
    hide At;
    hide BusySpot;
    hide LengthAt;
    hide OwnedBySome;
    assert OwnsSome(hs', base, counts, reg'.entries[h]);
    hide OwnsSome;
    forall k | 0 <= k < |reg.entries| && k in reg.busy
      ensures OwnsSome(hs', base, counts, reg'.entries[k]) && reg'.entries[k].mem != reg'.entries[h].mem
    {
      OthersOwn(hs, hs', base, counts, reg.entries[k], s, reg'.entries[h].mem);
    }
    forall t | BusySpot(hs', t) ensures OwnedBySome(reg', base, counts, t) {
      if t == s {
        NowOwned(reg', base, counts, h, s);
      } else {
        SameOwned(reg, reg', base, counts, t);
      }
    }
  }

  lemma NowOwned(reg: Reg, base: nat, counts: seq<nat>, h: nat, s: Spot)
    requires h < |reg.entries| && h in reg.busy && At(base, counts, s, reg.entries[h].mem)
    ensures OwnedBySome(reg, base, counts, s)
  {
  }

  // Taking a free block disturbs no entry that owns another.
  lemma OthersOwn(hs: seq<Pool>, hs': seq<Pool>, base: nat, counts: seq<nat>, e: Entry, s: Spot, ptr: nat)
    requires OwnsSome(hs, base, counts, e) && OnlyAt(hs, hs', s) && !BusySpot(hs, s) && At(base, counts, s, ptr)
    ensures OwnsSome(hs', base, counts, e) && e.mem != ptr
  {
    hide At;
    hide BusySpot;
    var t :| Owns(hs, base, counts, e, t);
    assert Owns(hs', base, counts, e, t);
    if e.mem == ptr {
      OneAt(base, counts, s, t, ptr);
    }
  }

  // What the last close finds: its entry on the busy list, and behind m_mem a busy block
  // above the first class. So neither "not in busy list" branch and no assertion is reached.
  lemma LastCloseFinds(reg: Reg, hs: seq<Pool>, base: nat, counts: seq<nat>, handle: int, core: Core)
    requires Agree(reg, hs, base, counts) && LastClose(reg, handle, core)
    ensures handle in reg.busy
    ensures OwnsSome(hs, base, counts, reg.entries[handle])
    ensures forall s | Owns(hs, base, counts, reg.entries[handle], s) :: hs[s.i].flags[s.j] && s.j in hs[s.i].busy
  {
    assert handle in reg.busy;
    forall s | Owns(hs, base, counts, reg.entries[handle], s) ensures hs[s.i].flags[s.j] {
      assert hs[s.i].Inv(s.i);
    }
  }

  lemma CloseAgrees(reg: Reg, hs: seq<Pool>, base: nat, counts: seq<nat>, handle: int, core: Core)
    requires Agree(reg, hs, base, counts)
    ensures var r := CloseWith(reg, hs, base, counts, handle, core);
      Agree(r.0.0, r.1, base, counts)
  {
    CloseKeeps(reg, handle, core);
    if LastClose(reg, handle, core) {
      LastCloseFinds(reg, hs, base, counts, handle, core);
      hide Agree;
      hide Good;
      hide Close;
      hide LengthAt;
      var s :| Owns(hs, base, counts, reg.entries[handle], s);
      DropAgrees(reg, hs, base, counts, handle, core, s);
    } else {
      KeptOpen(reg, handle, core);
      SameEntries(reg, Close(reg, handle, core).0, hs, base, counts);
    }
  }

  lemma KeptOpen(reg: Reg, handle: int, core: Core)
    requires !LastClose(reg, handle, core)
    ensures var reg' := Close(reg, handle, core).0;
      && reg'.busy == reg.busy && |reg'.entries| == |reg.entries|
      && forall h | 0 <= h < |reg.entries| ::
           reg'.entries[h].mem == reg.entries[h].mem && reg'.entries[h].length == reg.entries[h].length
  {
  }

  lemma DropAgrees(reg: Reg, hs: seq<Pool>, base: nat, counts: seq<nat>, h: nat, core: Core, s: Spot)
    requires Agree(reg, hs, base, counts) && LastClose(reg, h, core) && Owns(hs, base, counts, reg.entries[h], s)
    requires Good(Close(reg, h, core).0)
    ensures IsSpot(hs, s) && Agree(Close(reg, h, core).0, FreePtr(hs, base, counts, reg.entries[h].mem), base, counts)
  {
    FreePtrIs(hs, base, counts, s, reg.entries[h].mem);
    hide FreePtr;
    GivenBlock(hs, counts, s);
    FreeCounts(hs, s);
    DroppedEntry(reg, h, core);
    hide Close;
    hide Good;
    hide HeapsInv;
    hide FreeSpot;
    hide BusySpot;
    hide LengthAt;
    hide L.InTable;
    hide L.Shaped;
    hide OnlyAt;
    hide EntriesOwn;
    hide BlocksOwned;
    DroppedOwn(reg, Close(reg, h, core).0, hs, FreeSpot(hs, s), base, counts, h, s);
  }

  lemma GivenBlock(hs: seq<Pool>, counts: seq<nat>, s: Spot)
    requires HeapsInv(hs) && L.Shaped(hs, counts) && BusySpot(hs, s)
    ensures var hs' := FreeSpot(hs, s);
      && HeapsInv(hs') && L.Shaped(hs', counts) && OnlyAt(hs, hs', s) && !BusySpot(hs', s)
  {
    FreeBusy(hs, s);
    var hs' := FreeSpot(hs, s);
    hide FreeSpot;
    forall i | 0 <= i < |hs| ensures |hs[i].lengths| == |hs[i].flags| == |hs'[i].flags| == |hs'[i].lengths| {
      assert hs[i].Inv(i) && hs'[i].Inv(i);
    }
  }

  ghost predicate LostEntry(reg: Reg, reg': Reg, h: nat) {
    && |reg'.entries| == |reg.entries| && h < |reg.entries| && h in reg.busy
    && (forall k :: k in reg'.busy <==> k != h && k in reg.busy)
    && (forall k | 0 <= k < |reg.entries| && k != h :: reg'.entries[k] == reg.entries[k])
  }

  lemma DroppedEntry(reg: Reg, h: nat, core: Core)
    requires Good(reg) && LastClose(reg, h, core)
    ensures LostEntry(reg, Close(reg, h, core).0, h) && |Close(reg, h, core).0.busy| == |reg.busy| - 1
  {
    assert h in reg.busy;
    RemoveDistinct(reg.busy, h);
  }

  lemma FreeCounts(hs: seq<Pool>, s: Spot)
    requires HeapsInv(hs) && BusySpot(hs, s)
    ensures BusyBlocks(FreeSpot(hs, s)) == BusyBlocks(hs) - 1 && Blocks(FreeSpot(hs, s)) == Blocks(hs)
  {
    assert hs[s.i].Inv(s.i);
    BusyBlocksUpdate(hs, s.i, hs[s.i].Give(s.j));
  }

  lemma DroppedOwn(reg: Reg, reg': Reg, hs: seq<Pool>, hs': seq<Pool>, base: nat, counts: seq<nat>, h: nat, s: Spot)
    requires EntriesOwn(reg, hs, base, counts) && BlocksOwned(reg, hs, base, counts)
    requires LostEntry(reg, reg', h) && OnlyAt(hs, hs', s)
    requires Owns(hs, base, counts, reg.entries[h], s) && !BusySpot(hs', s)
    ensures EntriesOwn(reg', hs', base, counts) && BlocksOwned(reg', hs', base, counts)
  {
    hide At;
    hide BusySpot;
    hide LengthAt;
    hide OwnedBySome;
    hide OwnsSome;
    forall k | 0 <= k < |reg.entries| && k in reg.busy && k != h ensures OwnsSome(hs', base, counts, reg'.entries[k]) {
      OthersKeep(hs, hs', base, counts, reg.entries[k], s, reg.entries[h].mem);
    }
    forall t | BusySpot(hs', t) ensures OwnedBySome(reg', base, counts, t) {
      if At(base, counts, t, reg.entries[h].mem) {
        OneAt(base, counts, s, t, reg.entries[h].mem);
      }
      SameOwned(reg, reg', base, counts, t);
    }
  }

  lemma OthersKeep(hs: seq<Pool>, hs': seq<Pool>, base: nat, counts: seq<nat>, e: Entry, s: Spot, ptr: nat)
    requires OwnsSome(hs, base, counts, e) && OnlyAt(hs, hs', s) && At(base, counts, s, ptr) && e.mem != ptr
    ensures OwnsSome(hs', base, counts, e)
  {
    hide BusySpot;
    var t :| Owns(hs, base, counts, e, t);
    assert Owns(hs', base, counts, e, t);
  }

  // The blocks of two busy entries do not overlap.
  lemma EntriesApart(reg: Reg, hs: seq<Pool>, base: nat, counts: seq<nat>, h: nat, k: nat)
    requires Agree(reg, hs, base, counts)
    requires h < |reg.entries| && k < |reg.entries| && h in reg.busy && k in reg.busy && h != k
    ensures L.Apart(reg.entries[h].mem, reg.entries[h].length, reg.entries[k].mem, reg.entries[k].length)
  {
    assert OwnsSome(hs, base, counts, reg.entries[h]) && OwnsSome(hs, base, counts, reg.entries[k]);
    assert reg.entries[h].mem != reg.entries[k].mem;
    hide Good;
    hide EntriesOwn;
    hide BlocksOwned;
    hide HeapsInv;
    OwnersApart(hs, base, counts, reg.entries[h], reg.entries[k]);
  }

  lemma OwnersApart(hs: seq<Pool>, base: nat, counts: seq<nat>, e: Entry, e': Entry)
    requires HeapsInv(hs) && OwnsSome(hs, base, counts, e) && OwnsSome(hs, base, counts, e') && e.mem != e'.mem
    ensures L.Apart(e.mem, e.length, e'.mem, e'.length)
  {
    hide L.Offset;
    var s :| Owns(hs, base, counts, e, s);
    var t :| Owns(hs, base, counts, e', t);
    LengthFits(hs, s);
    LengthFits(hs, t);
    hide HeapsInv;
    hide BusySpot;
    hide LengthAt;
    L.BlocksDisjoint(base, counts, s, t);
    hide L.BlockAddr;
  }

  // A stored length fits its block.
  lemma LengthFits(hs: seq<Pool>, s: Spot)
    requires HeapsInv(hs) && BusySpot(hs, s)
    ensures LengthAt(hs, s) + OVERHEAD <= ClassSize(s.i)
  {
    assert hs[s.i].Inv(s.i);
  }

  // ---------------------------------------------------------------- runs

  ghost predicate Ready(j: Joint, counts: seq<nat>) {
    && j.Formed() && Good(j.reg)
    && forall c: Core :: HeapsOrdered(j.Heaps(c)) && L.Shaped(j.Heaps(c), counts)
  }

  // OWNER and BIG for one call.
  ghost predicate Ruled(j: Joint, owner: Core, call: Call) {
    match call
    case Opening(name, size, core, junk) =>
      |junk| == size && (Creates(j.reg, name, size) ==> core == owner && size > ClassSize(0) - OVERHEAD)
    case Closing(handle, core) => LastClose(j.reg, handle, core) ==> core == owner
  }

  // Each core calls mod_malloc and mod_free on its own allocator.
  ghost function Do(j: Joint, base: nat, counts: seq<nat>, call: Call): (r: Joint)
    requires Ready(j, counts)
    ensures r.Formed()
  {
    match call
    case Opening(name, size, core, junk) =>
      var r := OpenWith(j.reg, j.Heaps(core), base, counts, name, size, core, junk);
      j.With(r.0.reg, core, r.1)
    case Closing(handle, core) =>
      var r := CloseWith(j.reg, j.Heaps(core), base, counts, handle, core);
      j.With(r.0.0, core, r.1)
  }

  // Whatever the rules, the registry stays in order, and so do each core's lists. Of what the
  // headers say about them nothing is claimed here.
  lemma DoReady(j: Joint, base: nat, counts: seq<nat>, call: Call)
    requires Ready(j, counts) && base > 0 && (call.Opening? ==> |call.junk| == call.size)
    ensures Ready(Do(j, base, counts, call), counts)
  {
    match call
    case Opening(name, size, core, junk) =>
      OpenReady(j.reg, j.Heaps(core), base, counts, name, size, core, junk);
      var r := OpenWith(j.reg, j.Heaps(core), base, counts, name, size, core, junk);
      WithReady(j, counts, r.0.reg, core, r.1);
    case Closing(handle, core) =>
      CloseReady(j.reg, j.Heaps(core), base, counts, handle, core);
      var r := CloseWith(j.reg, j.Heaps(core), base, counts, handle, core);
      WithReady(j, counts, r.0.0, core, r.1);
  }

  lemma WithReady(j: Joint, counts: seq<nat>, reg: Reg, c: Core, hs: seq<Pool>)
    requires Ready(j, counts) && Good(reg) && HeapsOrdered(hs) && L.Shaped(hs, counts)
    ensures |hs| == |j.marks| && Ready(j.With(reg, c, hs), counts)
  {
    var other, after := j.Heaps(1 - c), Over(MarksOf(hs), j.lists[1 - c]);
    assert HeapsOrdered(other) && L.Shaped(other, counts);
    forall i | 0 <= i < |after| ensures after[i].Ordered(i) && |after[i].flags| == counts[i] {
      assert other[i].Ordered(i) && hs[i].Ordered(i);
    }
    hide Good;
    hide Pool.Ordered;
    forall d: Core ensures var k := j.With(reg, c, hs).Heaps(d); HeapsOrdered(k) && L.Shaped(k, counts) {
      if d != c { assert d == 1 - c; }
    }
  }

  lemma OpenReady(reg: Reg, hs: seq<Pool>, base: nat, counts: seq<nat>, name: string, size: nat,
                  core: Core, junk: seq<byte>)
    requires Good(reg) && HeapsOrdered(hs) && L.Shaped(hs, counts) && base > 0 && |junk| == size
    ensures var r := OpenWith(reg, hs, base, counts, name, size, core, junk);
      Good(r.0.reg) && HeapsOrdered(r.1) && L.Shaped(r.1, counts)
  {
    if Creates(reg, name, size) {
      MallocOrdered(hs, size);
      var spot := Malloc(hs, size).1;
      assert spot.Some? ==> spot.value.i < |counts|;
      OpenKeeps(reg, name, size, core, GrantOf(base, counts, spot, junk));
    } else {
      OpenKeeps(reg, name, size, core, Grant(0, []));
    }
  }

  lemma CloseReady(reg: Reg, hs: seq<Pool>, base: nat, counts: seq<nat>, handle: int, core: Core)
    requires Good(reg) && HeapsOrdered(hs) && L.Shaped(hs, counts)
    ensures var r := CloseWith(reg, hs, base, counts, handle, core);
      Good(r.0.0) && HeapsOrdered(r.1) && L.Shaped(r.1, counts)
  {
    CloseKeeps(reg, handle, core);
    if LastClose(reg, handle, core) {
      FreedReady(hs, base, counts, reg.entries[handle].mem);
    }
  }

  lemma FreedReady(hs: seq<Pool>, base: nat, counts: seq<nat>, ptr: nat)
    requires HeapsOrdered(hs) && L.Shaped(hs, counts)
    ensures HeapsOrdered(FreePtr(hs, base, counts, ptr)) && L.Shaped(FreePtr(hs, base, counts, ptr), counts)
  {
    if s :| At(base, counts, s, ptr) {
      FreePtrIs(hs, base, counts, s, ptr);
      FreeOrdered(hs, s);
    }
  }

  ghost predicate Agreed(j: Joint, base: nat, counts: seq<nat>, owner: Core) {
    Ready(j, counts) && Agree(j.reg, j.Heaps(owner), base, counts)
  }

  // Under the rules the calls of the other core leave the owner's allocator alone, headers
  // included.
  lemma OwnerSpared(j: Joint, base: nat, counts: seq<nat>, owner: Core, call: Call)
    requires Ready(j, counts) && Ruled(j, owner, call) && call.core != owner
    ensures Do(j, base, counts, call).Heaps(owner) == j.Heaps(owner)
  {
    assert MarksOf(j.Heaps(call.core)) == j.marks;
  }

  // And the owner's own calls keep registry and allocator in agreement.
  lemma DoAgrees(j: Joint, base: nat, counts: seq<nat>, owner: Core, call: Call)
    requires Agreed(j, base, counts, owner) && Ruled(j, owner, call)
    ensures Agreed(Do(j, base, counts, call), base, counts, owner)
  {
    DoReady(j, base, counts, call);
    if call.core != owner { OwnerSpared(j, base, counts, owner, call); }
    hide Good;
    hide HeapsOrdered;
    hide EntriesOwn;
    hide BlocksOwned;
    hide Malloc;
    hide Open;
    hide Close;
    hide FreePtr;
    match call
    case Opening(name, size, core, junk) =>
      OpenAgrees(j.reg, j.Heaps(owner), base, counts, name, size, core, junk);
    case Closing(handle, core) =>
      CloseAgrees(j.reg, j.Heaps(owner), base, counts, handle, core);
  }

  ghost predicate RuledRun(j: Joint, base: nat, counts: seq<nat>, owner: Core, calls: seq<Call>)
    requires Agreed(j, base, counts, owner)
    decreases |calls|
  {
    calls == [] ||
    (Ruled(j, owner, calls[0]) &&
     (DoAgrees(j, base, counts, owner, calls[0]);
      RuledRun(Do(j, base, counts, calls[0]), base, counts, owner, calls[1..])))
  }

  ghost function Run(j: Joint, base: nat, counts: seq<nat>, owner: Core, calls: seq<Call>): (r: Joint)
    requires Agreed(j, base, counts, owner) && RuledRun(j, base, counts, owner, calls)
    ensures Agreed(r, base, counts, owner)
    decreases |calls|
  {
    if calls == [] then j
    else
      DoAgrees(j, base, counts, owner, calls[0]);
      Run(Do(j, base, counts, calls[0]), base, counts, owner, calls[1..])
  }

  // The registry as mod_init leaves it.
  function EmptyEntry(): Entry { Entry("", 0, 0, {}, {}, 0, 0, []) }

  function FreshReg(n: nat): Reg { Reg(seq(n, _ => EmptyEntry()), CountDown(n), []) }

  lemma FreshAgrees(base: nat, counts: seq<nat>)
    requires base > 0
    ensures Agree(FreshReg(Blocks(L.FreshHeaps(counts))), L.FreshHeaps(counts), base, counts)
  {
    var hs := L.FreshHeaps(counts);
    L.FreshHeapsInv(counts);
    FreshGood(Blocks(hs));
    NothingBusy(hs);
    hide Good;
    hide HeapsInv;
  }

  // Both cores right after set-up: every block free on the lists of each.
  ghost function FreshJoint(base: nat, counts: seq<nat>): (j: Joint)
    requires base > 0
    ensures forall owner: Core :: Agreed(j, base, counts, owner)
  {
    var hs := L.FreshHeaps(counts);
    FreshAgrees(base, counts);
    assert Over(MarksOf(hs), ListsOf(hs)) == hs;
    Joint(FreshReg(Blocks(hs)), MarksOf(hs), [ListsOf(hs), ListsOf(hs)])
  }

  lemma FreshGood(n: nat)
    ensures Good(FreshReg(n))
  {
    var reg := FreshReg(n);
    forall h | 0 <= h < n ensures h in reg.free {
      assert reg.free[n - 1 - h] == h;
    }
  }

  lemma {:induction false} NothingBusy(hs: seq<Pool>)
    requires forall i | 0 <= i < |hs| :: hs[i].busy == []
    ensures BusyBlocks(hs) == 0
  {
    if hs != [] {
      NothingBusy(hs[..|hs| - 1]);
    }
  }

  // Over every run from the start that keeps OWNER and BIG, registry and allocator agree.
  // An open of a new name never fails for want of an entry while a heap has a free block.
  lemma RunAgrees(base: nat, counts: seq<nat>, owner: Core, calls: seq<Call>)
    requires base > 0 && RuledRun(FreshJoint(base, counts), base, counts, owner, calls)
    ensures var r := Run(FreshJoint(base, counts), base, counts, owner, calls);
      && Agree(r.reg, r.Heaps(owner), base, counts)
      && ((exists i | 0 <= i < |counts| :: r.Heaps(owner)[i].free != []) ==> r.reg.free != [])
  {
    hide FreshJoint;
    hide RuledRun;
    var r := Run(FreshJoint(base, counts), base, counts, owner, calls);
    hide Run;
    EntriesSuffice(r.reg, r.Heaps(owner), base, counts);
  }

  lemma EntriesSuffice(reg: Reg, hs: seq<Pool>, base: nat, counts: seq<nat>)
    requires Agree(reg, hs, base, counts)
    ensures (exists i | 0 <= i < |hs| :: hs[i].free != []) ==> reg.free != []
  {
    FreeBlockLeft(hs);
    if (exists i | 0 <= i < |hs| :: hs[i].free != []) && reg.free == [] {
      forall h | 0 <= h < |reg.entries| ensures h in reg.busy {}
      AllListed(reg.busy, |reg.entries|);
    }
  }

  // A list that holds every number below n is at least n long.
  lemma {:induction false} AllListed(s: seq<nat>, n: nat)
    requires Distinct(s) && forall h | 0 <= h < n :: h in s
    ensures |s| >= n
    decreases n
  {
    if n > 0 {
      RemoveDistinct<nat>(s, n - 1);
      AllListed(Remove<nat>(s, n - 1), n - 1);
    }
  }

  // ---------------------------------------------------------------- why OWNER

  // The class and block mod_malloc takes, as far as its lists say.
  function Choice(hs: seq<Pool>, size: nat, i: nat): Option<Spot>
    decreases |hs| - i
  {
    if i >= |hs| then None
    else if Fits(hs, size, i) && hs[i].free != [] then Some(Spot(i, hs[i].free[0]))
    else Choice(hs, size, i + 1)
  }

  lemma {:induction false} ChoiceIsMalloc(hs: seq<Pool>, size: nat, i: nat)
    requires HeapsOrdered(hs)
    ensures Choice(hs, size, i) == MallocFrom(hs, size, i).1
    decreases |hs| - i
  {
    if i < |hs| {
      assert hs[i].Ordered(i);
      ChoiceIsMalloc(hs, size, i + 1);
    }
  }

  // Another core's lists over the same headers: the header of s is marked, the lists are not.
  function MarkedBy(hs: seq<Pool>, s: Spot, size: nat): seq<Pool>
    requires s.i < |hs| && s.j < |hs[s.i].flags| == |hs[s.i].lengths|
  {
    var p := hs[s.i];
    hs[s.i := p.(flags := p.flags[s.j := true], lengths := p.lengths[s.j := size])]
  }

  lemma {:induction false} MarkIgnored(hs: seq<Pool>, s: Spot, size: nat, n: nat, i: nat)
    requires s.i < |hs| && s.j < |hs[s.i].flags| == |hs[s.i].lengths|
    ensures Choice(MarkedBy(hs, s, size), n, i) == Choice(hs, n, i)
    decreases |hs| - i
  {
    if i < |hs| {
      MarkIgnored(hs, s, size, n, i + 1);
    }
  }

  // A mark the other core sets keeps these lists in order, and belies them.
  lemma MarkSeen(hs: seq<Pool>, s: Spot, size: nat)
    requires HeapsInv(hs) && IsSpot(hs, s) && s.j in hs[s.i].free && 0 < size && Fits(hs, size, s.i)
    ensures |hs[s.i].flags| == |hs[s.i].lengths|
    ensures HeapsOrdered(MarkedBy(hs, s, size)) && !HeapsInv(MarkedBy(hs, s, size))
  {
    assert hs[s.i].Inv(s.i);
    var hs' := MarkedBy(hs, s, size);
    assert !hs'[s.i].Inv(s.i);
  }

  // Without OWNER: right after the second core's set-up both cores' lists are the same, and
  // when each creates an entry of the same size both get the same block, in any state they
  // may share. mod_malloc does not look at the busy flag the other core has set.
  lemma TwoCreatorsCollide(hs: seq<Pool>, size: nat)
    requires HeapsInv(hs) && size > 0 && Malloc(hs, size).1.Some?
    ensures var s := Malloc(hs, size).1.value;
      && IsSpot(hs, s) && |hs[s.i].flags| == |hs[s.i].lengths|
      && var hs' := MarkedBy(hs, s, size);
         HeapsOrdered(hs') && !HeapsInv(hs') && Malloc(hs', size).1 == Some(s)
  {
    MallocChoice(hs, size);
    var s := Malloc(hs, size).1.value;
    MarkSeen(hs, s, size);
    MarkIgnored(hs, s, size, size, 0);
    ChoiceIsMalloc(hs, size, 0);
    ChoiceIsMalloc(MarkedBy(hs, s, size), size, 0);
    hide HeapsOrdered;
    hide MallocFrom;
  }

  // What mod_malloc on one core makes of the other's allocator when their lists are the same.
  lemma OtherMarked(j: Joint, counts: seq<nat>, reg: Reg, size: nat)
    requires Ready(j, counts) && HeapsInv(j.Heaps(0)) && j.lists[0] == j.lists[1]
    requires size > 0 && Malloc(j.Heaps(0), size).1.Some?
    ensures var hs, s := j.Heaps(0), Malloc(j.Heaps(0), size).1.value;
      && IsSpot(hs, s) && |hs[s.i].flags| == |hs[s.i].lengths|
      && j.With(reg, 0, Malloc(hs, size).0).Heaps(1) == MarkedBy(hs, s, size)
  {
    var hs := j.Heaps(0);
    MallocFromChoice(hs, size, 0);
    var s := Malloc(hs, size).1.value;
    assert hs[s.i].Inv(s.i) && hs[s.i].free[0] in hs[s.i].free;
  }

  ghost function DoBoth(j: Joint, base: nat, counts: seq<nat>, call: Call, next: Call): (r: Joint)
    requires Ready(j, counts) && base > 0
    requires (call.Opening? ==> |call.junk| == call.size) && (next.Opening? ==> |next.junk| == next.size)
    ensures Ready(r, counts)
  {
    DoReady(j, base, counts, call);
    DoReady(Do(j, base, counts, call), base, counts, next);
    Do(Do(j, base, counts, call), base, counts, next)
  }

  // The address mod_malloc would give core c, or 0.
  ghost function Offer(j: Joint, base: nat, counts: seq<nat>, c: Core, size: nat): nat
    requires Ready(j, counts)
  {
    GrantOf(base, counts, Malloc(j.Heaps(c), size).1, []).mem
  }

  // The entry at the head of the free list is entered under this name over this block.
  ghost predicate EntersFirst(reg: Reg, reg': Reg, name: string, ptr: nat) {
    && reg.free != [] && |reg'.entries| == |reg.entries| && reg.free[0] < |reg.entries|
    && reg'.busy == [reg.free[0]] + reg.busy && reg'.free == reg.free[1..]
    && reg'.entries[reg.free[0]].mem == ptr && reg'.entries[reg.free[0]].name == Stored(name)
    && forall k | 0 <= k < |reg.entries| && k != reg.free[0] :: reg'.entries[k] == reg.entries[k]
  }

  lemma CreatedOn(j: Joint, base: nat, counts: seq<nat>, name: string, size: nat, core: Core, junk: seq<byte>)
    requires Ready(j, counts) && base > 0 && |junk| == size
    requires Creates(j.reg, name, size) && Offer(j, base, counts, core, size) != 0
    ensures EntersFirst(j.reg, Do(j, base, counts, Opening(name, size, core, junk)).reg, name,
                        Offer(j, base, counts, core, size))
  {
    assert j.reg.free[0] in j.reg.free;
    hide HeapsOrdered;
    hide L.Shaped;
    hide Malloc;
  }

  // What core 0 has taken is what core 1 is offered next.
  lemma OfferedAgain(j: Joint, base: nat, counts: seq<nat>, name: string, size: nat, junk: seq<byte>)
    requires Agreed(j, base, counts, 0) && j.lists[0] == j.lists[1]
    requires Creates(j.reg, name, size) && |junk| == size && Offer(j, base, counts, 0, size) != 0
    ensures var j1 := Do(j, base, counts, Opening(name, size, 0, junk));
      Ready(j1, counts) && Offer(j1, base, counts, 1, size) == Offer(j, base, counts, 0, size)
  {
    var hs := j.Heaps(0);
    DoReady(j, base, counts, Opening(name, size, 0, junk));
    TwoCreatorsCollide(hs, size);
    OtherMarked(j, counts, OpenWith(j.reg, hs, base, counts, name, size, 0, junk).0.reg, size);
    hide MarkedBy;
    hide Malloc;
    hide HeapsInv;
    hide HeapsOrdered;
    hide L.Shaped;
    hide L.Payload;
    hide Good;
    hide EntriesOwn;
    hide BlocksOwned;
    hide Open;
  }

  ghost predicate BothOver(reg: Reg, h: nat, k: nat, ptr: nat) {
    && h != k && h in reg.busy && k in reg.busy && h < |reg.entries| && k < |reg.entries|
    && reg.entries[h].mem == reg.entries[k].mem == ptr
  }

  // So the registry then has two busy entries over one block.
  lemma OwnerNeeded(j: Joint, base: nat, counts: seq<nat>, name: string, name': string, size: nat, junk: seq<byte>)
    requires Agreed(j, base, counts, 0) && j.lists[0] == j.lists[1]
    requires size > 0 && |junk| == size && Offer(j, base, counts, 0, size) != 0 && |j.reg.free| >= 2
    requires Find(j.reg, name).None? && Find(j.reg, name').None? && Stored(name) != name'
    ensures var r := DoBoth(j, base, counts, Opening(name, size, 0, junk), Opening(name', size, 1, junk));
      BothOver(r.reg, j.reg.free[0], j.reg.free[1], Offer(j, base, counts, 0, size))
  {
    assert base > 0;
    hide Do;
    hide Offer;
    hide Agree;
    OfferedAgain(j, base, counts, name, size, junk);
    CreatedOn(j, base, counts, name, size, 0, junk);
    var j1 := Do(j, base, counts, Opening(name, size, 0, junk));
    StillNew(j.reg, j1.reg, name, name', Offer(j, base, counts, 0, size));
    CreatedOn(j1, base, counts, name', size, 1, junk);
    assert j1.reg.free[0] == j.reg.free[1];
    hide Ready;
    TwoFirst(j.reg, j1.reg, Do(j1, base, counts, Opening(name', size, 1, junk)).reg,
             name, name', Offer(j, base, counts, 0, size));
  }

  lemma TwoFirst(reg: Reg, reg1: Reg, reg2: Reg, name: string, name': string, ptr: nat)
    requires EntersFirst(reg, reg1, name, ptr) && EntersFirst(reg1, reg2, name', ptr)
    requires |reg.free| >= 2 && reg.free[0] != reg.free[1]
    ensures BothOver(reg2, reg.free[0], reg.free[1], ptr)
  {
    assert reg2.busy[0] == reg.free[1] && reg2.busy[1] == reg.free[0];
  }

  // A name that was not there is still not there after another one was entered.
  lemma StillNew(reg: Reg, reg': Reg, name: string, name': string, ptr: nat)
    requires Good(reg) && EntersFirst(reg, reg', name, ptr) && |reg.free| >= 2
    requires Find(reg, name').None? && Stored(name) != name'
    ensures Find(reg', name').None? && reg.free[0] != reg.free[1]
  {
    assert forall h :: h in reg'.busy ==> h == reg.free[0] || h in reg.busy;
  }
}
