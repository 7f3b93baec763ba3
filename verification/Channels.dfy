/** Channels over the registry: creating one opens its two names and registers it for
    dispatch, destroying it takes all of that back. Calls of the two cores interleave as a
    whole, which the refinement in TwoCores justifies. */
module Channels {
  import opened Words
  import opened Options
  import opened Seqs
  import opened Locks
  import opened Pools
  import opened RegistrySpec
  import opened Mailbox
  import opened Agreement
  import opened ChannelNames
  import L = Layout

  // struct Mpi_channel. slot is the message register of the other core.
  datatype Channel = Channel(number: word, send: nat, recv: nat, sendLength: nat, recvLength: nat, slot: Core)

  // What one core keeps for itself: its lock-number keeper and its list of callbacks.
  datatype Side = Side(kept: seq<bool>, chain: seq<Channel>)

  datatype World = World(j: Joint, sides: seq<Side>)

  datatype Region = Region(base: nat, counts: seq<nat>)

  // A call of mpi_create_channel. memory says whether kmalloc succeeds; the junk is what the
  // blocks happen to hold.
  datatype Ask = Ask(number: word, length: nat, core: Core, junk: seq<byte>, junk': seq<byte>, memory: bool)

  function LockOf(number: word): nat { LOCK_DEFAULT_CHANNEL + number }

  ghost predicate Proper(a: Ask) {
    |a.junk| == |a.junk'| == a.length && LockOf(a.number) < LOCK_KEEPER_LENGTH
  }

  ghost predicate Standing(w: World, g: Region) {
    && Ready(w.j, g.counts) && g.base > 0 && |w.sides| == 2
    && forall c: Core :: |w.sides[c].kept| == LOCK_KEEPER_LENGTH
  }

  ghost function OpenOn(j: Joint, g: Region, name: string, size: nat, core: Core, junk: seq<byte>)
    : (r: (Joint, OpenResult))
    requires Ready(j, g.counts) && g.base > 0 && |junk| == size
    ensures Ready(r.0, g.counts)
  {
    DoReady(j, g.base, g.counts, Opening(name, size, core, junk));
    (Do(j, g.base, g.counts, Opening(name, size, core, junk)),
     OpenWith(j.reg, j.Heaps(core), g.base, g.counts, name, size, core, junk).0)
  }

  ghost function CloseOn(j: Joint, g: Region, handle: int, core: Core): (r: Joint)
    requires Ready(j, g.counts) && g.base > 0
    ensures Ready(r, g.counts)
  {
    DoReady(j, g.base, g.counts, Closing(handle, core));
    Do(j, g.base, g.counts, Closing(handle, core))
  }

  // mpi_create_channel.
  ghost function Create(w: World, g: Region, a: Ask): (r: (World, Option<Channel>))
    requires Standing(w, g) && Proper(a)
    ensures Standing(r.0, g)
  {
    var side, l := w.sides[a.core], LockOf(a.number);
    if a.length == 0 || !a.memory || side.kept[l] then (w, None)
    else
      var (j1, r1) := OpenOn(w.j, g, SendName(a.core, a.number), a.length, a.core, a.junk);
      if r1.ret < 0 then (World(j1, w.sides[a.core := side.(kept := side.kept[l := true][l := false])]), None)
      else Finish(World(j1, w.sides), g, a, r1.ret, r1.length)
  }

  // Its second half, once the send name is open.
  ghost function Finish(w: World, g: Region, a: Ask, send: nat, sendLength: nat): (r: (World, Option<Channel>))
    requires Standing(w, g) && Proper(a)
    ensures Standing(r.0, g)
  {
    var side, l := w.sides[a.core], LockOf(a.number);
    var (j2, r2) := OpenOn(w.j, g, RecvName(a.core, a.number), a.length, a.core, a.junk');
    if r2.ret < 0 then
      (World(CloseOn(j2, g, send, a.core), w.sides[a.core := side.(kept := side.kept[l := true][l := false])]), None)
    else
      var channel := Channel(a.number, send, r2.ret, sendLength, r2.length, 1 - a.core);
      (World(j2, w.sides[a.core := Side(side.kept[l := true], side.chain + [channel])]), Some(channel))
  }

  // mpi_destroy_channel.
  ghost function Destroy(w: World, g: Region, core: Core, channel: Channel): (r: World)
    requires Standing(w, g) && LockOf(channel.number) < LOCK_KEEPER_LENGTH
    ensures Standing(r, g)
  {
    var side := w.sides[core];
    var j := CloseOn(CloseOn(w.j, g, channel.send, core), g, channel.recv, core);
    World(j, w.sides[core := Side(side.kept[LockOf(channel.number) := false], Remove(side.chain, channel))])
  }

  // ---------------------------------------------------------------- what one call does to the entries

  // What a busy entry is to those who hold it.
  datatype Held = Held(name: string, length: nat, mem: nat, open: set<nat>)

  function HeldOf(e: Entry): Held { Held(e.name, e.length, e.mem, e.open) }

  ghost function Shape(reg: Reg): map<nat, Held>
    requires Good(reg)
  {
    map h | h in reg.busy :: HeldOf(EntryAt(reg, h))
  }

  ghost function EntryAt(reg: Reg, h: nat): Entry
    requires Good(reg) && h in reg.busy
  {
    reg.entries[h]
  }

  // An open that succeeds leaves its name held by the core, under the handle it returns; any
  // other entry it leaves alone. One that fails changes nothing.
  ghost predicate OpenEffect(m: map<nat, Held>, m': map<nat, Held>, name: string, core: Core, ret: int, length: nat) {
    if ret < 0 then m' == m
    else
      && ret in m' && m' == m[ret as nat := m'[ret]] && m'[ret].name == name && m'[ret].length == length
      && if ret in m then
           m[ret] == m'[ret].(open := m[ret].open) && m'[ret].open == m[ret].open + {core}
         else
           m'[ret].open == {core} && forall h | h in m :: m[h].name != name
  }

  // A close takes the core off the entry, and the entry away with its last core.
  function CloseEffect(m: map<nat, Held>, h: nat, core: Core): map<nat, Held>
    requires h in m
  {
    if m[h].open == {core} then m - {h} else m[h := m[h].(open := m[h].open - {core})]
  }

  // One entry changes, or comes, or goes.
  lemma ShapePut(reg: Reg, reg': Reg, h: nat)
    requires Good(reg) && Good(reg') && |reg'.entries| == |reg.entries| && h < |reg.entries|
    requires forall k | 0 <= k < |reg.entries| && k != h ::
               reg'.entries[k] == reg.entries[k] && (k in reg'.busy <==> k in reg.busy)
    ensures Shape(reg') == if h in reg'.busy then Shape(reg)[h := HeldOf(reg'.entries[h])] else Shape(reg) - {h}
  {
    assert forall k :: k in reg.busy || k in reg'.busy ==> k < |reg.entries|;
    hide Good;
  }

  lemma OpenShape(reg: Reg, name: string, size: nat, core: Core, gr: Grant)
    requires Good(reg) && |name| < NAME_MAX && (Creates(reg, name, size) && gr.mem != 0 ==> |gr.data| == size)
    ensures var r := RegistrySpec.Open(reg, name, size, core, gr);
      Good(r.reg) && OpenEffect(Shape(reg), Shape(r.reg), name, core, r.ret, r.length)
  {
    OpenKeeps(reg, name, size, core, gr);
    if Creates(reg, name, size) && gr.mem != 0 {
      NewShape(reg, name, size, core, gr);
    } else if size > 0 && Find(reg, name).Some? && size <= reg.entries[Find(reg, name).value].length {
      MarkShape(reg, name, size, core, gr);
    }
    hide Good;
  }

  lemma NewShape(reg: Reg, name: string, size: nat, core: Core, gr: Grant)
    requires Good(reg) && |name| < NAME_MAX && Creates(reg, name, size) && gr.mem != 0 && |gr.data| == size
    ensures var r := RegistrySpec.Open(reg, name, size, core, gr);
      Good(r.reg) && OpenEffect(Shape(reg), Shape(r.reg), name, core, r.ret, r.length)
  {
    var h, reg' := reg.free[0], RegistrySpec.Create(reg, name, size, core, gr);
    CreateGood(reg, name, size, core, gr);
    CreatedLists(reg, name, size, core, gr);
    ShapePut(reg, reg', h);
    assert Shape(reg).Keys == set k | k in reg.busy;
    forall k | k in Shape(reg) ensures Shape(reg)[k].name != name {
      assert k < |reg.entries|;
    }
    assert reg'.entries[h].open == {core};
    hide Good;
    hide Shape;
  }

  lemma MarkShape(reg: Reg, name: string, size: nat, core: Core, gr: Grant)
    requires Good(reg) && size > 0 && Find(reg, name).Some? && size <= reg.entries[Find(reg, name).value].length
    ensures var r := RegistrySpec.Open(reg, name, size, core, gr);
      Good(r.reg) && OpenEffect(Shape(reg), Shape(r.reg), name, core, r.ret, r.length)
  {
    OpenKeeps(reg, name, size, core, gr);
    var h, reg' := Find(reg, name).value, RegistrySpec.Open(reg, name, size, core, gr).reg;
    ShapePut(reg, reg', h);
    assert h in Shape(reg) && Shape(reg)[h] == HeldOf(reg.entries[h]);
    hide Good;
    hide Shape;
  }

  lemma CloseShape(reg: Reg, h: nat, core: Core)
    requires Good(reg) && h in Shape(reg) && core in Shape(reg)[h].open
    ensures var r := RegistrySpec.Close(reg, h, core);
      Good(r.0) && r.1 == 0 && Shape(r.0) == CloseEffect(Shape(reg), h, core)
  {
    CloseKeeps(reg, h, core);
    var reg' := RegistrySpec.Close(reg, h, core).0;
    assert h < |reg.entries| && Shape(reg)[h] == HeldOf(reg.entries[h]);
    RemoveDistinct(reg.busy, h);
    assert LastClose(reg, h, core) ==> forall k :: k in reg'.busy <==> k in reg.busy && k != h;
    hide Remove;
    ShapePut(reg, reg', h);
    hide Good;
    hide Shape;
  }

  lemma FoundIsShaped(reg: Reg, name: string)
    requires Good(reg) && Find(reg, name).Some?
    ensures Find(reg, name).value in Shape(reg)
  {
  }

  lemma OpenOnShape(j: Joint, g: Region, name: string, size: nat, core: Core, junk: seq<byte>)
    requires Ready(j, g.counts) && g.base > 0 && |junk| == size && |name| < NAME_MAX
    ensures var (j', r) := OpenOn(j, g, name, size, core, junk);
      && OpenEffect(Shape(j.reg), Shape(j'.reg), name, core, r.ret, r.length)
      && (NamesDiffer(j.reg) ==> NamesDiffer(j'.reg))
      && (r.ret >= 0 && r.ret !in Shape(j.reg) ==> Creates(j.reg, name, size))
  {
    var hs := j.Heaps(core);
    var gr := if Creates(j.reg, name, size) then GrantOf(g.base, g.counts, Malloc(hs, size).1, junk) else Grant(0, []);
    OpenShape(j.reg, name, size, core, gr);
    OpenKeeps(j.reg, name, size, core, gr);
    if Find(j.reg, name).Some? { FoundIsShaped(j.reg, name); }
    hide Good;
    hide Shape;
    hide NamesDiffer;
  }

  lemma CloseOnShape(j: Joint, g: Region, h: nat, core: Core)
    requires Ready(j, g.counts) && g.base > 0 && h in Shape(j.reg) && core in Shape(j.reg)[h].open
    ensures Shape(CloseOn(j, g, h, core).reg) == CloseEffect(Shape(j.reg), h, core)
    ensures NamesDiffer(j.reg) ==> NamesDiffer(CloseOn(j, g, h, core).reg)
  {
    CloseShape(j.reg, h, core);
    CloseKeeps(j.reg, h, core);
  }

  // ---------------------------------------------------------------- undoing

  ghost predicate NotHeld(m: map<nat, Held>, name: string, core: Core) {
    forall h | h in m && m[h].name == name :: core !in m[h].open
  }

  ghost predicate NeverEmpty(m: map<nat, Held>) {
    forall h | h in m :: m[h].open != {}
  }

  // The entry an open returned is the caller's, and closing it takes the open back.
  lemma OpenedHeld(m: map<nat, Held>, m': map<nat, Held>, name: string, core: Core, ret: int, length: nat)
    requires OpenEffect(m, m', name, core, ret, length) && NotHeld(m, name, core) && NeverEmpty(m) && ret >= 0
    ensures ret in m' && core in m'[ret].open && CloseEffect(m', ret, core) == m
  {
    if ret in m {
      assert m[ret].name == name && m'[ret].open - {core} == m[ret].open;
    }
  }

  // Two opens of different names can be taken back in the order they were made.
  lemma TwoUndone(m: map<nat, Held>, m1: map<nat, Held>, m2: map<nat, Held>, name: string, name': string, core: Core,
                  h: nat, length: nat, k: nat, length': nat)
    requires OpenEffect(m, m1, name, core, h, length) && OpenEffect(m1, m2, name', core, k, length') && name != name'
    requires NotHeld(m, name, core) && NotHeld(m, name', core) && NeverEmpty(m)
    ensures h in m2 && core in m2[h].open && NotHeld(m1, name', core) && NeverEmpty(m1)
    ensures var m3 := CloseEffect(m2, h, core); k in m3 && core in m3[k].open && CloseEffect(m3, k, core) == m
  {
    OpenedHeld(m, m1, name, core, h, length);
    assert h != k;
    OpenedHeld(m1, m2, name', core, k, length');
    var m3 := CloseEffect(m2, h, core);
    assert m3 == CloseEffect(m1, h, core)[k := m2[k]];
    assert m3 == m[k := m2[k]];
    assert k in m1 <==> k in m;
  }

  ghost predicate SameBlocks(hs: seq<Pool>, hs': seq<Pool>) {
    && |hs'| == |hs|
    && forall i, j: nat | 0 <= i < |hs| ::
         && (j in hs'[i].busy <==> j in hs[i].busy)
         && (j in hs'[i].free <==> j in hs[i].free)
  }

  // Registry and allocator agree, so the entries determine which blocks are free.
  lemma ShapeFixesBlocks(reg: Reg, hs: seq<Pool>, reg': Reg, hs': seq<Pool>, g: Region)
    requires Agree(reg, hs, g.base, g.counts) && Agree(reg', hs', g.base, g.counts) && Shape(reg) == Shape(reg')
    ensures SameBlocks(hs, hs')
  {
    forall s: Spot ensures BusySpot(hs, s) <==> BusySpot(hs', s) {
      if BusySpot(hs, s) { BusyInBoth(reg, hs, reg', hs', g, s); }
      if BusySpot(hs', s) { BusyInBoth(reg', hs', reg, hs, g, s); }
    }
    forall i, j: nat | 0 <= i < |hs|
      ensures (j in hs'[i].busy <==> j in hs[i].busy) && (j in hs'[i].free <==> j in hs[i].free)
    {
      assert hs[i].Inv(i) && hs'[i].Inv(i);
      assert BusySpot(hs, Spot(i, j)) <==> BusySpot(hs', Spot(i, j));
    }
  }

  lemma BusyInBoth(reg: Reg, hs: seq<Pool>, reg': Reg, hs': seq<Pool>, g: Region, s: Spot)
    requires Agree(reg, hs, g.base, g.counts) && Agree(reg', hs', g.base, g.counts) && Shape(reg) == Shape(reg')
    requires BusySpot(hs, s)
    ensures BusySpot(hs', s)
  {
    assert OwnedBySome(reg, g.base, g.counts, s);
    var h :| 0 <= h < |reg.entries| && h in reg.busy && At(g.base, g.counts, s, reg.entries[h].mem);
    assert h in Shape(reg) && Shape(reg)[h] == HeldOf(reg.entries[h]);
    assert h in Shape(reg') && Shape(reg')[h] == HeldOf(reg'.entries[h]);
    assert OwnsSome(hs', g.base, g.counts, reg'.entries[h]);
    var t :| Owns(hs', g.base, g.counts, reg'.entries[h], t);
    OneAt(g.base, g.counts, s, t, reg.entries[h].mem);
  }

  lemma ShapeFixesAbs(reg: Reg, reg': Reg)
    requires Good(reg) && NamesDiffer(reg) && Good(reg') && NamesDiffer(reg') && Shape(reg) == Shape(reg')
    ensures Abs(reg) == Abs(reg')
  {
    forall h | 0 <= h < |reg'.entries| && h in reg'.busy
      ensures reg'.entries[h].name in Abs(reg) && Abs(reg)[reg'.entries[h].name] == ItemOf(reg', h)
    {
      SameHeld(reg, reg', h);
      AbsOf(reg, h);
    }
    forall n | n in Abs(reg) ensures n in BusyNames(reg') {
      AbsEntry(reg, n);
      SameHeld(reg', reg, Abs(reg)[n].id);
    }
    hide Good;
    hide NamesDiffer;
    hide Abs;
    AbsExtends(reg', Abs(reg));
  }

  lemma SameHeld(reg: Reg, reg': Reg, h: nat)
    requires Good(reg) && Good(reg') && Shape(reg) == Shape(reg') && h in reg'.busy
    ensures h in reg.busy && h < |reg.entries| && h < |reg'.entries|
      && HeldOf(reg.entries[h]) == HeldOf(reg'.entries[h])
  {
    assert h in Shape(reg') && h in Shape(reg);
    assert HeldOf(EntryAt(reg, h)) == Shape(reg)[h] == Shape(reg')[h] == HeldOf(EntryAt(reg', h));
  }

  // OWNER and BIG for the opens of a create.
  ghost predicate RuledAsk(w: World, g: Region, a: Ask, owner: Core)
    requires Standing(w, g) && Proper(a)
  {
    var call := Opening(SendName(a.core, a.number), a.length, a.core, a.junk);
    && Ruled(w.j, owner, call)
    && Ruled(OpenOn(w.j, g, call.name, call.size, call.core, call.junk).0, owner,
             Opening(RecvName(a.core, a.number), a.length, a.core, a.junk'))
  }

  ghost predicate Fresh(w: World, g: Region, a: Ask, owner: Core) {
    && Standing(w, g) && Proper(a) && Agreed(w.j, g.base, g.counts, owner) && NamesDiffer(w.j.reg)
    && NotHeld(Shape(w.j.reg), SendName(a.core, a.number), a.core)
    && NotHeld(Shape(w.j.reg), RecvName(a.core, a.number), a.core)
    && RuledAsk(w, g, a, owner)
  }

  // Lock keeper and callback list, the map of names, and the free and busy blocks of every
  // heap of the owner are what they were.
  ghost predicate Restored(w: World, w': World, g: Region, owner: Core)
    requires Standing(w, g) && Standing(w', g)
  {
    && w'.sides == w.sides && Abs(w'.j.reg) == Abs(w.j.reg)
    && SameBlocks(w.j.Heaps(owner), w'.j.Heaps(owner))
  }

  // The opens of a create, in order.
  ghost predicate Opened(j: Joint, j': Joint, g: Region, owner: Core, name: string, core: Core, ret: int, length: nat)
    requires Good(j.reg)
  {
    && Ready(j', g.counts) && Agreed(j', g.base, g.counts, owner) && NamesDiffer(j'.reg)
    && OpenEffect(Shape(j.reg), Shape(j'.reg), name, core, ret, length)
    && (ret >= 0 && ret !in Shape(j.reg) ==> core == owner)
  }

  lemma OpenRuled(j: Joint, g: Region, owner: Core, name: string, size: nat, core: Core, junk: seq<byte>)
    requires Agreed(j, g.base, g.counts, owner) && NamesDiffer(j.reg) && g.base > 0 && |name| < NAME_MAX
    requires Ruled(j, owner, Opening(name, size, core, junk))
    ensures var (j', r) := OpenOn(j, g, name, size, core, junk); Opened(j, j', g, owner, name, core, r.ret, r.length)
  {
    OpenOnShape(j, g, name, size, core, junk);
    DoAgrees(j, g.base, g.counts, owner, Opening(name, size, core, junk));
  }

  lemma CloseRuled(j: Joint, g: Region, owner: Core, h: nat, core: Core)
    requires Agreed(j, g.base, g.counts, owner) && NamesDiffer(j.reg) && g.base > 0
    requires h in Shape(j.reg) && core in Shape(j.reg)[h].open && (Shape(j.reg)[h].open == {core} ==> core == owner)
    ensures var j' := CloseOn(j, g, h, core);
      && Agreed(j', g.base, g.counts, owner) && NamesDiffer(j'.reg)
      && Shape(j'.reg) == CloseEffect(Shape(j.reg), h, core)
  {
    CloseOnShape(j, g, h, core);
    assert Shape(j.reg)[h] == HeldOf(EntryAt(j.reg, h));
    DoAgrees(j, g.base, g.counts, owner, Closing(h, core));
  }

  lemma SendRecvDiffer(core: Core, number: word)
    ensures SendName(core, number) != RecvName(core, number)
  {
    if SendName(core, number) == RecvName(core, number) {
      NameInjective(number, core == 0, number, core != 0);
    }
  }

  lemma Undone(w: World, g: Region, owner: Core, j': Joint)
    requires Standing(w, g) && Agreed(w.j, g.base, g.counts, owner) && NamesDiffer(w.j.reg)
    requires Agreed(j', g.base, g.counts, owner) && NamesDiffer(j'.reg) && Shape(j'.reg) == Shape(w.j.reg)
    ensures Abs(j'.reg) == Abs(w.j.reg) && SameBlocks(w.j.Heaps(owner), j'.Heaps(owner))
  {
    ShapeFixesAbs(w.j.reg, j'.reg);
    ShapeFixesBlocks(w.j.reg, w.j.Heaps(owner), j'.reg, j'.Heaps(owner), g);
  }

  lemma ShapeNeverEmpty(reg: Reg)
    requires Good(reg)
    ensures NeverEmpty(Shape(reg))
  {
    forall h | h in Shape(reg) ensures Shape(reg)[h].open != {} {
      assert Shape(reg)[h] == HeldOf(EntryAt(reg, h));
    }
  }

  // A create that fails, at whatever point, leaves everything as it was.
  lemma FailureRestores(w: World, g: Region, a: Ask, owner: Core)
    requires Fresh(w, g, a, owner) && Create(w, g, a).1.None?
    ensures Restored(w, Create(w, g, a).0, g, owner)
  {
    hide Agree;
    hide Good;
    hide HeapsInv;
    hide L.Shaped;
    hide NamesDiffer;
    hide Shape;
    hide NotHeld;
    hide SameBlocks;
    hide Abs;
    hide OpenEffect;
    hide Finish;
    var side, l := w.sides[a.core], LockOf(a.number);
    var name := SendName(a.core, a.number);
    Undone(w, g, owner, w.j);
    if a.length > 0 && a.memory && !side.kept[l] {
      assert side.kept[l := true][l := false] == side.kept;
      NameShort(a.number, a.core == 0);
      OpenRuled(w.j, g, owner, name, a.length, a.core, a.junk);
      var (j1, r1) := OpenOn(w.j, g, name, a.length, a.core, a.junk);
      if r1.ret < 0 {
        Undone(w, g, owner, j1);
      } else {
        FinishRestores(w, g, a, owner, j1, r1.ret, r1.length);
      }
    }
  }

  lemma FinishRestores(w: World, g: Region, a: Ask, owner: Core, j1: Joint, send: nat, length: nat)
    requires Fresh(w, g, a, owner) && !w.sides[a.core].kept[LockOf(a.number)]
    requires Opened(w.j, j1, g, owner, SendName(a.core, a.number), a.core, send, length)
    requires Ruled(j1, owner, Opening(RecvName(a.core, a.number), a.length, a.core, a.junk'))
    requires Finish(World(j1, w.sides), g, a, send, length).1.None?
    ensures Restored(w, Finish(World(j1, w.sides), g, a, send, length).0, g, owner)
  {
    hide Agree;
    hide Good;
    hide HeapsInv;
    hide L.Shaped;
    hide NamesDiffer;
    hide Shape;
    hide NotHeld;
    hide SameBlocks;
    hide Abs;
    hide OpenEffect;
    var side, l := w.sides[a.core], LockOf(a.number);
    var name, name' := SendName(a.core, a.number), RecvName(a.core, a.number);
    assert side.kept[l := true][l := false] == side.kept;
    NameShort(a.number, a.core != 0);
    OpenRuled(j1, g, owner, name', a.length, a.core, a.junk');
    var (j2, r2) := OpenOn(j1, g, name', a.length, a.core, a.junk');
    hide OpenOn;
    FailedOpen(w.j, j1, j2, g, owner, name, name', a.core, send, length, r2.ret, r2.length);
    OneUndone(w, g, owner, j2, name, a.core, send, length);
  }

  // A second open that fails leaves the effect of the first.
  lemma FailedOpen(j: Joint, j1: Joint, j2: Joint, g: Region, owner: Core, name: string, name': string, core: Core,
                   h: nat, length: nat, ret: int, length': nat)
    requires Good(j.reg) && Opened(j, j1, g, owner, name, core, h, length)
    requires Opened(j1, j2, g, owner, name', core, ret, length') && ret < 0
    ensures Opened(j, j2, g, owner, name, core, h, length)
  {
    hide Agree;
    hide Shape;
  }

  lemma OneUndone(w: World, g: Region, owner: Core, j: Joint, name: string, core: Core, h: nat, length: nat)
    requires Standing(w, g) && Agreed(w.j, g.base, g.counts, owner) && NamesDiffer(w.j.reg)
    requires NotHeld(Shape(w.j.reg), name, core) && Opened(w.j, j, g, owner, name, core, h, length)
    ensures var j' := CloseOn(j, g, h, core);
      Abs(j'.reg) == Abs(w.j.reg) && SameBlocks(w.j.Heaps(owner), j'.Heaps(owner))
  {
    ShapeNeverEmpty(w.j.reg);
    OpenedHeld(Shape(w.j.reg), Shape(j.reg), name, core, h, length);
    CloseRuled(j, g, owner, h, core);
    Undone(w, g, owner, CloseOn(j, g, h, core));
  }

  // Destroying a channel right after creating it leaves everything as it was before.
  lemma DestroyUndoesCreate(w: World, g: Region, a: Ask, owner: Core)
    requires Fresh(w, g, a, owner) && Create(w, g, a).1.Some?
    requires forall k | 0 <= k < |w.sides[a.core].chain| :: w.sides[a.core].chain[k].number != a.number
    ensures var (w', channel) := Create(w, g, a); Restored(w, Destroy(w', g, a.core, channel.value), g, owner)
  {
    hide Agree;
    hide Good;
    hide HeapsInv;
    hide L.Shaped;
    hide NamesDiffer;
    hide Shape;
    hide NotHeld;
    hide SameBlocks;
    hide Abs;
    hide OpenEffect;
    var side, l := w.sides[a.core], LockOf(a.number);
    var name, name' := SendName(a.core, a.number), RecvName(a.core, a.number);
    var channel := Create(w, g, a).1.value;
    assert side.kept[l := true][l := false] == side.kept;
    RemoveLast(side.chain, channel);
    NameShort(a.number, a.core == 0);
    NameShort(a.number, a.core != 0);
    SendRecvDiffer(a.core, a.number);
    OpenRuled(w.j, g, owner, name, a.length, a.core, a.junk);
    var (j1, r1) := OpenOn(w.j, g, name, a.length, a.core, a.junk);
    OpenRuled(j1, g, owner, name', a.length, a.core, a.junk');
    var (j2, r2) := OpenOn(j1, g, name', a.length, a.core, a.junk');
    hide OpenOn;
    hide CloseOn;
    BothUndone(w, g, owner, j1, j2, name, name', a.core, r1.ret, r1.length, r2.ret, r2.length);
  }

  lemma {:induction false} RemoveLast<T>(s: seq<T>, x: T)
    requires x !in s
    ensures Remove(s + [x], x) == s
  {
    if s != [] {
      assert (s + [x])[1..] == s[1..] + [x];
      RemoveLast(s[1..], x);
    }
  }

  lemma BothUndone(w: World, g: Region, owner: Core, j1: Joint, j2: Joint, name: string, name': string, core: Core,
                   h: nat, length: nat, k: nat, length': nat)
    requires Standing(w, g) && Agreed(w.j, g.base, g.counts, owner) && NamesDiffer(w.j.reg) && name != name'
    requires NotHeld(Shape(w.j.reg), name, core) && NotHeld(Shape(w.j.reg), name', core)
    requires Opened(w.j, j1, g, owner, name, core, h, length) && Opened(j1, j2, g, owner, name', core, k, length')
    ensures var j' := CloseOn(CloseOn(j2, g, h, core), g, k, core);
      Abs(j'.reg) == Abs(w.j.reg) && SameBlocks(w.j.Heaps(owner), j'.Heaps(owner))
  {
    ShapeNeverEmpty(w.j.reg);
    TwoUndone(Shape(w.j.reg), Shape(j1.reg), Shape(j2.reg), name, name', core, h, length, k, length');
    LastIsOwn(Shape(w.j.reg), Shape(j1.reg), Shape(j2.reg), name, name', core, h, length, k, length');
    hide Shape;
    CloseRuled(j2, g, owner, h, core);
    var j3 := CloseOn(j2, g, h, core);
    CloseRuled(j3, g, owner, k, core);
    Undone(w, g, owner, CloseOn(j3, g, k, core));
  }

  // A close after two opens is an entry's last one only if the open created it.
  lemma LastIsOwn(m: map<nat, Held>, m1: map<nat, Held>, m2: map<nat, Held>, name: string, name': string, core: Core,
                  h: nat, length: nat, k: nat, length': nat)
    requires OpenEffect(m, m1, name, core, h, length) && OpenEffect(m1, m2, name', core, k, length') && name != name'
    requires NotHeld(m, name, core) && NotHeld(m, name', core) && NeverEmpty(m)
    ensures h in m2 && (m2[h].open == {core} ==> h !in m)
    ensures var m3 := CloseEffect(m2, h, core); k in m3 && (m3[k].open == {core} ==> k !in m1)
  {
    assert h != k;
    if h in m {
      var x :| x in m[h].open;
      assert x in m2[h].open && x != core;
    }
    if k in m1 {
      assert k in m && m1[k] == m[k];
      var x :| x in m1[k].open;
      assert x in m2[k].open && x != core;
    }
  }

  // A create fails exactly when nothing is asked for, there is no memory, the lock number is
  // taken, or one of the names cannot be opened.
  lemma CreateFailsExactly(w: World, g: Region, a: Ask)
    requires Standing(w, g) && Proper(a)
    ensures var (j1, r1) := OpenOn(w.j, g, SendName(a.core, a.number), a.length, a.core, a.junk);
      var r2 := OpenOn(j1, g, RecvName(a.core, a.number), a.length, a.core, a.junk').1;
      Create(w, g, a).1.None? <==>
        a.length == 0 || !a.memory || w.sides[a.core].kept[LockOf(a.number)] || r1.ret < 0 || r2.ret < 0
  {
    hide OpenOn;
    hide Ready;
  }

  // ---------------------------------------------------------------- pairing

  // Core c holds the name under handle h.
  ghost predicate Has(m: map<nat, Held>, h: nat, name: string, c: Core, length: nat) {
    h in m && m[h].name == name && c in m[h].open && m[h].length == length
  }

  ghost predicate Entered(m: map<nat, Held>, side: Side, c: Core, ch: Channel) {
    && Has(m, ch.send, SendName(c, ch.number), c, ch.sendLength)
    && Has(m, ch.recv, RecvName(c, ch.number), c, ch.recvLength)
    && LockOf(ch.number) < |side.kept| && side.kept[LockOf(ch.number)] && ch.slot == 1 - c
  }

  ghost predicate SideOk(m: map<nat, Held>, side: Side, c: Core) {
    && (forall k | 0 <= k < |side.chain| :: Entered(m, side, c, side.chain[k]))
    && (forall k, l | 0 <= k < l < |side.chain| :: side.chain[k].number != side.chain[l].number)
  }

  ghost predicate NamesApart(m: map<nat, Held>) {
    forall h, k | h in m && k in m && m[h].name == m[k].name :: h == k
  }

  ghost predicate Paired(w: World, g: Region) {
    && Standing(w, g) && NamesDiffer(w.j.reg) && NamesApart(Shape(w.j.reg))
    && forall c: Core :: SideOk(Shape(w.j.reg), w.sides[c], c)
  }

  lemma ShapeNamesApart(reg: Reg)
    requires Good(reg) && NamesDiffer(reg)
    ensures NamesApart(Shape(reg))
  {
    var m := Shape(reg);
    forall h, k | h in m && k in m && m[h].name == m[k].name ensures h == k {
      assert m[h] == HeldOf(EntryAt(reg, h)) && m[k] == HeldOf(EntryAt(reg, k));
    }
  }

  lemma OpenKeepsHas(m: map<nat, Held>, m': map<nat, Held>, name: string, core: Core, ret: int, length: nat,
                    side: Side, c: Core)
    requires OpenEffect(m, m', name, core, ret, length) && SideOk(m, side, c)
    ensures SideOk(m', side, c)
  {
  }

  // The close of a handle by a core disturbs no channel of the other core, and none of its
  // own that uses another handle.
  lemma CloseKeepsHas(m: map<nat, Held>, h: nat, core: Core, side: Side, c: Core)
    requires h in m && core in m[h].open && SideOk(m, side, c)
    requires c == core ==> forall k | 0 <= k < |side.chain| :: side.chain[k].send != h && side.chain[k].recv != h
    ensures SideOk(CloseEffect(m, h, core), side, c)
  {
  }

  datatype Event = Making(a: Ask) | Breaking(core: Core, k: nat)

  ghost predicate Allowed(w: World, ev: Event)
    requires |w.sides| == 2
  {
    match ev
    case Making(a) => Proper(a)
    case Breaking(c, k) => k < |w.sides[c].chain|
  }

  ghost function Next(w: World, g: Region, ev: Event): World
    requires Paired(w, g) && Allowed(w, ev)
  {
    match ev
    case Making(a) => Create(w, g, a).0
    case Breaking(c, k) =>
      assert Entered(Shape(w.j.reg), w.sides[c], c, w.sides[c].chain[k]);
      Destroy(w, g, c, w.sides[c].chain[k])
  }

  lemma OpenKeepsOne(m: map<nat, Held>, m': map<nat, Held>, name: string, core: Core, ret: int, length: nat,
                     h: nat, name': string, c: Core, length': nat)
    requires OpenEffect(m, m', name, core, ret, length) && Has(m, h, name', c, length')
    ensures Has(m', h, name', c, length')
  {
  }

  // A channel of another number, or another direction, uses another handle.
  lemma HandlesApart(m: map<nat, Held>, h: nat, number: word, up: bool, c: Core, length: nat,
                     h': nat, number': word, up': bool, c': Core, length': nat)
    requires Has(m, h, Name(number, up), c, length) && Has(m, h', Name(number', up'), c', length')
    requires number != number' || up != up'
    ensures h != h'
  {
    if h == h' { NameInjective(number, up, number', up'); }
  }

  lemma NotOwnHandle(m: map<nat, Held>, side: Side, c: Core, h: nat, number: word, up: bool, length: nat)
    requires SideOk(m, side, c) && Has(m, h, Name(number, up), c, length)
    requires forall k | 0 <= k < |side.chain| :: side.chain[k].number != number
    ensures forall k | 0 <= k < |side.chain| :: side.chain[k].send != h && side.chain[k].recv != h
  {
    forall k | 0 <= k < |side.chain| ensures side.chain[k].send != h && side.chain[k].recv != h {
      var ch := side.chain[k];
      assert Entered(m, side, c, ch);
      HandlesApart(m, h, number, up, c, length, ch.send, ch.number, c == 0, c, ch.sendLength);
      HandlesApart(m, h, number, up, c, length, ch.recv, ch.number, c != 0, c, ch.recvLength);
    }
  }

  // A number whose lock is free is no channel's.
  lemma NewNumber(m: map<nat, Held>, side: Side, c: Core, number: word)
    requires SideOk(m, side, c) && LockOf(number) < |side.kept| && !side.kept[LockOf(number)]
    ensures forall k | 0 <= k < |side.chain| :: side.chain[k].number != number
  {
    forall k | 0 <= k < |side.chain| ensures side.chain[k].number != number {
      assert Entered(m, side, c, side.chain[k]);
    }
  }

  lemma SideGrows(m: map<nat, Held>, side: Side, c: Core, ch: Channel)
    requires SideOk(m, side, c) && LockOf(ch.number) < |side.kept| && !side.kept[LockOf(ch.number)] && ch.slot == 1 - c
    requires Has(m, ch.send, SendName(c, ch.number), c, ch.sendLength)
    requires Has(m, ch.recv, RecvName(c, ch.number), c, ch.recvLength)
    ensures SideOk(m, Side(side.kept[LockOf(ch.number) := true], side.chain + [ch]), c)
  {
    NewNumber(m, side, c, ch.number);
    hide Has;
    hide SendName;
    hide RecvName;
    var side' := Side(side.kept[LockOf(ch.number) := true], side.chain + [ch]);
    forall k | 0 <= k < |side'.chain| ensures Entered(m, side', c, side'.chain[k]) {
      assert k < |side.chain| ==> Entered(m, side, c, side.chain[k]);
    }
  }

  lemma SideShrinks(m: map<nat, Held>, side: Side, c: Core, k: nat)
    requires SideOk(m, side, c) && k < |side.chain|
    ensures var ch := side.chain[k];
      && LockOf(ch.number) < |side.kept|
      && var side' := Side(side.kept[LockOf(ch.number) := false], Remove(side.chain, ch));
         SideOk(m, side', c) && forall l | 0 <= l < |side'.chain| :: side'.chain[l].number != ch.number
  {
    var ch := side.chain[k];
    assert Entered(m, side, c, ch);
    ChainWithout(side.chain, k);
    var chain' := Remove(side.chain, ch);
    hide Remove;
    var side' := Side(side.kept[LockOf(ch.number) := false], chain');
    forall l | 0 <= l < |chain'| ensures Entered(m, side', c, chain'[l]) {
      assert Entered(m, side, c, side.chain[if l < k then l else l + 1]);
    }
  }

  lemma ChainWithout(chain: seq<Channel>, k: nat)
    requires k < |chain| && forall i, j | 0 <= i < j < |chain| :: chain[i].number != chain[j].number
    ensures var chain' := Remove(chain, chain[k]);
      && |chain'| == |chain| - 1
      && (forall l | 0 <= l < |chain'| ::
            chain'[l] == chain[if l < k then l else l + 1] && chain'[l].number != chain[k].number)
      && forall i, j | 0 <= i < j < |chain'| :: chain'[i].number != chain'[j].number
  {
    forall i, j | 0 <= i < j < |chain| ensures chain[i] != chain[j] {
      assert chain[i].number != chain[j].number;
    }
    RemoveAt(chain, k);
    var chain' := Remove(chain, chain[k]);
    forall l | 0 <= l < |chain'|
      ensures chain'[l] == chain[if l < k then l else l + 1] && chain'[l].number != chain[k].number
    {
      var l' := if l < k then l else l + 1;
      assert chain'[l] == chain[l'] && chain[if l' < k then l' else k].number != chain[if l' < k then k else l'].number;
    }
  }

  // One open by a core, seen from both sides.
  lemma OpenPaired(j: Joint, g: Region, sides: seq<Side>, name: string, size: nat, core: Core, junk: seq<byte>)
    requires Paired(World(j, sides), g) && |junk| == size && |name| < NAME_MAX
    ensures var (j', r) := OpenOn(j, g, name, size, core, junk);
      && Paired(World(j', sides), g) && OpenEffect(Shape(j.reg), Shape(j'.reg), name, core, r.ret, r.length)
      && (r.ret >= 0 ==> Has(Shape(j'.reg), r.ret, name, core, r.length))
  {
    OpenOnShape(j, g, name, size, core, junk);
    var (j', r) := OpenOn(j, g, name, size, core, junk);
    ShapeNamesApart(j'.reg);
    hide Good;
    hide Shape;
    hide OpenOn;
    forall c: Core ensures SideOk(Shape(j'.reg), sides[c], c) {
      OpenKeepsHas(Shape(j.reg), Shape(j'.reg), name, core, r.ret, r.length, sides[c], c);
    }
  }

  lemma ClosePaired(j: Joint, g: Region, sides: seq<Side>, h: nat, name: string, core: Core, length: nat)
    requires Paired(World(j, sides), g) && Has(Shape(j.reg), h, name, core, length)
    requires forall k | 0 <= k < |sides[core].chain| :: sides[core].chain[k].send != h && sides[core].chain[k].recv != h
    ensures var j' := CloseOn(j, g, h, core);
      Paired(World(j', sides), g) && Shape(j'.reg) == CloseEffect(Shape(j.reg), h, core)
  {
    CloseOnShape(j, g, h, core);
    var j' := CloseOn(j, g, h, core);
    ShapeNamesApart(j'.reg);
    hide Good;
    hide Shape;
    hide CloseOn;
    forall c: Core ensures SideOk(Shape(j'.reg), sides[c], c) {
      CloseKeepsHas(Shape(j.reg), h, core, sides[c], c);
    }
  }

  lemma SidesUpdate(j: Joint, g: Region, sides: seq<Side>, c: Core, side: Side)
    requires Paired(World(j, sides), g) && |side.kept| == LOCK_KEEPER_LENGTH && SideOk(Shape(j.reg), side, c)
    ensures Paired(World(j, sides[c := side]), g)
  {
    hide Good;
    hide Shape;
    hide SideOk;
    hide NamesApart;
  }

  lemma CreatePaired(w: World, g: Region, a: Ask)
    requires Paired(w, g) && Proper(a)
    ensures Paired(Create(w, g, a).0, g)
  {
    hide Ready;
    hide Good;
    hide Shape;
    hide SideOk;
    hide NamesApart;
    hide NamesDiffer;
    hide OpenEffect;
    hide Has;
    hide Finish;
    var c, side, l := a.core, w.sides[a.core], LockOf(a.number);
    if a.length > 0 && a.memory && !side.kept[l] {
      assert side.kept[l := true][l := false] == side.kept;
      assert w.sides[c := side] == w.sides && World(w.j, w.sides) == w;
      NameShort(a.number, c == 0);
      OpenPaired(w.j, g, w.sides, SendName(c, a.number), a.length, c, a.junk);
      var (j1, r1) := OpenOn(w.j, g, SendName(c, a.number), a.length, c, a.junk);
      hide OpenOn;
      if r1.ret >= 0 {
        FinishPaired(World(j1, w.sides), g, a, r1.ret, r1.length);
      }
    }
  }

  lemma FinishPaired(w: World, g: Region, a: Ask, send: nat, sendLength: nat)
    requires Paired(w, g) && Proper(a) && !w.sides[a.core].kept[LockOf(a.number)]
    requires Has(Shape(w.j.reg), send, SendName(a.core, a.number), a.core, sendLength)
    ensures Paired(Finish(w, g, a, send, sendLength).0, g)
  {
    hide HeapsInv;
    hide L.Shaped;
    hide Good;
    hide Shape;
    hide SideOk;
    hide NamesApart;
    hide NamesDiffer;
    hide OpenEffect;
    hide Has;
    var c, side, l := a.core, w.sides[a.core], LockOf(a.number);
    var name' := RecvName(c, a.number);
    assert side.kept[l := true][l := false] == side.kept;
    assert w.sides[c := side] == w.sides;
    NameShort(a.number, c != 0);
    OpenPaired(w.j, g, w.sides, name', a.length, c, a.junk');
    var (j2, r2) := OpenOn(w.j, g, name', a.length, c, a.junk');
    hide OpenOn;
    OpenKeepsOne(Shape(w.j.reg), Shape(j2.reg), name', c, r2.ret, r2.length,
                 send, SendName(c, a.number), c, sendLength);
    if r2.ret < 0 {
      NewNumber(Shape(j2.reg), side, c, a.number);
      NotOwnHandle(Shape(j2.reg), side, c, send, a.number, c == 0, sendLength);
      ClosePaired(j2, g, w.sides, send, SendName(c, a.number), c, sendLength);
    } else {
      var ch := Channel(a.number, send, r2.ret, sendLength, r2.length, 1 - c);
      SideGrows(Shape(j2.reg), side, c, ch);
      SidesUpdate(j2, g, w.sides, c, Side(side.kept[l := true], side.chain + [ch]));
    }
  }

  lemma DestroyPaired(w: World, g: Region, c: Core, k: nat)
    requires Paired(w, g) && k < |w.sides[c].chain|
    ensures LockOf(w.sides[c].chain[k].number) < LOCK_KEEPER_LENGTH
    ensures Paired(Destroy(w, g, c, w.sides[c].chain[k]), g)
  {
    var m, side := Shape(w.j.reg), w.sides[c];
    var ch := side.chain[k];
    assert Entered(m, side, c, ch);
    SideShrinks(m, side, c, k);
    var sides := w.sides[c := Side(side.kept[LockOf(ch.number) := false], Remove(side.chain, ch))];
    hide Good;
    hide Shape;
    hide NamesDiffer;
    hide NamesApart;
    SidesUpdate(w.j, g, w.sides, c, sides[c]);
    hide SideOk;
    NotOwnHandle(m, sides[c], c, ch.send, ch.number, c == 0, ch.sendLength);
    NotOwnHandle(m, sides[c], c, ch.recv, ch.number, c != 0, ch.recvLength);
    HandlesApart(m, ch.send, ch.number, c == 0, c, ch.sendLength, ch.recv, ch.number, c != 0, c, ch.recvLength);
    ClosePaired(w.j, g, sides, ch.send, SendName(c, ch.number), c, ch.sendLength);
    var j1 := CloseOn(w.j, g, ch.send, c);
    assert Has(Shape(j1.reg), ch.recv, RecvName(c, ch.number), c, ch.recvLength);
    ClosePaired(j1, g, sides, ch.recv, RecvName(c, ch.number), c, ch.recvLength);
  }

  lemma NextPaired(w: World, g: Region, ev: Event)
    requires Paired(w, g) && Allowed(w, ev)
    ensures Paired(Next(w, g, ev), g)
  {
    match ev
    case Making(a) => CreatePaired(w, g, a);
    case Breaking(c, k) => DestroyPaired(w, g, c, k);
  }

  ghost predicate AllowedRun(w: World, g: Region, evs: seq<Event>)
    requires Paired(w, g)
    decreases |evs|
  {
    evs == [] || (Allowed(w, evs[0]) && (NextPaired(w, g, evs[0]); AllowedRun(Next(w, g, evs[0]), g, evs[1..])))
  }

  ghost function Run(w: World, g: Region, evs: seq<Event>): (r: World)
    requires Paired(w, g) && AllowedRun(w, g, evs)
    ensures Paired(r, g)
    decreases |evs|
  {
    if evs == [] then w
    else
      NextPaired(w, g, evs[0]);
      Run(Next(w, g, evs[0]), g, evs[1..])
  }

  // Two handles are the same exactly when number and direction are.
  lemma HandleIsName(m: map<nat, Held>, h: nat, number: word, up: bool, c: Core, length: nat,
                     h': nat, number': word, up': bool, c': Core, length': nat)
    requires NamesApart(m) && Has(m, h, Name(number, up), c, length) && Has(m, h', Name(number', up'), c', length')
    ensures h == h' <==> number == number' && up == up'
    ensures h == h' ==> length == length'
  {
    if h == h' { NameInjective(number, up, number', up'); }
  }

  // No channel yet, in a registry of any contents.
  lemma StartPaired(w: World, g: Region)
    requires Standing(w, g) && NamesDiffer(w.j.reg) && w.sides[0].chain == [] && w.sides[1].chain == []
    ensures Paired(w, g)
  {
    ShapeNamesApart(w.j.reg);
  }

  // After any creates and destroys by the two cores, in any order: channels of one number
  // are paired crosswise, with the same lengths, and all other handles differ.
  lemma ChannelsPair(w: World, g: Region, evs: seq<Event>, c: Core, k: nat, d: Core, l: nat)
    requires Paired(w, g) && AllowedRun(w, g, evs)
    requires var r := Run(w, g, evs); k < |r.sides[c].chain| && l < |r.sides[d].chain|
    ensures var r := Run(w, g, evs);
      var x, y := r.sides[c].chain[k], r.sides[d].chain[l];
      && (x.send == y.recv <==> x.number == y.number && c != d)
      && (x.send == y.send <==> x.number == y.number && c == d)
      && (x.recv == y.recv <==> x.number == y.number && c == d)
      && (c != d && x.number == y.number ==> x.sendLength == y.recvLength && x.slot == d)
  {
    var r := Run(w, g, evs);
    ChannelsKnown(r, g, c, k);
    ChannelsKnown(r, g, d, l);
    var m, x, y := Shape(r.j.reg), r.sides[c].chain[k], r.sides[d].chain[l];
    hide Shape;
    hide Good;
    hide Has;
    hide Run;
    HandleIsName(m, x.send, x.number, c == 0, c, x.sendLength, y.recv, y.number, d != 0, d, y.recvLength);
    HandleIsName(m, x.send, x.number, c == 0, c, x.sendLength, y.send, y.number, d == 0, d, y.sendLength);
    HandleIsName(m, x.recv, x.number, c != 0, c, x.recvLength, y.recv, y.number, d != 0, d, y.recvLength);
  }

  lemma ChannelsKnown(w: World, g: Region, c: Core, k: nat)
    requires Paired(w, g) && k < |w.sides[c].chain|
    ensures var m, x := Shape(w.j.reg), w.sides[c].chain[k];
      && NamesApart(m) && x.slot == 1 - c && LockOf(x.number) < LOCK_KEEPER_LENGTH
      && Has(m, x.send, SendName(c, x.number), c, x.sendLength)
      && Has(m, x.recv, RecvName(c, x.number), c, x.recvLength)
  {
    assert Entered(Shape(w.j.reg), w.sides[c], c, w.sides[c].chain[k]);
  }

  // The first channel on the list that receives on this handle.
  function Dispatched(chain: seq<Channel>, msg: int): Option<Channel> {
    if chain == [] then None
    else if chain[0].recv == msg then Some(chain[0])
    else Dispatched(chain[1..], msg)
  }

  // At most one channel matches, so the order of the list does not matter.
  lemma DispatchUnique(m: map<nat, Held>, side: Side, c: Core, k: nat)
    requires SideOk(m, side, c) && NamesApart(m) && k < |side.chain|
    ensures Dispatched(side.chain, side.chain[k].recv) == Some(side.chain[k])
    ensures forall l | 0 <= l < |side.chain| :: side.chain[l].recv == side.chain[k].recv ==> l == k
  {
    forall l | 0 <= l < |side.chain| ensures side.chain[l].recv == side.chain[k].recv ==> l == k {
      RecvDiffers(m, side, c, k, l);
    }
    hide SideOk;
    hide NamesApart;
    DispatchFirst(side.chain, k);
  }

  lemma RecvDiffers(m: map<nat, Held>, side: Side, c: Core, k: nat, l: nat)
    requires SideOk(m, side, c) && NamesApart(m) && k < |side.chain| && l < |side.chain|
    ensures side.chain[l].recv == side.chain[k].recv ==> l == k
  {
    var x, y := side.chain[l], side.chain[k];
    assert Entered(m, side, c, x) && Entered(m, side, c, y);
    assert l != k ==> side.chain[if l < k then l else k].number != side.chain[if l < k then k else l].number;
    hide SideOk;
    hide NamesApart;
    hide Has;
    HandleIsName(m, x.recv, x.number, c != 0, c, x.recvLength, y.recv, y.number, c != 0, c, y.recvLength);
  }

  lemma {:induction false} DispatchFirst(chain: seq<Channel>, k: nat)
    requires k < |chain| && forall l | 0 <= l < k :: chain[l].recv != chain[k].recv
    ensures Dispatched(chain, chain[k].recv) == Some(chain[k])
  {
    if k > 0 {
      assert chain[1..][k - 1] == chain[k];
      forall l | 0 <= l < k - 1 ensures chain[1..][l].recv != chain[k].recv {
        assert chain[1..][l] == chain[l + 1];
      }
      DispatchFirst(chain[1..], k - 1);
    }
  }

  // A send on a channel that passes the length test is taken whole.
  lemma NeverTruncated(w: World, g: Region, c: Core, k: nat, bytes: seq<byte>)
    requires Paired(w, g) && k < |w.sides[c].chain| && |bytes| <= w.sides[c].chain[k].sendLength
    ensures var x := w.sides[c].chain[k];
      && Send(w.j.reg, x.send, bytes, c).1 == |bytes|
      && x.send < |w.j.reg.entries| && var e := Send(w.j.reg, x.send, bytes, c).0.entries[x.send];
         e.size == |bytes| && e.offset == 0 && |bytes| <= |e.data| && e.data[..|bytes|] == bytes
  {
    ChannelsKnown(w, g, c, k);
    var x := w.sides[c].chain[k];
    assert Shape(w.j.reg)[x.send] == HeldOf(EntryAt(w.j.reg, x.send));
  }
}
