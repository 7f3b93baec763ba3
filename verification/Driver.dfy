/** One core's image of the driver: its registry, its lock keeper and its list of callbacks,
    and the channel calls on them. Each is proved to do what Channels says of the values. */
module Driver {
  import opened Words
  import opened Options
  import opened Seqs
  import opened Locks
  import opened Pools
  import opened RegistrySpec
  import opened Agreement
  import opened ChannelNames
  import opened Channels
  import opened Dispatch
  import opened SharedMemory
  import L = Layout
  import Mail = Mailbox

  lemma RemovedFrom(chain: seq<MpiChannel>, channel: MpiChannel)
    requires Distinct(chain)
    ensures forall c | c in Remove(chain, channel) :: c in chain
  {
    if channel in chain {
      var k :| 0 <= k < |chain| && chain[k] == channel;
      RemoveAt(chain, k);
    }
  }

  lemma Skip<T>(a: seq<T>, b: seq<T>, k: nat)
    requires k < |b| && |a| == |b| - 1 && forall i | 0 <= i < |a| :: a[i] == b[if i < k then i else i + 1]
    ensures a == b[..k] + b[k + 1..]
  {
  }

  lemma ValuesSkip(chain: seq<MpiChannel>, k: nat)
    requires k < |chain|
    ensures ValuesOf(chain[..k] + chain[k + 1..]) == ValuesOf(chain)[..k] + ValuesOf(chain)[k + 1..]
  {
    hide ValuesOf;
    var after, values := chain[..k] + chain[k + 1..], ValuesOf(chain);
    forall i | 0 <= i < |after| ensures ValuesOf(after)[i] == values[if i < k then i else i + 1] {
      assert after[i] == chain[if i < k then i else i + 1];
    }
    Skip(ValuesOf(after), values, k);
  }

  class Image {
    const core: Core
    const registry: Registry
    const keeper: LockKeeper
    const callbacks: Callbacks

    constructor (core: Core, registry: Registry, keeper: LockKeeper, callbacks: Callbacks)
      ensures this.core == core && this.registry == registry && this.keeper == keeper && this.callbacks == callbacks
    {
      this.core, this.registry, this.keeper, this.callbacks := core, registry, keeper, callbacks;
    }

    ghost function Region(): Channels.Region {
      Channels.Region(registry.allocator.base, registry.allocator.counts)
    }

    // What the channel calls change besides the registry.
    ghost function Own(): set<object>
      reads callbacks`chain
    {
      {callbacks, keeper.kept} + (set c | c in callbacks.chain) + (set c | c in callbacks.chain :: c.lock)
    }

    ghost predicate Separate()
      reads callbacks`chain
    {
      && Own() !! registry.Mine && Own() !! registry.allocator.Repr && registry.allocator.locks !in Own()
    }

    ghost predicate Sides(w: World)
      reads keeper.kept, callbacks, callbacks.chain
    {
      && |w.sides| == 2 && keeper.kept.Length == LOCK_KEEPER_LENGTH
      && callbacks.Valid() && callbacks.Open()
      && w.sides[core] == Side(keeper.kept[..], callbacks.Values())
    }

    ghost predicate Shared(w: World)
      reads registry`reg, registry.allocator`pools
    {
      && Standing(w, Region())
      && w.j.reg == registry.reg && w.j.Heaps(registry.owner) == registry.allocator.pools
    }

    // w is the state of the world as this image shows it.
    ghost predicate Valid(w: World)
      reads *
    {
      registry.Valid() && Separate() && Sides(w) && Shared(w)
    }

    // OWNER and BIG for one open.
    ghost predicate MayOpen(reg: Reg, name: string, length: nat) {
      Creates(reg, name, length) ==> core == registry.owner && length > ClassSize(0) - OVERHEAD
    }

    lemma OpenMatches(j: Joint, pools: seq<Pool>, name: string, length: nat, junk: seq<byte>)
      requires Ready(j, Region().counts) && Region().base > 0 && j.Heaps(registry.owner) == pools && |junk| == length
      requires MayOpen(j.reg, name, length)
      ensures var (j', r) := OpenOn(j, Region(), name, length, core, junk);
        var r' := OpenWith(j.reg, pools, Region().base, Region().counts, name, length, core, junk);
        j'.reg == r'.0.reg && j'.Heaps(registry.owner) == r'.1 && r == r'.0
    {
    }

    // mpi_shm_open as the channel calls use it.
    method OpenName(name: string, length: word, ghost w: World) returns (ret: int, got: nat, ghost junk: seq<byte>)
      requires Valid(w) && registry.Unlocked() && MayOpen(registry.reg, name, length)
      modifies registry.Mine, registry.allocator.Repr, registry.allocator.locks
      ensures registry.allocator.locks.words == old(registry.allocator.locks.words)
      ensures |junk| == length && Standing(w, Region())
      ensures var (j', r) := OpenOn(w.j, Region(), name, length, core, junk);
        Valid(World(j', w.sides)) && ret == r.ret && got == r.length
    {
      hide Registry.Valid;
      hide Ready;
      hide OpenWith;
      hide Callbacks.Valid;
      ret, got, junk := registry.Open(name, length, core);
      OpenMatches(w.j, old(registry.allocator.pools), name, length, junk);
      hide OpenOn;
    }

    lemma CloseMatches(j: Joint, pools: seq<Pool>, h: int)
      requires Ready(j, Region().counts) && Region().base > 0 && j.Heaps(registry.owner) == pools
      requires LastClose(j.reg, h, core) ==> core == registry.owner
      ensures var j' := CloseOn(j, Region(), h, core);
        var r := CloseWith(j.reg, pools, Region().base, Region().counts, h, core);
        j'.reg == r.0.0 && j'.Heaps(registry.owner) == r.1
    {
    }

    // mpi_shm_close as the channel calls use it.
    method CloseHandle(h: int, ghost w: World)
      requires Valid(w) && registry.Unlocked() && (LastClose(registry.reg, h, core) ==> core == registry.owner)
      modifies registry.Mine, registry.allocator.Repr, registry.allocator.locks
      ensures registry.allocator.locks.words == old(registry.allocator.locks.words)
      ensures Standing(w, Region()) && Valid(World(CloseOn(w.j, Region(), h, core), w.sides))
    {
      hide Registry.Valid;
      hide Ready;
      hide CloseWith;
      hide Callbacks.Valid;
      var _ := registry.Close(h, core);
      CloseMatches(w.j, old(registry.allocator.pools), h);
      hide CloseOn;
    }

    // mpi_mutex_init and mpi_mutex_destroy for a channel number, on the values.
    ghost function Keeping(w: World, number: word, kept: bool): (r: World)
      ensures r.j == w.j && |r.sides| == |w.sides|
    {
      if |w.sides| != 2 || LockOf(number) >= |w.sides[core].kept| then w
      else World(w.j, w.sides[core := w.sides[core].(kept := w.sides[core].kept[LockOf(number) := kept])])
    }

    method TakeNumber(mutex: Mutex, number: word, ghost w: World) returns (err: int)
      requires Valid(w) && LockOf(number) < LOCK_KEEPER_LENGTH
      requires mutex !in Own() && mutex !in registry.Mine && mutex !in registry.allocator.Repr
      modifies keeper.kept, mutex
      ensures |w.sides| == 2 && |w.sides[core].kept| == LOCK_KEEPER_LENGTH
      ensures err == (if w.sides[core].kept[LockOf(number)] then -1 else 0)
      ensures err == 0 ==> mutex.lock == LockOf(number)
      ensures Valid(Keeping(w, number, true))
    {
      hide Registry.Valid;
      hide Callbacks.Valid;
      hide Ready;
      err := keeper.Init(mutex, LockOf(number));
    }

    method DropNumber(mutex: Mutex, number: word, ghost w: World)
      requires Valid(w) && mutex.lock == LockOf(number) < LOCK_KEEPER_LENGTH
      modifies keeper.kept
      ensures |w.sides| == 2 && |w.sides[core].kept| == LOCK_KEEPER_LENGTH
      ensures Valid(Keeping(w, number, false))
    {
      hide Registry.Valid;
      hide Callbacks.Valid;
      hide Ready;
      var _ := keeper.Destroy(mutex);
    }

    // The name is open, and not by this core.
    ghost predicate Theirs(reg: Reg, name: string) {
      match Find(reg, name)
      case None => false
      case Some(h) => h < |reg.entries| && core !in reg.entries[h].open
    }

    // OWNER and BIG for a create: the owner asks for enough; the other core finds both names
    // opened by the owner, and has not opened them itself.
    ghost predicate MayCreate(reg: Reg, number: word, length: nat) {
      if core == registry.owner then length == 0 || length > ClassSize(0) - OVERHEAD
      else Theirs(reg, SendName(core, number)) && Theirs(reg, RecvName(core, number))
    }

    // What that leaves for the second open and for taking back the first.
    lemma AfterFirstOpen(reg: Reg, number: word, length: nat, gr: Grant)
      requires Good(reg) && length > 0 && MayCreate(reg, number, length)
      ensures MayOpen(reg, SendName(core, number), length)
      ensures var r := RegistrySpec.Open(reg, SendName(core, number), length, core, gr);
        r.ret >= 0 ==>
          MayOpen(r.reg, RecvName(core, number), length) && (LastClose(r.reg, r.ret, core) ==> core == registry.owner)
    {
      if core != registry.owner {
        var h, k := Find(reg, SendName(core, number)).value, Find(reg, RecvName(core, number)).value;
        var r := RegistrySpec.Open(reg, SendName(core, number), length, core, gr);
        assert k in r.reg.busy && r.reg.entries[k].name == RecvName(core, number);
        assert Find(r.reg, RecvName(core, number)).Some?;
        var x :| x in reg.entries[h].open;
        assert r.ret >= 0 ==> x in r.reg.entries[h].open && x != core;
      }
    }

    ghost function Longer(w: World, channel: Channel): World
      requires |w.sides| == 2
    {
      World(w.j, w.sides[core := w.sides[core].(chain := w.sides[core].chain + [channel])])
    }

    method Append(channel: MpiChannel, ghost w: World)
      requires Sides(w) && channel.send >= 0 && channel.recv >= 0 && channel !in callbacks.chain
      modifies callbacks, channel`next, callbacks.chain`next
      ensures callbacks.chain == old(callbacks.chain) + [channel] && channel.Value() == old(channel.Value())
      ensures |w.sides| == 2 && Sides(Longer(w, channel.Value()))
    {
      callbacks.Register(channel);
      assert callbacks.Values() == old(callbacks.Values()) + [channel.Value()];
      hide Callbacks.Valid;
    }

    // message_int_reg for a new channel.
    method Enter(channel: MpiChannel, ghost w: World)
      requires Valid(w) && channel.send >= 0 && channel.recv >= 0
      requires channel !in callbacks.chain && channel !in registry.Mine && channel !in registry.allocator.Repr
      requires channel.lock !in registry.Mine && channel.lock !in registry.allocator.Repr
      modifies callbacks, channel`next, callbacks.chain`next
      ensures callbacks.chain == old(callbacks.chain) + [channel] && channel.Value() == old(channel.Value())
      ensures |w.sides| == 2 && Valid(Longer(w, channel.Value()))
    {
      hide Registry.Valid;
      hide Registry.Separate;
      hide Ready;
      hide Sides;
      registry.AllMine();
      Append(channel, w);
    }

    // The channel is on no list and is nothing else's.
    ghost predicate Unlisted(channel: MpiChannel)
      reads callbacks`chain
    {
      && channel !in callbacks.chain && channel !in registry.Mine && channel !in registry.allocator.Repr
      && channel.lock !in registry.Mine && channel.lock !in registry.allocator.Repr
      && channel.lock !in Own() && registry.allocator.locks !in {channel as object, channel.lock}
    }

    // A channel under construction: it holds its lock number.
    ghost predicate Begun(channel: MpiChannel, number: word)
      reads channel, channel.lock, callbacks`chain
    {
      && Unlisted(channel)
      && channel.number == number && channel.lock.lock == LockOf(number) < LOCK_KEEPER_LENGTH && channel.send >= 0
    }

    // The fields of the receiving end.
    method Fill(channel: MpiChannel, recvName: string, recv: nat, recvLength: nat, ghost number: word, ghost w: World)
      requires Valid(w) && Begun(channel, number)
      modifies channel`recvName, channel`recv, channel`recvLength, channel`slot
      ensures Valid(w) && Begun(channel, number) && channel.recv >= 0
      ensures channel.Value() == Channel(number, channel.send, recv, channel.sendLength, recvLength, 1 - core)
    {
      hide Registry.Valid;
      hide Registry.Separate;
      hide Callbacks.Valid;
      hide Ready;
      registry.AllMine();
      channel.recvName, channel.recv, channel.recvLength := recvName, recv, recvLength;
      channel.slot := 1 - core;
    }

    // What Finish makes of the world, from where the lock number is taken and the receive
    // name is opened.
    lemma FinishIs(w: World, a: Ask, send: nat, sendLength: nat)
      requires Standing(w, Region()) && Proper(a) && a.core == core
      ensures var (j', r) := OpenOn(w.j, Region(), RecvName(core, a.number), a.length, core, a.junk');
        var taken := World(j', Keeping(w, a.number, true).sides);
        var f := Finish(w, Region(), a, send, sendLength);
        && |taken.sides| == 2 && LockOf(a.number) < |taken.sides[core].kept| && Ready(j', Region().counts)
        && (r.ret < 0 ==> f == (Keeping(World(CloseOn(j', Region(), send, core), taken.sides), a.number, false), None))
        && (r.ret >= 0 ==>
              var value := Channel(a.number, send, r.ret, sendLength, r.length, 1 - core);
              f == (Longer(taken, value), Some(value)))
    {
      hide Ready;
      hide OpenOn;
      hide CloseOn;
      var side, l := w.sides[core], LockOf(a.number);
      var (j', r) := OpenOn(w.j, Region(), RecvName(core, a.number), a.length, core, a.junk');
      var value := Channel(a.number, send, if r.ret < 0 then 0 else r.ret, sendLength, r.length, 1 - core);
      var taken := side.(kept := side.kept[l := true]);
      assert w.sides[core := taken][core := side.(kept := side.kept[l := true][l := false])]
          == w.sides[core := side.(kept := side.kept[l := true][l := false])];
      assert w.sides[core := taken][core := taken.(chain := side.chain + [value])]
          == w.sides[core := taken.(chain := side.chain + [value])];
    }

    lemma FailedOpenOn(j: Joint, name: string, length: nat, junk: seq<byte>)
      requires Ready(j, Region().counts) && Region().base > 0 && |junk| == length
      requires OpenOn(j, Region(), name, length, core, junk).1.ret < 0
      ensures OpenOn(j, Region(), name, length, core, junk).0.reg == j.reg
    {
    }

    lemma IsApart(w: World)
      requires Valid(w)
      ensures w.j.reg == registry.reg && Standing(w, Region())
      ensures Own() !! registry.Mine && Own() !! registry.allocator.Repr && registry.allocator.locks !in Own()
    {
    }

    // The second half of mpi_create_channel. w is the world before the lock number was taken.
    method FinishChannel(channel: MpiChannel, number: word, length: word, ghost w: World, ghost junk: seq<byte>)
      returns (made: bool, ghost a: Ask)
      requires Standing(w, Region()) && Valid(Keeping(w, number, true)) && registry.Unlocked()
      requires Begun(channel, number) && |junk| == length
      requires MayOpen(registry.reg, RecvName(core, number), length)
      requires LastClose(registry.reg, channel.send, core) ==> core == registry.owner
      modifies registry.Mine, registry.allocator.Repr, registry.allocator.locks
      modifies keeper.kept, callbacks, callbacks.chain`next, channel
      ensures registry.allocator.locks.words == old(registry.allocator.locks.words)
      ensures a == Ask(number, length, core, junk, a.junk', true) && Proper(a) && old(channel.send) >= 0
      ensures var (w', value) := Finish(w, Region(), a, old(channel.send), old(channel.sendLength));
        && Valid(w') && (made <==> value.Some?)
        && (made ==> value.value == channel.Value() && callbacks.chain == old(callbacks.chain) + [channel])
        && (!made ==> callbacks.chain == old(callbacks.chain))
    {
      hide Valid;
      hide Ready;
      hide OpenOn;
      hide CloseOn;
      hide Keeping;
      hide Longer;
      hide Finish;
      hide MayOpen;
      ghost var taken := Keeping(w, number, true);
      var name := RecvName(core, number);
      IsApart(taken);
      var recv, recvLength, junk' := OpenName(name, length, taken);
      a := Ask(number, length, core, junk, junk', true);
      FinishIs(w, a, channel.send, channel.sendLength);
      ghost var w1 := World(OpenOn(w.j, Region(), name, length, core, junk').0, taken.sides);
      IsApart(w1);
      if recv < 0 {
        FailedOpenOn(w.j, name, length, junk');
        CloseHandle(channel.send, w1);
        DropNumber(channel.lock, number, World(CloseOn(w1.j, Region(), channel.send, core), w1.sides));
        made := false;
      } else {
        Fill(channel, name, recv, recvLength, number, w1);
        Enter(channel, w1);
        made := true;
      }
    }

    // What Create makes of the world, up to where the send name is opened.
    lemma CreateIs(w: World, a: Ask)
      requires Standing(w, Region()) && Proper(a) && a.core == core
      ensures var stops := a.length == 0 || !a.memory || w.sides[core].kept[LockOf(a.number)];
        && (stops ==> Channels.Create(w, Region(), a) == (w, None))
        && (!stops ==>
              var (j', r) := OpenOn(w.j, Region(), SendName(core, a.number), a.length, core, a.junk);
              var taken := World(j', Keeping(w, a.number, true).sides);
              && Ready(j', Region().counts)
              && taken == Keeping(World(j', w.sides), a.number, true)
              && Standing(World(j', w.sides), Region())
              && (r.ret < 0 ==> Channels.Create(w, Region(), a) == (Keeping(taken, a.number, false), None))
              && (r.ret >= 0 ==>
                    Channels.Create(w, Region(), a) == Finish(World(j', w.sides), Region(), a, r.ret, r.length)))
    {
      hide Ready;
      hide OpenOn;
      hide Finish;
      var side, l := w.sides[core], LockOf(a.number);
      assert w.sides[core := side.(kept := side.kept[l := true])]
           [core := side.(kept := side.kept[l := true][l := false])]
          == w.sides[core := side.(kept := side.kept[l := true][l := false])];
    }

    // A new channel, as the lock and the send name are taken.
    method Prepare(channel: MpiChannel, number: word, sendName: string, send: nat, sendLength: nat, ghost w: World)
      requires Valid(w) && Unlisted(channel) && channel.lock.lock == LockOf(number) < LOCK_KEEPER_LENGTH
      modifies channel`number, channel`sendName, channel`send, channel`sendLength
      ensures Valid(w) && Begun(channel, number) && channel.send == send && channel.sendLength == sendLength
    {
      hide Registry.Valid;
      hide Registry.Separate;
      hide Callbacks.Valid;
      hide Ready;
      registry.AllMine();
      channel.sendName, channel.send, channel.sendLength, channel.number := sendName, send, sendLength, number;
    }

    lemma KeepingTaken(w: World, number: word)
      requires |w.sides| == 2 && LockOf(number) < |w.sides[core].kept| && w.sides[core].kept[LockOf(number)]
      ensures Keeping(w, number, true) == w
    {
      assert w.sides[core].kept[LockOf(number) := true] == w.sides[core].kept;
      assert w.sides[core := w.sides[core]] == w.sides;
    }

    lemma FirstMayOpen(number: word, length: nat, w: World)
      requires Valid(w) && length > 0 && MayCreate(registry.reg, number, length)
      ensures MayOpen(registry.reg, SendName(core, number), length)
    {
      AfterFirstOpen(registry.reg, number, length, Grant(0, []));
    }

    lemma FirstOpened(j: Joint, number: word, length: nat, junk: seq<byte>)
      requires Ready(j, Region().counts) && Region().base > 0
        && |junk| == length > 0 && MayCreate(j.reg, number, length)
      ensures var (j', r) := OpenOn(j, Region(), SendName(core, number), length, core, junk);
        r.ret >= 0 ==>
          MayOpen(j'.reg, RecvName(core, number), length) && (LastClose(j'.reg, r.ret, core) ==> core == registry.owner)
    {
      var hs := j.Heaps(core);
      var gr := if Creates(j.reg, SendName(core, number), length)
                then GrantOf(Region().base, Region().counts, Malloc(hs, length).1, junk) else Grant(0, []);
      AfterFirstOpen(j.reg, number, length, gr);
    }

    // mpi_create_channel. memory tells whether kmalloc succeeds; the callback is never null.
    method CreateChannel(number: word, length: word, memory: bool, ghost w: World)
      returns (channel: MpiChannel?, ghost a: Ask)
      requires Valid(w) && registry.Unlocked()
        && LockOf(number) < LOCK_KEEPER_LENGTH && MayCreate(registry.reg, number, length)
      modifies registry.Mine, registry.allocator.Repr, registry.allocator.locks
      modifies keeper.kept, callbacks, callbacks.chain`next
      ensures registry.allocator.locks.words == old(registry.allocator.locks.words)
      ensures Standing(w, Region()) && a == Ask(number, length, core, a.junk, a.junk', memory) && Proper(a)
      ensures var (w', made) := Channels.Create(w, Region(), a);
        && Valid(w') && (channel == null <==> made.None?)
        && (channel != null ==> made.value == channel.Value() && callbacks.chain == old(callbacks.chain) + [channel])
        && (channel == null ==> callbacks.chain == old(callbacks.chain))
    {
      hide Valid;
      hide Ready;
      hide OpenOn;
      hide Keeping;
      hide Finish;
      hide Channels.Create;
      hide MayOpen;
      hide MayCreate;
      channel := null;
      a := Ask(number, length, core, seq(length, _ => 0), seq(length, _ => 0), memory);
      IsApart(w);
      CreateIs(w, a);
      if length == 0 || !memory {
        return;
      }
      FirstMayOpen(number, length, w);
      var begun := new MpiChannel();
      var err := TakeNumber(begun.lock, number, w);
      if err != 0 {
        KeepingTaken(w, number);
        return;
      }
      ghost var taken := Keeping(w, number, true);
      IsApart(taken);
      var send, sendLength, junk := OpenName(SendName(core, number), length, taken);
      a := Ask(number, length, core, junk, junk, memory);
      CreateIs(w, a);
      ghost var j1 := OpenOn(w.j, Region(), SendName(core, number), length, core, junk).0;
      ghost var w1 := World(j1, taken.sides);
      IsApart(w1);
      if send < 0 {
        DropNumber(begun.lock, number, w1);
        return;
      }
      FirstOpened(w.j, number, length, junk);
      Prepare(begun, number, SendName(core, number), send, sendLength, w1);
      var made;
      made, a := FinishChannel(begun, number, length, World(j1, w.sides), junk);
      CreateIs(w, a);
      channel := if made then begun else null;
    }

    // ---------------------------------------------------------------- destroying

    ghost function Shorter(w: World, channel: Channel): (r: World)
      requires |w.sides| == 2
      ensures r.j == w.j
    {
      World(w.j, w.sides[core := w.sides[core].(chain := Remove(w.sides[core].chain, channel))])
    }

    // With different values, removing a channel removes its value.
    lemma ValuesWithout(k: nat)
      requires Distinct(callbacks.chain) && k < |callbacks.chain| && Distinct(callbacks.Values())
      ensures ValuesOf(Remove(callbacks.chain, callbacks.chain[k]))
          == Remove(callbacks.Values(), callbacks.chain[k].Value())
    {
      RemoveAt(callbacks.chain, k);
      RemoveAt(callbacks.Values(), k);
      ValuesSkip(callbacks.chain, k);
      hide Remove;
      hide Distinct;
      hide ValuesOf;
    }

    // Relinking the chain changes no value.
    twostate lemma SameValues(chain: seq<MpiChannel>)
      requires forall c: MpiChannel | allocated(c) && old(allocated(c)) ::
                 && c.number == old(c.number) && c.send == old(c.send) && c.recv == old(c.recv)
                 && c.sendLength == old(c.sendLength) && c.recvLength == old(c.recvLength) && c.slot == old(c.slot)
      ensures ValuesOf(chain) == old(ValuesOf(chain)) && AllOpen(chain) == old(AllOpen(chain))
    {
      assert forall i | 0 <= i < |chain| :: ValuesOf(chain)[i] == old(ValuesOf(chain)[i]);
    }

    // message_int_unreg, on the values.
    method Unregister(channel: MpiChannel, ghost k: nat)
      requires callbacks.Valid() && callbacks.Open() && Distinct(callbacks.Values())
      requires k < |callbacks.chain| && callbacks.chain[k] == channel
      modifies callbacks, callbacks.chain`next
      ensures callbacks.Valid() && callbacks.Open() && callbacks.chain == Remove(old(callbacks.chain), channel)
      ensures channel.Value() == old(channel.Value())
      ensures callbacks.Values() == Remove(old(callbacks.Values()), channel.Value())
    {
      ValuesWithout(k);
      OpenWithout(k);
      hide Remove;
      hide Callbacks.Valid;
      hide ValuesOf;
      hide Distinct;
      hide AllOpen;
      ghost var after := Remove(callbacks.chain, channel);
      label before:
      callbacks.Unregister(channel);
      SameValues@before(after);
    }

    lemma OpenWithout(k: nat)
      requires callbacks.Valid() && callbacks.Open() && k < |callbacks.chain|
      ensures AllOpen(Remove(callbacks.chain, callbacks.chain[k]))
    {
      RemoveAt(callbacks.chain, k);
      var after := Remove(callbacks.chain, callbacks.chain[k]);
      assert forall i | 0 <= i < |after| :: after[i] == callbacks.chain[if i < k then i else i + 1];
    }

    method Detach(channel: MpiChannel, ghost w: World)
      requires Sides(w) && channel in callbacks.chain && Distinct(callbacks.Values())
      modifies callbacks, callbacks.chain`next
      ensures callbacks.chain == Remove(old(callbacks.chain), channel) && channel.Value() == old(channel.Value())
      ensures |w.sides| == 2 && Sides(Shorter(w, channel.Value()))
    {
      hide Remove;
      hide Callbacks.Valid;
      hide Callbacks.Open;
      hide ValuesOf;
      hide Distinct;
      ghost var k :| 0 <= k < |callbacks.chain| && callbacks.chain[k] == channel;
      Unregister(channel, k);
    }

    // message_int_unreg for a channel of the list.
    method Withdraw(channel: MpiChannel, ghost w: World)
      requires Valid(w) && channel in callbacks.chain && Distinct(callbacks.Values())
      modifies callbacks, callbacks.chain`next
      ensures callbacks.chain == Remove(old(callbacks.chain), channel) && channel.Value() == old(channel.Value())
      ensures |w.sides| == 2 && Valid(Shorter(w, channel.Value()))
    {
      hide Registry.Valid;
      hide Registry.Separate;
      hide Ready;
      hide Sides;
      hide Remove;
      hide Distinct;
      OnlyRemoved(channel, w);
      registry.AllMine();
      Detach(channel, w);
    }

    lemma OnlyRemoved(channel: MpiChannel, w: World)
      requires Valid(w)
      ensures forall c | c in Remove(callbacks.chain, channel) :: c in callbacks.chain
    {
      hide Registry.Valid;
      hide Ready;
      hide Remove;
      RemovedFrom(callbacks.chain, channel);
    }

    // OWNER for a destroy.
    ghost predicate MayDestroy(reg: Reg, send: int, recv: int) {
      core == registry.owner || (!LastClose(reg, send, core) && !LastClose(reg, recv, core))
    }

    lemma SecondMayClose(j: Joint, send: int, recv: int)
      requires Ready(j, Region().counts) && Region().base > 0 && MayDestroy(j.reg, send, recv) && send != recv
      ensures LastClose(CloseOn(j, Region(), send, core).reg, recv, core) ==> core == registry.owner
    {
    }

    lemma FirstMayClose(reg: Reg, send: int, recv: int)
      requires MayDestroy(reg, send, recv)
      ensures LastClose(reg, send, core) ==> core == registry.owner
    {
    }

    lemma DestroyIs(w: World, channel: Channel)
      requires Standing(w, Region()) && LockOf(channel.number) < LOCK_KEEPER_LENGTH
      ensures var j' := CloseOn(CloseOn(w.j, Region(), channel.send, core), Region(), channel.recv, core);
        Destroy(w, Region(), core, channel) == Keeping(World(j', Shorter(w, channel).sides), channel.number, false)
    {
      hide Ready;
      hide CloseOn;
      hide Remove;
      var side, l := w.sides[core], LockOf(channel.number);
      var rest := Remove(side.chain, channel);
      assert w.sides[core := side.(chain := rest)][core := Side(side.kept[l := false], rest)]
          == w.sides[core := Side(side.kept[l := false], rest)];
    }

    // mpi_destroy_channel, for a channel of the list.
    method DestroyChannel(channel: MpiChannel, ghost w: World)
      requires Valid(w) && registry.Unlocked() && channel in callbacks.chain
      requires Distinct(callbacks.Values()) && channel.send != channel.recv && channel.send >= 0 && channel.recv >= 0
      requires channel.lock.lock == LockOf(channel.number) < LOCK_KEEPER_LENGTH
      requires MayDestroy(registry.reg, channel.send, channel.recv)
      modifies registry.Mine, registry.allocator.Repr, registry.allocator.locks
      modifies keeper.kept, callbacks, callbacks.chain`next
      ensures registry.allocator.locks.words == old(registry.allocator.locks.words)
      ensures Standing(w, Region()) && old(LockOf(channel.number)) < LOCK_KEEPER_LENGTH
      ensures Valid(Destroy(w, Region(), core, old(channel.Value())))
      ensures callbacks.chain == Remove(old(callbacks.chain), channel)
    {
      hide Valid;
      hide Ready;
      hide CloseOn;
      hide Keeping;
      hide Destroy;
      hide MayDestroy;
      hide Remove;
      hide Distinct;
      hide Shorter;
      IsApart(w);
      assert channel in Own() && channel.lock in Own();
      hide Own;
      ghost var value := channel.Value();
      var send, recv, number, mutex := channel.send, channel.recv, channel.number, channel.lock;
      DestroyIs(w, value);
      FirstMayClose(w.j.reg, send, recv);
      SecondMayClose(w.j, send, recv);
      Withdraw(channel, w);
      ghost var w1 := Shorter(w, value);
      CloseHandle(send, w1);
      ghost var w2 := World(CloseOn(w1.j, Region(), send, core), w1.sides);
      IsApart(w2);
      CloseHandle(recv, w2);
      DropNumber(mutex, number, World(CloseOn(w2.j, Region(), recv, core), w2.sides));
    }
  }
}
