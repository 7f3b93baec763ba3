/** Devices over channels, end to end: dev_write on one core, the message register and its
    interrupt, the callback, dev_read on the other core. The calls of the two cores are taken
    as a whole; copies to and from user space succeed. */
module Delivery {
  import opened Words
  import opened Options
  import opened RegistrySpec
  import opened Mailbox
  import opened Channels

  // struct Shm_data: the channel with its read buffer, and m_data_available.
  datatype Dev = Dev(channel: Channel, buffer: seq<byte>, available: nat)

  // devs[c] and chains[c] are core c's; msgr[c] is the message register whose interrupt core
  // c takes, pending[c] whether that interrupt is due.
  datatype Machine = Machine(reg: Reg, devs: seq<seq<Dev>>, chains: seq<seq<Channel>>,
                             msgr: seq<int>, pending: seq<bool>)

  datatype Event =
    | Write(core: Core, i: nat, bytes: seq<byte>)
    | Interrupt(core: Core)
    | Read(core: Core, i: nat, n: nat)

  // mpi_channel_send.
  ghost function ChannelSend(s: Machine, c: Core, x: Channel, bytes: seq<byte>): (r: (Machine, int))
    requires Shaped(s) && Good(s.reg)
  {
    if x.sendLength < |bytes| then (s, -1)
    else
      var (reg', ret) := Send(s.reg, x.send, bytes, c);
      (s.(reg := reg', msgr := s.msgr[x.slot := x.send], pending := s.pending[x.slot := true]), ret)
  }

  // dev_write. The count it returns is one more than what it sent.
  ghost function DevWrite(s: Machine, c: Core, i: nat, bytes: seq<byte>): (r: (Machine, int))
    requires Shaped(s) && Good(s.reg) && i < |s.devs[c]|
  {
    if bytes == [] then (s, 0)
    else
      var x := s.devs[c][i].channel;
      var n := if x.sendLength > |bytes| then |bytes| else x.sendLength;
      (ChannelSend(s, c, x, bytes[..n]).0, n + 1)
  }

  // The device a channel was created for.
  function DeviceOf(devs: seq<Dev>, x: Channel): (r: Option<nat>)
    ensures r.Some? ==> r.value < |devs| && devs[r.value].channel == x
  {
    if devs == [] then None
    else if devs[|devs| - 1].channel == x then Some(|devs| - 1)
    else DeviceOf(devs[..|devs| - 1], x)
  }

  // A copy to the start of a buffer.
  function Over(buffer: seq<byte>, bytes: seq<byte>): seq<byte> {
    bytes + (if |bytes| < |buffer| then buffer[|bytes|..] else [])
  }

  // mpi_shm_callback_func for device i.
  ghost function Callback(s: Machine, d: Core, i: nat): Machine
    requires Shaped(s) && Good(s.reg) && i < |s.devs[d]|
  {
    var dev := s.devs[d][i];
    if !SoundAt(s.reg, dev.channel.recv) then s
    else
      var (reg', ret, out) := Get(s.reg, dev.channel.recv, dev.channel.recvLength, d);
      s.(reg := reg',
         devs := s.devs[d := s.devs[d][i := Dev(dev.channel, Over(dev.buffer, out), Wrap(ret))]])
  }

  // message_isr.
  ghost function TakeInterrupt(s: Machine, d: Core): Machine
    requires Shaped(s) && Good(s.reg)
  {
    var s' := s.(pending := s.pending[d := false]);
    match Dispatched(s.chains[d], s.msgr[d])
    case Some(x) =>
      (match DeviceOf(s.devs[d], x)
       case Some(i) => Callback(s', d, i)
       case None => s')
    case None => if SoundAt(s.reg, s.msgr[d]) then s'.(reg := Get(s.reg, s.msgr[d], 1023, d).0) else s'
  }

  // dev_read: the bytes it copies out.
  ghost function DevRead(s: Machine, d: Core, i: nat, n: nat): (r: (Machine, seq<byte>))
    requires Shaped(s) && i < |s.devs[d]|
  {
    var dev := s.devs[d][i];
    if dev.available != 0 && dev.available <= |dev.buffer| then
      (s.(devs := s.devs[d := s.devs[d][i := dev.(available := 0)]]), dev.buffer[..Min(n, dev.available)])
    else (s, [])
  }

  ghost predicate Shaped(s: Machine) {
    && |s.devs| == |s.chains| == |s.msgr| == |s.pending| == 2 && |s.devs[0]| == |s.devs[1]|
    && forall c: Core, i | 0 <= i < |s.devs[c]| :: s.devs[c][i].channel.slot == 1 - c
  }

  // The event is of a device there is.
  predicate Named(s: Machine, ev: Event) {
    match ev
    case Write(c, i, bytes) => c < |s.devs| && i < |s.devs[c]| && |bytes| < TWO32
    case Interrupt(d) => true
    case Read(d, i, n) => d < |s.devs| && i < |s.devs[d]|
  }

  ghost predicate Enabled(s: Machine, ev: Event) {
    Shaped(s) && Good(s.reg) && Named(s, ev)
  }

  ghost function Next(s: Machine, ev: Event): Machine
    requires Enabled(s, ev)
  {
    match ev
    case Write(c, i, bytes) => DevWrite(s, c, i, bytes).0
    case Interrupt(d) => if s.pending[d] then TakeInterrupt(s, d) else s
    case Read(d, i, n) => DevRead(s, d, i, n).0
  }

  // ---------------------------------------------------------------- what it should amount to

  // wire[d] is the write whose interrupt core d has yet to take, box[d][i] what its device i
  // has to be read.
  datatype Mail = Mail(wire: seq<Option<(nat, seq<byte>)>>, box: seq<seq<Option<seq<byte>>>>)

  function Cut(bytes: seq<byte>, n: nat): seq<byte> { bytes[..Min(n, |bytes|)] }

  // What an event does; length is that of the channel written to.
  function MailNext(p: Mail, ev: Event, length: nat): Mail
    requires |p.wire| == |p.box| == 2
  {
    match ev
    case Write(c, i, bytes) => if bytes == [] then p else p.(wire := p.wire[1 - c := Some((i, Cut(bytes, length)))])
    case Interrupt(d) =>
      (match p.wire[d]
       case None => p
       case Some(w) =>
         if w.0 < |p.box[d]| then Mail(p.wire[d := None], p.box[d := p.box[d][w.0 := Some(w.1)]]) else p)
    case Read(d, i, n) => if i < |p.box[d]| then p.(box := p.box[d := p.box[d][i := None]]) else p
  }

  function ReadOf(p: Mail, d: Core, i: nat, n: nat): seq<byte>
    requires |p.box| == 2 && i < |p.box[d]|
  {
    match p.box[d][i]
    case None => []
    case Some(bytes) => Cut(bytes, n)
  }

  // ---------------------------------------------------------------- wiring

  function Chan(s: Machine, c: Core, i: nat): Channel
    requires |s.devs| == 2 && i < |s.devs[c]|
  {
    s.devs[c][i].channel
  }

  // What one core sends on for device i, the other receives on, and both hold the entry.
  ghost predicate Crossed(reg: Reg, x: Channel, y: Channel) {
    && x.send == y.recv && x.send < |reg.entries|
    && var e := reg.entries[x.send]; e.open == {0, 1} && e.length == x.sendLength == y.recvLength
  }

  ghost predicate Wired(s: Machine) {
    && Shaped(s) && Good(s.reg) && Sized(s.reg)
    && (forall c: Core, i | 0 <= i < |s.devs[c]| :: Crossed(s.reg, Chan(s, c, i), Chan(s, 1 - c, i)))
    && (forall c: Core, i | 0 <= i < |s.devs[c]| :: Dispatched(s.chains[c], Chan(s, c, i).recv) == Some(Chan(s, c, i)))
    && (forall c: Core, i, d: Core, j | 0 <= i < |s.devs[c]| && 0 <= j < |s.devs[d]| ::
          Chan(s, c, i).send == Chan(s, d, j).send ==> c == d && i == j)
  }

  lemma {:induction false} DeviceFound(devs: seq<Dev>, i: nat)
    requires i < |devs| && forall j | 0 <= j < |devs| && j != i :: devs[j].channel != devs[i].channel
    ensures DeviceOf(devs, devs[i].channel) == Some(i)
    decreases |devs|
  {
    if i < |devs| - 1 {
      DeviceFound(devs[..|devs| - 1], i);
    }
  }

  // The same channels over a registry in which one entry's slot and data changed.
  ghost predicate SameWiring(s: Machine, s': Machine) {
    && Shaped(s) && Shaped(s') && s'.chains == s.chains && |s'.devs[0]| == |s.devs[0]|
    && forall c: Core, i | 0 <= i < |s.devs[c]| :: Chan(s', c, i) == Chan(s, c, i)
  }

  lemma StillWired(s: Machine, s': Machine, h: nat, e: Entry)
    requires Wired(s) && SameWiring(s, s') && h < |s.reg.entries| && s.reg.entries[h].open != {}
    requires SameItem(s.reg.entries[h], e) && s'.reg == Put(s.reg, h, e)
    ensures Wired(s')
  {
    PutKeeps(s.reg, h, e);
    hide Good;
    hide Sized;
    hide Dispatched;
  }

  // The devices' channels are channels of a world in which both cores created them.
  ghost predicate DevicesOf(s: Machine, w: World, g: Region) {
    && Shaped(s) && Paired(w, g) && s.reg == w.j.reg && Sized(s.reg)
    && (forall c: Core :: s.chains[c] == w.sides[c].chain)
    && (forall c: Core, i | 0 <= i < |s.devs[c]| :: Chan(s, c, i) in s.chains[c])
    && (forall i | 0 <= i < |s.devs[0]| :: Chan(s, 0, i).number == Chan(s, 1, i).number)
    && (forall i, j | 0 <= i < j < |s.devs[0]| :: Chan(s, 0, i).number != Chan(s, 0, j).number)
  }

  // Then they are wired crosswise.
  lemma DevicesWired(s: Machine, w: World, g: Region)
    requires DevicesOf(s, w, g)
    ensures Wired(s)
  {
    forall c: Core, i | 0 <= i < |s.devs[c]|
      ensures Crossed(s.reg, Chan(s, c, i), Chan(s, 1 - c, i))
      ensures Dispatched(s.chains[c], Chan(s, c, i).recv) == Some(Chan(s, c, i))
    {
      DeviceCrossed(s, w, g, c, i);
    }
    forall c: Core, i, d: Core, j | 0 <= i < |s.devs[c]| && 0 <= j < |s.devs[d]|
      && Chan(s, c, i).send == Chan(s, d, j).send
      ensures c == d && i == j
    {
      SendsDiffer(s, w, g, c, i, d, j);
    }
  }

  lemma DeviceCrossed(s: Machine, w: World, g: Region, c: Core, i: nat)
    requires DevicesOf(s, w, g) && i < |s.devs[c]|
    ensures Crossed(s.reg, Chan(s, c, i), Chan(s, 1 - c, i))
    ensures Dispatched(s.chains[c], Chan(s, c, i).recv) == Some(Chan(s, c, i))
  {
    var x, y := Chan(s, c, i), Chan(s, 1 - c, i);
    var k :| 0 <= k < |w.sides[c].chain| && w.sides[c].chain[k] == x;
    var l :| 0 <= l < |w.sides[1 - c].chain| && w.sides[1 - c].chain[l] == y;
    assert SideOk(Shape(w.j.reg), w.sides[c], c);
    hide Shape;
    hide Good;
    DispatchUnique(Shape(w.j.reg), w.sides[c], c, k);
    hide SideOk;
    ChannelsCross(w, g, c, k, l);
  }

  lemma ChannelsCross(w: World, g: Region, c: Core, k: nat, l: nat)
    requires Paired(w, g) && k < |w.sides[c].chain| && l < |w.sides[1 - c].chain|
    requires w.sides[c].chain[k].number == w.sides[1 - c].chain[l].number
    ensures Crossed(w.j.reg, w.sides[c].chain[k], w.sides[1 - c].chain[l])
  {
    ChannelsKnown(w, g, c, k);
    ChannelsKnown(w, g, 1 - c, l);
    var m, x, y := Shape(w.j.reg), w.sides[c].chain[k], w.sides[1 - c].chain[l];
    assert Good(w.j.reg);
    hide Paired;
    HandleIsName(m, x.send, x.number, c == 0, c, x.sendLength, y.recv, y.number, 1 - c != 0, 1 - c, y.recvLength);
    assert m[x.send] == HeldOf(EntryAt(w.j.reg, x.send));
    assert BusyEntry(w.j.reg.entries[x.send]);
    hide Good;
    hide Shape;
  }

  lemma SendsDiffer(s: Machine, w: World, g: Region, c: Core, i: nat, d: Core, j: nat)
    requires DevicesOf(s, w, g) && i < |s.devs[c]| && j < |s.devs[d]| && Chan(s, c, i).send == Chan(s, d, j).send
    ensures c == d && i == j
  {
    var x, y := Chan(s, c, i), Chan(s, d, j);
    var k :| 0 <= k < |w.sides[c].chain| && w.sides[c].chain[k] == x;
    var l :| 0 <= l < |w.sides[d].chain| && w.sides[d].chain[l] == y;
    ChannelsKnown(w, g, c, k);
    ChannelsKnown(w, g, d, l);
    hide Paired;
    hide Shape;
    HandleIsName(Shape(w.j.reg), x.send, x.number, c == 0, c, x.sendLength, y.send, y.number, d == 0, d, y.sendLength);
    assert Chan(s, 0, i).number == Chan(s, 0, j).number;
  }

  // ---------------------------------------------------------------- the relation

  // The fragment waits in the entry.
  ghost predicate Holding(e: Entry, b: seq<byte>) {
    0 < |b| <= e.length == |e.data| && e.size == |b| && e.offset == 0 && e.data[..|b|] == b
  }

  ghost predicate OnWire(s: Machine, d: Core, w: Option<(nat, seq<byte>)>)
    requires Shaped(s)
  {
    match w
    case None => !s.pending[d]
    case Some(m) =>
      && s.pending[d] && m.0 < |s.devs[d]| && s.msgr[d] == Chan(s, d, m.0).recv
      && Chan(s, d, m.0).recv < |s.reg.entries| && Holding(s.reg.entries[Chan(s, d, m.0).recv], m.1)
  }

  ghost predicate InBox(dev: Dev, o: Option<seq<byte>>) {
    match o
    case None => dev.available == 0
    case Some(b) => 0 < |b| == dev.available <= |dev.buffer| && dev.buffer[..|b|] == b
  }

  ghost predicate Shows(s: Machine, p: Mail) {
    && Wired(s) && |p.wire| == |p.box| == 2
    && (forall d: Core :: OnWire(s, d, p.wire[d]))
    && (forall d: Core :: |p.box[d]| == |s.devs[d]|)
    && (forall d: Core, i | 0 <= i < |s.devs[d]| :: InBox(s.devs[d][i], p.box[d][i]))
  }

  // The interrupt of a message register is taken before the register is written again.
  predicate Paced(s: Machine, ev: Event) {
    Named(s, ev) && (ev.Write? && ev.bytes != [] && 1 - ev.core < |s.pending| ==> !s.pending[1 - ev.core])
  }

  // What a send on a device's channel leaves in its entry.
  lemma SendHolds(s: Machine, c: Core, i: nat, bytes: seq<byte>)
    requires Wired(s) && i < |s.devs[c]| && bytes != [] && |bytes| < TWO32
    ensures var x := Chan(s, c, i);
      var b, e := Cut(bytes, x.sendLength), s.reg.entries[x.send];
      && |e.data| == e.length && Sent(e, c, b).size == |b| && Holding(Sent(e, c, b), b) && SameItem(e, Sent(e, c, b))
      && DevWrite(s, c, i, bytes) ==
           (s.(reg := Put(s.reg, x.send, Sent(e, c, b)), msgr := s.msgr[1 - c := x.send],
               pending := s.pending[1 - c := true]),
            |b| + 1)
  {
    var x := Chan(s, c, i);
    assert Crossed(s.reg, x, Chan(s, 1 - c, i));
    var e := s.reg.entries[x.send];
    assert x.send in s.reg.busy && BusyEntry(e);
    hide Good;
    hide Wired;
  }

  // mpi_channel_send on a device's channel, by what its entry can hold: more than that is
  // refused, with nothing stored and no message; anything else is stored whole, announced to
  // the peer, and is what the peer's next get of enough bytes hands out.
  lemma ChannelSendIs(s: Machine, c: Core, i: nat, bytes: seq<byte>, n: nat)
    requires Wired(s) && i < |s.devs[c]| && |bytes| < TWO32 && n > 0
    ensures Chan(s, c, i).send < |s.reg.entries|
    ensures var x, (s', ret) := Chan(s, c, i), ChannelSend(s, c, Chan(s, c, i), bytes);
      var h, e := x.send, s.reg.entries[x.send];
      if |bytes| > e.length then s' == s && ret == -1
      else
        && ret == |bytes| && s' == s.(reg := s'.reg, msgr := s.msgr[1 - c := h], pending := s.pending[1 - c := true])
        && Wired(s') && s'.reg == Put(s.reg, h, s'.reg.entries[h])
        && var e' := s'.reg.entries[h];
           && SameItem(e, e') && Sound(e') && e'.size == |bytes| && Pending(e') == bytes
           && Get(s'.reg, h, n, 1 - c).1 == Min(n, |bytes|) && Get(s'.reg, h, n, 1 - c).2 == Cut(bytes, n)
  {
    var x := Chan(s, c, i);
    assert Crossed(s.reg, x, Chan(s, 1 - c, i));
    var e := s.reg.entries[x.send];
    assert BusyEntry(e) by { assert x.send in s.reg.busy; }
    if |bytes| <= e.length {
      var e' := Sent(e, c, bytes);
      assert bytes[..|bytes|] == bytes && e'.data[..|bytes|] == bytes;
      var s' := ChannelSend(s, c, x, bytes).0;
      assert s'.reg == Put(s.reg, x.send, e');
      StillWired(s, s', x.send, e');
      hide Good;
      hide Wired;
      hide Splice;
      if bytes != [] {
        assert e'.data[0..0 + |bytes|] == e'.data[..|bytes|];
        assert e'.data[0..0 + Min(n, |bytes|)] == e'.data[..|bytes|][..Min(n, |bytes|)];
      }
    }
  }

  // A message that names no channel's handle takes its fragment away, if it names an entry the
  // peer holds, and disturbs no device.
  lemma UnclaimedMessage(s: Machine, d: Core)
    requires Shaped(s) && Good(s.reg) && Sized(s.reg) && SoundAt(s.reg, s.msgr[d])
    requires Dispatched(s.chains[d], s.msgr[d]).None?
    ensures var s', h := TakeInterrupt(s, d), s.msgr[d];
      && s' == s.(reg := s'.reg, pending := s.pending[d := false])
      && if 0 <= h < |s.reg.entries| && 1 - d in s.reg.entries[h].open then
           && s'.reg == Put(s.reg, h, s'.reg.entries[h]) && s'.reg.entries[h].size == 0
           && var e := s.reg.entries[h];
              s'.reg.entries[h] == e.(size := 0, offset := 0, update := e.update - {1 - d})
         else s'.reg == s.reg
  {
    var h := s.msgr[d];
    if 0 <= h < |s.reg.entries| && 1 - d in s.reg.entries[h].open {
      assert h in s.reg.busy;
    }
    hide Dispatched;
  }

  lemma WriteShows(s: Machine, p: Mail, c: Core, i: nat, bytes: seq<byte>)
    requires Shows(s, p) && Paced(s, Write(c, i, bytes))
    ensures Shows(DevWrite(s, c, i, bytes).0, MailNext(p, Write(c, i, bytes), Chan(s, c, i).sendLength))
  {
    if bytes != [] {
      SendHolds(s, c, i, bytes);
      var x := Chan(s, c, i);
      assert Crossed(s.reg, x, Chan(s, 1 - c, i));
      var b := Cut(bytes, x.sendLength);
      var e' := Sent(s.reg.entries[x.send], c, b);
      var s' := s.(reg := Put(s.reg, x.send, e'), msgr := s.msgr[1 - c := x.send], pending := s.pending[1 - c := true]);
      hide DevWrite;
      hide Sent;
      StillWired(s, s', x.send, e');
      hide Cut;
      hide Good;
      hide Sized;
      OtherWire(s, s', c, i, e', p.wire[c]);
      hide Wired;
      hide Holding;
      hide Enabled;
    }
  }

  // Sending on one channel leaves what waits for the sender itself.
  lemma OtherWire(s: Machine, s': Machine, c: Core, i: nat, e: Entry, w: Option<(nat, seq<byte>)>)
    requires Wired(s) && i < |s.devs[c]| && Chan(s, c, i).send < |s.reg.entries| && OnWire(s, c, w)
    requires s' == s.(reg := Put(s.reg, Chan(s, c, i).send, e), msgr := s.msgr[1 - c := Chan(s, c, i).send],
                      pending := s.pending[1 - c := true])
    ensures OnWire(s', c, w)
  {
    hide Holding;
    hide Good;
    hide Sized;
    hide Dispatched;
    if w.Some? {
      var j := w.value.0;
      assert Crossed(s.reg, Chan(s, 1 - c, j), Chan(s, c, j));
    }
  }

  // What the callback of device i makes of a fragment that waits for it.
  lemma CallbackTakes(s: Machine, d: Core, i: nat, b: seq<byte>)
    requires Wired(s) && i < |s.devs[d]|
    requires var h := Chan(s, d, i).recv; h < |s.reg.entries| && Holding(s.reg.entries[h], b)
    ensures var h, dev := Chan(s, d, i).recv, s.devs[d][i];
      && s.reg.entries[h].open != {} && SameItem(s.reg.entries[h], Taken(s.reg.entries[h], d))
      && Callback(s, d, i) ==
           s.(reg := Put(s.reg, h, Taken(s.reg.entries[h], d)),
              devs := s.devs[d := s.devs[d][i := Dev(dev.channel, Over(dev.buffer, b), |b|)]])
  {
    var h := Chan(s, d, i).recv;
    assert Crossed(s.reg, Chan(s, 1 - d, i), Chan(s, d, i));
    var e := s.reg.entries[h];
    assert h in s.reg.busy && BusyEntry(e) && e.length < TWO32;
    assert SoundAt(s.reg, h) && Fragment(e, e.length) == b;
    hide Good;
    hide Wired;
  }

  lemma DispatchFinds(s: Machine, d: Core, i: nat)
    requires Wired(s) && i < |s.devs[d]|
    ensures Dispatched(s.chains[d], Chan(s, d, i).recv) == Some(Chan(s, d, i))
    ensures DeviceOf(s.devs[d], Chan(s, d, i)) == Some(i)
  {
    hide Good;
    hide Sized;
    forall j | 0 <= j < |s.devs[d]| && j != i ensures s.devs[d][j].channel != s.devs[d][i].channel {
      assert Chan(s, d, j).send != Chan(s, d, i).send;
    }
    DeviceFound(s.devs[d], i);
  }

  // The interrupt for a fragment that waits for device i of core d.
  ghost function Interrupted(s: Machine, d: Core, i: nat, b: seq<byte>): Machine
    requires Shaped(s) && i < |s.devs[d]| && Chan(s, d, i).recv < |s.reg.entries|
  {
    var h, dev := Chan(s, d, i).recv, s.devs[d][i];
    s.(pending := s.pending[d := false], reg := Put(s.reg, h, Taken(s.reg.entries[h], d)),
       devs := s.devs[d := s.devs[d][i := Dev(dev.channel, Over(dev.buffer, b), |b|)]])
  }

  lemma InterruptIs(s: Machine, d: Core, i: nat, b: seq<byte>)
    requires Wired(s) && s.pending[d] && OnWire(s, d, Some((i, b)))
    ensures Next(s, Interrupt(d)) == Interrupted(s, d, i, b) && Wired(Interrupted(s, d, i, b))
  {
    var s0 := s.(pending := s.pending[d := false]);
    DispatchFinds(s, d, i);
    assert forall c: Core, j | 0 <= j < |s.devs[c]| :: Chan(s0, c, j) == Chan(s, c, j);
    assert Wired(s0);
    CallbackTakes(s0, d, i, b);
    var h := Chan(s, d, i).recv;
    assert Next(s, Interrupt(d)) == Interrupted(s, d, i, b);
    hide Next;
    hide TakeInterrupt;
    hide Callback;
    hide Taken;
    StillWired(s0, Interrupted(s, d, i, b), h, Taken(s.reg.entries[h], d));
  }

  lemma InterruptShows(s: Machine, p: Mail, d: Core)
    requires Shows(s, p)
    ensures Shows(Next(s, Interrupt(d)), MailNext(p, Interrupt(d), 0))
  {
    if s.pending[d] {
      assert OnWire(s, d, p.wire[d]);
      var (i, b) := p.wire[d].value;
      InterruptIs(s, d, i, b);
      var s' := Interrupted(s, d, i, b);
      hide Next;
      hide Taken;
      PeerWire(s, s', d, i, Taken(s.reg.entries[Chan(s, d, i).recv], d), p.wire[1 - d]);
      hide Wired;
      hide Holding;
    }
  }

  // Taking a fragment leaves what waits for the other core.
  lemma PeerWire(s: Machine, s': Machine, d: Core, i: nat, e: Entry, w: Option<(nat, seq<byte>)>)
    requires Wired(s) && i < |s.devs[d]| && Chan(s, d, i).recv < |s.reg.entries| && OnWire(s, 1 - d, w)
    requires SameWiring(s, s') && s'.reg == Put(s.reg, Chan(s, d, i).recv, e) && s'.msgr == s.msgr
    requires s'.pending[1 - d] == s.pending[1 - d]
    ensures OnWire(s', 1 - d, w)
  {
    hide Holding;
    hide Good;
    hide Sized;
    hide Dispatched;
    assert Crossed(s.reg, Chan(s, 1 - d, i), Chan(s, d, i));
    if w.Some? {
      var j := w.value.0;
      assert Crossed(s.reg, Chan(s, d, j), Chan(s, 1 - d, j));
    }
  }

  lemma ReadReturns(s: Machine, p: Mail, d: Core, i: nat, n: nat)
    requires Shows(s, p) && i < |s.devs[d]|
    ensures DevRead(s, d, i, n).1 == ReadOf(p, d, i, n)
  {
    assert InBox(s.devs[d][i], p.box[d][i]);
    hide Wired;
    hide OnWire;
  }

  lemma ReadShows(s: Machine, p: Mail, d: Core, i: nat, n: nat)
    requires Shows(s, p) && i < |s.devs[d]|
    ensures Shows(DevRead(s, d, i, n).0, MailNext(p, Read(d, i, n), 0))
  {
    hide Good;
    hide Sized;
    hide Dispatched;
    hide Holding;
    hide Crossed;
    var s' := DevRead(s, d, i, n).0;
    assert InBox(s.devs[d][i], p.box[d][i]);
    assert SameWiring(s, s') && s'.reg == s.reg;
    assert Wired(s');
    hide Wired;
  }

  // ---------------------------------------------------------------- runs

  ghost function Step(s: Machine, ev: Event): Machine {
    if Enabled(s, ev) then Next(s, ev) else s
  }

  ghost function After(s: Machine, evs: seq<Event>): Machine {
    if evs == [] then s else Step(After(s, evs[..|evs| - 1]), evs[|evs| - 1])
  }

  ghost predicate PacedRun(s: Machine, evs: seq<Event>) {
    evs == [] || (PacedRun(s, evs[..|evs| - 1]) && Paced(After(s, evs[..|evs| - 1]), evs[|evs| - 1]))
  }

  // The channel lengths of both cores' devices.
  function Lengths(s: Machine): seq<seq<nat>>
    requires |s.devs| == 2
  {
    [seq(|s.devs[0]|, i requires 0 <= i < |s.devs[0]| => Chan(s, 0, i).sendLength),
     seq(|s.devs[1]|, i requires 0 <= i < |s.devs[1]| => Chan(s, 1, i).sendLength)]
  }

  function Length(lengths: seq<seq<nat>>, c: Core, i: nat): nat {
    if |lengths| == 2 && i < |lengths[c]| then lengths[c][i] else 0
  }

  function MailAfter(lengths: seq<seq<nat>>, evs: seq<Event>): (p: Mail)
    requires |lengths| == 2
    ensures |p.wire| == |p.box| == 2 && forall d: Core :: |p.box[d]| == |lengths[d]|
  {
    if evs == [] then
      Mail([None, None], [seq(|lengths[0]|, _ => None), seq(|lengths[1]|, _ => None)])
    else
      var ev := evs[|evs| - 1];
      MailNext(MailAfter(lengths, evs[..|evs| - 1]), ev, if ev.Write? then Length(lengths, ev.core, ev.i) else 0)
  }

  lemma NextShows(s: Machine, p: Mail, ev: Event, length: nat)
    requires Shows(s, p) && Paced(s, ev) && (ev.Write? ==> length == Chan(s, ev.core, ev.i).sendLength)
    ensures Enabled(s, ev) && Shows(Next(s, ev), MailNext(p, ev, length)) && Lengths(Next(s, ev)) == Lengths(s)
  {
    NextWiring(s, p, ev);
    LengthsKept(s, Next(s, ev));
    hide Wired;
    hide OnWire;
    hide InBox;
    hide Lengths;
    hide SameWiring;
    if !ev.Write? { MailIgnores(p, ev, length); }
    hide MailNext;
    hide DevWrite;
    hide DevRead;
    hide TakeInterrupt;
    match ev
    case Write(c, i, bytes) => WriteShows(s, p, c, i, bytes);
    case Interrupt(d) => InterruptShows(s, p, d);
    case Read(d, i, n) => ReadShows(s, p, d, i, n);
  }

  lemma MailIgnores(p: Mail, ev: Event, length: nat)
    requires |p.wire| == |p.box| == 2 && !ev.Write?
    ensures MailNext(p, ev, length) == MailNext(p, ev, 0)
  {
  }

  lemma LengthsKept(s: Machine, s': Machine)
    requires SameWiring(s, s')
    ensures Lengths(s') == Lengths(s)
  {
    assert Lengths(s')[0] == Lengths(s)[0] by {
      forall i | 0 <= i < |s.devs[0]| ensures Lengths(s')[0][i] == Lengths(s)[0][i] {
        assert Chan(s', 0, i) == Chan(s, 0, i);
      }
    }
    assert Lengths(s')[1] == Lengths(s)[1] by {
      forall i | 0 <= i < |s.devs[1]| ensures Lengths(s')[1][i] == Lengths(s)[1][i] {
        assert Chan(s', 1, i) == Chan(s, 1, i);
      }
    }
  }

  // Nothing sent yet.
  ghost predicate Idle(s: Machine) {
    && Wired(s) && (forall d: Core :: !s.pending[d])
    && forall d: Core, i | 0 <= i < |s.devs[d]| :: s.devs[d][i].available == 0
  }

  // The whole machinery does what the simple picture says, over every paced run.
  lemma {:induction false} RunShows(s: Machine, evs: seq<Event>)
    requires Idle(s) && PacedRun(s, evs)
    ensures Shows(After(s, evs), MailAfter(Lengths(s), evs)) && Lengths(After(s, evs)) == Lengths(s)
    decreases |evs|
  {
    if evs == [] {
      hide Wired;
    } else {
      var pre, ev := evs[..|evs| - 1], evs[|evs| - 1];
      RunShows(s, pre);
      var r := After(s, pre);
      assert ev.Write? ==> Length(Lengths(s), ev.core, ev.i) == Chan(r, ev.core, ev.i).sendLength;
      NextShows(r, MailAfter(Lengths(s), pre), ev, if ev.Write? then Length(Lengths(s), ev.core, ev.i) else 0);
    }
  }

  // The latest write to device i of core c.
  function LastWrite(evs: seq<Event>, c: Core, i: nat): Option<seq<byte>> {
    if evs == [] then None
    else
      var ev := evs[|evs| - 1];
      if ev.Write? && ev.core == c && ev.i == i && ev.bytes != [] then Some(ev.bytes)
      else LastWrite(evs[..|evs| - 1], c, i)
  }

  ghost predicate IsCut(b: seq<byte>, w: Option<seq<byte>>, n: nat) {
    w.Some? && b == Cut(w.value, n)
  }

  // What waits for a device, or else what it has to be read, is its peer's latest write.
  ghost predicate Latest(p: Mail, lengths: seq<seq<nat>>, evs: seq<Event>, d: Core, i: nat)
    requires |p.wire| == |p.box| == 2 && i < |p.box[d]|
  {
    var waits := p.wire[d].Some? && p.wire[d].value.0 == i;
    && (waits ==> IsCut(p.wire[d].value.1, LastWrite(evs, 1 - d, i), Length(lengths, 1 - d, i)))
    && (!waits && p.box[d][i].Some? ==> IsCut(p.box[d][i].value, LastWrite(evs, 1 - d, i), Length(lengths, 1 - d, i)))
  }

  // Every write finds nothing on the wire it uses.
  ghost predicate WiresFree(lengths: seq<seq<nat>>, evs: seq<Event>)
    requires |lengths| == 2
  {
    evs == [] ||
    (WiresFree(lengths, evs[..|evs| - 1]) && WireFree(MailAfter(lengths, evs[..|evs| - 1]), evs[|evs| - 1]))
  }

  ghost predicate WireFree(p: Mail, ev: Event)
    requires |p.wire| == 2
  {
    ev.Write? && ev.bytes != [] ==> p.wire[1 - ev.core] == None
  }

  lemma {:induction false} PacedWires(s: Machine, evs: seq<Event>)
    requires Idle(s) && PacedRun(s, evs)
    ensures WiresFree(Lengths(s), evs)
    decreases |evs|
  {
    if evs != [] {
      var pre, ev := evs[..|evs| - 1], evs[|evs| - 1];
      RunShows(s, pre);
      PacedWires(s, pre);
      hide Shows;
      hide Idle;
      hide Paced;
      hide MailAfter;
      PacedMail(After(s, pre), MailAfter(Lengths(s), pre), ev);
    }
  }

  lemma {:induction false} MailLatest(lengths: seq<seq<nat>>, evs: seq<Event>, d: Core, i: nat)
    requires |lengths| == 2 && WiresFree(lengths, evs) && i < |lengths[d]|
    ensures Latest(MailAfter(lengths, evs), lengths, evs, d, i)
    decreases |evs|
  {
    if evs != [] {
      var pre, ev := evs[..|evs| - 1], evs[|evs| - 1];
      MailLatest(lengths, pre, d, i);
      hide Latest;
      hide MailNext;
      hide Length;
      assert evs == pre + [ev];
      LatestStep(MailAfter(lengths, pre), lengths, pre, ev, d, i);
    }
  }

  lemma LatestStep(p: Mail, lengths: seq<seq<nat>>, pre: seq<Event>, ev: Event, d: Core, i: nat)
    requires |p.wire| == |p.box| == 2 && i < |p.box[d]| && Latest(p, lengths, pre, d, i)
    requires WireFree(p, ev)
    ensures var p' := MailNext(p, ev, if ev.Write? then Length(lengths, ev.core, ev.i) else 0);
      |p'.wire| == |p'.box| == 2 && |p'.box[d]| == |p.box[d]| && Latest(p', lengths, pre + [ev], d, i)
  {
    hide Cut;
    hide Length;
    assert (pre + [ev])[..|pre|] == pre;
    match ev
    case Write(c, j, bytes) =>
    case Interrupt(c) =>
    case Read(c, j, n) =>
  }

  // A paced write finds nothing on the wire it uses.
  lemma PacedMail(s: Machine, p: Mail, ev: Event)
    requires Shows(s, p) && Paced(s, ev)
    ensures WireFree(p, ev)
  {
    if ev.Write? {
      assert OnWire(s, 1 - ev.core, p.wire[1 - ev.core]);
    }
  }

  // End to end. What dev_read on device i returns is nothing, or, unless a newer write still
  // waits for its interrupt, the beginning of the latest dev_write on the peer's device i, cut
  // to the channel's length and to the reader's.
  lemma ReadsLatestWrite(s: Machine, evs: seq<Event>, d: Core, i: nat, n: nat)
    requires Idle(s) && PacedRun(s, evs) && i < |s.devs[d]|
    ensures var r := After(s, evs);
      && Shaped(r) && i < |r.devs[d]| && r.devs[d][i].channel.recv == Chan(s, d, i).recv
      && var out := DevRead(r, d, i, n).1;
         (r.pending[d] && r.msgr[d] == Chan(s, d, i).recv) || out == []
         || (LastWrite(evs, 1 - d, i).Some?
             && out == Cut(Cut(LastWrite(evs, 1 - d, i).value, Chan(s, 1 - d, i).sendLength), n))
  {
    hide Good;
    hide Sized;
    hide Dispatched;
    hide Crossed;
    hide Holding;
    hide After;
    hide MailAfter;
    hide LastWrite;
    hide PacedRun;
    RunShows(s, evs);
    PacedWires(s, evs);
    MailLatest(Lengths(s), evs, d, i);
    var r, p := After(s, evs), MailAfter(Lengths(s), evs);
    RunWiring(s, evs);
    ReadReturns(r, p, d, i, n);
    assert OnWire(r, d, p.wire[d]);
    assert Chan(r, d, i) == Chan(s, d, i);
    hide Wired;
  }

  lemma {:induction false} RunWiring(s: Machine, evs: seq<Event>)
    requires Idle(s) && PacedRun(s, evs)
    ensures SameWiring(s, After(s, evs))
    decreases |evs|
  {
    if evs != [] {
      var pre, ev := evs[..|evs| - 1], evs[|evs| - 1];
      RunWiring(s, pre);
      RunShows(s, pre);
      hide Idle;
      NextWiring(After(s, pre), MailAfter(Lengths(s), pre), ev);
    }
  }

  lemma NextWiring(s: Machine, p: Mail, ev: Event)
    requires Shows(s, p) && Paced(s, ev)
    ensures Enabled(s, ev) && SameWiring(s, Next(s, ev))
  {
    hide Good;
    hide Sized;
    hide Dispatched;
    hide Send;
    hide Get;
    match ev
    case Write(c, i, bytes) =>
    case Interrupt(d) =>
    case Read(d, i, n) =>
  }

  // ---------------------------------------------------------------- and it does arrive

  // No event in between reads the device or writes to its peer.
  predicate Quiet(evs: seq<Event>, d: Core, i: nat) {
    forall k | 0 <= k < |evs| ::
      match evs[k]
      case Write(c, j, _) => c == d || j != i
      case Interrupt(_) => true
      case Read(c, j, _) => c != d || j != i
  }

  // The fragment is in the box, and nothing newer waits.
  ghost predicate Boxed(p: Mail, d: Core, i: nat, b: seq<byte>)
    requires |p.wire| == |p.box| == 2
  {
    i < |p.box[d]| && p.box[d][i] == Some(b) && (p.wire[d].Some? ==> p.wire[d].value.0 != i)
  }

  lemma QuietStep(p: Mail, ev: Event, length: nat, d: Core, i: nat, b: seq<byte>)
    requires |p.wire| == |p.box| == 2 && Boxed(p, d, i, b) && Quiet([ev], d, i)
    ensures var p' := MailNext(p, ev, length); |p'.wire| == |p'.box| == 2 && Boxed(p', d, i, b)
  {
    assert [ev][0] == ev;
    hide Cut;
    match ev
    case Write(c, j, bytes) =>
    case Interrupt(c) =>
    case Read(c, j, n) =>
  }

  lemma {:induction false} StaysInBox(lengths: seq<seq<nat>>, evs: seq<Event>, mid: seq<Event>,
                                     d: Core, i: nat, b: seq<byte>)
    requires |lengths| == 2 && i < |lengths[d]| && Quiet(mid, d, i) && Boxed(MailAfter(lengths, evs), d, i, b)
    ensures Boxed(MailAfter(lengths, evs + mid), d, i, b)
    decreases |mid|
  {
    hide Boxed;
    hide Length;
    hide MailNext;
    if mid == [] {
      assert evs + mid == evs;
    } else {
      var pre, ev := mid[..|mid| - 1], mid[|mid| - 1];
      StaysInBox(lengths, evs, pre, d, i, b);
      assert (evs + mid)[..|evs + mid| - 1] == evs + pre && (evs + mid)[|evs + mid| - 1] == ev;
      QuietStep(MailAfter(lengths, evs + pre), ev, if ev.Write? then Length(lengths, ev.core, ev.i) else 0, d, i, b);
    }
  }

  // A write whose interrupt is taken is what the next read of that device returns, whatever
  // the other devices do in between.
  lemma Delivers(s: Machine, evs: seq<Event>, d: Core, i: nat, bytes: seq<byte>, mid: seq<Event>, n: nat)
    requires Idle(s) && i < |s.devs[d]| && bytes != [] && Quiet(mid, d, i)
    requires PacedRun(s, evs + [Write(1 - d, i, bytes)] + [Interrupt(d)] + mid)
    ensures var r := After(s, evs + [Write(1 - d, i, bytes)] + [Interrupt(d)] + mid);
      && Shaped(r) && i < |r.devs[d]|
      && DevRead(r, d, i, n).1 == Cut(Cut(bytes, Chan(s, 1 - d, i).sendLength), n)
  {
    var sent, taken := evs + [Write(1 - d, i, bytes)], evs + [Write(1 - d, i, bytes)] + [Interrupt(d)];
    var lengths := Lengths(s);
    hide Idle;
    hide PacedRun;
    hide After;
    assert sent[..|sent| - 1] == evs && taken[..|taken| - 1] == sent;
    assert MailAfter(lengths, sent).wire[d] == Some((i, Cut(bytes, Length(lengths, 1 - d, i))));
    StaysInBox(lengths, taken, mid, d, i, Cut(bytes, Length(lengths, 1 - d, i)));
    hide MailAfter;
    hide Good;
    hide Sized;
    hide Dispatched;
    RunShows(s, taken + mid);
    RunWiring(s, taken + mid);
    ReadReturns(After(s, taken + mid), MailAfter(lengths, taken + mid), d, i, n);
  }
}
