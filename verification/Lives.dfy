/** What a transfer sees in an interleaving: the lives of the entries over a run of two cores.
    A life starts with the open that creates the entry and goes on with the transfers copied
    on it, in the order of their copies. FRESH: no entry is closed for the last time while a
    fragment is pending on it. */
module Lives {
  import opened Words
  import opened Options
  import opened RegistrySpec
  import opened Mailbox
  import opened TwoCores

  datatype Life = Life(start: Entry, xs: seq<Xfer>)

  // FRESH for one event.
  predicate Fresh(s: Sys, ev: Event)
    requires |s.pc| == 2
  {
    ev.Steps? && s.pc[ev.c].CloseClear? && LastClose(s.reg, s.pc[ev.c].h, ev.c) ==>
      s.reg.entries[s.pc[ev.c].h].size == 0
  }

  predicate FreshRun(s: Sys, evs: seq<Event>)
    requires |s.pc| == 2
    decreases |evs|
  {
    evs == [] || (Fresh(s, evs[0]) && FreshRun(Next(s, evs[0]), evs[1..]))
  }

  // A scan that finds memory starts a life of the entry it takes, a copy continues one.
  function Noted(lives: seq<Life>, s: Sys, ev: Event): (r: seq<Life>)
    requires |s.pc| == 2
    ensures |r| == |lives|
  {
    if ev.Starts? then lives
    else
      var pc, pc' := s.pc[ev.c], Next(s, ev).pc[ev.c];
      if pc.OpenScan? && pc'.CreateLink? && pc'.h < |lives| && pc'.h < |s.reg.entries| then
        lives[pc'.h := Life(Created(s.reg.entries[pc'.h], pc.name, pc.size, ev.c, ev.g), [])]
      else if pc.XferCopy? && pc.h < |lives| then
        lives[pc.h := lives[pc.h].(xs := lives[pc.h].xs + [pc.x])]
      else lives
  }

  function LivesAfter(lives: seq<Life>, s: Sys, evs: seq<Event>): (r: seq<Life>)
    requires |s.pc| == 2
    ensures |r| == |lives|
    decreases |evs|
  {
    if evs == [] then lives else LivesAfter(Noted(lives, s, evs[0]), Next(s, evs[0]), evs[1..])
  }

  // Entries that are busy when the run begins live on from there.
  function Born(reg: Reg): (lives: seq<Life>)
    ensures |lives| == |reg.entries|
  {
    seq(|reg.entries|, h requires 0 <= h < |reg.entries| => Life(reg.entries[h], []))
  }

  // The entry is what its transfers, one after the other, make of its start. Only the mask of
  // the cores that have it open is not theirs to change.
  ghost predicate Tells(l: Life, e: Entry) {
    && Sound(l.start) && l.start.size == 0 && AllSane(l.xs)
    && e == After(l.start, l.xs).(open := e.open)
  }

  ghost predicate Told(reg: Reg, lives: seq<Life>) {
    && |lives| == |reg.entries|
    && forall h | 0 <= h < |lives| ::
         if reg.entries[h].open == {} then reg.entries[h].size == 0 else Tells(lives[h], reg.entries[h])
  }

  // ---------------------------------------------------------------- one transfer

  // The locked part, with the size computed from the length, is the whole transfer.
  lemma CopyIs(e: Entry, c: Core, x: Xfer)
    requires Sound(e) && Sane(x) && UnderWay(c, x) && Off(x) < e.length
    ensures Copied(e, c, x, SizeOf(x, e.length)) == Apply(e, x)
    ensures Got(e, x, SizeOf(x, e.length)) == Atomically(e, x)
  {
    if HasOffset(x) {
      ClipInBlock(if x.PostAt? then |x.bytes| else x.n, x.off, e.length);
    }
  }

  // And that length, read before the lock was taken, still is the entry's.
  lemma CopyApplies(s: Sys, c: Core, g: Grant)
    requires Inv(s) && s.pc[c].XferCopy? && Sound(s.reg.entries[s.pc[c].h])
    ensures var pc, s' := s.pc[c], Step(s, c, g);
      && Sane(pc.x) && View(s) == s.reg && |s'.pc| == 2 && View(s') == s'.reg
      && s'.reg == Put(s.reg, pc.h, Apply(s.reg.entries[pc.h], pc.x))
      && s'.pc[c] == Leave(Atomically(s.reg.entries[pc.h], pc.x))
      && Off(pc.x) < s.reg.entries[pc.h].length
  {
    CopyStep(s, c, g);
    ViewOutside(s, c);
    var pc := s.pc[c];
    assert Good(s.reg) && pc.h in s.reg.busy;
    hide NamesDiffer;
    hide Sized;
    assert s.reg.entries[pc.h].length > 0;
    hide Good;
    CopyIs(s.reg.entries[pc.h], c, pc.x);
    hide Copied;
    hide Got;
    hide Apply;
    hide Atomically;
    hide SizeOf;
    hide Sound;
  }

  lemma ApplyOpen(e: Entry, open: set<nat>, x: Xfer)
    requires Sound(e) && Sane(x)
    ensures Sound(e.(open := open)) && Apply(e.(open := open), x) == Apply(e, x).(open := open)
  {
  }

  lemma TellsNext(l: Life, e: Entry, x: Xfer)
    requires Tells(l, e) && Sane(x)
    ensures Sound(e) && Tells(l.(xs := l.xs + [x]), Apply(e, x))
  {
    ApplyOpen(After(l.start, l.xs), e.open, x);
    assert (l.xs + [x])[..|l.xs|] == l.xs;
  }

  // ---------------------------------------------------------------- one event

  // The lives after an open.
  function Opened(lives: seq<Life>, reg: Reg, name: string, size: nat, c: Core, g: Grant): seq<Life>
    requires |lives| == |reg.entries| && Good(reg)
  {
    if Creates(reg, name, size) && g.mem != 0 then
      assert reg.free[0] in reg.free;
      lives[reg.free[0] := Life(Created(reg.entries[reg.free[0]], name, size, c, g), [])]
    else lives
  }

  lemma OpenTold(reg: Reg, lives: seq<Life>, name: string, size: nat, c: Core, g: Grant)
    requires Good(reg) && Told(reg, lives) && size < TWO32
      && (Creates(reg, name, size) && g.mem != 0 ==> |g.data| == size)
    ensures Told(Open(reg, name, size, c, g).reg, Opened(lives, reg, name, size, c, g))
  {
    if Creates(reg, name, size) && g.mem != 0 {
      FirstFreeClosed(reg);
    }
    hide Good;
    hide FindIn;
  }

  lemma CloseTold(reg: Reg, lives: seq<Life>, h: nat, c: Core)
    requires Told(reg, lives) && (LastClose(reg, h, c) ==> reg.entries[h].size == 0)
    ensures Told(Close(reg, h, c).0, lives)
  {
  }

  lemma ScanNoted(s: Sys, lives: seq<Life>, c: Core, g: Grant)
    requires |s.pc| == 2 && s.pc[c].OpenScan? && s.pc[c].size > 0 && Good(s.reg) && |lives| == |s.reg.entries|
    ensures Noted(lives, s, Steps(c, g)) == Opened(lives, s.reg, s.pc[c].name, s.pc[c].size, c, g)
  {
    if s.reg.free != [] {
      FirstFreeClosed(s.reg);
    }
    hide Good;
    hide FindIn;
  }

  lemma ScanTold(s: Sys, lives: seq<Life>, c: Core, g: Grant)
    requires Inv(s) && Allowed(s, Steps(c, g)) && Told(View(s), lives) && s.pc[c].OpenScan?
    ensures Told(View(Step(s, c, g)), Noted(lives, s, Steps(c, g)))
  {
    var pc := s.pc[c];
    ScanStep(s, c, g);
    assert Good(s.reg) && 0 < pc.size < TWO32 && |lives| == |s.reg.entries|;
    assert Creates(s.reg, pc.name, pc.size) && g.mem != 0 ==> |g.data| == pc.size;
    StepInv(s, c, g);
    hide Told;
    hide Good;
    hide NamesDiffer;
    hide Sized;
    ViewOutside(Step(s, c, g), c);
    hide Inv;
    hide View;
    hide Complete;
    hide Step;
    hide Find;
    hide Knows;
    ScanNoted(s, lives, c, g);
    hide Noted;
    OpenTold(s.reg, lives, pc.name, pc.size, c, g);
    hide Open;
    hide Opened;
  }

  lemma ClearTold(s: Sys, lives: seq<Life>, c: Core, g: Grant)
    requires Inv(s) && Fresh(s, Steps(c, g)) && Told(View(s), lives) && s.pc[c].CloseClear?
    ensures Told(View(Step(s, c, g)), Noted(lives, s, Steps(c, g)))
  {
    ClearStep(s, c, g);
    StepInv(s, c, g);
    ViewOutside(Step(s, c, g), c);
    CloseTold(s.reg, lives, s.pc[c].h, c);
    hide Inv;
    hide View;
    hide Complete;
    hide Told;
    hide Step;
  }

  lemma CopyTold(s: Sys, lives: seq<Life>, c: Core, g: Grant)
    requires Inv(s) && Told(View(s), lives) && s.pc[c].XferCopy?
    ensures Told(View(Step(s, c, g)), Noted(lives, s, Steps(c, g)))
  {
    var pc := s.pc[c];
    CopySound(s, lives, c, g);
    CopyApplies(s, c, g);
    TellsNext(lives[pc.h], s.reg.entries[pc.h], pc.x);
    hide Inv;
    hide Step;
    hide View;
    hide Tells;
  }

  // The entry a transfer copies on is in the middle of a life, and in order.
  lemma CopySound(s: Sys, lives: seq<Life>, c: Core, g: Grant)
    requires Inv(s) && Told(View(s), lives) && s.pc[c].XferCopy?
    ensures var h := s.pc[c].h;
      h < |s.reg.entries| == |lives| && Tells(lives[h], s.reg.entries[h]) && Sound(s.reg.entries[h])
  {
    CopyStep(s, c, g);
  }

  // No other step changes what lives there are.
  lemma RestTold(s: Sys, lives: seq<Life>, ev: Event)
    requires Inv(s) && Allowed(s, ev)
    requires ev.Steps? ==> !s.pc[ev.c].OpenScan? && !s.pc[ev.c].CloseClear? && !s.pc[ev.c].XferCopy?
    ensures View(Next(s, ev)) == View(s) && Noted(lives, s, ev) == lives
  {
    match ev
    case Starts(c, call) =>
      NotBegun(s, c, call);
      BegunInv(s, Begin(s, c, call), c);
    case Steps(c, g) => StepView(s, c, g);
  }

  lemma NextTold(s: Sys, lives: seq<Life>, ev: Event)
    requires Inv(s) && Allowed(s, ev) && Fresh(s, ev) && Told(View(s), lives)
    ensures Told(View(Next(s, ev)), Noted(lives, s, ev))
  {
    if ev.Steps? && s.pc[ev.c].OpenScan? {
      ScanTold(s, lives, ev.c, ev.g);
    } else if ev.Steps? && s.pc[ev.c].CloseClear? {
      ClearTold(s, lives, ev.c, ev.g);
    } else if ev.Steps? && s.pc[ev.c].XferCopy? {
      CopyTold(s, lives, ev.c, ev.g);
    } else {
      RestTold(s, lives, ev);
    }
  }

  // ---------------------------------------------------------------- runs

  // Over every allowed run that keeps FRESH: a free entry has nothing pending, and a busy one
  // is what the transfers of its life, in the order of their copies, make of its start.
  lemma {:induction false} RunTold(s: Sys, lives: seq<Life>, evs: seq<Event>)
    requires Inv(s) && AllowedRun(s, evs) && FreshRun(s, evs) && Told(View(s), lives)
    ensures Inv(Exec(s, evs)) && Told(View(Exec(s, evs)), LivesAfter(lives, s, evs))
    decreases |evs|
  {
    assert |s.pc| == 2;
    hide Inv;
    hide Told;
    hide View;
    hide Allowed;
    hide Fresh;
    hide Noted;
    if evs != [] {
      NextInv(s, evs[0]);
      NextTold(s, lives, evs[0]);
      RunTold(Next(s, evs[0]), Noted(lives, s, evs[0]), evs[1..]);
    }
  }

  // What a transfer on an entry with this life hands back: a send how much of it fits, a get
  // the first bytes of the latest fragment not yet taken, or none, and get_offset what was
  // last written to each byte.
  ghost predicate Hands(l: Life, length: nat, x: Xfer, out: Outcome)
    requires |l.start.data| == length
  {
    match x
    case Post(_, bytes) => out.ret == Min(|bytes|, length)
    case PostAt(_, bytes, off) => off < length && out.ret == Min(|bytes|, length - off)
    case Fetch(_, n) =>
      var f := Content(Slot(l.xs, length));
      out.bytes == f[..Min(n, |f|)] && out.ret == |out.bytes|
    case Look(_, n, off) =>
      && off < length && out.ret == |out.bytes| == Min(off + n, length) - off
      && forall k | 0 <= k < |out.bytes| :: out.bytes[k] == LastWritten(l.start.data, l.xs, off + k)
  }

  lemma AtomicHands(l: Life, e: Entry, x: Xfer)
    requires Tells(l, e) && Sane(x) && Off(x) < e.length
    ensures Sound(e) && |l.start.data| == e.length && Hands(l, e.length, x, Atomically(e, x))
  {
    var q := After(l.start, l.xs);
    SameHanded(q, e.open, x);
    assert |l.start.data| == e.length;
    if x.Fetch? {
      FetchHands(l, x);
    } else if x.Look? {
      LookHands(l, x);
    }
    hide After;
    hide Fragment;
    hide SliceAt;
    hide Slot;
    hide LastWritten;
  }

  lemma SameHanded(e: Entry, open: set<nat>, x: Xfer)
    requires Sound(e) && Sane(x)
    ensures Sound(e.(open := open)) && Atomically(e.(open := open), x) == Atomically(e, x)
  {
  }

  lemma FetchHands(l: Life, x: Xfer)
    requires Sound(l.start) && l.start.size == 0 && AllSane(l.xs) && Sane(x) && x.Fetch?
    ensures Hands(l, l.start.length, x, Atomically(After(l.start, l.xs), x))
  {
    FetchReturns(l.start, l.xs, x.n);
    hide Slot;
    hide LastWritten;
  }

  lemma LookHands(l: Life, x: Xfer)
    requires Sound(l.start) && l.start.size == 0 && AllSane(l.xs) && Sane(x) && x.Look? && x.off < l.start.length
    ensures Hands(l, l.start.length, x, Atomically(After(l.start, l.xs), x))
  {
    hide Slot;
    hide LastWritten;
    LookReturns(l.start, l.xs, x.n, x.off);
    var q := After(l.start, l.xs);
    assert q.length == l.start.length;
    hide After;
    assert Atomically(q, x) == Outcome(|SliceAt(q, x.n, x.off)|, 0, SliceAt(q, x.n, x.off));
    hide SliceAt;
    hide Atomically;
  }

  // The four calls, made alone on an entry in the middle of its life: one that is not refused
  // takes the life one transfer further and hands out what the life says.
  lemma CallTells(reg: Reg, handle: nat, l: Life, x: Xfer)
    requires Good(reg) && Sized(reg) && handle < |reg.entries| && Tells(l, reg.entries[handle]) && Sane(x)
    requires Refused(reg, handle, x).None?
    ensures Sound(reg.entries[handle])
    ensures var e, (reg', out) := reg.entries[handle], Transfer(reg, handle, x);
      && reg' == Put(reg, handle, reg'.entries[handle]) && handle < |reg'.entries|
      && Tells(l.(xs := l.xs + [x]), reg'.entries[handle])
      && |l.start.data| == e.length && Hands(l, e.length, x, out)
  {
    TellsNext(l, reg.entries[handle], x);
    TransferIs(reg, handle, x);
    AtomicHands(l, reg.entries[handle], x);
    hide Transfer;
    hide Good;
    hide Sized;
    hide Tells;
    hide Hands;
    hide Apply;
  }

  // So in every interleaving a transfer that copies is an atomic transfer on its entry, what
  // it copies lies in the block, and what it hands back is what the transfers of this life
  // make of the slot and of the bytes.
  lemma MailboxOfRun(reg: Reg, evs: seq<Event>, c: Core, g: Grant)
    requires InOrder(reg) && AllowedRun(Quiet(reg), evs) && FreshRun(Quiet(reg), evs)
    requires forall h | 0 <= h < |reg.entries| :: reg.entries[h].size == 0
    ensures var s, lives := Exec(Quiet(reg), evs), LivesAfter(Born(reg), Quiet(reg), evs);
      s.pc[c].XferCopy? ==>
        var h, x, s' := s.pc[c].h, s.pc[c].x, Step(s, c, g);
        && h < |s.reg.entries| == |lives| && |s'.pc| == 2 && s'.pc[c].Leave?
        && var e, l := s.reg.entries[h], lives[h];
           && Tells(l, e) && Sane(x) && Sound(e) && |l.start.data| == e.length
           && s'.reg == Put(s.reg, h, Apply(e, x))
           && Hands(l, e.length, x, s'.pc[c].out)
           && (x.Fetch? ==> e.size == 0 || e.offset + Min(x.n, e.size) <= |e.data|)
  {
    var lives := LivesAfter(Born(reg), Quiet(reg), evs);
    QuietTold(reg);
    RunTold(Quiet(reg), Born(reg), evs);
    var s := Exec(Quiet(reg), evs);
    hide View;
    hide Told;
    hide LivesAfter;
    hide Exec;
    if s.pc[c].XferCopy? {
      CopySound(s, lives, c, g);
      CopyApplies(s, c, g);
      hide Inv;
      AtomicHands(lives[s.pc[c].h], s.reg.entries[s.pc[c].h], s.pc[c].x);
      hide Hands;
      hide Tells;
      hide Step;
    }
  }

  lemma QuietTold(reg: Reg)
    requires InOrder(reg) && forall h | 0 <= h < |reg.entries| :: reg.entries[h].size == 0
    ensures Inv(Quiet(reg)) && Told(View(Quiet(reg)), Born(reg))
  {
    forall h | 0 <= h < |reg.entries| && reg.entries[h].open != {} ensures Tells(Born(reg)[h], reg.entries[h]) {
      assert h in reg.busy;
    }
  }
}
