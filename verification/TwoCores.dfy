/** Two cores calling open, close and the four transfers at the same time, one access to the
    shared registry at a time. Every test the source makes before it takes the lock is a step of
    its own. Inside a critical section each step makes at most one write such a test of the other
    core can see, to m_open, m_mem or m_length; writes only the lock's holder reads go along.

    A schedule fixes the order of steps, the calls the cores begin, and what mod_malloc
    grants. PROC: a core begins a call only when its previous one has returned. */
module TwoCores {
  import opened Words
  import opened Options
  import opened Seqs
  import opened RegistrySpec
  import opened Mailbox

  datatype Call =
    | CallOpen(name: string, size: nat)
    | CallClose(handle: int)
    | CallXfer(handle: int, x: Xfer)

  // Where a core is. From the states marked * it holds s_mod_lock. mem and len are what a
  // transfer read before it took the lock, size is what it computed from them.
  datatype Pc =
    | Idle(out: Outcome)
    | OpenLock(name: string, size: nat)
    | OpenScan(name: string, size: nat)                            // *
    | OpenMark(h: nat, got: nat)                                   // *
    | CreateLink(h: nat, name: string, size: nat, g: Grant)        // *
    | CreateOpen(h: nat, name: string, size: nat, g: Grant)        // *
    | CreateMem(h: nat, name: string, size: nat, g: Grant)         // *
    | CloseLock(h: nat)
    | CloseClear(h: nat)                                           // *
    | CloseErase(h: nat)                                           // *
    | CloseFree(h: nat)                                            // *
    | CloseUnlink(h: nat)                                          // *
    | CheckLength(h: nat, x: Xfer)
    | CheckMem(h: nat, x: Xfer)
    | CheckOpen(h: nat, x: Xfer, mem: nat)
    | ReadLength(h: nat, x: Xfer, mem: nat)
    | XferLock(h: nat, x: Xfer, mem: nat, len: nat, size: nat)
    | XferCopy(h: nat, x: Xfer, mem: nat, len: nat, size: nat)     // *
    | Leave(out: Outcome)                                          // *

  datatype Sys = Sys(reg: Reg, lock: bool, pc: seq<Pc>)

  predicate InCs(pc: Pc) {
    pc.OpenScan? || pc.OpenMark? || pc.CreateLink? || pc.CreateOpen? || pc.CreateMem? || pc.CloseClear?
    || pc.CloseErase? || pc.CloseFree? || pc.CloseUnlink? || pc.XferCopy? || pc.Leave?
  }

  // ---------------------------------------------------------------- transfers in parts

  function SizeOf(x: Xfer, len: nat): nat {
    match x
    case Post(_, bytes) => if |bytes| > len then len else |bytes|
    case PostAt(_, bytes, off) => if off < len < TWO32 && |bytes| + off < TWO32 then ClipSize(|bytes|, off, len) else 0
    case Fetch(_, n) => n
    case Look(_, n, off) => if off < len < TWO32 && n + off < TWO32 then ClipSize(n, off, len) else 0
  }

  // The locked part of a transfer, with the size computed before.
  function Copied(e: Entry, c: Core, x: Xfer, size: nat): Entry {
    match x
    case Post(_, bytes) =>
      if size <= |e.data| && size <= |bytes| then
        e.(data := Splice(e.data, 0, bytes[..size]), update := e.update + {c}, size := size, offset := 0)
      else e
    case PostAt(_, bytes, off) =>
      if off + size <= |e.data| && size <= |bytes| then
        e.(data := Splice(e.data, off, bytes[..size]), update := e.update + {c}, size := size, offset := off)
      else e
    case Fetch(_, _) => Taken(e, c)
    case Look(_, _, _) => Peeked(e, c)
  }

  // What a transfer returns, and the bytes it copies out of the block.
  function Got(e: Entry, x: Xfer, size: nat): Outcome {
    match x
    case Fetch(_, n) =>
      var k := Min(n, e.size);
      Outcome(k, 0, if 0 < k <= e.offset + k <= |e.data| then e.data[e.offset..e.offset + k] else [])
    case Look(_, _, off) => Outcome(size, 0, if off + size <= |e.data| then e.data[off..off + size] else [])
    case _ => Only(size)
  }

  // ---------------------------------------------------------------- steps

  function Goto(s: Sys, c: Core, pc: Pc): Sys
    requires |s.pc| == 2
  {
    s.(pc := s.pc[c := pc])
  }

  function Write(s: Sys, c: Core, h: nat, e: Entry, pc: Pc): Sys
    requires |s.pc| == 2 && h < |s.reg.entries|
  {
    s.(reg := Put(s.reg, h, e), pc := s.pc[c := pc])
  }

  function Acquire(s: Sys, c: Core, pc: Pc): Sys
    requires |s.pc| == 2
  {
    if s.lock then s else s.(lock := true, pc := s.pc[c := pc])
  }

  // The entry of a call, up to its first access to the registry.
  function Begin(s: Sys, c: Core, call: Call): (r: Sys)
    requires |s.pc| == 2
    ensures |r.pc| == 2
  {
    if !s.pc[c].Idle? then s else
    match call
    case CallOpen(name, size) => Goto(s, c, if size == 0 then Idle(Only(OPEN_ERR)) else OpenLock(name, size))
    case CallClose(handle) =>
      if handle < 0 || handle >= |s.reg.entries| then Goto(s, c, Idle(Only(-1)))
      else if c in s.reg.entries[handle].open then Goto(s, c, CloseLock(handle))
      else Goto(s, c, Idle(Only(NOT_OPEN)))
    case CallXfer(handle, x) =>
      if (x.Fetch? || x.Look?) && x.n == 0 then Goto(s, c, Idle(Only(INVALID)))
      else if handle < 0 || handle >= |s.reg.entries| then Goto(s, c, Idle(Only(OPEN_ERR)))
      else Goto(s, c, if HasOffset(x) then CheckLength(handle, x) else CheckMem(handle, x))
  }

  // The next step of core c; g is what mod_malloc grants if this step asks it.
  function Step(s: Sys, c: Core, g: Grant): (r: Sys)
    requires |s.pc| == 2
    ensures |r.pc| == 2
  {
    var pc := s.pc[c];
    if !pc.Idle? && !pc.OpenLock? && !pc.OpenScan? && !pc.Leave? && pc.h >= |s.reg.entries| then s else
    match pc
    case Idle(_) => s
    case OpenLock(name, size) => Acquire(s, c, OpenScan(name, size))
    case OpenScan(name, size) => StepScan(s, c, name, size, g)
    case OpenMark(h, got) => Write(s, c, h, Marked(s.reg.entries[h], c), Leave(Outcome(h, got, [])))
    case CreateLink(h, name, size, g) =>
      if s.reg.free == [] then s else
      var e := s.reg.entries[h].(length := size);
      Sys(Reg(s.reg.entries[h := e], s.reg.free[1..], [h] + s.reg.busy), s.lock,
          s.pc[c := CreateOpen(h, name, size, g)])
    case CreateOpen(h, name, size, g) => Write(s, c, h, Marked(s.reg.entries[h], c), CreateMem(h, name, size, g))
    case CreateMem(h, name, size, g) =>
      var e := s.reg.entries[h].(mem := g.mem, data := g.data, name := Stored(name));
      Write(s, c, h, e, Leave(Outcome(h, size, [])))
    case CloseLock(h) => Acquire(s, c, CloseClear(h))
    case CloseClear(h) =>
      var e := Unmarked(s.reg.entries[h], c);
      Write(s, c, h, e, if e.open != {} then Leave(Only(0)) else CloseErase(h))
    case CloseErase(h) =>
      var e := s.reg.entries[h];
      Write(s, c, h, e.(name := "", length := 0, update := e.update - {c}), CloseFree(h))
    case CloseFree(h) => Write(s, c, h, s.reg.entries[h].(mem := 0, data := []), CloseUnlink(h))
    case CloseUnlink(h) => Sys(Drop(s.reg, h), s.lock, s.pc[c := Leave(Only(0))])
    case CheckLength(h, x) =>
      Goto(s, c, if s.reg.entries[h].length <= Off(x) then Idle(Only(LENGTH_ERR)) else CheckMem(h, x))
    case CheckMem(h, x) =>
      Goto(s, c, if s.reg.entries[h].mem == 0 then Idle(Only(NULL_MEM)) else CheckOpen(h, x, s.reg.entries[h].mem))
    case CheckOpen(h, x, mem) =>
      Goto(s, c, if Tested(x) in s.reg.entries[h].open then ReadLength(h, x, mem) else Idle(Only(NOT_OPEN)))
    case ReadLength(h, x, mem) =>
      var len := s.reg.entries[h].length;
      Goto(s, c, XferLock(h, x, mem, len, SizeOf(x, len)))
    case XferLock(h, x, mem, len, size) => Acquire(s, c, XferCopy(h, x, mem, len, size))
    case XferCopy(h, x, mem, len, size) =>
      Write(s, c, h, Copied(s.reg.entries[h], c, x, size), Leave(Got(s.reg.entries[h], x, size)))
    case Leave(out) => s.(lock := false, pc := s.pc[c := Idle(out)])
  }

  // The scan of the busy list, and the branch it decides.
  function StepScan(s: Sys, c: Core, name: string, size: nat, g: Grant): Sys
    requires |s.pc| == 2
  {
    match Find(s.reg, name)
    case Some(h) =>
      var got := s.reg.entries[h].length;
      Goto(s, c, if size > got then Leave(Outcome(LENGTH_ERR, size, [])) else OpenMark(h, got))
    case None =>
      if s.reg.free == [] then Goto(s, c, Leave(Outcome(OPEN_ERR, size, [])))
      else if g.mem == 0 then Goto(s, c, Leave(Outcome(MALLOC_ERR, size, [])))
      else Goto(s, c, CreateLink(s.reg.free[0], name, size, g))
  }

  datatype Event = Starts(c: Core, call: Call) | Steps(c: Core, g: Grant)

  function Next(s: Sys, ev: Event): (r: Sys)
    requires |s.pc| == 2
    ensures |r.pc| == 2
  {
    match ev
    case Starts(c, call) => Begin(s, c, call)
    case Steps(c, g) => Step(s, c, g)
  }

  // ---------------------------------------------------------------- the pending writes

  // The registry once the critical section that core c is in has run to its end. Outside,
  // and before the section has decided anything, this is the registry itself.
  function Complete(reg: Reg, c: Core, pc: Pc): Reg {
    match pc
    case OpenMark(h, _) => if h < |reg.entries| then Put(reg, h, Marked(reg.entries[h], c)) else reg
    case CreateLink(h, name, size, g) =>
      if h < |reg.entries| && reg.free != [] && reg.free[0] == h then Create(reg, name, size, c, g) else reg
    case CreateOpen(h, name, _, g) =>
      if h < |reg.entries| then
        Put(reg, h, Marked(reg.entries[h], c).(mem := g.mem, data := g.data, name := Stored(name)))
      else reg
    case CreateMem(h, name, _, g) =>
      if h < |reg.entries| then
        Put(reg, h, reg.entries[h].(mem := g.mem, data := g.data, name := Stored(name)))
      else reg
    case CloseErase(h) => if h < |reg.entries| then Drop(Put(reg, h, Emptied(reg.entries[h], c)), h) else reg
    case CloseFree(h) => if h < |reg.entries| then Drop(Put(reg, h, reg.entries[h].(mem := 0, data := [])), h) else reg
    case CloseUnlink(h) => if h < |reg.entries| then Drop(reg, h) else reg
    case _ => reg
  }

  function View(s: Sys): Reg
    requires |s.pc| == 2
  {
    if InCs(s.pc[0]) then Complete(s.reg, 0, s.pc[0]) else Complete(s.reg, 1, s.pc[1])
  }

  // ---------------------------------------------------------------- the invariant

  // What each position of core c knows about the registry as it is in memory.
  ghost predicate Knows(reg: Reg, c: Core, pc: Pc) {
    match pc
    case Idle(_) => true
    case Leave(_) => true
    case OpenLock(name, size) => 0 < size < TWO32 && |name| < NAME_MAX
    case OpenScan(name, size) => 0 < size < TWO32 && |name| < NAME_MAX
    case OpenMark(h, _) => h < |reg.entries|
    case CreateLink(h, _, _, g) =>
      && h < |reg.entries| && reg.free != [] && reg.free[0] == h
      && reg.entries[h].open == {} && reg.entries[h].length == 0 && reg.entries[h].mem == 0 != g.mem
    case CreateOpen(h, _, _, g) => h < |reg.entries| && reg.entries[h].open == {} && reg.entries[h].mem == 0 != g.mem
    case CreateMem(h, _, _, g) => h < |reg.entries| && reg.entries[h].open == {c} && reg.entries[h].mem == 0 != g.mem
    case CloseLock(h) => h < |reg.entries| && c in reg.entries[h].open
    case CloseClear(h) => h < |reg.entries| && c in reg.entries[h].open
    case CloseErase(h) => h < |reg.entries| && reg.entries[h].open == {} && reg.entries[h].mem != 0
    case CloseFree(h) => h < |reg.entries| && reg.entries[h].open == {} && reg.entries[h].length == 0
    case CloseUnlink(h) => h < |reg.entries| && reg.entries[h].length == 0
    case CheckLength(h, x) => h < |reg.entries| && HasOffset(x) && UnderWay(c, x) && MayCall(reg, c, h, x)
    case CheckMem(h, x) =>
      && h < |reg.entries| && UnderWay(c, x) && MayCall(reg, c, h, x)
      && (HasOffset(x) && c in reg.entries[h].open ==> x.off < reg.entries[h].length)
    case CheckOpen(h, x, mem) =>
      && h < |reg.entries| && UnderWay(c, x) && MayCall(reg, c, h, x) && mem != 0
      && (c in reg.entries[h].open ==>
            reg.entries[h].mem == mem && (HasOffset(x) ==> x.off < reg.entries[h].length))
    case ReadLength(h, x, mem) => Holds(reg, c, h, x, mem)
    case XferLock(h, x, mem, len, size) =>
      Holds(reg, c, h, x, mem) && reg.entries[h].length == len && size == SizeOf(x, len)
    case XferCopy(h, x, mem, len, size) =>
      Holds(reg, c, h, x, mem) && reg.entries[h].length == len && size == SizeOf(x, len)
  }

  // A transfer under way: a get of nothing has returned at once.
  predicate UnderWay(c: Core, x: Xfer) {
    x.core == c && (x.Fetch? || x.Look? ==> x.n > 0)
  }

  // A core reads with get only from handles it holds itself; a send tests that.
  ghost predicate MayCall(reg: Reg, c: Core, h: nat, x: Xfer)
    requires h < |reg.entries|
  {
    Sane(x) && x.core == c && (x.Fetch? || x.Look? ==> c in reg.entries[h].open)
  }

  // What the tests before the lock found still holds.
  ghost predicate Holds(reg: Reg, c: Core, h: nat, x: Xfer, mem: nat) {
    && h < |reg.entries| && Sane(x) && UnderWay(c, x)
    && c in reg.entries[h].open && reg.entries[h].mem == mem && mem != 0
    && (HasOffset(x) ==> x.off < reg.entries[h].length)
  }

  ghost predicate Inv(s: Sys) {
    && |s.pc| == 2
    && !(InCs(s.pc[0]) && InCs(s.pc[1]))
    && (s.lock <==> InCs(s.pc[0]) || InCs(s.pc[1]))
    && Good(View(s)) && NamesDiffer(View(s)) && Sized(View(s))
    && Knows(s.reg, 0, s.pc[0]) && Knows(s.reg, 1, s.pc[1])
  }

  // The hypotheses on a schedule. SHORT: names under 32 characters. NOWRAP: inside Sane. A
  // core calls the get forms only on handles it has open. A grant is of the size asked for.
  ghost predicate Allowed(s: Sys, ev: Event)
    requires |s.pc| == 2
  {
    match ev
    case Starts(c, CallOpen(name, size)) => |name| < NAME_MAX && size < TWO32
    case Starts(c, CallClose(_)) => true
    case Starts(c, CallXfer(h, x)) => 0 <= h < |s.reg.entries| ==> MayCall(s.reg, c, h, x)
    case Steps(c, g) => s.pc[c].OpenScan? && g.mem != 0 ==> |g.data| == s.pc[c].size
  }

  // What one core's step may do to the entries another core knows about: it never touches
  // the other core's bit, and leaves memory and length of entries that bit is set on.
  ghost predicate Respects(reg: Reg, reg': Reg, d: Core) {
    && |reg'.entries| == |reg.entries|
    && forall h | 0 <= h < |reg.entries| ::
         && (d in reg'.entries[h].open <==> d in reg.entries[h].open)
         && (d in reg.entries[h].open ==>
               reg'.entries[h].mem == reg.entries[h].mem && reg'.entries[h].length == reg.entries[h].length)
  }

  lemma KnowsStable(reg: Reg, reg': Reg, d: Core, pc: Pc)
    requires Knows(reg, d, pc) && !InCs(pc) && Respects(reg, reg', d)
    ensures Knows(reg', d, pc)
  {
  }

  lemma StepRespects(s: Sys, c: Core, g: Grant)
    requires Inv(s)
    ensures |Step(s, c, g).pc| == 2 && Respects(s.reg, Step(s, c, g).reg, 1 - c)
  {
    hide Good;
    hide NamesDiffer;
    hide Sized;
    hide View;
  }

  // The holder's writes complete to what they completed to before.
  lemma WritesView(s: Sys, c: Core, g: Grant)
    requires |s.pc| == 2 && Knows(s.reg, c, s.pc[c])
    requires var pc := s.pc[c]; pc.OpenMark? || pc.CreateLink? || pc.CreateOpen? || pc.CreateMem?
                                || pc.CloseErase? || pc.CloseFree? || pc.CloseUnlink?
    ensures var s' := Step(s, c, g);
      |s'.pc| == 2 && Complete(s'.reg, c, s'.pc[c]) == Complete(s.reg, c, s.pc[c]) && InCs(s'.pc[c])
      && s'.pc[1 - c] == s.pc[1 - c]
  {
    var pc, s' := s.pc[c], Step(s, c, g);
    var e := s.reg.entries[pc.h];
    match pc
    case OpenMark(h, got) =>
    case CreateLink(h, name, size, gr) =>
      assert s.reg.entries[h := e.(length := size)][h := Created(e, name, size, c, gr)]
          == s.reg.entries[h := Created(e, name, size, c, gr)];
    case CreateOpen(h, name, size, gr) =>
      assert s'.reg.entries[h := Marked(e, c).(mem := gr.mem, data := gr.data, name := Stored(name))]
          == s.reg.entries[h := Marked(e, c).(mem := gr.mem, data := gr.data, name := Stored(name))];
    case CreateMem(h, name, size, gr) =>
    case CloseErase(h) =>
      assert s'.reg.entries[h := Emptied(e, c)] == s.reg.entries[h := Emptied(e, c)];
    case CloseFree(h) =>
    case CloseUnlink(h) =>
  }

  // The steps that neither decide a call nor copy leave the view as it was.
  lemma StepView(s: Sys, c: Core, g: Grant)
    requires Inv(s) && !s.pc[c].OpenScan? && !s.pc[c].CloseClear? && !s.pc[c].XferCopy?
    ensures View(Step(s, c, g)) == View(s)
  {
    hide Good;
    hide NamesDiffer;
    hide Sized;
    hide Find;
    hide Knows;
    if InCs(s.pc[c]) && !s.pc[c].Leave? {
      WritesView(s, c, g);
      hide Step;
      hide Complete;
    }
  }

  // ---------------------------------------------------------------- the deciding steps

  // What the call a core is in will hand back, once that is settled.
  function Promise(pc: Pc): Option<Outcome> {
    match pc
    case Idle(out) => Some(out)
    case Leave(out) => Some(out)
    case OpenMark(h, got) => Some(Outcome(h, got, []))
    case CreateLink(h, _, size, _) => Some(Outcome(h, size, []))
    case CreateOpen(h, _, size, _) => Some(Outcome(h, size, []))
    case CreateMem(h, _, size, _) => Some(Outcome(h, size, []))
    case CloseErase(_) => Some(Only(0))
    case CloseFree(_) => Some(Only(0))
    case CloseUnlink(_) => Some(Only(0))
    case _ => None
  }

  // Once settled it is what the call returns.
  lemma PromiseKept(s: Sys, c: Core, g: Grant)
    requires Inv(s) && Promise(s.pc[c]).Some?
    ensures var s' := Step(s, c, g);
      |s'.pc| == 2 && Promise(s'.pc[c]) == Promise(s.pc[c]) && s'.pc[1 - c] == s.pc[1 - c]
  {
    hide Good;
    hide NamesDiffer;
    hide Sized;
    hide View;
  }

  lemma ViewOutside(s: Sys, c: Core)
    requires Inv(s) && InCs(s.pc[c])
    ensures View(s) == Complete(s.reg, c, s.pc[c]) && !InCs(s.pc[1 - c]) && s.lock
  {
    hide Good;
    hide NamesDiffer;
    hide Sized;
    hide Complete;
  }

  // The scan step of an open does the whole open, seen through the pending writes.
  lemma ScanStep(s: Sys, c: Core, g: Grant)
    requires Inv(s) && s.pc[c].OpenScan? && Allowed(s, Steps(c, g))
    ensures var s', pc := Step(s, c, g), s.pc[c];
      && View(s) == s.reg && |s'.pc| == 2 && s'.pc[1 - c] == s.pc[1 - c] && s'.lock && s'.reg == s.reg
      && InCs(s'.pc[c]) && Knows(s'.reg, c, s'.pc[c])
      && Complete(s'.reg, c, s'.pc[c]) == Open(s.reg, pc.name, pc.size, c, g).reg
      && var r := Open(s.reg, pc.name, pc.size, c, g); Promise(s'.pc[c]) == Some(Outcome(r.ret, r.length, []))
  {
    hide Good;
    hide NamesDiffer;
    hide Sized;
    hide FindIn;
    ViewOutside(s, c);
    hide View;
    if s.reg.free != [] { FirstFreeClosed(s.reg); }
  }

  lemma FirstFreeClosed(reg: Reg)
    requires Good(reg) && reg.free != []
    ensures reg.free[0] < |reg.entries| && FreeEntry(reg.entries[reg.free[0]])
  {
    assert reg.free[0] in reg.free;
  }

  // Clearing the bit does the whole close.
  lemma ClearStep(s: Sys, c: Core, g: Grant)
    requires Inv(s) && s.pc[c].CloseClear?
    ensures var s', pc := Step(s, c, g), s.pc[c];
      && View(s) == s.reg && |s'.pc| == 2 && s'.pc[1 - c] == s.pc[1 - c] && s'.lock
      && InCs(s'.pc[c]) && Knows(s'.reg, c, s'.pc[c])
      && Complete(s'.reg, c, s'.pc[c]) == Close(s.reg, pc.h, c).0 && Close(s.reg, pc.h, c).1 == 0
      && Promise(s'.pc[c]) == Some(Only(0))
  {
    ViewOutside(s, c);
    hide Good;
    hide NamesDiffer;
    hide Sized;
    var h := s.pc[c].h;
    var e := Unmarked(s.reg.entries[h], c);
    assert s.reg.entries[h := e][h := Emptied(e, c)] == s.reg.entries[h := Emptied(e, c)];
  }

  // The copy of a transfer changes one entry, and nothing of it that open and close work on.
  lemma CopyStep(s: Sys, c: Core, g: Grant)
    requires Inv(s) && s.pc[c].XferCopy?
    ensures var s', pc := Step(s, c, g), s.pc[c];
      && View(s) == s.reg && |s'.pc| == 2 && s'.pc[1 - c] == s.pc[1 - c] && s'.lock
      && pc.h < |s.reg.entries|
      && s'.pc[c].Leave? && s'.reg == Put(s.reg, pc.h, s'.reg.entries[pc.h])
      && SameItem(s.reg.entries[pc.h], s'.reg.entries[pc.h])
  {
    ViewOutside(s, c);
    var pc := s.pc[c];
    assert Good(s.reg) && Sized(s.reg) && pc.h in s.reg.busy;
    hide NamesDiffer;
    if HasOffset(pc.x) {
      ClipInBlock(if pc.x.PostAt? then |pc.x.bytes| else pc.x.n, pc.x.off, s.reg.entries[pc.h].length);
    }
  }

  lemma PutSame(reg: Reg, h: nat, e: Entry)
    requires Good(reg) && NamesDiffer(reg) && Sized(reg) && h < |reg.entries| && SameItem(reg.entries[h], e)
    requires reg.entries[h].open != {}
    ensures Good(Put(reg, h, e)) && NamesDiffer(Put(reg, h, e)) && Sized(Put(reg, h, e))
    ensures Abs(Put(reg, h, e)) == Abs(reg)
  {
    PutKeeps(reg, h, e);
    hide Good;
    hide NamesDiffer;
    hide Abs;
    AbsChange(reg, Put(reg, h, e), h);
  }

  // ---------------------------------------------------------------- every step

  lemma NotBegun(s: Sys, c: Core, call: Call)
    requires Inv(s) && Allowed(s, Starts(c, call))
    ensures var s' := Begin(s, c, call);
      && |s'.pc| == 2 && s'.reg == s.reg && s'.lock == s.lock && s'.pc[1 - c] == s.pc[1 - c]
      && !(InCs(s'.pc[c]) && s.pc[c].Idle?) && (!s.pc[c].Idle? ==> s' == s) && Knows(s.reg, c, s'.pc[c])
  {
    hide Good;
    hide NamesDiffer;
    hide Sized;
    hide View;
  }

  lemma StepKnows(s: Sys, c: Core, g: Grant)
    requires Inv(s) && !s.pc[c].OpenScan? && !s.pc[c].CloseClear? && !s.pc[c].XferCopy?
    ensures var s' := Step(s, c, g);
      && |s'.pc| == 2 && s'.pc[1 - c] == s.pc[1 - c] && Knows(s'.reg, c, s'.pc[c])
      && (InCs(s.pc[c]) && !s.pc[c].Leave? ==> InCs(s'.pc[c]) && s'.lock == s.lock)
      && (s.pc[c].Leave? ==> !InCs(s'.pc[c]) && !s'.lock)
      && (!InCs(s.pc[c]) ==> s'.reg == s.reg && if InCs(s'.pc[c]) then !s.lock && s'.lock else s'.lock == s.lock)
  {
    hide Good;
    hide NamesDiffer;
    hide Sized;
    hide View;
    if InCs(s.pc[c]) {
      WritesKnow(s, c, g);
    } else {
      ChecksKnow(s, c, g);
    }
    hide Step;
    hide Knows;
  }

  lemma WritesKnow(s: Sys, c: Core, g: Grant)
    requires |s.pc| == 2 && Knows(s.reg, c, s.pc[c]) && InCs(s.pc[c])
    requires !s.pc[c].OpenScan? && !s.pc[c].CloseClear? && !s.pc[c].XferCopy?
    ensures var s' := Step(s, c, g);
      && |s'.pc| == 2 && s'.pc[1 - c] == s.pc[1 - c] && Knows(s'.reg, c, s'.pc[c])
      && (!s.pc[c].Leave? ==> InCs(s'.pc[c]) && s'.lock == s.lock)
      && (s.pc[c].Leave? ==> !InCs(s'.pc[c]) && !s'.lock)
  {
  }

  lemma ChecksKnow(s: Sys, c: Core, g: Grant)
    requires |s.pc| == 2 && Knows(s.reg, c, s.pc[c]) && !InCs(s.pc[c])
    ensures var s' := Step(s, c, g);
      && |s'.pc| == 2 && s'.pc[1 - c] == s.pc[1 - c] && Knows(s'.reg, c, s'.pc[c]) && s'.reg == s.reg
      && (if InCs(s'.pc[c]) then !s.lock && s'.lock else s'.lock == s.lock)
  {
  }

  // The deciding steps and the copy, seen through the pending writes.
  lemma ScanInv(s: Sys, c: Core, g: Grant)
    requires Inv(s) && Allowed(s, Steps(c, g)) && s.pc[c].OpenScan?
    ensures Inv(Step(s, c, g))
  {
    var s', pc := Step(s, c, g), s.pc[c];
    StepRespects(s, c, g);
    ScanStep(s, c, g);
    ViewOutside(s, c);
    hide Step;
    OpenKeeps(s.reg, pc.name, pc.size, c, g);
    OpenSized(s.reg, pc.name, pc.size, c, g);
    hide Good;
    hide NamesDiffer;
    hide Sized;
    hide Respects;
    OtherKnows(s, s', c);
    hide Knows;
    hide Complete;
    hide Open;
  }

  lemma ClearInv(s: Sys, c: Core, g: Grant)
    requires Inv(s) && s.pc[c].CloseClear?
    ensures Inv(Step(s, c, g))
  {
    var s' := Step(s, c, g);
    StepRespects(s, c, g);
    ClearStep(s, c, g);
    ViewOutside(s, c);
    hide Step;
    CloseKeeps(s.reg, s.pc[c].h, c);
    CloseSized(s.reg, s.pc[c].h, c);
    hide Good;
    hide NamesDiffer;
    hide Sized;
    hide Respects;
    OtherKnows(s, s', c);
    hide Knows;
    hide Complete;
    hide Close;
  }

  lemma CopyLeaves(s: Sys, c: Core, g: Grant)
    requires |s.pc| == 2 && s.pc[c].XferCopy? && s.pc[c].h < |s.reg.entries|
    ensures var s' := Step(s, c, g);
      |s'.pc| == 2 && Knows(s'.reg, c, s'.pc[c]) && Complete(s'.reg, c, s'.pc[c]) == s'.reg && InCs(s'.pc[c])
  {
  }

  lemma CopyInv(s: Sys, c: Core, g: Grant)
    requires Inv(s) && s.pc[c].XferCopy?
    ensures Inv(Step(s, c, g))
  {
    var s' := Step(s, c, g);
    StepRespects(s, c, g);
    CopyStep(s, c, g);
    ViewOutside(s, c);
    assert s.reg.entries[s.pc[c].h].open != {};
    CopyLeaves(s, c, g);
    hide Step;
    hide Abs;
    hide Knows;
    hide Complete;
    hide SameItem;
    hide Good;
    hide NamesDiffer;
    hide Sized;
    PutSame(s.reg, s.pc[c].h, s'.reg.entries[s.pc[c].h]);
    hide Respects;
    OtherKnows(s, s', c);
  }

  lemma StepInv(s: Sys, c: Core, g: Grant)
    requires Inv(s) && Allowed(s, Steps(c, g))
    ensures Inv(Step(s, c, g))
  {
    if s.pc[c].OpenScan? {
      ScanInv(s, c, g);
    } else if s.pc[c].CloseClear? {
      ClearInv(s, c, g);
    } else if s.pc[c].XferCopy? {
      CopyInv(s, c, g);
    } else {
      StepRespects(s, c, g);
      StepView(s, c, g);
      StepKnows(s, c, g);
      hide Good;
      hide NamesDiffer;
      hide Sized;
      hide Respects;
      hide Step;
      hide Knows;
      hide Complete;
      OtherKnows(s, Step(s, c, g), c);
    }
  }

  lemma OtherKnows(s: Sys, s': Sys, c: Core)
    requires Inv(s) && |s'.pc| == 2 && s'.pc[1 - c] == s.pc[1 - c] && Respects(s.reg, s'.reg, 1 - c)
    requires InCs(s.pc[1 - c]) ==> s'.reg == s.reg
    ensures Knows(s'.reg, 1 - c, s'.pc[1 - c])
  {
    if !InCs(s.pc[1 - c]) {
      KnowsStable(s.reg, s'.reg, 1 - c, s.pc[1 - c]);
    }
  }

  lemma OpenSized(reg: Reg, name: string, size: nat, c: Core, g: Grant)
    requires Good(reg) && Sized(reg) && size < TWO32
    ensures Sized(Open(reg, name, size, c, g).reg)
  {
  }

  lemma CloseSized(reg: Reg, h: int, c: Core)
    requires Sized(reg)
    ensures Sized(Close(reg, h, c).0)
  {
  }

  lemma NextInv(s: Sys, ev: Event)
    requires Inv(s) && Allowed(s, ev)
    ensures Inv(Next(s, ev))
  {
    match ev
    case Starts(c, call) =>
      NotBegun(s, c, call);
      BegunInv(s, Begin(s, c, call), c);
    case Steps(c, g) => StepInv(s, c, g);
  }

  lemma BegunInv(s: Sys, s': Sys, c: Core)
    requires Inv(s) && |s'.pc| == 2 && s'.reg == s.reg && s'.lock == s.lock && s'.pc[1 - c] == s.pc[1 - c]
    requires !(InCs(s'.pc[c]) && s.pc[c].Idle?) && (!s.pc[c].Idle? ==> s' == s) && Knows(s.reg, c, s'.pc[c])
    ensures Inv(s') && View(s') == View(s)
  {
    hide Good;
    hide NamesDiffer;
    hide Sized;
    hide Knows;
  }

  // ---------------------------------------------------------------- runs

  ghost predicate AllowedRun(s: Sys, evs: seq<Event>)
    requires |s.pc| == 2
    decreases |evs|
  {
    evs == [] || (Allowed(s, evs[0]) && AllowedRun(Next(s, evs[0]), evs[1..]))
  }

  function Exec(s: Sys, evs: seq<Event>): (r: Sys)
    requires |s.pc| == 2
    ensures |r.pc| == 2
    decreases |evs|
  {
    if evs == [] then s else Exec(Next(s, evs[0]), evs[1..])
  }

  // Both cores outside any call, on a registry that is in order.
  function Quiet(reg: Reg): Sys { Sys(reg, false, [Idle(Only(0)), Idle(Only(0))]) }

  ghost predicate InOrder(reg: Reg) { Good(reg) && NamesDiffer(reg) && Sized(reg) }

  lemma {:induction false} RunInv(s: Sys, evs: seq<Event>)
    requires Inv(s) && AllowedRun(s, evs)
    ensures Inv(Exec(s, evs))
    decreases |evs|
  {
    if evs != [] {
      NextInv(s, evs[0]);
      RunInv(Next(s, evs[0]), evs[1..]);
    }
  }

  // In every interleaving, when a transfer copies, the memory and the length it read before
  // it took the lock are still the entry's, the memory is there, the caller still holds the
  // handle, and what it copies by an offset of its own lies in the block.
  lemma CheckThenLock(reg: Reg, evs: seq<Event>, c: Core)
    requires InOrder(reg) && AllowedRun(Quiet(reg), evs)
    ensures var s := Exec(Quiet(reg), evs);
      s.pc[c].XferCopy? ==>
        var pc := s.pc[c];
        && pc.h < |s.reg.entries|
        && var e := s.reg.entries[pc.h];
           && e.mem == pc.mem != 0 && e.length == pc.len == |e.data| && c in e.open
           && (pc.x.Fetch? || Off(pc.x) + pc.size <= e.length)
  {
    RunInv(Quiet(reg), evs);
    var s := Exec(Quiet(reg), evs);
    if s.pc[c].XferCopy? {
      ViewOutside(s, c);
      var pc := s.pc[c];
      assert Good(s.reg) && Sized(s.reg) && pc.h in s.reg.busy;
      if HasOffset(pc.x) {
        ClipInBlock(if pc.x.PostAt? then |pc.x.bytes| else pc.x.n, pc.x.off, pc.len);
      }
    }
  }

  // Whenever the lock is free an entry is on the busy list exactly when some core's bit is
  // set, and the busy names are pairwise different.
  lemma ListsMatchBits(reg: Reg, evs: seq<Event>)
    requires InOrder(reg) && AllowedRun(Quiet(reg), evs)
    ensures var s := Exec(Quiet(reg), evs);
      !s.lock ==>
        && NamesDiffer(s.reg)
        && forall h | 0 <= h < |s.reg.entries| ::
             && (h in s.reg.busy <==> s.reg.entries[h].open != {})
             && (h in s.reg.free <==> s.reg.entries[h].open == {})
  {
    RunInv(Quiet(reg), evs);
  }

  // The outcome is that of an atomic open of this name and length.
  ghost predicate Opens(m: map<string, Item>, n: nat, granted: bool, name: string, size: nat, c: Core,
                        m': map<string, Item>, pc': Pc)
  {
    match Promise(pc')
    case Some(out) => AtomicOpen(m, n, granted, name, size, c, m', out.ret, out.length)
    case None => false
  }

  // And of an atomic close.
  ghost predicate Closes(m: map<string, Item>, n: nat, handle: int, c: Core, m': map<string, Item>, pc': Pc) {
    match Promise(pc')
    case Some(out) => AtomicClose(m, n, handle, c, m', out.ret)
    case None => false
  }

  // The scan step is an atomic open, clearing the bit is an atomic close, a call that is
  // refused before it takes the lock is one that fails, and every other event leaves the map
  // of names as it is.
  ghost predicate Simulates(s: Sys, ev: Event)
    requires Inv(s) && Inv(Next(s, ev))
  {
    var s' := Next(s, ev);
    var m, m', n, pc, pc' := Abs(View(s)), Abs(View(s')), |s.reg.entries|, s.pc[ev.c], s'.pc[ev.c];
    && (ev.Steps? && pc.OpenScan? ==> Opens(m, n, ev.g.mem != 0, pc.name, pc.size, ev.c, m', pc'))
    && (ev.Steps? && pc.CloseClear? ==> Closes(m, n, pc.h, ev.c, m', pc'))
    && (ev.Starts? && ev.call.CallOpen? && pc.Idle? && pc'.Idle? ==>
          Opens(m, n, true, ev.call.name, ev.call.size, ev.c, m', pc'))
    && (ev.Starts? && ev.call.CallClose? && pc.Idle? && pc'.Idle? ==> Closes(m, n, ev.call.handle, ev.c, m', pc'))
    && (!(ev.Steps? && (pc.OpenScan? || pc.CloseClear?)) ==> m' == m)
  }

  lemma Refines(s: Sys, ev: Event)
    requires Inv(s) && Allowed(s, ev)
    ensures Inv(Next(s, ev)) && Simulates(s, ev)
  {
    NextInv(s, ev);
    match ev
    case Starts(c, call) =>
      NotBegun(s, c, call);
      BegunInv(s, Begin(s, c, call), c);
      if call.CallClose? && s.pc[c].Idle? && Begin(s, c, call).pc[c].Idle? {
        RefusedClose(s, c, call.handle);
      }
    case Steps(c, g) =>
      if s.pc[c].OpenScan? {
        ScanRefines(s, c, g);
      } else if s.pc[c].CloseClear? {
        ClearRefines(s, c, g);
      } else if s.pc[c].XferCopy? {
        CopyRefines(s, c, g);
      } else {
        StepView(s, c, g);
      }
  }

  // Every event of every run.
  lemma {:induction false} RunRefines(s: Sys, evs: seq<Event>, k: nat)
    requires Inv(s) && AllowedRun(s, evs) && k < |evs|
    ensures var t := Exec(s, evs[..k]); Inv(t) && Inv(Next(t, evs[k])) && Simulates(t, evs[k])
    decreases |evs|
  {
    assert |s.pc| == 2;
    hide Inv;
    hide Simulates;
    hide Allowed;
    if k == 0 {
      Refines(s, evs[0]);
    } else {
      NextInv(s, evs[0]);
      RunRefines(Next(s, evs[0]), evs[1..], k - 1);
      assert evs[..k][1..] == evs[1..][..k - 1];
    }
  }

  lemma RefusedClose(s: Sys, c: Core, handle: int)
    requires Inv(s) && s.pc[c].Idle? && Begin(s, c, CallClose(handle)).pc[c].Idle?
    ensures Closes(Abs(View(s)), |s.reg.entries|, handle, c, Abs(View(s)), Begin(s, c, CallClose(handle)).pc[c])
  {
    ViewBits(s, c);
    var reg, m := View(s), Abs(View(s));
    assert Good(reg);
    hide Good;
    hide View;
    hide Abs;
    hide NamesDiffer;
    forall n | n in m && m[n].id == handle ensures c !in m[n].cores {
      AbsEntry(reg, n);
    }
  }

  // Pending writes never hide or show the bit of the core that is not writing.
  lemma ViewBits(s: Sys, c: Core)
    requires Inv(s) && !InCs(s.pc[c])
    ensures |View(s).entries| == |s.reg.entries|
    ensures forall h | 0 <= h < |s.reg.entries| :: c in View(s).entries[h].open <==> c in s.reg.entries[h].open
  {
    hide Good;
    hide NamesDiffer;
    hide Sized;
  }

  lemma ScanRefines(s: Sys, c: Core, g: Grant)
    requires Inv(s) && s.pc[c].OpenScan? && Allowed(s, Steps(c, g)) && Inv(Step(s, c, g))
    ensures var s', pc := Step(s, c, g), s.pc[c];
      Opens(Abs(View(s)), |s.reg.entries|, g.mem != 0, pc.name, pc.size, c, Abs(View(s')), s'.pc[c])
  {
    ScanStep(s, c, g);
    assert 0 < s.pc[c].size && |s.pc[c].name| < NAME_MAX;
    hide Good;
    hide NamesDiffer;
    hide Sized;
    hide Abs;
    hide Knows;
    hide Step;
    ViewOutside(Step(s, c, g), c);
    var pc := s.pc[c];
    OpenIsAtomic(s.reg, pc.name, pc.size, c, g);
  }

  lemma ClearRefines(s: Sys, c: Core, g: Grant)
    requires Inv(s) && s.pc[c].CloseClear? && Inv(Step(s, c, g))
    ensures var s' := Step(s, c, g); Closes(Abs(View(s)), |s.reg.entries|, s.pc[c].h, c, Abs(View(s')), s'.pc[c])
  {
    ClearStep(s, c, g);
    hide Good;
    hide NamesDiffer;
    hide Sized;
    hide Abs;
    hide Knows;
    hide Step;
    ViewOutside(Step(s, c, g), c);
    CloseIsAtomic(s.reg, s.pc[c].h, c);
  }

  lemma CopyRefines(s: Sys, c: Core, g: Grant)
    requires Inv(s) && s.pc[c].XferCopy? && Inv(Step(s, c, g))
    ensures Abs(View(Step(s, c, g))) == Abs(View(s))
  {
    CopyViews(s, c, g);
    hide Step;
    hide View;
    hide Abs;
    hide SameItem;
    PutSame(s.reg, s.pc[c].h, Step(s, c, g).reg.entries[s.pc[c].h]);
  }

  lemma CopyViews(s: Sys, c: Core, g: Grant)
    requires Inv(s) && s.pc[c].XferCopy? && Inv(Step(s, c, g))
    ensures var s', h := Step(s, c, g), s.pc[c].h;
      && View(s) == s.reg && View(s') == s'.reg
      && h < |s.reg.entries| && s.reg.entries[h].open != {} && h < |s'.reg.entries|
      && s'.reg == Put(s.reg, h, s'.reg.entries[h]) && SameItem(s.reg.entries[h], s'.reg.entries[h])
      && Good(s.reg) && NamesDiffer(s.reg) && Sized(s.reg)
  {
    CopyStep(s, c, g);
    assert s.reg.entries[s.pc[c].h].open != {};
    hide Good;
    hide NamesDiffer;
    hide Sized;
    hide Step;
    hide SameItem;
    hide Knows;
    ViewOutside(Step(s, c, g), c);
  }

  lemma StepMoves(s: Sys, d: Core, g: Grant)
    requires |s.pc| == 2 && !s.pc[d].Idle? && Knows(s.reg, d, s.pc[d]) && (!InCs(s.pc[d]) ==> !s.lock)
    ensures Step(s, d, g).pc[d] != s.pc[d]
  {
    hide Find;
  }

  // As long as a call is unfinished some core can take a step that changes the state.
  lemma NeverStuck(s: Sys, c: Core, g: Grant)
    requires Inv(s) && !s.pc[c].Idle?
    ensures exists d: Core :: Step(s, d, g) != s
  {
    hide Good;
    hide NamesDiffer;
    hide Sized;
    hide View;
    var d: Core := if InCs(s.pc[1 - c]) then 1 - c else c;
    StepMoves(s, d, g);
    hide Step;
    hide Knows;
  }

  // ---------------------------------------------------------------- a get without one's own bit

  function Nothing(): Grant { Grant(0, []) }

  // Core 1 makes the tests of a get; core 0 closes; core 1 takes the lock.
  function RaceTests(h: nat, n: nat): seq<Event> {
    [Starts(1, CallXfer(h, Fetch(1, n))), Steps(1, Nothing()), Steps(1, Nothing()), Steps(1, Nothing())]
  }

  function RaceErase(h: nat): seq<Event> {
    [Starts(0, CallClose(h)), Steps(0, Nothing()), Steps(0, Nothing()), Steps(0, Nothing()), Steps(0, Nothing())]
  }

  function RaceEnd(): seq<Event> {
    [Steps(0, Nothing()), Steps(0, Nothing()), Steps(1, Nothing())]
  }

  lemma {:induction false} ExecJoin(s: Sys, a: seq<Event>, b: seq<Event>)
    requires |s.pc| == 2
    ensures Exec(s, a + b) == Exec(Exec(s, a), b)
    decreases |a|
  {
    if a == [] {
      assert a + b == b;
    } else {
      assert (a + b)[1..] == a[1..] + b;
      ExecJoin(Next(s, a[0]), a[1..], b);
    }
  }

  // A get tests its peer's bit and not its own. If the caller does not hold the handle, the
  // peer's close can free the memory between those tests and the copy, whatever the registry.
  lemma GetNeedsOwnBit(reg: Reg, h: nat, n: nat)
    requires InOrder(reg) && h < |reg.entries| && reg.entries[h].open == {0} && n > 0
    ensures var s := Exec(Quiet(reg), RaceTests(h, n) + (RaceErase(h) + RaceEnd()));
      && s.pc[1].XferCopy? && s.pc[1].h == h && h < |s.reg.entries|
      && s.pc[1].mem == reg.entries[h].mem != 0 && s.reg.entries[h].mem == 0 && h in s.reg.free
  {
    assert reg.entries[h].mem != 0;
    hide Good;
    hide NamesDiffer;
    hide Sized;
    RaceTested(reg, h, n);
    var s := RaceErased(reg, h, n);
    RaceEnded(s, h, n);
    ExecJoin(Quiet(reg), RaceTests(h, n), RaceErase(h) + RaceEnd());
    ExecJoin(AtLock(reg, h, n), RaceErase(h), RaceEnd());
  }

  function AtLock(reg: Reg, h: nat, n: nat): Sys
    requires h < |reg.entries|
  {
    Sys(reg, false, [Idle(Only(0)), XferLock(h, Fetch(1, n), reg.entries[h].mem, reg.entries[h].length, n)])
  }

  lemma RaceTested(reg: Reg, h: nat, n: nat)
    requires h < |reg.entries| && reg.entries[h].open == {0} && reg.entries[h].mem != 0 && n > 0
    ensures Exec(Quiet(reg), RaceTests(h, n)) == AtLock(reg, h, n)
  {
    var evs := RaceTests(h, n);
    var s1 := Next(Quiet(reg), evs[0]);
    var s2 := Next(s1, evs[1]);
    var s3 := Next(s2, evs[2]);
    var s4 := Next(s3, evs[3]);
    assert s1.pc == [Idle(Only(0)), CheckMem(h, Fetch(1, n))];
    assert s2.pc == [Idle(Only(0)), CheckOpen(h, Fetch(1, n), reg.entries[h].mem)];
    assert s3.pc == [Idle(Only(0)), ReadLength(h, Fetch(1, n), reg.entries[h].mem)];
    assert s4 == AtLock(reg, h, n);
    hide Next;
    assert evs[1..] == [evs[1], evs[2], evs[3]] && evs[1..][1..] == [evs[2], evs[3]];
    assert evs[1..][1..][1..] == [evs[3]] && evs[1..][1..][1..][1..] == [];
    assert Exec(s3, [evs[3]]) == s4;
    assert Exec(s2, [evs[2], evs[3]]) == Exec(s3, [evs[3]]);
    assert Exec(s1, [evs[1], evs[2], evs[3]]) == Exec(s2, [evs[2], evs[3]]);
  }

  lemma RaceErased(reg: Reg, h: nat, n: nat) returns (s5: Sys)
    requires h < |reg.entries| && reg.entries[h].open == {0}
    ensures |s5.pc| == 2 && s5 == Exec(AtLock(reg, h, n), RaceErase(h))
    ensures s5.pc == [CloseUnlink(h), AtLock(reg, h, n).pc[1]]
    ensures |s5.reg.entries| == |reg.entries| && s5.reg.entries[h].mem == 0
  {
    var evs, x := RaceErase(h), AtLock(reg, h, n).pc[1];
    var s1 := Next(AtLock(reg, h, n), evs[0]);
    var s2 := Next(s1, evs[1]);
    var s3 := Next(s2, evs[2]);
    var s4 := Next(s3, evs[3]);
    s5 := Next(s4, evs[4]);
    assert s1.pc == [CloseLock(h), x] && s1.reg == reg;
    assert s2.pc == [CloseClear(h), x] && s2.reg == reg;
    assert s3.pc == [CloseErase(h), x] && |s3.reg.entries| == |reg.entries|;
    assert s4.pc == [CloseFree(h), x];
    assert s5.pc == [CloseUnlink(h), x] && s5.reg.entries[h].mem == 0;
    hide Next;
    var e1, e2, e3, e4 := evs[1..], evs[2..], evs[3..], evs[4..];
    assert e1[1..] == e2 && e2[1..] == e3 && e3[1..] == e4 && e4[1..] == [];
    assert Exec(s4, e4) == s5;
    assert Exec(s2, e2) == Exec(s3, e3) == Exec(s4, e4);
    assert Exec(AtLock(reg, h, n), evs) == Exec(s1, e1) == Exec(s2, e2);
  }

  lemma RaceEnded(s: Sys, h: nat, n: nat)
    requires |s.pc| == 2 && s.pc[0] == CloseUnlink(h) && s.pc[1].XferLock? && s.pc[1].h == h
    requires h < |s.reg.entries| && s.reg.entries[h].mem == 0
    ensures var r := Exec(s, RaceEnd());
      && r.pc[1].XferCopy? && r.pc[1].h == h && r.pc[1].mem == s.pc[1].mem
      && h < |r.reg.entries| && r.reg.entries[h].mem == 0 && h in r.reg.free
  {
    var evs := RaceEnd();
    var s1 := Next(s, evs[0]);
    var s2 := Next(s1, evs[1]);
    var s3 := Next(s2, evs[2]);
    assert s1.pc == [Leave(Only(0)), s.pc[1]] && s1.reg.entries == s.reg.entries && s1.reg.free[0] == h;
    assert s2.pc == [Idle(Only(0)), s.pc[1]] && !s2.lock && s2.reg == s1.reg;
    assert s3.pc[1].XferCopy? && s3.reg == s1.reg;
    hide Next;
    assert evs[1..] == [evs[1], evs[2]] && evs[1..][1..] == [evs[2]] && [evs[2]][1..] == [];
    assert Exec(s2, [evs[2]]) == s3;
    assert Exec(s1, [evs[1], evs[2]]) == Exec(s2, [evs[2]]);
  }
}
