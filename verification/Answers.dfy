/** Every call of two cores gets an answer, and a true one: from every state of every run all
    calls under way can be brought to their ends, a transfer that its tests should let through
    is never refused and copies, and a transfer that is refused is told what it could have
    been told by one core alone at some point of the call. There is one exception, and it is
    exact. */
module Answers {
  import opened Words
  import opened Options
  import opened RegistrySpec
  import opened Mailbox
  import opened TwoCores
  import opened Lives

  // ---------------------------------------------------------------- every call ends

  // A core that asks for the lock while it is taken.
  predicate Spins(s: Sys, c: Core)
    requires |s.pc| == 2
  {
    (s.pc[c].OpenLock? || s.pc[c].CloseLock? || s.pc[c].XferLock?) && s.lock
  }

  // A bound on the steps a call has still to make.
  function Rank(pc: Pc): nat {
    match pc
    case Idle(_) => 0
    case Leave(_) => 1
    case OpenMark(_, _) => 2
    case CreateMem(_, _, _, _) => 2
    case CreateOpen(_, _, _, _) => 3
    case CreateLink(_, _, _, _) => 4
    case OpenScan(_, _) => 5
    case OpenLock(_, _) => 6
    case CloseUnlink(_) => 2
    case CloseFree(_) => 3
    case CloseErase(_) => 4
    case CloseClear(_) => 5
    case CloseLock(_) => 6
    case XferCopy(_, _, _, _, _) => 2
    case XferLock(_, _, _, _, _) => 3
    case ReadLength(_, _, _) => 4
    case CheckOpen(_, _, _) => 5
    case CheckMem(_, _) => 6
    case CheckLength(_, _) => 7
  }

  lemma InsideGetsOn(s: Sys, c: Core, g: Grant)
    requires |s.pc| == 2 && InCs(s.pc[c]) && Knows(s.reg, c, s.pc[c])
    ensures var s' := Step(s, c, g); |s'.pc| == 2 && s'.pc[1 - c] == s.pc[1 - c] && Rank(s'.pc[c]) < Rank(s.pc[c])
  {
    hide Find;
    hide Marked;
    hide Unmarked;
    hide Drop;
    hide Copied;
    hide Got;
  }

  lemma OutsideGetsOn(s: Sys, c: Core, g: Grant)
    requires |s.pc| == 2 && !InCs(s.pc[c]) && Knows(s.reg, c, s.pc[c])
    ensures var s' := Step(s, c, g);
      && |s'.pc| == 2 && s'.pc[1 - c] == s.pc[1 - c]
      && (if s.pc[c].Idle? || Spins(s, c) then s' == s else Rank(s'.pc[c]) < Rank(s.pc[c]))
  {
  }

  // A step of a core that neither waits for the lock nor is outside any call brings its call
  // nearer to its end. A core that waits changes nothing.
  lemma StepGetsOn(s: Sys, c: Core, g: Grant)
    requires Inv(s)
    ensures var s' := Step(s, c, g);
      && |s'.pc| == 2 && s'.pc[1 - c] == s.pc[1 - c]
      && (if s.pc[c].Idle? || Spins(s, c) then s' == s else Rank(s'.pc[c]) < Rank(s.pc[c]))
  {
    hide Good;
    hide NamesDiffer;
    hide Sized;
    hide View;
    hide Knows;
    hide Step;
    if InCs(s.pc[c]) {
      InsideGetsOn(s, c, g);
    } else {
      OutsideGetsOn(s, c, g);
    }
    hide Rank;
  }

  // As long as a call is unfinished some core is neither outside nor waiting.
  lemma SomeoneGetsOn(s: Sys) returns (c: Core)
    requires Inv(s) && !(s.pc[0].Idle? && s.pc[1].Idle?)
    ensures !s.pc[c].Idle? && !Spins(s, c)
  {
    hide Good;
    hide NamesDiffer;
    hide Sized;
    hide View;
    hide Knows;
    c := if InCs(s.pc[1]) || s.pc[0].Idle? then 1 else 0;
  }

  // From every state of every run both cores can be brought to the end of their calls, and
  // then the lock is free.
  lemma {:induction false} CanFinish(s: Sys) returns (evs: seq<Event>)
    requires Inv(s)
    ensures AllowedRun(s, evs) && forall i | 0 <= i < |evs| :: evs[i].Steps?
    ensures var r := Exec(s, evs); Inv(r) && r.pc[0].Idle? && r.pc[1].Idle? && !r.lock
    decreases Rank(s.pc[0]) + Rank(s.pc[1])
  {
    if s.pc[0].Idle? && s.pc[1].Idle? {
      evs := [];
      hide Good;
      hide NamesDiffer;
      hide Sized;
    } else {
      var c := SomeoneGetsOn(s);
      var ev := Steps(c, Nothing());
      assert Allowed(s, ev);
      StepGetsOn(s, c, Nothing());
      NextInv(s, ev);
      hide Inv;
      hide Step;
      hide Rank;
      var rest := CanFinish(Next(s, ev));
      evs := [ev] + rest;
      assert evs[1..] == rest && evs[0] == ev;
    }
  }

  // These steps of the two cores bring both to the end of their calls and free the lock.
  ghost predicate Ends(s: Sys, rest: seq<Event>)
    requires |s.pc| == 2
  {
    && AllowedRun(s, rest) && (forall i | 0 <= i < |rest| :: rest[i].Steps?)
    && var r := Exec(s, rest); r.pc[0].Idle? && r.pc[1].Idle? && !r.lock
  }

  lemma EveryRunEnds(reg: Reg, evs: seq<Event>)
    requires InOrder(reg) && AllowedRun(Quiet(reg), evs)
    ensures exists rest :: Ends(Exec(Quiet(reg), evs), rest)
  {
    RunInv(Quiet(reg), evs);
    hide Exec;
    var rest := CanFinish(Exec(Quiet(reg), evs));
    hide Inv;
    assert Ends(Exec(Quiet(reg), evs), rest);
  }

  // ---------------------------------------------------------------- accepted transfers copy

  // Before its lock a transfer is only looking.
  predicate Looks(pc: Pc) {
    pc.CheckLength? || pc.CheckMem? || pc.CheckOpen? || pc.ReadLength? || pc.XferLock?
  }

  // An entry whose bit a core holds has memory, whatever the other core is about to write.
  lemma HeldHasMemory(s: Sys, c: Core, h: nat)
    requires Inv(s) && !InCs(s.pc[c]) && h < |s.reg.entries| && c in s.reg.entries[h].open
    ensures s.reg.entries[h].mem != 0 && s.reg.entries[h].length > 0
  {
    ViewBits(s, c);
    assert h in View(s).busy && BusyEntry(View(s).entries[h]);
    hide NamesDiffer;
    hide Sized;
  }

  // A transfer whose tests hold of the entry is never refused: by the core that holds the
  // handle, with an offset below the length and, for a get, the peer's bit set.
  lemma HolderNotRefused(s: Sys, c: Core, g: Grant)
    requires Inv(s) && Looks(s.pc[c])
    requires var pc := s.pc[c];
      pc.h < |s.reg.entries| && c in s.reg.entries[pc.h].open && Tested(pc.x) in s.reg.entries[pc.h].open
      && (HasOffset(pc.x) ==> pc.x.off < s.reg.entries[pc.h].length)
    ensures var pc' := Step(s, c, g).pc[c]; (Looks(pc') || pc'.XferCopy?) && pc'.h == s.pc[c].h && pc'.x == s.pc[c].x
  {
    HeldHasMemory(s, c, s.pc[c].h);
    hide Good;
    hide NamesDiffer;
    hide Sized;
    hide View;
  }

  // The steps of a transfer that meets no one.
  function Solo(c: Core, k: nat): (evs: seq<Event>)
    ensures |evs| == k
    ensures k > 0 ==> evs[0] == Steps(c, Nothing()) && evs[1..] == Solo(c, k - 1)
  {
    if k == 0 then [] else [Steps(c, Nothing())] + Solo(c, k - 1)
  }

  function Copying(s: Sys, c: Core, h: nat, x: Xfer): Sys
    requires |s.pc| == 2 && h < |s.reg.entries|
  {
    var e := s.reg.entries[h];
    Sys(s.reg, true, s.pc[c := XferCopy(h, x, e.mem, e.length, SizeOf(x, e.length))])
  }

  // With the lock free and nothing against it a transfer under way reaches its copy.
  lemma ReachesCopy(s: Sys, c: Core, h: nat, x: Xfer)
    requires |s.pc| == 2 && !s.lock && s.pc[c] == CheckMem(h, x) && h < |s.reg.entries|
    requires s.reg.entries[h].mem != 0 && Tested(x) in s.reg.entries[h].open
    ensures Exec(s, Solo(c, 4)) == Copying(s, c, h, x)
  {
    var e := s.reg.entries[h];
    var s1 := Step(s, c, Nothing());
    var s2 := Step(s1, c, Nothing());
    var s3 := Step(s2, c, Nothing());
    var s4 := Step(s3, c, Nothing());
    assert s1 == s.(pc := s.pc[c := CheckOpen(h, x, e.mem)]);
    assert s2 == s.(pc := s.pc[c := ReadLength(h, x, e.mem)]);
    assert s3 == s.(pc := s.pc[c := XferLock(h, x, e.mem, e.length, SizeOf(x, e.length))]);
    assert s4 == Copying(s, c, h, x);
    hide Step;
    assert Exec(s3, Solo(c, 1)) == Exec(s4, []);
    assert Exec(s2, Solo(c, 2)) == Exec(s3, Solo(c, 1));
    assert Exec(s1, Solo(c, 3)) == Exec(s2, Solo(c, 2));
  }

  // And from the copy its end.
  lemma CopyReturns(s: Sys, c: Core, h: nat, x: Xfer)
    requires |s.pc| == 2 && h < |s.reg.entries| && Sound(s.reg.entries[h]) && Sane(x) && UnderWay(c, x)
    requires Off(x) < s.reg.entries[h].length
    ensures var e := s.reg.entries[h];
      Exec(Copying(s, c, h, x), Solo(c, 2)) == Sys(Put(s.reg, h, Apply(e, x)), false, s.pc[c := Idle(Atomically(e, x))])
  {
    var e := s.reg.entries[h];
    CopyIs(e, c, x);
    hide Apply;
    hide Atomically;
    hide Copied;
    hide Got;
    hide SizeOf;
    var s0 := Copying(s, c, h, x);
    var s1 := Step(s0, c, Nothing());
    var s2 := Step(s1, c, Nothing());
    assert s1 == Sys(Put(s.reg, h, Apply(e, x)), true, s.pc[c := Leave(Atomically(e, x))]);
    assert s2 == Sys(Put(s.reg, h, Apply(e, x)), false, s.pc[c := Idle(Atomically(e, x))]);
    hide Step;
    assert Exec(s1, Solo(c, 1)) == Exec(s2, []);
  }

  // So with the lock free a call that no test is against copies and ends with the copied
  // outcome, exactly as the call made alone.
  lemma AcceptedCopies(s: Sys, c: Core, h: nat, x: Xfer) returns (looks: seq<Event>)
    requires Inv(s) && !s.lock && s.pc[c].Idle? && h < |s.reg.entries| && Sound(s.reg.entries[h])
    requires Refused(s.reg, h, x).None? && MayCall(s.reg, c, h, x)
    ensures var e := s.reg.entries[h];
      && Exec(s, looks) == Copying(s, c, h, x)
      && Exec(s, looks + Solo(c, 2)) == Sys(Put(s.reg, h, Apply(e, x)), false, s.pc[c := Idle(Atomically(e, x))])
  {
    var s1 := Next(s, Starts(c, CallXfer(h, x)));
    assert Off(x) < s.reg.entries[h].length by {
      assert View(s) == s.reg && Good(s.reg);
      RefusedExactly(s.reg, h, x);
      assert h in s.reg.busy && BusyEntry(s.reg.entries[h]);
    }
    hide Inv;
    if HasOffset(x) {
      looks := [Starts(c, CallXfer(h, x)), Steps(c, Nothing())] + Solo(c, 4);
      assert s1 == s.(pc := s.pc[c := CheckLength(h, x)]);
      var s2 := Step(s1, c, Nothing());
      assert s2 == s.(pc := s.pc[c := CheckMem(h, x)]);
      hide Step;
      ReachesCopy(s2, c, h, x);
      assert looks[1..] == [Steps(c, Nothing())] + Solo(c, 4) && looks[1..][1..] == Solo(c, 4);
      assert Exec(s, looks) == Exec(s1, looks[1..]) == Exec(s2, Solo(c, 4));
      assert Copying(s2, c, h, x) == Copying(s, c, h, x);
    } else {
      looks := [Starts(c, CallXfer(h, x))] + Solo(c, 4);
      assert s1 == s.(pc := s.pc[c := CheckMem(h, x)]);
      hide Step;
      ReachesCopy(s1, c, h, x);
      assert looks[1..] == Solo(c, 4);
      assert Exec(s, looks) == Exec(s1, Solo(c, 4));
      assert Copying(s1, c, h, x) == Copying(s, c, h, x);
    }
    CopyReturns(s, c, h, x);
    ExecJoin(s, looks, Solo(c, 2));
  }

  // ---------------------------------------------------------------- refusals are true

  // regs[c] is the registry as it was in memory at every point of core c's latest call, up to
  // now.
  function Watched(regs: seq<seq<Reg>>, s: Sys, ev: Event): (r: seq<seq<Reg>>)
    requires |s.pc| == 2 && |regs| == 2
    ensures |r| == 2
  {
    var reg := Next(s, ev).reg;
    seq(2, c requires 0 <= c < 2 =>
      if ev.Starts? && ev.c == c && s.pc[c].Idle? then [reg] else regs[c] + [reg])
  }

  function WatchedAfter(regs: seq<seq<Reg>>, s: Sys, evs: seq<Event>): (r: seq<seq<Reg>>)
    requires |s.pc| == 2 && |regs| == 2
    ensures |r| == 2
    decreases |evs|
  {
    if evs == [] then regs else WatchedAfter(Watched(regs, s, evs[0]), Next(s, evs[0]), evs[1..])
  }

  // The call, made alone at one of these points, would have been refused like this.
  ghost predicate Saw(regs: seq<Reg>, h: nat, x: Xfer, ret: int) {
    exists i | 0 <= i < |regs| :: Refused(regs[i], h, x) == Some(ret)
  }

  lemma SawMore(regs: seq<Reg>, reg: Reg, h: nat, x: Xfer, ret: int)
    ensures Saw(regs + [reg], h, x, ret) <==> Saw(regs, h, x, ret) || Refused(reg, h, x) == Some(ret)
  {
    var more := regs + [reg];
    assert more[|regs|] == reg && forall i | 0 <= i < |regs| :: more[i] == regs[i];
  }

  // The core is writing a new entry at h whose memory is not there yet.
  predicate Creating(pc: Pc, h: nat) {
    (pc.CreateOpen? || pc.CreateMem?) && pc.h == h
  }

  // A send that does not hold its handle and is past one of its tests has seen a point at
  // which it is NOT_OPEN, or is about to.
  ghost predicate Expects(s: Sys, regs: seq<Reg>, c: Core)
    requires |s.pc| == 2
  {
    var pc := s.pc[c];
    (pc.CheckMem? && HasOffset(pc.x)) || pc.CheckOpen? ==>
      pc.h < |s.reg.entries| &&
      (pc.x.Fetch? || pc.x.Look? || c in s.reg.entries[pc.h].open || Saw(regs, pc.h, pc.x, NOT_OPEN)
       || (pc.CheckMem? && Creating(s.pc[1 - c], pc.h) && pc.x.off < s.reg.entries[pc.h].length))
  }

  ghost predicate Watching(s: Sys, regs: seq<seq<Reg>>) {
    && |s.pc| == 2 && |regs| == 2
    && forall c: Core :: regs[c] != [] && regs[c][|regs[c]| - 1] == s.reg && Expects(s, regs[c], c)
  }

  // An entry with a length and no memory is being created.
  lemma LengthWithoutMemory(s: Sys, c: Core, h: nat)
    requires Inv(s) && !InCs(s.pc[c]) && h < |s.reg.entries|
    requires s.reg.entries[h].length > 0 && s.reg.entries[h].mem == 0
    ensures Creating(s.pc[1 - c], h)
  {
    var v, d := View(s), 1 - c;
    assert Good(v);
    assert h < |v.entries| && (BusyEntry(v.entries[h]) || FreeEntry(v.entries[h])) by {
      hide NamesDiffer;
      hide Sized;
      hide BusyEntry;
      hide FreeEntry;
    }
    hide Good;
    hide NamesDiffer;
    hide Sized;
    assert v == if InCs(s.pc[d]) then Complete(s.reg, d, s.pc[d]) else s.reg;
    hide View;
    if InCs(s.pc[d]) && !s.pc[d].OpenScan? && !s.pc[d].Leave? && s.pc[d].h == h {
      assert !s.pc[d].XferCopy? ==> Creating(s.pc[d], h);
    }
  }

  // What the first two tests make of a transfer.
  lemma Tests(s: Sys, c: Core, g: Grant)
    requires |s.pc| == 2 && (s.pc[c].CheckLength? || s.pc[c].CheckMem?) && s.pc[c].h < |s.reg.entries|
    ensures var s', pc := Step(s, c, g), s.pc[c];
      var e := s.reg.entries[pc.h];
      && |s'.pc| == 2 && s'.reg == s.reg && s'.pc[1 - c] == s.pc[1 - c]
      && (if pc.CheckLength? then
            s'.pc[c] == if e.length <= Off(pc.x) then Idle(Only(LENGTH_ERR)) else CheckMem(pc.h, pc.x)
          else
            s'.pc[c] == if e.mem == 0 then Idle(Only(NULL_MEM)) else CheckOpen(pc.h, pc.x, e.mem))
  {
  }

  lemma NeverExpects(s: Sys, c: Core, g: Grant)
    requires |s.pc| == 2 && !s.pc[c].CheckLength? && !s.pc[c].CheckMem?
    ensures var s' := Step(s, c, g);
      |s'.pc| == 2 && ((!s'.pc[c].CheckOpen? && !s'.pc[c].CheckMem?) || (s'.pc[c] == s.pc[c] && s'.reg == s.reg))
  {
  }

  // The core's own step.
  lemma OwnExpects(s: Sys, regs: seq<Reg>, c: Core, g: Grant)
    requires Inv(s) && Expects(s, regs, c) && regs != [] && regs[|regs| - 1] == s.reg
    ensures var s' := Step(s, c, g); |s'.pc| == 2 && Expects(s', regs + [s'.reg], c)
  {
    var pc, s' := s.pc[c], Step(s, c, g);
    if pc.CheckLength? || pc.CheckMem? {
      assert pc.h < |s.reg.entries|;
      Tests(s, c, g);
      SawMore(regs, s'.reg, pc.h, pc.x, NOT_OPEN);
      hide Saw;
      hide Step;
      if s'.pc[c].CheckMem? && s.reg.entries[pc.h].mem == 0 {
        LengthWithoutMemory(s, c, pc.h);
      }
      CreatingKnows(s, c);
      assert UnderWay(c, pc.x);
      hide Inv;
    } else {
      NeverExpects(s, c, g);
      hide Step;
      if s'.pc[c] == s.pc[c] && pc.CheckOpen? {
        SawMore(regs, s'.reg, pc.h, pc.x, NOT_OPEN);
      }
      hide Inv;
      hide Saw;
    }
  }

  // An entry that is being created has no memory yet.
  lemma CreatingKnows(s: Sys, c: Core)
    requires |s.pc| == 2 && Inv(s)
    ensures forall h: nat | Creating(s.pc[1 - c], h) :: h < |s.reg.entries| && s.reg.entries[h].mem == 0
  {
    hide Inv;
    PeerKnows(s, 1 - c);
    CreatesWithout(s.reg, 1 - c, s.pc[1 - c]);
    hide Knows;
  }

  lemma CreatesWithout(reg: Reg, d: Core, pc: Pc)
    requires Knows(reg, d, pc)
    ensures forall h: nat | Creating(pc, h) :: h < |reg.entries| && reg.entries[h].mem == 0
  {
    match pc
    case CreateOpen(h, _, _, _) =>
    case CreateMem(h, _, _, _) =>
    case _ =>
  }

  // A step of the other core.
  lemma PeerExpects(s: Sys, regs: seq<Reg>, c: Core, g: Grant)
    requires |s.pc| == 2 && Inv(s) && Expects(s, regs, c)
    ensures var s' := Step(s, 1 - c, g); |s'.pc| == 2 && Expects(s', regs + [s'.reg], c)
  {
    hide Inv;
    hide Expects;
    hide Step;
    hide Respects;
    hide Knows;
    var d, s' := 1 - c, Step(s, 1 - c, g);
    StepRespects(s, d, g);
    StepGetsOn(s, d, g);
    TransferKnows(s, c);
    if s.pc[c].CheckMem? && Creating(s.pc[d], s.pc[c].h) {
      PeerKnows(s, d);
      CreatingStep(s, d, s.pc[c].h, g);
    }
    ExpectsMore(s, s', regs, c);
  }

  lemma PeerKnows(s: Sys, d: Core)
    requires Inv(s)
    ensures Knows(s.reg, d, s.pc[d])
  {
  }

  lemma TransferKnows(s: Sys, c: Core)
    requires Inv(s)
    ensures s.pc[c].CheckMem? || s.pc[c].CheckOpen? ==> UnderWay(c, s.pc[c].x) && s.pc[c].h < |s.reg.entries|
  {
    hide Good;
    hide NamesDiffer;
    hide Sized;
    hide View;
  }

  // What a core expects it goes on expecting, through a step of the other that leaves its bit
  // and what it creates as they are, or gives it its memory.
  lemma ExpectsMore(s: Sys, s': Sys, regs: seq<Reg>, c: Core)
    requires |s.pc| == |s'.pc| == 2 && s'.pc[c] == s.pc[c] && Expects(s, regs, c) && Respects(s.reg, s'.reg, c)
    requires s.pc[c].CheckMem? || s.pc[c].CheckOpen? ==> UnderWay(c, s.pc[c].x)
    requires s.pc[c].CheckMem? && Creating(s.pc[1 - c], s.pc[c].h) ==>
               var h := s.pc[c].h;
               && h < |s.reg.entries| == |s'.reg.entries| && s'.reg.entries[h].length == s.reg.entries[h].length
               && (Creating(s'.pc[1 - c], h) || s'.reg.entries[h].mem != 0)
    ensures Expects(s', regs + [s'.reg], c)
  {
    var pc := s.pc[c];
    if (pc.CheckMem? && HasOffset(pc.x)) || pc.CheckOpen? {
      SawMore(regs, s'.reg, pc.h, pc.x, NOT_OPEN);
      hide Saw;
      hide Creating;
    }
  }

  lemma CreatingStep(s: Sys, d: Core, h: nat, g: Grant)
    requires |s.pc| == 2 && Creating(s.pc[d], h) && Knows(s.reg, d, s.pc[d])
    ensures var s' := Step(s, d, g);
      && |s'.pc| == 2 && h < |s.reg.entries| == |s'.reg.entries| && s'.reg.entries[h].length == s.reg.entries[h].length
      && (Creating(s'.pc[d], h) || s'.reg.entries[h].mem != 0)
  {
  }

  // The beginning of a call, of this core or the other.
  lemma Begins(s: Sys, d: Core, call: Call)
    requires |s.pc| == 2
    ensures var s' := Begin(s, d, call);
      && |s'.pc| == 2 && s'.reg == s.reg && s'.pc[1 - d] == s.pc[1 - d]
      && (!s.pc[d].Idle? ==> s' == s)
      && (s.pc[d].Idle? ==> !s'.pc[d].CheckOpen? && !(s'.pc[d].CheckMem? && HasOffset(s'.pc[d].x)))
  {
  }

  lemma BeginExpects(s: Sys, regs: seq<Reg>, c: Core, d: Core, call: Call)
    requires |s.pc| == 2 && Inv(s) && Expects(s, regs, c) && regs != [] && regs[|regs| - 1] == s.reg
    ensures var s' := Begin(s, d, call);
      && |s'.pc| == 2
      && Expects(s', if c == d && s.pc[c].Idle? then [s'.reg] else regs + [s'.reg], c)
  {
    hide Inv;
    hide Begin;
    hide Saw;
    var s', pc := Begin(s, d, call), s.pc[c];
    Begins(s, d, call);
    if pc.CheckMem? || pc.CheckOpen? {
      SawMore(regs, s'.reg, pc.h, pc.x, NOT_OPEN);
    }
  }

  lemma NextWatching(s: Sys, regs: seq<seq<Reg>>, ev: Event)
    requires Inv(s) && Allowed(s, ev) && Watching(s, regs)
    ensures Watching(Next(s, ev), Watched(regs, s, ev))
  {
    assert |s.pc| == 2;
    hide Inv;
    hide Expects;
    hide Allowed;
    forall c: Core ensures Expects(Next(s, ev), Watched(regs, s, ev)[c], c) {
      NextExpects(s, regs[c], ev, c);
      hide Next;
    }
    hide Next;
  }

  lemma NextExpects(s: Sys, regs: seq<Reg>, ev: Event, c: Core)
    requires |s.pc| == 2 && Inv(s) && Expects(s, regs, c) && regs != [] && regs[|regs| - 1] == s.reg
    ensures var s' := Next(s, ev);
      && |s'.pc| == 2
      && Expects(s', if ev.Starts? && ev.c == c && s.pc[c].Idle? then [s'.reg] else regs + [s'.reg], c)
  {
    hide Inv;
    hide Expects;
    hide Begin;
    hide Step;
    match ev
    case Starts(d, call) =>
      BeginExpects(s, regs, c, d, call);
    case Steps(d, g) =>
      if c == d {
        OwnExpects(s, regs, c, g);
      } else {
        PeerExpects(s, regs, c, g);
      }
  }

  lemma {:induction false} RunWatching(s: Sys, regs: seq<seq<Reg>>, evs: seq<Event>)
    requires Inv(s) && AllowedRun(s, evs) && Watching(s, regs)
    ensures Inv(Exec(s, evs)) && Watching(Exec(s, evs), WatchedAfter(regs, s, evs))
    decreases |evs|
  {
    assert |s.pc| == 2;
    hide Inv;
    hide Watching;
    hide Allowed;
    hide Watched;
    if evs != [] {
      NextInv(s, evs[0]);
      NextWatching(s, regs, evs[0]);
      RunWatching(Next(s, evs[0]), Watched(regs, s, evs[0]), evs[1..]);
    }
  }

  // What a call is told that is refused at once.
  lemma RefusedAtOnce(s: Sys, c: Core, handle: int, x: Xfer)
    requires |s.pc| == 2 && s.pc[c].Idle?
    ensures var pc' := Begin(s, c, CallXfer(handle, x)).pc[c];
      pc'.Idle? ==> exists ret :: pc'.out == Only(ret) && Refused(s.reg, handle, x) == Some(ret)
  {
    var pc' := Begin(s, c, CallXfer(handle, x)).pc[c];
    if pc'.Idle? {
      assert pc'.out == Only(if (x.Fetch? || x.Look?) && x.n == 0 then INVALID else OPEN_ERR);
    }
  }

  // One of the two tests has been overtaken: the length was there when send_offset looked, and
  // the entry was closed before it looked at the memory.
  ghost predicate Overtaken(s: Sys, c: Core)
    requires |s.pc| == 2
  {
    var pc := s.pc[c];
    && pc.CheckMem? && pc.x.PostAt? && pc.h < |s.reg.entries|
    && s.reg.entries[pc.h].mem == 0 && s.reg.entries[pc.h].length <= pc.x.off
  }

  // In every interleaving a transfer that is refused later is told what the same call, made
  // alone at some point of this one, would have been told; only a send_offset whose handle is
  // not held and is closed between its tests is told NULL_MEM where that would be LENGTH_ERR.
  lemma RefusalIsTrue(reg: Reg, evs: seq<Event>, c: Core, g: Grant)
    requires InOrder(reg) && AllowedRun(Quiet(reg), evs)
    ensures var s, regs := Exec(Quiet(reg), evs), WatchedAfter([[reg], [reg]], Quiet(reg), evs);
      Looks(s.pc[c]) && Step(s, c, g).pc[c].Idle? ==>
        var h, x, out := s.pc[c].h, s.pc[c].x, Step(s, c, g).pc[c].out;
        && out == Only(out.ret) && h < |s.reg.entries|
        && (!Overtaken(s, c) ==> Saw(regs[c], h, x, out.ret))
        && (Overtaken(s, c) ==>
              out.ret == NULL_MEM && Refused(s.reg, h, x) == Some(LENGTH_ERR) && c !in s.reg.entries[h].open)
  {
    RunWatching(Quiet(reg), [[reg], [reg]], evs);
    var s, regs := Exec(Quiet(reg), evs), WatchedAfter([[reg], [reg]], Quiet(reg), evs);
    hide Exec;
    hide WatchedAfter;
    if Looks(s.pc[c]) && Step(s, c, g).pc[c].Idle? {
      StepTold(s, regs[c], c, g);
    }
  }

  lemma StepTold(s: Sys, regs: seq<Reg>, c: Core, g: Grant)
    requires Inv(s) && Looks(s.pc[c]) && Step(s, c, g).pc[c].Idle?
    requires Expects(s, regs, c) && regs != [] && regs[|regs| - 1] == s.reg
    ensures var h, x, out := s.pc[c].h, s.pc[c].x, Step(s, c, g).pc[c].out;
      && out == Only(out.ret) && h < |s.reg.entries|
      && (!Overtaken(s, c) ==> Saw(regs, h, x, out.ret))
      && (Overtaken(s, c) ==>
            out.ret == NULL_MEM && Refused(s.reg, h, x) == Some(LENGTH_ERR) && c !in s.reg.entries[h].open)
  {
    var h := s.pc[c].h;
    if h < |s.reg.entries| && c in s.reg.entries[h].open {
      HeldHasMemory(s, c, h);
    }
    hide Good;
    hide NamesDiffer;
    hide Sized;
    hide View;
  }

  // ---------------------------------------------------------------- the exception

  lemma OneMore(s: Sys, regs: seq<seq<Reg>>, ev: Event, evs: seq<Event>)
    requires |s.pc| == 2 && |regs| == 2
    ensures Exec(s, [ev] + evs) == Exec(Next(s, ev), evs)
    ensures WatchedAfter(regs, s, [ev] + evs) == WatchedAfter(Watched(regs, s, ev), Next(s, ev), evs)
    ensures AllowedRun(s, [ev] + evs) <==> Allowed(s, ev) && AllowedRun(Next(s, ev), evs)
  {
    assert ([ev] + evs)[1..] == evs;
  }

  // None of the points of core 1's call so far says NULL_MEM.
  ghost predicate NeverNull(regs: seq<seq<Reg>>, h: nat, x: Xfer) {
    |regs| == 2 && !Saw(regs[1], h, x, NULL_MEM)
  }

  // A step of core 0 that leaves an entry with memory, or without length.
  lemma StaysNeverNull(s: Sys, regs: seq<seq<Reg>>, ev: Event, h: nat, x: Xfer)
    requires |s.pc| == 2 && NeverNull(regs, h, x) && ev.c == 0 && x.PostAt?
    requires var reg := Next(s, ev).reg;
      h < |reg.entries| && (reg.entries[h].mem != 0 || reg.entries[h].length <= x.off)
    ensures NeverNull(Watched(regs, s, ev), h, x)
  {
    SawMore(regs[1], Next(s, ev).reg, h, x, NULL_MEM);
  }

  // Core 0 on its way through the last close of entry h.
  ghost predicate ClosingLast(s: Sys, h: nat) {
    && |s.pc| == 2 && h < |s.reg.entries|
    && var e, pc := s.reg.entries[h], s.pc[0];
       match pc
       case CloseLock(k) => k == h && !s.lock && e.open == {0} && e.mem != 0
       case CloseClear(k) => k == h && e.open == {0} && e.mem != 0
       case CloseErase(k) => k == h && e.mem != 0
       case CloseFree(k) => k == h && e.length == 0
       case CloseUnlink(k) => k == h && e.length == 0 && e.mem == 0
       case Leave(out) => e.length == 0 && e.mem == 0
       case Idle(_) => e.length == 0 && e.mem == 0
       case _ => false
  }

  lemma ClosingNext(s: Sys, h: nat)
    requires ClosingLast(s, h)
    ensures var s' := Step(s, 0, Nothing());
      && ClosingLast(s', h) && s'.pc[1] == s.pc[1] && (!s.pc[0].Idle? ==> Rank(s'.pc[0]) < Rank(s.pc[0]))
      && (s'.reg.entries[h].mem != 0 || s'.reg.entries[h].length == 0)
  {
  }

  lemma {:induction false} CloseRuns(s: Sys, regs: seq<seq<Reg>>, h: nat, x: Xfer) returns (evs: seq<Event>)
    requires ClosingLast(s, h) && x.PostAt? && NeverNull(regs, h, x)
    ensures AllowedRun(s, evs) && NeverNull(WatchedAfter(regs, s, evs), h, x)
    ensures var r := Exec(s, evs);
      && r.pc[0].Idle? && r.pc[1] == s.pc[1]
      && h < |r.reg.entries| && r.reg.entries[h].mem == 0 && r.reg.entries[h].length == 0
    decreases Rank(s.pc[0])
  {
    if s.pc[0].Idle? {
      evs := [];
    } else {
      var go := Steps(0, Nothing());
      ClosingNext(s, h);
      StaysNeverNull(s, regs, go, h, x);
      hide ClosingLast;
      hide NeverNull;
      hide Watched;
      hide Step;
      var rest := CloseRuns(Next(s, go), Watched(regs, s, go), h, x);
      OneMore(s, regs, go, rest);
      evs := [go] + rest;
      assert Allowed(s, go);
    }
  }

  // It happens on every registry: core 1 calls send_offset on a handle that only core 0 holds,
  // core 0 closes it, and core 1 is told NULL_MEM. Made alone, at any point of the call, it
  // would have been told NOT_OPEN or LENGTH_ERR. So the refusals of a call are always true if
  // and only if it is not a send_offset on a handle the caller does not hold.
  lemma OvertakenHappens(reg: Reg, h: nat, bytes: seq<byte>, off: nat) returns (evs: seq<Event>)
    requires InOrder(reg) && h < |reg.entries| && reg.entries[h].open == {0}
    requires off < reg.entries[h].length && |bytes| + off < TWO32
    ensures AllowedRun(Quiet(reg), evs)
    ensures var s, regs := Exec(Quiet(reg), evs), WatchedAfter([[reg], [reg]], Quiet(reg), evs);
      && Overtaken(s, 1) && s.pc[1] == CheckMem(h, PostAt(1, bytes, off))
      && Step(s, 1, Nothing()).pc[1] == Idle(Only(NULL_MEM))
      && !Saw(regs[1], h, PostAt(1, bytes, off), NULL_MEM)
  {
    var x := PostAt(1, bytes, off);
    assert reg.entries[h].mem != 0;
    hide Good;
    hide NamesDiffer;
    hide Sized;
    var s, start, go := Quiet(reg), Starts(1, CallXfer(h, x)), Steps(1, Nothing());
    var s1 := Next(s, start);
    var s2 := Next(s1, go);
    var close := Starts(0, CallClose(h));
    var s3 := Next(s2, close);
    assert s1 == s.(pc := [Idle(Only(0)), CheckLength(h, x)]);
    assert s2 == s.(pc := [Idle(Only(0)), CheckMem(h, x)]);
    assert s3 == s.(pc := [CloseLock(h), CheckMem(h, x)]) && ClosingLast(s3, h);
    var regs: seq<seq<Reg>> := [[reg], [reg]];
    var regs1 := Watched(regs, s, start);
    var regs2 := Watched(regs1, s1, go);
    assert regs1[1] == [reg] && regs2[1] == [reg] + [reg];
    assert Refused(reg, h, x) == Some(NOT_OPEN);
    assert NeverNull(regs2, h, x);
    StaysNeverNull(s2, regs2, close, h, x);
    var regs3 := Watched(regs2, s2, close);
    hide Next;
    hide Watched;
    hide NeverNull;
    hide ClosingLast;
    var rest := CloseRuns(s3, regs3, h, x);
    OneMore(s2, regs2, close, rest);
    OneMore(s1, regs1, go, [close] + rest);
    OneMore(s, regs, start, [go] + ([close] + rest));
    evs := [start] + ([go] + ([close] + rest));
  }
}
