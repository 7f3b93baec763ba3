/** The two cores of TwoCores over the blocks of Agreement: what the scan of an open grants is
    what the owner's mod_malloc takes, and the close of an entry frees through the owner's
    mod_free, so the agreement of registry and allocator holds in every interleaving. */
module SharedBlocks {
  import opened Options
  import opened Seqs
  import opened Pools
  import opened RegistrySpec
  import opened Mailbox
  import opened TwoCores
  import A = Agreement
  import L = Layout

  // The system and the allocator of the owner, over a region laid out by base and counts.
  datatype Whole = Whole(s: Sys, hs: seq<Pool>)

  datatype Place = Place(base: nat, counts: seq<nat>, owner: Core)

  ghost predicate Formed(w: Whole, p: Place) {
    |w.s.pc| == 2 && HeapsOrdered(w.hs) && L.Shaped(w.hs, p.counts)
  }

  ghost predicate Creating(s: Sys, ev: Event)
    requires |s.pc| == 2
  {
    ev.Steps? && s.pc[ev.c].OpenScan? && Creates(s.reg, s.pc[ev.c].name, s.pc[ev.c].size)
  }

  ghost predicate Freeing(s: Sys, ev: Event)
    requires |s.pc| == 2
  {
    ev.Steps? && s.pc[ev.c].CloseFree? && s.pc[ev.c].h < |s.reg.entries|
  }

  ghost function NextWhole(w: Whole, p: Place, ev: Event): (r: Whole)
    requires Formed(w, p)
    ensures r.s == Next(w.s, ev)
  {
    var s' := Next(w.s, ev);
    if Creating(w.s, ev) then Whole(s', Malloc(w.hs, w.s.pc[ev.c].size).0)
    else if Freeing(w.s, ev) then
      Whole(s', A.FreePtr(w.hs, p.base, p.counts, w.s.reg.entries[w.s.pc[ev.c].h].mem))
    else Whole(s', w.hs)
  }

  // OWNER and BIG for one step, and grants as mod_malloc makes them.
  ghost predicate Granted(w: Whole, p: Place, ev: Event)
    requires Formed(w, p)
  {
    && Allowed(w.s, ev)
    && (Creating(w.s, ev) ==>
          var size := w.s.pc[ev.c].size;
          && ev.c == p.owner && size > ClassSize(0) - OVERHEAD
          && ev.g.mem == A.GrantOf(p.base, p.counts, Malloc(w.hs, size).1, []).mem)
    && (ev.Steps? && w.s.pc[ev.c].CloseClear? && LastClose(w.s.reg, w.s.pc[ev.c].h, ev.c) ==> ev.c == p.owner)
  }

  // The address a last close has still to free, or 0.
  function Owes(reg: Reg, pc: Pc): nat {
    if (pc.CloseErase? || pc.CloseFree?) && pc.h < |reg.entries| then reg.entries[pc.h].mem else 0
  }

  function OwedBy(s: Sys): nat
    requires |s.pc| == 2
  {
    Owes(s.reg, if InCs(s.pc[0]) then s.pc[0] else s.pc[1])
  }

  // The allocator once that is done.
  ghost function HeapView(w: Whole, p: Place): seq<Pool>
    requires Formed(w, p)
  {
    if OwedBy(w.s) == 0 then w.hs else A.FreePtr(w.hs, p.base, p.counts, OwedBy(w.s))
  }

  // Only the owner is ever about to free.
  predicate OwnerFrees(s: Sys, owner: Core)
    requires |s.pc| == 2
  {
    !s.pc[1 - owner].CloseErase? && !s.pc[1 - owner].CloseFree?
  }

  ghost predicate WholeInv(w: Whole, p: Place) {
    && Formed(w, p) && Inv(w.s) && OwnerFrees(w.s, p.owner)
    && A.Agree(View(w.s), HeapView(w, p), p.base, p.counts)
  }

  // ---------------------------------------------------------------- the steps

  lemma CreatingAgrees(reg: Reg, hs: seq<Pool>, p: Place, name: string, size: nat, core: Core, g: Grant)
    requires A.Agree(reg, hs, p.base, p.counts) && Creates(reg, name, size) && size > ClassSize(0) - OVERHEAD
    requires g.mem == A.GrantOf(p.base, p.counts, Malloc(hs, size).1, []).mem && (g.mem != 0 ==> |g.data| == size)
    ensures A.Agree(Open(reg, name, size, core, g).reg, Malloc(hs, size).0, p.base, p.counts)
  {
    var junk := if g.mem != 0 then g.data else seq(size, _ => 0);
    A.OpenAgrees(reg, hs, p.base, p.counts, name, size, core, junk);
    MallocChoice(hs, size);
  }

  lemma MarkingAgrees(reg: Reg, hs: seq<Pool>, p: Place, name: string, size: nat, core: Core, g: Grant)
    requires A.Agree(reg, hs, p.base, p.counts) && !Creates(reg, name, size)
    ensures A.Agree(Open(reg, name, size, core, g).reg, hs, p.base, p.counts)
  {
    A.MarkAgrees(reg, hs, p.base, p.counts, name, size, core);
    assert Open(reg, name, size, core, g).reg == Open(reg, name, size, core, Grant(0, [])).reg;
  }

  lemma NextFormed(w: Whole, p: Place, ev: Event)
    requires Formed(w, p)
    ensures Formed(NextWhole(w, p, ev), p)
  {
    if Creating(w.s, ev) {
      MallocOrdered(w.hs, w.s.pc[ev.c].size);
    } else if Freeing(w.s, ev) {
      A.FreedReady(w.hs, p.base, p.counts, w.s.reg.entries[w.s.pc[ev.c].h].mem);
    }
    hide HeapsOrdered;
    hide Next;
    hide Malloc;
    hide A.FreePtr;
  }

  // The debt is that of the core inside.
  lemma OwedInside(s: Sys, c: Core)
    requires Inv(s) && InCs(s.pc[c])
    ensures OwedBy(s) == Owes(s.reg, s.pc[c])
  {
    hide Good;
    hide NamesDiffer;
    hide Sized;
    hide View;
    hide Knows;
  }

  lemma ScanOwes(s: Sys, c: Core, g: Grant)
    requires |s.pc| == 2 && s.pc[c].OpenScan?
    ensures var s' := Step(s, c, g); |s'.pc| == 2 && Owes(s'.reg, s'.pc[c]) == 0 && s'.pc[1 - c] == s.pc[1 - c]
    ensures var pc' := Step(s, c, g).pc[c]; !pc'.CloseErase? && !pc'.CloseFree?
  {
    hide Find;
  }

  // What one deciding step is to the registry and to the debt.
  lemma ScanShows(s: Sys, c: Core, g: Grant)
    requires Inv(s) && Allowed(s, Steps(c, g)) && s.pc[c].OpenScan?
    ensures var s', pc := Step(s, c, g), s.pc[c];
      && Inv(s') && Good(s.reg) && View(s) == s.reg && View(s') == Open(s.reg, pc.name, pc.size, c, g).reg
      && OwedBy(s) == 0 && OwedBy(s') == 0
  {
    var s' := Step(s, c, g);
    ScanStep(s, c, g);
    ScanOwes(s, c, g);
    StepInv(s, c, g);
    OwedInside(s, c);
    OwedInside(s', c);
    assert Good(s.reg);
    hide Good;
    hide NamesDiffer;
    hide Sized;
    ViewOutside(s', c);
    hide Inv;
    hide View;
    hide Complete;
    hide Step;
    hide OwedBy;
    hide Find;
    hide Open;
  }

  lemma ScanAgrees(w: Whole, p: Place, c: Core, g: Grant)
    requires WholeInv(w, p) && Granted(w, p, Steps(c, g)) && w.s.pc[c].OpenScan?
    ensures WholeInv(NextWhole(w, p, Steps(c, g)), p)
  {
    hide Inv;
    hide View;
    hide OwedBy;
    hide HeapsOrdered;
    hide L.Shaped;
    hide A.Agree;
    var pc := w.s.pc[c];
    ScanShows(w.s, c, g);
    ScanOwes(w.s, c, g);
    hide Step;
    NextFormed(w, p, Steps(c, g));
    hide Open;
    hide Malloc;
    hide Good;
    if Creates(w.s.reg, pc.name, pc.size) {
      CreatingAgrees(w.s.reg, w.hs, p, pc.name, pc.size, c, g);
    } else {
      MarkingAgrees(w.s.reg, w.hs, p, pc.name, pc.size, c, g);
    }
  }

  lemma ClearOwes(s: Sys, c: Core, g: Grant)
    requires Inv(s) && s.pc[c].CloseClear?
    ensures var s', h := Step(s, c, g), s.pc[c].h;
      && |s'.pc| == 2 && s'.pc[1 - c] == s.pc[1 - c] && h < |s.reg.entries|
      && Owes(s.reg, s.pc[c]) == 0
      && Owes(s'.reg, s'.pc[c]) == (if LastClose(s.reg, h, c) then s.reg.entries[h].mem else 0)
      && (!LastClose(s.reg, h, c) ==> s'.pc[c].Leave?)
  {
    hide Good;
    hide NamesDiffer;
    hide Sized;
    hide View;
  }

  lemma ClearShows(s: Sys, c: Core, g: Grant)
    requires Inv(s) && s.pc[c].CloseClear?
    ensures var s', h := Step(s, c, g), s.pc[c].h;
      && Inv(s') && View(s) == s.reg && h < |s.reg.entries| && View(s') == Close(s.reg, h, c).0
      && OwedBy(s) == 0 && OwedBy(s') == (if LastClose(s.reg, h, c) then s.reg.entries[h].mem else 0)
      && (LastClose(s.reg, h, c) ==> s.reg.entries[h].mem != 0)
  {
    var s' := Step(s, c, g);
    ClearStep(s, c, g);
    ClearOwes(s, c, g);
    StepInv(s, c, g);
    OwedInside(s, c);
    OwedInside(s', c);
    assert Good(s.reg);
    hide NamesDiffer;
    hide Sized;
    assert LastClose(s.reg, s.pc[c].h, c) ==> s.reg.entries[s.pc[c].h].mem != 0;
    hide Good;
    ViewOutside(s', c);
    hide Inv;
    hide View;
    hide Complete;
    hide Step;
    hide OwedBy;
    hide Close;
  }

  lemma ClearAgrees(w: Whole, p: Place, c: Core, g: Grant)
    requires WholeInv(w, p) && Granted(w, p, Steps(c, g)) && w.s.pc[c].CloseClear?
    ensures WholeInv(NextWhole(w, p, Steps(c, g)), p)
  {
    hide Inv;
    hide View;
    hide OwedBy;
    hide HeapsOrdered;
    hide L.Shaped;
    hide A.Agree;
    ClearShows(w.s, c, g);
    ClearOwes(w.s, c, g);
    hide Step;
    NextFormed(w, p, Steps(c, g));
    hide Close;
    hide A.FreePtr;
    A.CloseAgrees(w.s.reg, w.hs, p.base, p.counts, w.s.pc[c].h, c);
  }

  lemma CopyShows(s: Sys, c: Core, g: Grant)
    requires Inv(s) && Allowed(s, Steps(c, g)) && s.pc[c].XferCopy?
    ensures var s', h := Step(s, c, g), s.pc[c].h;
      && Inv(s') && View(s) == s.reg && View(s') == s'.reg && s'.pc[c].Leave? && s'.pc[1 - c] == s.pc[1 - c]
      && h < |s.reg.entries| && s.reg.entries[h].open != {} && h < |s'.reg.entries| && Sized(s.reg)
      && s'.reg == Put(s.reg, h, s'.reg.entries[h]) && SameItem(s.reg.entries[h], s'.reg.entries[h])
      && OwedBy(s) == 0 && OwedBy(s') == 0
  {
    var s' := Step(s, c, g);
    StepInv(s, c, g);
    CopyStep(s, c, g);
    OwedInside(s, c);
    OwedInside(s', c);
    CopyViews(s, c, g);
    hide Inv;
    hide View;
    hide Step;
    hide OwedBy;
    hide Good;
    hide NamesDiffer;
    hide Sized;
  }

  lemma CopyAgrees(w: Whole, p: Place, c: Core, g: Grant)
    requires WholeInv(w, p) && Granted(w, p, Steps(c, g)) && w.s.pc[c].XferCopy?
    ensures WholeInv(NextWhole(w, p, Steps(c, g)), p)
  {
    hide Inv;
    hide View;
    hide OwedBy;
    hide HeapsOrdered;
    hide L.Shaped;
    hide A.Agree;
    CopyShows(w.s, c, g);
    hide Step;
    hide SameItem;
    hide Sized;
    NextFormed(w, p, Steps(c, g));
    A.PutAgree(w.s.reg, w.hs, p.base, p.counts, w.s.pc[c].h, Step(w.s, c, g).reg.entries[w.s.pc[c].h]);
  }

  // Writes inside keep the debt, until the free pays it.
  lemma WritesOwe(s: Sys, c: Core, g: Grant)
    requires |s.pc| == 2 && InCs(s.pc[c]) && Knows(s.reg, c, s.pc[c])
    requires !s.pc[c].OpenScan? && !s.pc[c].CloseClear? && !s.pc[c].XferCopy?
    ensures var s' := Step(s, c, g);
      && |s'.pc| == 2 && s'.pc[1 - c] == s.pc[1 - c]
      && Owes(s'.reg, s'.pc[c]) == (if s.pc[c].CloseFree? then 0 else Owes(s.reg, s.pc[c]))
      && (s'.pc[c].CloseErase? || s'.pc[c].CloseFree? ==> s.pc[c].CloseErase?)
  {
    hide Find;
  }

  lemma ChecksOwe(s: Sys, c: Core, g: Grant)
    requires |s.pc| == 2 && !InCs(s.pc[c])
    ensures var s' := Step(s, c, g);
      && |s'.pc| == 2 && s'.pc[1 - c] == s.pc[1 - c] && s'.reg == s.reg
      && Owes(s'.reg, s'.pc[c]) == 0 && !s'.pc[c].CloseErase? && !s'.pc[c].CloseFree?
  {
  }

  lemma StepOwes(s: Sys, c: Core, g: Grant)
    requires Inv(s) && !s.pc[c].OpenScan? && !s.pc[c].CloseClear? && !s.pc[c].XferCopy?
    ensures var s' := Step(s, c, g);
      && |s'.pc| == 2 && OwedBy(s') == (if s.pc[c].CloseFree? then 0 else OwedBy(s))
      && (s.pc[c].CloseFree? ==> OwedBy(s) == Owes(s.reg, s.pc[c]))
      && forall owner: Core | OwnerFrees(s, owner) :: OwnerFrees(s', owner)
  {
    hide Good;
    hide NamesDiffer;
    hide Sized;
    hide View;
    if InCs(s.pc[c]) {
      WritesOwe(s, c, g);
    } else {
      ChecksOwe(s, c, g);
    }
    hide Step;
    hide Knows;
  }

  // Freeing pays the debt; every other step leaves it as it was.
  lemma RestOwes(w: Whole, p: Place, ev: Event)
    requires Formed(w, p) && Inv(w.s) && Allowed(w.s, ev) && OwnerFrees(w.s, p.owner)
    requires ev.Steps? ==> !w.s.pc[ev.c].OpenScan? && !w.s.pc[ev.c].CloseClear? && !w.s.pc[ev.c].XferCopy?
    requires p.base > 0
    ensures var w' := NextWhole(w, p, ev);
      && OwnerFrees(w'.s, p.owner) && Formed(w', p) && HeapView(w', p) == HeapView(w, p)
  {
    NextFormed(w, p, ev);
    hide HeapsOrdered;
    hide L.Shaped;
    match ev
    case Starts(c, call) =>
      hide Inv;
      StartOwes(w.s, c, call);
    case Steps(c, g) =>
      StepOwes(w.s, c, g);
      NothingAtZero(w.hs, p);
      hide Inv;
      hide Step;
      hide OwedBy;
      hide A.FreePtr;
  }

  lemma StartOwes(s: Sys, c: Core, call: Call)
    requires |s.pc| == 2
    ensures var s' := Begin(s, c, call);
      |s'.pc| == 2 && OwedBy(s') == OwedBy(s) && forall owner: Core | OwnerFrees(s, owner) :: OwnerFrees(s', owner)
  {
  }

  lemma NothingAtZero(hs: seq<Pool>, p: Place)
    requires HeapsOrdered(hs) && L.Shaped(hs, p.counts) && p.base > 0
    ensures A.FreePtr(hs, p.base, p.counts, 0) == hs
  {
  }

  lemma NextAgrees(w: Whole, p: Place, ev: Event)
    requires WholeInv(w, p) && Granted(w, p, ev)
    ensures WholeInv(NextWhole(w, p, ev), p)
  {
    if ev.Steps? && w.s.pc[ev.c].OpenScan? {
      ScanAgrees(w, p, ev.c, ev.g);
    } else if ev.Steps? && w.s.pc[ev.c].CloseClear? {
      ClearAgrees(w, p, ev.c, ev.g);
    } else if ev.Steps? && w.s.pc[ev.c].XferCopy? {
      CopyAgrees(w, p, ev.c, ev.g);
    } else {
      RestAgrees(w, p, ev);
    }
  }

  lemma RestAgrees(w: Whole, p: Place, ev: Event)
    requires WholeInv(w, p) && Granted(w, p, ev)
    requires ev.Steps? ==> !w.s.pc[ev.c].OpenScan? && !w.s.pc[ev.c].CloseClear? && !w.s.pc[ev.c].XferCopy?
    ensures WholeInv(NextWhole(w, p, ev), p)
  {
    NextInv(w.s, ev);
    RestOwes(w, p, ev);
    match ev
    case Starts(c, call) =>
      NotBegun(w.s, c, call);
      BegunInv(w.s, Begin(w.s, c, call), c);
    case Steps(c, g) => StepView(w.s, c, g);
  }

  // ---------------------------------------------------------------- runs

  ghost predicate GrantedRun(w: Whole, p: Place, evs: seq<Event>)
    requires Formed(w, p)
    decreases |evs|
  {
    evs == [] ||
    (Granted(w, p, evs[0]) && (NextFormed(w, p, evs[0]); GrantedRun(NextWhole(w, p, evs[0]), p, evs[1..])))
  }

  ghost function RunWhole(w: Whole, p: Place, evs: seq<Event>): (r: Whole)
    requires Formed(w, p)
    ensures Formed(r, p)
    decreases |evs|
  {
    if evs == [] then w
    else
      NextFormed(w, p, evs[0]);
      RunWhole(NextWhole(w, p, evs[0]), p, evs[1..])
  }

  lemma {:induction false} RunKeeps(w: Whole, p: Place, evs: seq<Event>)
    requires WholeInv(w, p) && GrantedRun(w, p, evs)
    ensures WholeInv(RunWhole(w, p, evs), p)
    decreases |evs|
  {
    assert Formed(w, p);
    hide Granted;
    hide NextWhole;
    if evs != [] {
      NextAgrees(w, p, evs[0]);
      hide WholeInv;
      RunKeeps(NextWhole(w, p, evs[0]), p, evs[1..]);
    }
  }

  // Both cores outside any call, nothing open, every block free.
  ghost function Start(p: Place): (w: Whole)
    requires p.base > 0
    ensures WholeInv(w, p)
  {
    StartAgrees(p);
    var hs := L.FreshHeaps(p.counts);
    Whole(Quiet(A.FreshReg(Blocks(hs))), hs)
  }

  lemma FreshQuiet(n: nat)
    ensures var s := Quiet(A.FreshReg(n)); Inv(s) && View(s) == s.reg && OwedBy(s) == 0
  {
    A.FreshGood(n);
    hide Good;
  }

  lemma StartAgrees(p: Place)
    requires p.base > 0
    ensures var hs := L.FreshHeaps(p.counts); WholeInv(Whole(Quiet(A.FreshReg(Blocks(hs))), hs), p)
  {
    A.FreshAgrees(p.base, p.counts);
    FreshQuiet(Blocks(L.FreshHeaps(p.counts)));
    hide Inv;
    hide View;
    hide OwedBy;
    hide A.FreshReg;
    hide A.EntriesOwn;
    hide A.BlocksOwned;
    hide HeapsOrdered;
    hide Good;
  }

  // The block of an entry lies in the payload of a block of the table, so clear of headers.
  lemma OwnersClear(hs: seq<Pool>, p: Place, e: Entry, t: Spot)
    requires HeapsInv(hs) && A.OwnsSome(hs, p.base, p.counts, e) && L.InTable(p.counts, t)
    ensures L.Apart(e.mem, e.length, L.BlockAddr(p.base, p.counts, t), OVERHEAD)
  {
    var s :| A.Owns(hs, p.base, p.counts, e, s);
    A.LengthFits(hs, s);
    hide HeapsInv;
    if s != t {
      L.BlocksDisjoint(p.base, p.counts, s, t);
    }
  }

  // In every interleaving that keeps OWNER and BIG: when a transfer copies, the block it copies
  // to or from overlaps no other open entry's block, and no header.
  lemma CopiesApart(p: Place, evs: seq<Event>, c: Core, k: nat, t: Spot)
    requires p.base > 0 && GrantedRun(Start(p), p, evs) && L.InTable(p.counts, t)
    ensures var s := RunWhole(Start(p), p, evs).s;
      s.pc[c].XferCopy? ==>
        && s.pc[c].h < |s.reg.entries|
        && var e := s.reg.entries[s.pc[c].h];
           && L.Apart(e.mem, e.length, L.BlockAddr(p.base, p.counts, t), OVERHEAD)
           && (k < |s.reg.entries| && k != s.pc[c].h && s.reg.entries[k].open != {} ==>
                 L.Apart(e.mem, e.length, s.reg.entries[k].mem, s.reg.entries[k].length))
  {
    RunKeeps(Start(p), p, evs);
    var w := RunWhole(Start(p), p, evs);
    hide RunWhole;
    hide GrantedRun;
    hide Start;
    if w.s.pc[c].XferCopy? {
      CopyApart(w, p, c, k, t);
    }
  }

  lemma CopyApart(w: Whole, p: Place, c: Core, k: nat, t: Spot)
    requires WholeInv(w, p) && w.s.pc[c].XferCopy? && L.InTable(p.counts, t)
    ensures var s := w.s;
      && s.pc[c].h < |s.reg.entries|
      && var e := s.reg.entries[s.pc[c].h];
         && L.Apart(e.mem, e.length, L.BlockAddr(p.base, p.counts, t), OVERHEAD)
         && (k < |s.reg.entries| && k != s.pc[c].h && s.reg.entries[k].open != {} ==>
               L.Apart(e.mem, e.length, s.reg.entries[k].mem, s.reg.entries[k].length))
  {
    var s, h := w.s, w.s.pc[c].h;
    CopyStep(s, c, Nothing());
    assert Good(s.reg) && s.reg.entries[h].open != {};
    assert h in s.reg.busy && (k < |s.reg.entries| && s.reg.entries[k].open != {} ==> k in s.reg.busy);
    hide Good;
    hide NamesDiffer;
    hide Sized;
    hide Inv;
    hide Step;
    var hs := HeapView(w, p);
    hide HeapView;
    OwnersClear(hs, p, s.reg.entries[h], t);
    if k < |s.reg.entries| && k != h && s.reg.entries[k].open != {} {
      A.EntriesApart(s.reg, hs, p.base, p.counts, h, k);
    }
  }
}
