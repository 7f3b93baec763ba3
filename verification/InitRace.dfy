/** Two cores running mod_init at the same time on zeroed shared memory, one access to it at a
    time. Each builds its own lists; only the first one in stamps the headers and fills in the
    control area and the registry. */
module InitRace {
  import opened Words
  import opened Pools
  import opened Layout
  import opened RegistrySpec

  // What the parameters of the call and the table compiled into the driver fix.
  datatype Setup = Setup(start: word, length: word, counts: seq<nat>)

  datatype Stamp = Stamp(order: nat, number: nat)

  // The control area, the block headers by address, and how many info entries are threaded.
  datatype Shared = Shared(flag: bool, order: nat, pools: nat, total: nat, table: seq<nat>,
                           headers: map<nat, Stamp>, infos: nat)

  // Where a core is. From Deciding to Leaving it holds s_mod_lock. local says that it found
  // the flag set; (i, j) is the block it carves next. Astray: the next block does not lie in
  // the region behind the control area, and what the core overwrites from there on is no
  // part of this model.
  datatype Pc =
    | Locking
    | Deciding
    | Carving(local: bool, counts: seq<nat>, i: nat, j: nat)
    | Astray(local: bool)
    | Flagging
    | Threading(k: nat)
    | Copying(k: nat)
    | Leaving(ok: bool, local: bool)
    | Done(ok: bool, local: bool)

  // place[i][j] is the address this core's list node for block j of class i points to.
  datatype Local = Local(pc: Pc, place: seq<seq<nat>>)

  datatype Sys = Sys(shared: Shared, lock: bool, cores: seq<Local>)

  predicate InCs(pc: Pc) { !pc.Locking? && !pc.Done? }

  // The core found the flag set, and has not failed.
  predicate IsLocal(pc: Pc) {
    (pc.Carving? && pc.local) || ((pc.Leaving? || pc.Done?) && pc.ok && pc.local)
  }

  // The core took the first-time branch, and has not failed.
  predicate IsFirst(pc: Pc) {
    || (pc.Carving? && !pc.local) || pc.Flagging? || pc.Threading? || pc.Copying?
    || ((pc.Leaving? || pc.Done?) && pc.ok && !pc.local)
  }

  const MAX_POOLS: nat := 100

  function Zeroed(): Shared { Shared(false, 0, 0, 0, seq(MAX_POOLS, _ => 0), map[], 0) }

  function Start(): Sys { Sys(Zeroed(), false, [Local(Locking, []), Local(Locking, [])]) }

  // The checks of mod_mem_init.
  predicate Passes(u: Setup, counts: seq<nat>) {
    |counts| <= TOTAL_POOLS && LengthAsserted(u.start, u.length, counts) && SizeChecked(u.start, u.length, counts)
  }

  function Begin(counts: seq<nat>): seq<seq<nat>> { if counts == [] then [] else [[]] }

  function Decide(s: Shared, u: Setup): Local {
    if s.flag then
      if s.order != START_ORDER || s.pools != TOTAL_POOLS || |s.table| < TOTAL_POOLS then
        Local(Leaving(false, true), [])
      else
        Enter(true, s.table[..TOTAL_POOLS], u)
    else
      Enter(false, u.counts, u)
  }

  // mod_mem_init up to its loop.
  function Enter(local: bool, counts: seq<nat>, u: Setup): Local {
    if Passes(u, counts) then Local(Carving(local, counts, 0, 0), Begin(counts)) else Local(Leaving(false, local), [])
  }

  // The int that mod_mem_init_heap returns for pool i.
  function PoolReturn(counts: seq<nat>, i: nat): int
    requires i < |counts|
  {
    ToInt(Wrap(PoolSize(counts, i)))
  }

  predicate InRegion(u: Setup, addr: nat, size: nat) {
    u.start + CONTROL_SIZE <= addr && addr + size <= u.start + u.length
  }

  function Put(place: seq<seq<nat>>, i: nat, addr: nat): seq<seq<nat>> {
    if i < |place| then place[i := place[i] + [addr]] else place
  }

  // The next access of one core.
  function Access(s: Shared, l: Local, u: Setup): (Shared, Local) {
    match l.pc
    case Deciding => (s, Decide(s, u))
    case Carving(local, counts, i, j) =>
      if i >= |counts| then (s, l.(pc := if local then Leaving(true, true) else Flagging))
      else if j >= counts[i] then
        if PoolReturn(counts, i) < 0 then (s, l.(pc := Leaving(false, local)))
        else (s, Local(Carving(local, counts, i + 1, 0), if i + 1 < |counts| then l.place + [[]] else l.place))
      else
        var addr := BlockAddr(PoolBase(u.start, counts), counts, Spot(i, j));
        if !InRegion(u, addr, ClassSize(i)) then (s, l.(pc := Astray(local)))
        else
          (if local then s else s.(headers := s.headers[addr := Stamp(START_ORDER + i, j)]),
           Local(Carving(local, counts, i, j + 1), Put(l.place, i, addr)))
    case Flagging =>
      (s.(flag := true, order := START_ORDER, pools := TOTAL_POOLS, total := Wrap(Layout.Blocks(u.counts))),
       l.(pc := Threading(0)))
    case Threading(k) =>
      if k < s.total then (s.(infos := s.infos + 1), l.(pc := Threading(k + 1))) else (s, l.(pc := Copying(0)))
    case Copying(k) =>
      if k < |u.counts| && k < |s.table| then (s.(table := s.table[k := u.counts[k]]), l.(pc := Copying(k + 1)))
      else (s, l.(pc := Leaving(true, false)))
    case _ => (s, l)
  }

  function Step(s: Sys, c: Core, u: Setup): (r: Sys)
    requires |s.cores| == 2
    ensures |r.cores| == 2
  {
    var l := s.cores[c];
    match l.pc
    case Locking => if s.lock then s else s.(lock := true, cores := s.cores[c := l.(pc := Deciding)])
    case Leaving(ok, local) => s.(lock := false, cores := s.cores[c := l.(pc := Done(ok, local))])
    case Done(_, _) => s
    case _ => var (shared, l') := Access(s.shared, l, u); Sys(shared, s.lock, s.cores[c := l'])
  }

  function Exec(s: Sys, schedule: seq<Core>, u: Setup): (r: Sys)
    requires |s.cores| == 2
    ensures |r.cores| == 2
    decreases |schedule|
  {
    if schedule == [] then s else Exec(Step(s, schedule[0], u), schedule[1..], u)
  }

  // ---------------------------------------------------------------- what it comes to

  function Row(u: Setup, i: nat, n: nat): seq<nat>
    requires i < |u.counts|
  {
    seq(n, j requires 0 <= j < n => BlockAddr(PoolBase(u.start, u.counts), u.counts, Spot(i, j)))
  }

  function Rows(u: Setup, n: nat): seq<seq<nat>>
    requires n <= |u.counts|
  {
    seq(n, i requires 0 <= i < n => Row(u, i, u.counts[i]))
  }

  // The rows carved when block (i, j) is next.
  function Placed(u: Setup, i: nat, j: nat): seq<seq<nat>>
    requires i <= |u.counts|
  {
    if i < |u.counts| then Rows(u, i) + [Row(u, i, j)] else Rows(u, i)
  }

  // Every block before (i, j) has its header.
  ghost predicate Stamped(headers: map<nat, Stamp>, u: Setup, i: nat, j: nat) {
    forall s | InTable(u.counts, s) && (s.i < i || (s.i == i && s.j < j)) ::
      var addr := BlockAddr(PoolBase(u.start, u.counts), u.counts, s);
      addr in headers && headers[addr] == Stamp(START_ORDER + s.i, s.j)
  }

  // Shared memory as the first core leaves it.
  ghost predicate Complete(s: Shared, u: Setup) {
    && s.flag && s.order == START_ORDER && s.pools == TOTAL_POOLS
    && s.total == s.infos == Layout.Blocks(u.counts)
    && |u.counts| <= |s.table| == MAX_POOLS && s.table[..|u.counts|] == u.counts
    && Stamped(s.headers, u, |u.counts|, 0)
  }

  // What the source asserts of a call: a start, and a length beyond the control area. The
  // region lies in the address space, and the table is the one of fifteen pools.
  ghost predicate Plain(u: Setup) {
    && |u.counts| == TOTAL_POOLS && 0 < u.start && u.start + u.length <= TWO32
    && LengthAsserted(u.start, u.length, u.counts)
  }

  // No sum of the table wraps, and no pool is too large for the int its size is returned in.
  predicate Carvable(u: Setup) {
    SumsDoNotWrap(u.start, u.counts) && forall i | 0 <= i < |u.counts| :: PoolSize(u.counts, i) < 0x8000_0000
  }

  predicate Fine(u: Setup) { SizeChecked(u.start, u.length, u.counts) && Carvable(u) }

  // Shared memory in which at most block headers have been written.
  ghost predicate Blank(s: Shared) { s == Zeroed().(headers := s.headers) }

  // The address behind the blocks carved when (i, j) is next.
  function Front(u: Setup, i: nat, j: nat): nat
    requires i <= |u.counts|
  {
    PoolBase(u.start, u.counts) + Offset(u.counts, i) + if i < |u.counts| then j * ClassSize(i) else 0
  }

  // What the core in the critical section knows.
  ghost predicate Inside(s: Shared, l: Local, u: Setup) {
    match l.pc
    case Locking => true
    case Done(_, _) => true
    case Deciding => Blank(s) || (Complete(s, u) && Fine(u))
    case Carving(local, counts, i, j) =>
      && counts == u.counts && SizeChecked(u.start, u.length, u.counts)
      && i <= |counts| && (i < |counts| ==> j <= counts[i]) && (i == |counts| ==> j == 0)
      && l.place == Placed(u, i, j)
      && Front(u, i, j) <= u.start + u.length
      && (forall k | 0 <= k < i :: PoolSize(u.counts, k) < 0x8000_0000)
      && (if local then Complete(s, u) && Fine(u) else Blank(s) && Stamped(s.headers, u, i, j))
    case Astray(_) => Blank(s) && !Fine(u)
    case Flagging => Blank(s) && Fine(u) && Stamped(s.headers, u, |u.counts|, 0) && l.place == Rows(u, |u.counts|)
    case Threading(k) =>
      && Fine(u) && k == s.infos <= s.total == Layout.Blocks(u.counts) && s.table == Zeroed().table
      && s.flag && s.order == START_ORDER && s.pools == TOTAL_POOLS
      && Stamped(s.headers, u, |u.counts|, 0) && l.place == Rows(u, |u.counts|)
    case Copying(k) =>
      && Fine(u) && s.infos == s.total == Layout.Blocks(u.counts)
      && k <= |u.counts| <= |s.table| == MAX_POOLS && s.table[..k] == u.counts[..k]
      && s.flag && s.order == START_ORDER && s.pools == TOTAL_POOLS
      && Stamped(s.headers, u, |u.counts|, 0) && l.place == Rows(u, |u.counts|)
    case Leaving(ok, _) => Left(s, l, u, ok)
  }

  // How a core leaves the critical section.
  ghost predicate Left(s: Shared, l: Local, u: Setup, ok: bool) {
    if ok then Complete(s, u) && Fine(u) && l.place == Rows(u, |u.counts|) else Blank(s) && !Fine(u)
  }

  ghost predicate Inv(s: Sys, u: Setup) {
    && |s.cores| == 2 && Plain(u)
    && !(InCs(s.cores[0].pc) && InCs(s.cores[1].pc))
    && (s.lock <==> InCs(s.cores[0].pc) || InCs(s.cores[1].pc))
    && (forall c: Core :: Inside(s.shared, s.cores[c], u))
    && (forall c: Core :: s.cores[c].pc.Done? ==>
          (s.cores[c].pc.ok <==> Fine(u)) && (Fine(u) ==> s.cores[c].place == Rows(u, |u.counts|)))
    && (!s.lock ==> Blank(s.shared) || (Complete(s.shared, u) && Fine(u)))
    // the first time succeeds for one core at most, and has if the flag says so
    && !(IsFirst(s.cores[0].pc) && IsFirst(s.cores[1].pc))
    && (forall c: Core :: IsLocal(s.cores[c].pc) ==> IsFirst(s.cores[1 - c].pc) && s.cores[1 - c].pc.Done?)
    && (!Busy(s.cores[0].pc) && !Busy(s.cores[1].pc) ==>
          (s.shared.flag <==> IsFirst(s.cores[0].pc) || IsFirst(s.cores[1].pc)))
  }

  // The core is at the work of the first time.
  predicate Busy(pc: Pc) { InCs(pc) && IsFirst(pc) }

  // ---------------------------------------------------------------- the region

  // The pools start inside the region.
  lemma BaseInside(u: Setup)
    requires Plain(u)
    ensures u.start <= PoolBase(u.start, u.counts) < u.start + u.length
  {
  }

  lemma {:induction false} BlocksFew(counts: seq<nat>, i: nat)
    requires i <= |counts|
    ensures NumberSum(counts, i) * 1024 <= Offset(counts, i)
  {
    if i > 0 {
      BlocksFew(counts, i - 1);
      hide ClassSize;
      MulGrows(counts[i - 1], 1024, ClassSize(i - 1));
      assert PoolSize(counts, i - 1) >= counts[i - 1] * 1024;
    }
  }

  lemma MulGrows(a: nat, b: nat, c: nat)
    requires b <= c
    ensures a * b <= a * c
  {
  }

  // When the pools end inside the region, no sum wrapped.
  lemma EndFits(u: Setup)
    requires Plain(u) && PoolBase(u.start, u.counts) + PoolBytes(u.counts) <= u.start + u.length
    ensures SumsDoNotWrap(u.start, u.counts)
  {
    BaseInside(u);
    BlocksFew(u.counts, |u.counts|);
  }

  // A block outside the region is a sign that one did.
  lemma OutsideWrapped(u: Setup, s: Spot)
    requires Plain(u) && SizeChecked(u.start, u.length, u.counts) && InTable(u.counts, s)
    requires !InRegion(u, BlockAddr(PoolBase(u.start, u.counts), u.counts, s), ClassSize(s.i))
    ensures !Fine(u)
  {
    CheckIsExact(u.start, u.length, u.counts);
    BlockInPool(PoolBase(u.start, u.counts), u.counts, s);
  }

  // A pool inside the region has a negative size exactly when it is 2 GB or more.
  lemma NegativeSize(u: Setup, i: nat)
    requires Plain(u) && i < |u.counts| && Front(u, i, u.counts[i]) <= u.start + u.length
    ensures PoolReturn(u.counts, i) < 0 <==> PoolSize(u.counts, i) >= 0x8000_0000
    ensures Front(u, i + 1, 0) == Front(u, i, u.counts[i])
  {
    BaseInside(u);
  }

  // ---------------------------------------------------------------- steps

  // An access keeps what the core knows, and the side of the race it is on; one that found
  // the flag set changes nothing that is shared.
  lemma InsideStep(s: Shared, l: Local, u: Setup)
    requires Plain(u) && Inside(s, l, u) && InCs(l.pc) && !l.pc.Leaving?
    ensures var (s', l') := Access(s, l, u);
      && Inside(s', l', u) && InCs(l'.pc)
      && (IsLocal(l.pc) ==> IsLocal(l'.pc)) && (!IsFirst(l.pc) ==> s' == s)
      && (IsFirst(l'.pc) ==> IsFirst(l.pc) || (l.pc.Deciding? && !s.flag))
      && (IsFirst(l.pc) && !IsFirst(l'.pc) ==> Blank(s'))
      && (l.pc.Deciding? ==> s' == s && if s.flag then IsLocal(l'.pc) else !IsLocal(l'.pc))
      && (!l.pc.Deciding? && !IsLocal(l.pc) ==> !IsLocal(l'.pc))
  {
    match l.pc
    case Deciding => DecideStep(s, l, u);
    case Carving(local, counts, i, j) => CarveStep(s, l, u);
    case Astray(_) =>
    case Flagging =>
    case Threading(k) =>
    case Copying(k) =>
  }

  lemma DecideStep(s: Shared, l: Local, u: Setup)
    requires Plain(u) && Inside(s, l, u) && l.pc.Deciding?
    ensures var l' := Decide(s, u);
      Inside(s, l', u) && InCs(l'.pc) && (if s.flag then IsLocal(l'.pc) else !IsLocal(l'.pc))
  {
    assert Placed(u, 0, 0) == Begin(u.counts);
    BaseInside(u);
    if s.flag {
      assert s.table[..TOTAL_POOLS] == u.counts;
    }
  }

  lemma CarveStep(s: Shared, l: Local, u: Setup)
    requires Plain(u) && Inside(s, l, u) && l.pc.Carving?
    ensures var (s', l') := Access(s, l, u);
      && Inside(s', l', u) && InCs(l'.pc)
      && (if l.pc.local then s' == s && IsLocal(l'.pc) else !IsLocal(l'.pc) && (IsFirst(l'.pc) || Blank(s')))
  {
    var i, j := l.pc.i, l.pc.j;
    hide Complete;
    hide SizeChecked;
    if i == |u.counts| {
      EndFits(u);
    } else if j == u.counts[i] {
      NegativeSize(u, i);
      assert Rows(u, i + 1) == Rows(u, i) + [Row(u, i, j)];
      assert i + 1 < |u.counts| ==> Row(u, i + 1, 0) == [];
      if !l.pc.local { StampNext(s.headers, u, i); }
    } else {
      CarveBlock(s, l, u, i, j);
    }
  }

  lemma CarveBlock(s: Shared, l: Local, u: Setup, i: nat, j: nat)
    requires Plain(u) && Inside(s, l, u) && l.pc.Carving? && i == l.pc.i < |u.counts| && j == l.pc.j < u.counts[i]
    ensures var (s', l') := Access(s, l, u);
      && Inside(s', l', u) && InCs(l'.pc)
      && (if l.pc.local then s' == s && IsLocal(l'.pc) else !IsLocal(l'.pc) && Blank(s'))
  {
    hide Complete;
    hide SizeChecked;
    hide LengthAsserted;
    hide Carvable;
    hide Offset;
    hide PoolBase;
    var addr := BlockAddr(PoolBase(u.start, u.counts), u.counts, Spot(i, j));
    if !InRegion(u, addr, ClassSize(i)) {
      OutsideWrapped(u, Spot(i, j));
    } else {
      PlacedStep(u, i, j);
      FrontStep(u, i, j);
      if !l.pc.local { StampStep(s.headers, u, i, j); }
      hide Placed;
      hide Front;
      hide BlockAddr;
      hide Stamped;
    }
  }

  lemma PlacedStep(u: Setup, i: nat, j: nat)
    requires i < |u.counts|
    ensures Placed(u, i, j + 1) == Put(Placed(u, i, j), i, BlockAddr(PoolBase(u.start, u.counts), u.counts, Spot(i, j)))
  {
    assert Row(u, i, j + 1) == Row(u, i, j) + [BlockAddr(PoolBase(u.start, u.counts), u.counts, Spot(i, j))];
  }

  lemma FrontStep(u: Setup, i: nat, j: nat)
    requires i < |u.counts|
    ensures Front(u, i, j + 1) == BlockAddr(PoolBase(u.start, u.counts), u.counts, Spot(i, j)) + ClassSize(i)
  {
    assert (j + 1) * ClassSize(i) == j * ClassSize(i) + ClassSize(i);
  }

  // Stamping one header touches no other.
  lemma StampStep(headers: map<nat, Stamp>, u: Setup, i: nat, j: nat)
    requires Stamped(headers, u, i, j) && InTable(u.counts, Spot(i, j))
    ensures var addr := BlockAddr(PoolBase(u.start, u.counts), u.counts, Spot(i, j));
      Stamped(headers[addr := Stamp(START_ORDER + i, j)], u, i, j + 1)
  {
    var base := PoolBase(u.start, u.counts);
    forall s | InTable(u.counts, s) && (s.i < i || (s.i == i && s.j < j))
      ensures BlockAddr(base, u.counts, s) != BlockAddr(base, u.counts, Spot(i, j))
    {
      BlocksDisjoint(base, u.counts, s, Spot(i, j));
    }
  }

  lemma StampNext(headers: map<nat, Stamp>, u: Setup, i: nat)
    requires i < |u.counts| && Stamped(headers, u, i, u.counts[i])
    ensures Stamped(headers, u, i + 1, 0)
  {
  }

  lemma Outside(s: Shared, l: Local, u: Setup)
    requires !InCs(l.pc)
    ensures Inside(s, l, u)
  {
  }

  lemma StepInv(s: Sys, c: Core, u: Setup)
    requires Inv(s, u)
    ensures Inv(Step(s, c, u), u)
  {
    var l := s.cores[c];
    hide Inv;
    if l.pc.Locking? {
      LockInv(s, c, u);
    } else if l.pc.Leaving? {
      LeaveInv(s, c, u);
    } else if !l.pc.Done? {
      AccessInv(s, c, u);
    }
  }

  lemma LockInv(s: Sys, c: Core, u: Setup)
    requires Inv(s, u) && s.cores[c].pc.Locking?
    ensures Inv(Step(s, c, u), u)
  {
    hide Plain;
    hide Rows;
    hide Fine;
    hide Complete;
    hide Blank;
    var s' := Step(s, c, u);
    assert s'.cores[1 - c] == s.cores[1 - c];
    if !s.lock {
      Outside(s'.shared, s'.cores[1 - c], u);
    }
  }

  lemma LeaveInv(s: Sys, c: Core, u: Setup)
    requires Inv(s, u) && s.cores[c].pc.Leaving?
    ensures Inv(Step(s, c, u), u)
  {
    hide Plain;
    hide Rows;
    hide Fine;
    BlankFlag(s.shared);
    CompleteFlag(s.shared, u);
    hide Complete;
    hide Blank;
    var s' := Step(s, c, u);
    assert s'.cores[1 - c] == s.cores[1 - c];
    Outside(s'.shared, s'.cores[1 - c], u);
  }

  lemma AccessInv(s: Sys, c: Core, u: Setup)
    requires Inv(s, u) && InCs(s.cores[c].pc) && !s.cores[c].pc.Leaving?
    ensures Inv(Step(s, c, u), u)
  {
    hide Access;
    hide Plain;
    hide Rows;
    hide Fine;
    hide Complete;
    hide Inside;
    hide Blank;
    var s' := Step(s, c, u);
    assert s'.cores[1 - c] == s.cores[1 - c];
    InsideStep(s.shared, s.cores[c], u);
    BlankFlag(s'.shared);
    Outside(s'.shared, s'.cores[1 - c], u);
    assert s' == Sys(Access(s.shared, s.cores[c], u).0, s.lock, s.cores[c := Access(s.shared, s.cores[c], u).1]);
    hide Step;
  }

  lemma CompleteFlag(s: Shared, u: Setup)
    ensures Complete(s, u) ==> s.flag
  {
  }

  lemma BlankFlag(s: Shared)
    ensures Blank(s) ==> !s.flag
  {
  }

  lemma {:induction false} ExecInv(s: Sys, schedule: seq<Core>, u: Setup)
    requires Inv(s, u)
    ensures Inv(Exec(s, schedule, u), u)
    decreases |schedule|
  {
    if schedule != [] {
      StepInv(s, schedule[0], u);
      ExecInv(Step(s, schedule[0], u), schedule[1..], u);
    }
  }

  lemma StartInv(u: Setup)
    requires Plain(u)
    ensures Inv(Start(), u)
  {
  }

  // ---------------------------------------------------------------- how the race ends

  // However the two race, a core that is done has succeeded if and only if the size check
  // passes, no sum of the table wraps and no pool is 2 GB or more; and a core that goes astray
  // is a sign that a sum wrapped.
  lemma EndsWellExactly(u: Setup, schedule: seq<Core>, c: Core)
    requires Plain(u)
    ensures var pc := Exec(Start(), schedule, u).cores[c].pc;
      && (pc.Done? ==> (pc.ok <==> Fine(u)))
      && (pc.Astray? ==> !Fine(u))
  {
    StartInv(u);
    ExecInv(Start(), schedule, u);
  }

  // A table that does not pass leaves the control area and the registry as they were.
  lemma FailureLeavesBlank(u: Setup, schedule: seq<Core>)
    requires Plain(u) && !Fine(u)
    ensures Blank(Exec(Start(), schedule, u).shared)
  {
    StartInv(u);
    ExecInv(Start(), schedule, u);
    var s := Exec(Start(), schedule, u);
    hide Fine;
    if s.lock {
      var c: Core := if InCs(s.cores[0].pc) then 0 else 1;
      assert Inside(s.shared, s.cores[c], u);
    }
  }

  // For all other tables: never more than one core takes the first-time branch, and when both
  // are done exactly one has. Both have then succeeded, and their nodes for block j of class i
  // point to the same address, in the region, where the header of just that block has been
  // written.
  lemma RaceEnds(u: Setup, schedule: seq<Core>)
    requires Plain(u) && Fine(u)
    ensures var s := Exec(Start(), schedule, u);
      && !(IsFirst(s.cores[0].pc) && IsFirst(s.cores[1].pc))
      && (s.cores[0].pc.Done? && s.cores[1].pc.Done? ==>
            && s.cores[0].pc.ok && s.cores[1].pc.ok && (IsFirst(s.cores[0].pc) <==> IsLocal(s.cores[1].pc))
            && s.cores[0].place == s.cores[1].place && |s.cores[0].place| == |u.counts|
            && s.shared.infos == Layout.Blocks(u.counts)
            && |u.counts| <= |s.shared.table| && s.shared.table[..|u.counts|] == u.counts
            && forall i, j | 0 <= i < |u.counts| && 0 <= j < u.counts[i] ::
                 && j < |s.cores[0].place[i]| && InRegion(u, s.cores[0].place[i][j], ClassSize(i))
                 && s.cores[0].place[i][j] in s.shared.headers
                 && s.shared.headers[s.cores[0].place[i][j]] == Stamp(START_ORDER + i, j))
  {
    StartInv(u);
    ExecInv(Start(), schedule, u);
    var s := Exec(Start(), schedule, u);
    if s.cores[0].pc.Done? && s.cores[1].pc.Done? {
      assert IsFirst(s.cores[0].pc) || IsFirst(s.cores[1].pc);
      BlankFlag(s.shared);
      hide Blank;
      hide Inside;
      BothDone(s, u);
    }
  }

  lemma BothDone(s: Sys, u: Setup)
    requires Plain(u) && Fine(u) && Complete(s.shared, u) && |s.cores| == 2 && s.cores[0].place == Rows(u, |u.counts|)
    ensures |s.cores[0].place| == |u.counts|
    ensures forall i, j | 0 <= i < |u.counts| && 0 <= j < u.counts[i] ::
              && j < |s.cores[0].place[i]| && InRegion(u, s.cores[0].place[i][j], ClassSize(i))
              && s.cores[0].place[i][j] in s.shared.headers
              && s.shared.headers[s.cores[0].place[i][j]] == Stamp(START_ORDER + i, j)
  {
    forall i, j | 0 <= i < |u.counts| && 0 <= j < u.counts[i]
      ensures j < |s.cores[0].place[i]| && InRegion(u, s.cores[0].place[i][j], ClassSize(i))
      ensures s.cores[0].place[i][j] in s.shared.headers
      ensures s.shared.headers[s.cores[0].place[i][j]] == Stamp(START_ORDER + i, j)
    {
      assert InTable(u.counts, Spot(i, j));
      if !InRegion(u, s.cores[0].place[i][j], ClassSize(i)) {
        OutsideWrapped(u, Spot(i, j));
      }
    }
  }

  // ---------------------------------------------------------------- and it does end

  // The rows, and the blocks of each, from row i on.
  function Ahead(counts: seq<nat>, i: nat): nat
    decreases |counts| - i
  {
    if i >= |counts| then 0 else counts[i] + 1 + Ahead(counts, i + 1)
  }

  function Minus(a: nat, b: nat): nat { if a >= b then a - b else 0 }

  // A bound on the accesses a core has still to make.
  function Rank(pc: Pc, u: Setup): nat {
    var n, total := |u.counts|, Layout.Blocks(u.counts);
    match pc
    case Done(_, _) => 0
    case Astray(_) => 0
    case Leaving(_, _) => 1
    case Copying(k) => 2 + Minus(n, k)
    case Threading(k) => 3 + n + Minus(total, k)
    case Flagging => 4 + n + total
    case Carving(_, _, i, j) => 5 + n + total + Minus(Ahead(u.counts, i), j)
    case Deciding => 6 + n + total + Ahead(u.counts, 0)
    case Locking => 7 + n + total + Ahead(u.counts, 0)
  }

  predicate Spins(s: Sys, c: Core)
    requires |s.cores| == 2
  {
    s.cores[c].pc.Locking? && s.lock
  }

  lemma AccessGetsOn(s: Shared, l: Local, u: Setup)
    requires Plain(u) && Inside(s, l, u) && InCs(l.pc) && !l.pc.Leaving? && !l.pc.Astray?
    ensures Rank(Access(s, l, u).1.pc, u) < Rank(l.pc, u)
  {
    hide Plain;
    hide Fine;
    hide Stamped;
    hide Placed;
    hide Front;
    hide Rows;
    hide Blank;
    hide InRegion;
    hide PoolReturn;
    hide SizeChecked;
    if l.pc.Deciding? {
      DecideStep(s, l, u);
      DecideGetsOn(s, l, u);
    }
  }

  lemma DecideGetsOn(s: Shared, l: Local, u: Setup)
    requires Plain(u) && l.pc.Deciding? && (s.flag ==> Complete(s, u))
    ensures Rank(Decide(s, u).pc, u) < Rank(l.pc, u)
  {
    assert s.flag ==> s.table[..TOTAL_POOLS] == u.counts;
  }

  // A step of a core that is neither done nor astray brings it nearer to its end, unless it
  // waits for the lock, and then it changes nothing.
  lemma StepGetsOn(s: Sys, c: Core, u: Setup)
    requires |s.cores| == 2 && Inv(s, u) && !s.cores[c].pc.Done? && !s.cores[c].pc.Astray?
    ensures var s' := Step(s, c, u);
      && s'.cores[1 - c] == s.cores[1 - c]
      && if Spins(s, c) then s' == s else Rank(s'.cores[c].pc, u) < Rank(s.cores[c].pc, u)
  {
    if InCs(s.cores[c].pc) && !s.cores[c].pc.Leaving? {
      InsideOf(s, c, u);
      hide Inv;
      hide Access;
      hide Inside;
      AccessGetsOn(s.shared, s.cores[c], u);
      hide Rank;
    } else {
      hide Inv;
    }
  }

  lemma InsideOf(s: Sys, c: Core, u: Setup)
    requires |s.cores| == 2 && Inv(s, u)
    ensures Plain(u) && Inside(s.shared, s.cores[c], u)
  {
  }

  // No core leaves the region: the check refuses the table, or every block lies inside.
  ghost predicate Contained(u: Setup) {
    || !SizeChecked(u.start, u.length, u.counts)
    || forall s | InTable(u.counts, s) ::
         InRegion(u, BlockAddr(PoolBase(u.start, u.counts), u.counts, s), ClassSize(s.i))
  }

  ghost predicate NoneAstray(s: Sys) {
    |s.cores| == 2 && !s.cores[0].pc.Astray? && !s.cores[1].pc.Astray?
  }

  lemma StaysContained(s: Sys, c: Core, u: Setup)
    requires NoneAstray(s) && Inv(s, u) && (Fine(u) || Contained(u))
    ensures NoneAstray(Step(s, c, u))
  {
    StepInv(s, c, u);
    InsideOf(Step(s, c, u), c, u);
    InsideOf(s, c, u);
    hide Inv;
    hide Plain;
    hide Fine;
    hide Stamped;
    hide Placed;
    hide Front;
    hide Rows;
    hide Blank;
    hide InRegion;
    hide PoolReturn;
    hide SizeChecked;
    hide Complete;
    hide BlockAddr;
    if s.cores[c].pc.Carving? {
      assert s.cores[c].pc.i < |u.counts| && s.cores[c].pc.j < u.counts[s.cores[c].pc.i] ==>
             InTable(u.counts, Spot(s.cores[c].pc.i, s.cores[c].pc.j));
    }
  }

  lemma SomeoneGetsOn(s: Sys, u: Setup) returns (c: Core)
    requires NoneAstray(s) && Inv(s, u) && !(s.cores[0].pc.Done? && s.cores[1].pc.Done?)
    ensures !s.cores[c].pc.Done? && !Spins(s, c)
  {
    hide Inside;
    hide Blank;
    hide Complete;
    hide Fine;
    hide Rows;
    c := if InCs(s.cores[1].pc) || s.cores[0].pc.Done? then 1 else 0;
  }

  // From every state both cores can be brought to their ends, with the lock given back.
  lemma {:induction false} CanFinish(s: Sys, u: Setup) returns (rest: seq<Core>)
    requires NoneAstray(s) && Inv(s, u) && (Fine(u) || Contained(u))
    ensures var r := Exec(s, rest, u); r.cores[0].pc.Done? && r.cores[1].pc.Done? && !r.lock && Inv(r, u)
    decreases Rank(s.cores[0].pc, u) + Rank(s.cores[1].pc, u)
  {
    if s.cores[0].pc.Done? && s.cores[1].pc.Done? {
      rest := [];
      hide Inside;
      hide Fine;
    } else {
      hide Inv;
      hide Fine;
      hide Contained;
      var c := SomeoneGetsOn(s, u);
      StepGetsOn(s, c, u);
      StaysContained(s, c, u);
      StepInv(s, c, u);
      hide Step;
      hide Rank;
      var more := CanFinish(Step(s, c, u), u);
      rest := [c] + more;
      assert rest[1..] == more;
    }
  }

  lemma {:induction false} ExecContained(s: Sys, schedule: seq<Core>, u: Setup)
    requires NoneAstray(s) && Inv(s, u) && (Fine(u) || Contained(u))
    ensures NoneAstray(Exec(s, schedule, u)) && Inv(Exec(s, schedule, u), u)
    decreases |schedule|
  {
    assert |s.cores| == 2;
    hide Inv;
    hide Fine;
    hide Contained;
    hide NoneAstray;
    if schedule != [] {
      StaysContained(s, schedule[0], u);
      StepInv(s, schedule[0], u);
      ExecContained(Step(s, schedule[0], u), schedule[1..], u);
    }
  }

  lemma {:induction false} ExecJoin(s: Sys, a: seq<Core>, b: seq<Core>, u: Setup)
    requires |s.cores| == 2
    ensures Exec(s, a + b, u) == Exec(Exec(s, a, u), b, u)
    decreases |a|
  {
    if a == [] {
      assert a + b == b;
    } else {
      assert (a + b)[1..] == a[1..] + b;
      ExecJoin(Step(s, a[0], u), a[1..], b, u);
    }
  }

  // So for the tables that succeed, and for those that fail without leaving the region, every
  // run of the two cores can be brought to the end of both, and there the lock is free and
  // both have succeeded, or both failed.
  lemma EveryRunEnds(u: Setup, schedule: seq<Core>) returns (rest: seq<Core>)
    requires Plain(u) && (Fine(u) || Contained(u))
    ensures var s := Exec(Start(), schedule + rest, u);
      && s.cores[0].pc.Done? && s.cores[1].pc.Done? && !s.lock
      && (s.cores[0].pc.ok <==> Fine(u)) && (s.cores[1].pc.ok <==> Fine(u))
  {
    StartInv(u);
    ExecContained(Start(), schedule, u);
    rest := CanFinish(Exec(Start(), schedule, u), u);
    ExecJoin(Start(), schedule, rest, u);
    EndsWellExactly(u, schedule + rest, 0);
    EndsWellExactly(u, schedule + rest, 1);
    hide Inv;
    hide Fine;
    hide Contained;
  }

  // A core that finds shared memory initialised by a build with other numbers gives up: it
  // fails, gives the lock back and has written nothing.
  lemma OtherBuild(s: Sys, c: Core, u: Setup)
    requires |s.cores| == 2 && !s.lock && s.cores[c].pc.Locking? && s.shared.flag
    requires s.shared.order != START_ORDER || s.shared.pools != TOTAL_POOLS
    ensures var r := Exec(s, [c, c, c], u);
      && r.cores[c].pc == Done(false, true) && !r.lock && r.shared == s.shared && r.cores[1 - c] == s.cores[1 - c]
  {
    var s1 := Step(s, c, u);
    var s2 := Step(s1, c, u);
    var s3 := Step(s2, c, u);
    assert s2.cores[c].pc == Leaving(false, true) && s2.shared == s.shared;
    assert [c, c, c][1..] == [c, c] && [c, c][1..] == [c] && [c][1..] == [];
    assert Exec(s2, [c], u) == Exec(s3, [], u);
    assert Exec(s1, [c, c], u) == Exec(s2, [c], u);
  }

  // The core that found the flag set leaves headers, control area and registry untouched, at
  // every step it takes.
  lemma SecondTouchesNothing(u: Setup, schedule: seq<Core>, c: Core)
    requires Plain(u) && IsLocal(Exec(Start(), schedule, u).cores[c].pc)
    ensures var s := Exec(Start(), schedule, u);
      Step(s, c, u).shared == s.shared && Complete(s.shared, u)
  {
    StartInv(u);
    ExecInv(Start(), schedule, u);
    var s := Exec(Start(), schedule, u);
    var l := s.cores[c];
    BlankFlag(s.shared);
    assert Inside(s.shared, l, u);
    if InCs(l.pc) && !l.pc.Leaving? {
      InsideStep(s.shared, l, u);
    }
  }

  // One pool of 2^21 1K blocks passes the check, fits, and is refused for its negative size.
  lemma NegativePool()
    ensures var u := Setup(0x1000_0000, 0x9000_0000, [0x20_0000] + seq(14, _ => 0));
      Plain(u) && SizeChecked(u.start, u.length, u.counts) && SumsDoNotWrap(u.start, u.counts) && !Fine(u)
  {
    var counts: seq<nat> := [0x20_0000] + seq(14, _ => 0);
    OnePool(counts, 15);
    assert PoolSize(counts, 0) == 0x8000_0000;
    assert ControlBytes(counts) == 0x20_0000 * INFO_SIZE + CONTROL_SIZE;
  }

  lemma {:induction false} OnePool(counts: seq<nat>, i: nat)
    requires 0 < i <= |counts| && forall k | 0 < k < |counts| :: counts[k] == 0
    ensures NumberSum(counts, i) == counts[0] && Offset(counts, i) == counts[0] * 1024
  {
    if i == 1 {
      assert NumberSum(counts, 0) == 0 && Offset(counts, 0) == 0;
    } else {
      OnePool(counts, i - 1);
    }
  }

  // The compiled-in table and the region mpi.h fixes are in order.
  lemma ShippedSuffices()
    ensures var u := Setup(0xD010_0000, 0x0600_0000, SHIPPED); Plain(u) && Fine(u)
  {
    ShippedTotals();
    assert ControlBytes(SHIPPED) == 12434 * INFO_SIZE + CONTROL_SIZE;
    forall i | 0 <= i < |SHIPPED| ensures PoolSize(SHIPPED, i) < 0x8000_0000 {
      OffsetMonotone(SHIPPED, i + 1, |SHIPPED|);
    }
  }
}
