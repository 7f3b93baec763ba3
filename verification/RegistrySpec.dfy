/** The shared registry of named blocks on values: what one call of each operation makes of
    the entries and of the free and busy lists when it runs alone. The class Registry and
    the two-core system TwoCores are proved to do exactly this. */
module RegistrySpec {
  import opened Words
  import opened Options
  import opened Seqs

  type byte = x: int | 0 <= x < 256

  // get_cpuid: one of two cores.
  type Core = c: nat | c < 2

  const OPEN_ERR: int := -1
  const LENGTH_ERR: int := -2
  const MALLOC_ERR: int := -4
  const NOT_OPEN: int := -5
  const NULL_MEM: int := -6
  const NOT_UPDATED: int := -7
  const INVALID: int := -8
  const NAME_MAX: nat := 32

  // One Shm_block_info. The bit masks m_open and m_update are the sets of cores whose bit is
  // set; data is what the block at m_mem holds, m_length bytes of it.
  datatype Entry = Entry(name: string, length: nat, mem: nat, open: set<nat>, update: set<nat>,
                         size: nat, offset: nat, data: seq<byte>)

  datatype Reg = Reg(entries: seq<Entry>, free: seq<nat>, busy: seq<nat>)

  // The name as an entry keeps it.
  function Stored(name: string): string {
    if |name| >= NAME_MAX then name[..NAME_MAX - 1] else name
  }

  // It is the name, or the first 31 characters of it.
  lemma StoredPrefix(name: string)
    ensures Stored(name) <= name && |Stored(name)| == if |name| < 31 then |name| else 31
  {
  }

  // The scan of the busy list.
  function FindIn(entries: seq<Entry>, busy: seq<nat>, name: string): (r: Option<nat>)
    ensures r.Some? ==> r.value in busy && r.value < |entries| && entries[r.value].name == name
    ensures r.None? ==> forall h :: h in busy && h < |entries| ==> entries[h].name != name
  {
    if busy == [] then None
    else if busy[0] < |entries| && entries[busy[0]].name == name then Some(busy[0])
    else FindIn(entries, busy[1..], name)
  }

  function Find(reg: Reg, name: string): (r: Option<nat>) {
    FindIn(reg.entries, reg.busy, name)
  }

  ghost predicate BusyEntry(e: Entry) {
    e.open != {} && e.open <= {0, 1} && e.mem != 0 && e.length > 0 && |e.data| == e.length
  }

  ghost predicate FreeEntry(e: Entry) {
    e.open == {} && e.mem == 0 && e.length == 0 && e.name == "" && e.data == []
  }

  // Every entry is on exactly one list; it is on the busy list exactly when some core has it
  // open, and then it has memory; a free entry has none, and no name.
  ghost predicate Good(reg: Reg) {
    && Distinct(reg.free) && Distinct(reg.busy)
    && (forall k | 0 <= k < |reg.free| :: reg.free[k] < |reg.entries|)
    && (forall k | 0 <= k < |reg.busy| :: reg.busy[k] < |reg.entries|)
    && (forall h | 0 <= h < |reg.entries| :: h in reg.free <==> h !in reg.busy)
    && (forall h | 0 <= h < |reg.entries| ::
          if h in reg.busy then BusyEntry(reg.entries[h]) else FreeEntry(reg.entries[h]))
  }

  ghost predicate NamesDiffer(reg: Reg) {
    forall h, k | 0 <= h < k < |reg.entries| && h in reg.busy && k in reg.busy ::
      reg.entries[h].name != reg.entries[k].name
  }

  // ---------------------------------------------------------------- open and close

  // What mod_malloc gave an open that needs memory: a payload address, or 0, and the bytes
  // that happen to be there.
  datatype Grant = Grant(mem: nat, data: seq<byte>)

  datatype OpenResult = OpenResult(reg: Reg, ret: int, length: nat)

  function Marked(e: Entry, core: Core): Entry { e.(open := e.open + {core}) }

  function Created(e: Entry, name: string, size: nat, core: Core, g: Grant): Entry {
    e.(name := Stored(name), length := size, mem := g.mem, open := e.open + {core}, data := g.data)
  }

  function Create(reg: Reg, name: string, size: nat, core: Core, g: Grant): Reg
    requires reg.free != [] && reg.free[0] < |reg.entries|
  {
    var h := reg.free[0];
    Reg(reg.entries[h := Created(reg.entries[h], name, size, core, g)], reg.free[1..], [h] + reg.busy)
  }

  // Whether an open asks mod_malloc for memory.
  predicate Creates(reg: Reg, name: string, size: nat) {
    size > 0 && Find(reg, name).None? && reg.free != []
  }

  function Open(reg: Reg, name: string, size: nat, core: Core, g: Grant): OpenResult
    requires Good(reg)
  {
    if size == 0 then OpenResult(reg, OPEN_ERR, size)
    else match Find(reg, name)
      case Some(h) =>
        var e := reg.entries[h];
        if size > e.length then OpenResult(reg, LENGTH_ERR, size)
        else OpenResult(reg.(entries := reg.entries[h := Marked(e, core)]), h, e.length)
      case None =>
        if reg.free == [] then OpenResult(reg, OPEN_ERR, size)
        else if g.mem == 0 then OpenResult(reg, MALLOC_ERR, size)
        else OpenResult(Create(reg, name, size, core, g), reg.free[0], size)
  }

  function Unmarked(e: Entry, core: Core): Entry { e.(open := e.open - {core}) }

  // The last close forgets name, length and memory, but neither m_size nor m_offset.
  function Emptied(e: Entry, core: Core): Entry {
    e.(name := "", length := 0, update := e.update - {core}, mem := 0, data := [])
  }

  function Drop(reg: Reg, h: nat): Reg {
    reg.(free := [h] + reg.free, busy := Remove(reg.busy, h))
  }

  predicate LastClose(reg: Reg, handle: int, core: Core) {
    0 <= handle < |reg.entries| && reg.entries[handle].open == {core}
  }

  function Close(reg: Reg, handle: int, core: Core): (r: (Reg, int)) {
    if handle < 0 || handle >= |reg.entries| then (reg, -1)
    else if core !in reg.entries[handle].open then (reg, NOT_OPEN)
    else
      var e := Unmarked(reg.entries[handle], core);
      if e.open != {} then (reg.(entries := reg.entries[handle := e]), 0)
      else (Drop(reg.(entries := reg.entries[handle := Emptied(e, core)]), handle), 0)
  }

  lemma FindUnique(reg: Reg, name: string, h: nat)
    requires Good(reg) && NamesDiffer(reg) && h in reg.busy && reg.entries[h].name == name
    ensures Find(reg, name) == Some(h)
  {
    var r := Find(reg, name);
    assert h < |reg.entries|;
    assert r.Some?;
  }

  lemma CreateGood(reg: Reg, name: string, size: nat, core: Core, g: Grant)
    requires Good(reg) && reg.free != [] && g.mem != 0 && size > 0 && |g.data| == size
    ensures Good(Create(reg, name, size, core, g))
    ensures NamesDiffer(reg) && (forall h :: h in reg.busy ==> reg.entries[h].name != Stored(name)) ==>
              NamesDiffer(Create(reg, name, size, core, g))
  {
    var h, reg' := reg.free[0], Create(reg, name, size, core, g);
    assert h in reg.free;
    DistinctCons(h, reg.busy);
    assert Distinct(reg.free[1..]) && h !in reg.free[1..];
    hide Distinct;
    forall x ensures x in reg'.free <==> x in reg.free && x != h {
      if x in reg.free && x != h {
        var k :| 0 <= k < |reg.free| && reg.free[k] == x;
        assert reg'.free[k - 1] == x;
      }
    }
    forall x ensures x in reg'.busy <==> x in reg.busy || x == h {
      assert reg'.busy[0] == h;
      if x in reg.busy {
        var k :| 0 <= k < |reg.busy| && reg.busy[k] == x;
        assert reg'.busy[k + 1] == x;
      }
    }
  }

  // What a last close does to the lists and the entries.
  lemma DropLists(reg: Reg, h: nat, core: Core)
    requires Good(reg) && h in reg.busy && reg.entries[h].open == {core}
    ensures var reg' := Close(reg, h, core).0;
      && Distinct(reg'.free) && Distinct(reg'.busy) && h < |reg.entries| == |reg'.entries|
      && (forall x :: x in reg'.free <==> x in reg.free || x == h)
      && (forall x :: x in reg'.busy <==> x in reg.busy && x != h)
      && FreeEntry(reg'.entries[h])
      && forall k | 0 <= k < |reg.entries| && k != h :: reg'.entries[k] == reg.entries[k]
  {
    var reg' := Close(reg, h, core).0;
    assert h < |reg.entries|;
    RemoveDistinct(reg.busy, h);
    hide Remove;
    DistinctCons(h, reg.free);
    hide Distinct;
    forall x ensures x in reg'.free <==> x in reg.free || x == h {
      assert reg'.free[0] == h;
      if x in reg.free {
        var k :| 0 <= k < |reg.free| && reg.free[k] == x;
        assert reg'.free[k + 1] == x;
      }
    }
  }

  lemma DropGood(reg: Reg, h: nat, core: Core)
    requires Good(reg) && h in reg.busy && reg.entries[h].open == {core}
    ensures Good(Close(reg, h, core).0)
    ensures NamesDiffer(reg) ==> NamesDiffer(Close(reg, h, core).0)
  {
    DropLists(reg, h, core);
    hide Close;
    hide FreeEntry;
    hide BusyEntry;
    hide Distinct;
    var reg' := Close(reg, h, core).0;
    assert forall k | 0 <= k < |reg'.free| :: reg'.free[k] in reg'.free;
    assert forall k | 0 <= k < |reg'.busy| :: reg'.busy[k] in reg'.busy;
  }

  // Every open keeps the registry good; with names short enough to be kept whole the busy
  // names stay pairwise different.
  lemma OpenKeeps(reg: Reg, name: string, size: nat, core: Core, g: Grant)
    requires Good(reg) && (Creates(reg, name, size) && g.mem != 0 ==> |g.data| == size)
    ensures Good(Open(reg, name, size, core, g).reg)
    ensures NamesDiffer(reg) && |name| < NAME_MAX ==> NamesDiffer(Open(reg, name, size, core, g).reg)
  {
    if Creates(reg, name, size) && g.mem != 0 {
      CreateGood(reg, name, size, core, g);
    }
  }

  lemma CloseKeeps(reg: Reg, handle: int, core: Core)
    requires Good(reg)
    ensures Good(Close(reg, handle, core).0)
    ensures NamesDiffer(reg) ==> NamesDiffer(Close(reg, handle, core).0)
  {
    if LastClose(reg, handle, core) {
      assert handle in reg.busy;
      DropGood(reg, handle, core);
    }
  }

  // An open keeps the names different exactly when it creates no entry whose kept name is
  // already there.
  lemma OpenNamesExactly(reg: Reg, name: string, size: nat, core: Core, g: Grant)
    requires Good(reg) && NamesDiffer(reg) && (Creates(reg, name, size) && g.mem != 0 ==> |g.data| == size)
    ensures NamesDiffer(Open(reg, name, size, core, g).reg) <==>
            !(Creates(reg, name, size) && g.mem != 0 && Find(reg, Stored(name)).Some?)
  {
    if Creates(reg, name, size) && g.mem != 0 {
      CreateGood(reg, name, size, core, g);
      var h, reg' := reg.free[0], Create(reg, name, size, core, g);
      assert h in reg.free && h !in reg.busy;
      if Find(reg, Stored(name)).Some? {
        var k := Find(reg, Stored(name)).value;
        assert reg'.busy[0] == h;
        var x :| 0 <= x < |reg.busy| && reg.busy[x] == k;
        assert reg'.busy[x + 1] == k;
        assert reg'.entries[h].name == reg'.entries[k].name;
      }
    }
  }

  // A name of 32 characters or more is cut, is not found again, and is entered twice.
  lemma LongNameTwice(reg: Reg, name: string, size: nat, core: Core, g: Grant, g': Grant)
    requires Good(reg) && NamesDiffer(reg) && |name| >= NAME_MAX && |reg.free| >= 2 && size > 0
    requires g.mem != 0 && g'.mem != 0 && |g.data| == |g'.data| == size && Find(reg, name).None?
    ensures var reg1 := Open(reg, name, size, core, g).reg;
      Good(reg1) && !NamesDiffer(Open(reg1, name, size, core, g').reg)
  {
    var reg1 := Open(reg, name, size, core, g).reg;
    OpenKeeps(reg, name, size, core, g);
    assert reg.free[0] in reg.free;
    var h := reg.free[0];
    assert forall k :: k in reg1.busy ==> k == h || k in reg.busy;
    assert reg1.busy[0] == h;
    assert Find(reg1, name).None?;
    assert reg1.free[0] == reg.free[1];
    OpenKeeps(reg1, name, size, core, g');
    var k, reg2 := reg1.free[0], Open(reg1, name, size, core, g').reg;
    assert reg2.busy[0] == k && reg2.busy[1] == h;
    assert reg2.entries[h].name == reg2.entries[k].name && h != k;
  }

  // ---------------------------------------------------------------- the map of names

  datatype Item = Item(id: nat, length: nat, cores: set<nat>)

  function ItemOf(reg: Reg, h: nat): Item
    requires h < |reg.entries|
  {
    Item(h, reg.entries[h].length, reg.entries[h].open)
  }

  function BusyNames(reg: Reg): set<string> {
    set h | 0 <= h < |reg.entries| && h in reg.busy :: reg.entries[h].name
  }

  // What the registry is to its callers: names, each with an identifier, a length and the
  // set of cores that hold it.
  function Abs(reg: Reg): (m: map<string, Item>)
    requires Good(reg)
    ensures m.Keys == BusyNames(reg)
  {
    map n | n in BusyNames(reg) :: AbsAt(reg, n)
  }

  function AbsAt(reg: Reg, n: string): Item
    requires Good(reg) && n in BusyNames(reg)
  {
    ItemOf(reg, Find(reg, n).value)
  }

  lemma AbsOf(reg: Reg, h: nat)
    requires Good(reg) && NamesDiffer(reg) && h in reg.busy
    ensures h < |reg.entries| && reg.entries[h].name in Abs(reg)
    ensures Abs(reg)[reg.entries[h].name] == ItemOf(reg, h)
  {
    assert h < |reg.entries|;
    FindUnique(reg, reg.entries[h].name, h);
  }

  // What the map says of a name is what its entry says.
  lemma AbsEntry(reg: Reg, n: string)
    requires Good(reg) && n in Abs(reg)
    ensures var id := Abs(reg)[n].id;
      id < |reg.entries| && id in reg.busy && reg.entries[id].name == n && Abs(reg)[n] == ItemOf(reg, id)
  {
  }

  // Two registries whose named entries agree name by name have the same map.
  lemma AbsExtends(reg: Reg, m: map<string, Item>)
    requires Good(reg) && NamesDiffer(reg)
    requires forall h | 0 <= h < |reg.entries| && h in reg.busy ::
               reg.entries[h].name in m && m[reg.entries[h].name] == ItemOf(reg, h)
    requires forall n | n in m :: n in BusyNames(reg)
    ensures Abs(reg) == m
  {
    assert Abs(reg).Keys == BusyNames(reg);
    hide Good;
    hide NamesDiffer;
    hide Abs;
    forall n | n in BusyNames(reg) ensures n in m && Abs(reg)[n] == m[n] {
      var h :| 0 <= h < |reg.entries| && h in reg.busy && reg.entries[h].name == n;
      AbsOf(reg, h);
    }
  }

  // Every one of n identifiers belongs to a name.
  ghost predicate Full(m: map<string, Item>, n: nat) {
    forall id | 0 <= id < n :: HasId(m, id)
  }

  ghost predicate HasId(m: map<string, Item>, id: nat) {
    exists x :: x in m && m[x].id == id
  }

  // An atomic open on the map of n identifiers, with the length it leaves the caller. A new
  // name gets an identifier no other name has; it fails when there is none left, and
  // otherwise when mod_malloc grants nothing.
  ghost predicate AtomicOpen(m: map<string, Item>, n: nat, granted: bool, name: string, size: nat, core: Core,
                             m': map<string, Item>, ret: int, length: nat)
  {
    if size == 0 then m' == m && ret == OPEN_ERR && length == size
    else if name in m then
      if size > m[name].length then m' == m && ret == LENGTH_ERR && length == size
      else
        && m' == m[name := m[name].(cores := m[name].cores + {core})]
        && ret == m[name].id && length == m[name].length
    else if Full(m, n) then m' == m && ret == OPEN_ERR && length == size
    else if !granted then m' == m && ret == MALLOC_ERR && length == size
    else
      && 0 <= ret < n && !HasId(m, ret)
      && m' == m[name := Item(ret, size, {core})] && length == size
  }

  // An atomic close: the core leaves the name's set, and the name goes with its last core. A
  // handle the core does not hold is NOT_OPEN, one that is no identifier -1.
  ghost predicate AtomicClose(m: map<string, Item>, n: nat, handle: int, core: Core, m': map<string, Item>, ret: int) {
    if x :| x in m && m[x].id == handle && core in m[x].cores then
      && ret == 0
      && m' == (if m[x].cores == {core} then m - {x} else m[x := m[x].(cores := m[x].cores - {core})])
    else
      m' == m && ret == if 0 <= handle < n then NOT_OPEN else -1
  }

  lemma FullExactly(reg: Reg)
    requires Good(reg) && NamesDiffer(reg)
    ensures Full(Abs(reg), |reg.entries|) <==> reg.free == []
    ensures reg.free != [] ==> !HasId(Abs(reg), reg.free[0])
  {
    var m := Abs(reg);
    if reg.free == [] {
      forall id | 0 <= id < |reg.entries| ensures HasId(m, id) {
        assert id in reg.busy;
        AbsOf(reg, id);
      }
    } else {
      assert reg.free[0] in reg.free;
      forall x | x in m ensures m[x].id != reg.free[0] {
        AbsEntry(reg, x);
      }
      assert !HasId(m, reg.free[0]) && reg.free[0] < |reg.entries|;
    }
  }

  lemma OpenIsAtomic(reg: Reg, name: string, size: nat, core: Core, g: Grant)
    requires Good(reg) && NamesDiffer(reg) && |name| < NAME_MAX
    requires Creates(reg, name, size) && g.mem != 0 ==> |g.data| == size
    ensures var r := Open(reg, name, size, core, g);
      && Good(r.reg)
      && AtomicOpen(Abs(reg), |reg.entries|, g.mem != 0, name, size, core, Abs(r.reg), r.ret, r.length)
  {
    OpenKeeps(reg, name, size, core, g);
    var r := Open(reg, name, size, core, g);
    if size > 0 {
      match Find(reg, name)
      case Some(h) =>
        AbsOf(reg, h);
        if size <= reg.entries[h].length {
          MarkedGood(reg, h, core);
          AbsChange(reg, r.reg, h);
        }
      case None =>
        assert name !in BusyNames(reg);
        FullExactly(reg);
        if reg.free != [] && g.mem != 0 {
          CreatedAbs(reg, name, size, core, g);
        }
    }
  }

  // One named entry changes, or goes; the map changes at its name only.
  lemma AbsChange(reg: Reg, reg': Reg, h: nat)
    requires Good(reg) && NamesDiffer(reg) && Good(reg') && NamesDiffer(reg')
    requires |reg.entries| == |reg'.entries| && h < |reg.entries| && h in reg.busy
    requires forall k | 0 <= k < |reg.entries| && k != h ::
               reg'.entries[k] == reg.entries[k] && (k in reg'.busy <==> k in reg.busy)
    requires h in reg'.busy ==> reg'.entries[h].name == reg.entries[h].name
    ensures var n := reg.entries[h].name;
      && n in Abs(reg) && Abs(reg)[n] == ItemOf(reg, h)
      && Abs(reg') == if h in reg'.busy then Abs(reg)[n := ItemOf(reg', h)] else Abs(reg) - {n}
  {
    var n := reg.entries[h].name;
    var m' := if h in reg'.busy then Abs(reg)[n := ItemOf(reg', h)] else Abs(reg) - {n};
    OthersNamed(reg, reg', h);
    assert h in reg'.busy ==> n in BusyNames(reg');
    assert Abs(reg).Keys == BusyNames(reg);
    hide Good;
    hide NamesDiffer;
    hide Abs;
    hide Find;
    hide BusyNames;
    AbsOf(reg, h);
    forall k | 0 <= k < |reg'.entries| && k in reg'.busy
      ensures reg'.entries[k].name in m' && m'[reg'.entries[k].name] == ItemOf(reg', k)
    {
      AbsOf(reg, k);
    }
    AbsExtends(reg', m');
  }

  lemma MarkedGood(reg: Reg, h: nat, core: Core)
    requires Good(reg) && NamesDiffer(reg) && h in reg.busy && h < |reg.entries|
    ensures var reg' := reg.(entries := reg.entries[h := Marked(reg.entries[h], core)]); Good(reg') && NamesDiffer(reg')
  {
  }

  lemma CreatedAbs(reg: Reg, name: string, size: nat, core: Core, g: Grant)
    requires Good(reg) && NamesDiffer(reg) && |name| < NAME_MAX && size > 0
    requires reg.free != [] && g.mem != 0 && |g.data| == size && Find(reg, name).None?
    ensures var reg' := Create(reg, name, size, core, g);
      && Good(reg') && NamesDiffer(reg')
      && Abs(reg') == Abs(reg)[name := Item(reg.free[0], size, {core})]
      && forall n | n in Abs(reg) :: Abs(reg)[n].id != reg.free[0]
  {
    var h, reg' := reg.free[0], Create(reg, name, size, core, g);
    CreateGood(reg, name, size, core, g);
    CreatedLists(reg, name, size, core, g);
    NewId(reg, h);
    CreatedNames(reg, reg', h, name);
    hide Good;
    hide NamesDiffer;
    hide Abs;
    hide Find;
    hide BusyNames;
    hide Create;
    CreatedItems(reg, reg', h, Abs(reg)[name := Item(h, size, {core})]);
  }

  // A new entry joins the busy ones and no other entry changes.
  lemma CreatedLists(reg: Reg, name: string, size: nat, core: Core, g: Grant)
    requires Good(reg) && |name| < NAME_MAX && reg.free != []
    ensures var h, reg' := reg.free[0], Create(reg, name, size, core, g);
      && |reg'.entries| == |reg.entries| && h < |reg.entries| && h !in reg.busy
      && (forall k :: k in reg'.busy <==> k == h || k in reg.busy)
      && (forall k | 0 <= k < |reg.entries| && k != h :: reg'.entries[k] == reg.entries[k])
      && reg'.entries[h].name == name && ItemOf(reg', h) == Item(h, size, {core})
  {
    var h, reg' := reg.free[0], Create(reg, name, size, core, g);
    assert h in reg.free && reg'.busy[0] == h && reg'.busy[1..] == reg.busy;
  }

  lemma NewId(reg: Reg, h: nat)
    requires Good(reg) && NamesDiffer(reg) && h !in reg.busy
    ensures forall n | n in Abs(reg) :: Abs(reg)[n].id != h
  {
    forall n | n in Abs(reg) ensures Abs(reg)[n].id != h {
      AbsEntry(reg, n);
    }
  }

  lemma CreatedItems(reg: Reg, reg': Reg, h: nat, m: map<string, Item>)
    requires Good(reg) && NamesDiffer(reg) && Good(reg') && NamesDiffer(reg')
    requires |reg'.entries| == |reg.entries| && h < |reg.entries| && h !in reg.busy
    requires forall k :: k in reg'.busy <==> k == h || k in reg.busy
    requires forall k | 0 <= k < |reg.entries| && k != h :: reg'.entries[k] == reg.entries[k]
    requires BusyNames(reg') == BusyNames(reg) + {reg'.entries[h].name}
    requires m == Abs(reg)[reg'.entries[h].name := ItemOf(reg', h)]
    ensures Abs(reg') == m
  {
    assert Abs(reg).Keys == BusyNames(reg);
    hide Good;
    hide Abs;
    hide BusyNames;
    forall k | 0 <= k < |reg'.entries| && k in reg'.busy
      ensures reg'.entries[k].name in m && m[reg'.entries[k].name] == ItemOf(reg', k)
    {
      if k != h {
        AbsOf(reg, k);
      }
    }
    AbsExtends(reg', m);
  }

  lemma CreatedNames(reg: Reg, reg': Reg, h: nat, name: string)
    requires |reg.entries| == |reg'.entries| && h < |reg.entries| && reg'.entries[h].name == name
    requires forall k :: k in reg'.busy <==> k == h || k in reg.busy
    requires h !in reg.busy && forall k | 0 <= k < |reg.entries| && k != h :: reg'.entries[k] == reg.entries[k]
    ensures BusyNames(reg') == BusyNames(reg) + {name}
  {
    forall n | n in BusyNames(reg) + {name} ensures n in BusyNames(reg') {
      if n == name {
        assert reg'.entries[h].name == n;
      } else {
        var k :| 0 <= k < |reg.entries| && k in reg.busy && reg.entries[k].name == n;
        assert reg'.entries[k].name == n;
      }
    }
  }

  lemma CloseIsAtomic(reg: Reg, handle: int, core: Core)
    requires Good(reg) && NamesDiffer(reg)
    ensures var r := Close(reg, handle, core);
      Good(r.0) && AtomicClose(Abs(reg), |reg.entries|, handle, core, Abs(r.0), r.1)
  {
    CloseKeeps(reg, handle, core);
    if 0 <= handle < |reg.entries| && core in reg.entries[handle].open {
      ClosedAbs(reg, handle, core);
      hide Close;
      IdIsOne(reg, handle);
    } else {
      NotHeld(reg, handle, core);
    }
    hide Good;
    hide NamesDiffer;
    hide Abs;
  }

  // What a close that is not refused does to the map.
  lemma ClosedAbs(reg: Reg, handle: nat, core: Core)
    requires Good(reg) && NamesDiffer(reg) && handle < |reg.entries| && core in reg.entries[handle].open
    ensures var n, r := reg.entries[handle].name, Close(reg, handle, core);
      && handle in reg.busy && Good(r.0) && r.1 == 0
      && n in Abs(reg) && Abs(reg)[n] == ItemOf(reg, handle)
      && Abs(r.0) == (if reg.entries[handle].open == {core} then Abs(reg) - {n}
                      else Abs(reg)[n := Abs(reg)[n].(cores := Abs(reg)[n].cores - {core})])
  {
    assert handle in reg.busy;
    CloseKeeps(reg, handle, core);
    RemoveDistinct(reg.busy, handle);
    hide Good;
    hide NamesDiffer;
    hide Abs;
    AbsChange(reg, Close(reg, handle, core).0, handle);
  }

  lemma IdIsOne(reg: Reg, handle: nat)
    requires Good(reg) && NamesDiffer(reg) && handle < |reg.entries| && handle in reg.busy
    ensures forall n | n in Abs(reg) && Abs(reg)[n].id == handle :: n == reg.entries[handle].name
  {
    forall n | n in Abs(reg) && Abs(reg)[n].id == handle ensures n == reg.entries[handle].name {
      AbsEntry(reg, n);
    }
  }

  lemma NotHeld(reg: Reg, handle: int, core: Core)
    requires Good(reg) && NamesDiffer(reg) && !(0 <= handle < |reg.entries| && core in reg.entries[handle].open)
    ensures forall n | n in Abs(reg) && Abs(reg)[n].id == handle :: core !in Abs(reg)[n].cores
  {
    forall n | n in Abs(reg) && Abs(reg)[n].id == handle ensures core !in Abs(reg)[n].cores {
      AbsEntry(reg, n);
    }
  }

  lemma OthersNamed(reg: Reg, reg': Reg, h: nat)
    requires |reg.entries| == |reg'.entries| && h < |reg.entries|
    requires forall k | 0 <= k < |reg.entries| && k != h && k in reg.busy ::
               k in reg'.busy && reg'.entries[k].name == reg.entries[k].name
    ensures forall x | x in BusyNames(reg) && x != reg.entries[h].name :: x in BusyNames(reg')
  {
    forall x | x in BusyNames(reg) && x != reg.entries[h].name ensures x in BusyNames(reg') {
      var k :| 0 <= k < |reg.entries| && k in reg.busy && reg.entries[k].name == x;
      assert reg'.entries[k].name == x;
    }
  }
}
