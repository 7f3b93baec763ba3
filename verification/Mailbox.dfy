/** The four transfer operations on an entry, and what a history of them amounts to: a
    mailbox with one slot on top of a byte array in which the last writer wins. */
module Mailbox {
  import opened Words
  import opened Options
  import opened Seqs
  import opened RegistrySpec

  function Min(a: nat, b: nat): nat { if a <= b then a else b }

  // bytes written over data from off on.
  function Splice(data: seq<byte>, off: nat, bytes: seq<byte>): (r: seq<byte>)
    requires off + |bytes| <= |data|
    ensures |r| == |data|
    ensures forall p | 0 <= p < |data| :: r[p] == if off <= p < off + |bytes| then bytes[p - off] else data[p]
  {
    data[..off] + bytes + data[off + |bytes|..]
  }

  // The size the offset forms compute, in unsigned arithmetic.
  function ClipSize(length: word, offset: word, mlen: word): word {
    if Wrap(length + offset) > mlen then Wrap(mlen - offset) else length
  }

  // The bytes accessed lie in the block exactly when the addition does not wrap.
  lemma ClipInBlock(length: word, offset: word, mlen: word)
    requires offset < mlen
    ensures offset + ClipSize(length, offset, mlen) <= mlen <==> length + offset < TWO32
    ensures length + offset < TWO32 ==> ClipSize(length, offset, mlen) == Min(length, mlen - offset)
  {
  }

  // ---------------------------------------------------------------- effects on an entry

  // An entry whose block is of word-sized length and holds its fragment, if there is one.
  ghost predicate Sound(e: Entry) {
    && |e.data| == e.length && e.length < TWO32
    && (e.size == 0 || e.offset + e.size <= e.length)
  }

  function Sent(e: Entry, core: Core, bytes: seq<byte>): Entry
    requires |e.data| == e.length
  {
    var size := Min(|bytes|, e.length);
    e.(data := Splice(e.data, 0, bytes[..size]), update := e.update + {core}, size := size, offset := 0)
  }

  function SentAt(e: Entry, core: Core, bytes: seq<byte>, off: nat): Entry
    requires |e.data| == e.length && e.length < TWO32 && off < e.length && |bytes| + off < TWO32
  {
    ClipInBlock(|bytes|, off, e.length);
    var size := ClipSize(|bytes|, off, e.length);
    e.(data := Splice(e.data, off, bytes[..size]), update := e.update + {core}, size := size, offset := off)
  }

  function Fragment(e: Entry, n: nat): seq<byte>
    requires Sound(e)
  {
    if e.size == 0 then [] else e.data[e.offset..e.offset + Min(n, e.size)]
  }

  // The whole of it.
  function Pending(e: Entry): seq<byte>
    requires Sound(e)
  {
    Fragment(e, e.size)
  }

  function Taken(e: Entry, core: Core): Entry {
    e.(update := e.update - {1 - core}, size := 0, offset := 0)
  }

  function SliceAt(e: Entry, n: nat, off: nat): seq<byte>
    requires |e.data| == e.length && e.length < TWO32 && off < e.length && n + off < TWO32
  {
    ClipInBlock(n, off, e.length);
    e.data[off..off + ClipSize(n, off, e.length)]
  }

  function Peeked(e: Entry, core: Core): Entry {
    e.(update := e.update - {1 - core})
  }

  // ---------------------------------------------------------------- the calls

  function Put(reg: Reg, h: nat, e: Entry): Reg
    requires h < |reg.entries|
  {
    reg.(entries := reg.entries[h := e])
  }

  // mpi_shm_send.
  function Send(reg: Reg, handle: int, bytes: seq<byte>, core: Core): (Reg, int)
    requires Good(reg)
  {
    if handle < 0 || handle >= |reg.entries| then (reg, OPEN_ERR)
    else
      var e := reg.entries[handle];
      if e.mem == 0 then (reg, NULL_MEM)
      else if core !in e.open then (reg, NOT_OPEN)
      else
        assert |e.data| == e.length;
        var e' := Sent(e, core, bytes);
        (Put(reg, handle, e'), e'.size)
  }

  ghost predicate Sized(reg: Reg) {
    forall h | 0 <= h < |reg.entries| :: reg.entries[h].length < TWO32
  }

  // Transfers leave alone what open and close work on.
  ghost predicate SameItem(e: Entry, e': Entry) {
    e'.name == e.name && e'.length == e.length && e'.mem == e.mem && e'.open == e.open && |e'.data| == |e.data|
  }

  lemma PutKeeps(reg: Reg, h: nat, e: Entry)
    requires Good(reg) && Sized(reg) && h < |reg.entries| && SameItem(reg.entries[h], e)
    requires reg.entries[h].open != {}
    ensures Good(Put(reg, h, e)) && Sized(Put(reg, h, e)) && h in reg.busy
    ensures NamesDiffer(reg) ==> NamesDiffer(Put(reg, h, e))
  {
  }

  // mpi_shm_send_offset.
  function SendOffset(reg: Reg, handle: int, bytes: seq<byte>, off: nat, core: Core): (Reg, int)
    requires Good(reg) && Sized(reg) && |bytes| + off < TWO32
  {
    if handle < 0 || handle >= |reg.entries| then (reg, OPEN_ERR)
    else
      var e := reg.entries[handle];
      if e.length <= off then (reg, LENGTH_ERR)
      else if e.mem == 0 then (reg, NULL_MEM)
      else if core !in e.open then (reg, NOT_OPEN)
      else
        assert |e.data| == e.length;
        var e' := SentAt(e, core, bytes, off);
        (Put(reg, handle, e'), e'.size)
  }

  // The pending fragment of the entry, if it is one that holds memory, lies in its block.
  ghost predicate SoundAt(reg: Reg, handle: int) {
    0 <= handle < |reg.entries| && reg.entries[handle].mem != 0 ==> Sound(reg.entries[handle])
  }

  // mpi_shm_get with update == 0: the new registry, the result and the bytes copied out.
  function Get(reg: Reg, handle: int, n: nat, core: Core): (Reg, int, seq<byte>)
    requires Good(reg) && SoundAt(reg, handle)
  {
    if n == 0 then (reg, INVALID, [])
    else if handle < 0 || handle >= |reg.entries| then (reg, OPEN_ERR, [])
    else
      var e := reg.entries[handle];
      if e.mem == 0 then (reg, NULL_MEM, [])
      else if 1 - core !in e.open then (reg, NOT_OPEN, [])
      else (Put(reg, handle, Taken(e, core)), Min(n, e.size), Fragment(e, n))
  }

  // mpi_shm_get_offset with update == 0.
  function GetOffset(reg: Reg, handle: int, n: nat, off: nat, core: Core): (Reg, int, seq<byte>)
    requires Good(reg) && Sized(reg) && n + off < TWO32
  {
    if n == 0 then (reg, INVALID, [])
    else if handle < 0 || handle >= |reg.entries| then (reg, OPEN_ERR, [])
    else
      var e := reg.entries[handle];
      if e.length <= off then (reg, LENGTH_ERR, [])
      else if e.mem == 0 then (reg, NULL_MEM, [])
      else if 1 - core !in e.open then (reg, NOT_OPEN, [])
      else
        assert |e.data| == e.length;
        (Put(reg, handle, Peeked(e, core)), |SliceAt(e, n, off)|, SliceAt(e, n, off))
  }

  // ---------------------------------------------------------------- histories

  // A transfer made on one entry, by either core.
  datatype Xfer =
    | Post(core: Core, bytes: seq<byte>)
    | PostAt(core: Core, bytes: seq<byte>, off: nat)
    | Fetch(core: Core, n: nat)
    | Look(core: Core, n: nat, off: nat)

  // Lengths and offsets are words whose sum does not wrap.
  predicate Sane(x: Xfer) {
    match x
    case Post(_, bytes) => |bytes| < TWO32
    case PostAt(_, bytes, off) => |bytes| + off < TWO32
    case Fetch(_, n) => n < TWO32
    case Look(_, n, off) => n + off < TWO32
  }

  ghost predicate AllSane(xs: seq<Xfer>) {
    forall i | 0 <= i < |xs| :: Sane(xs[i])
  }

  function Apply(e: Entry, x: Xfer): (r: Entry)
    requires Sound(e) && Sane(x)
    ensures Sound(r) && r.length == e.length && r.open == e.open && r.mem == e.mem && r.name == e.name
  {
    match x
    case Post(core, bytes) => Sent(e, core, bytes)
    case PostAt(core, bytes, off) =>
      if e.length <= off then e
      else
        ClipInBlock(|bytes|, off, e.length);
        SentAt(e, core, bytes, off)
    case Fetch(core, n) => if n == 0 then e else Taken(e, core)
    case Look(core, n, off) => if n == 0 || e.length <= off then e else Peeked(e, core)
  }

  function After(e: Entry, xs: seq<Xfer>): (r: Entry)
    requires Sound(e) && AllSane(xs)
    ensures Sound(r) && r.length == e.length && r.open == e.open && r.mem == e.mem && r.name == e.name
  {
    if xs == [] then e else Apply(After(e, xs[..|xs| - 1]), xs[|xs| - 1])
  }

  // The fragment of the latest send or send_offset since the latest get.
  function Slot(xs: seq<Xfer>, length: nat): Option<seq<byte>> {
    if xs == [] then None
    else
      var x, rest := xs[|xs| - 1], xs[..|xs| - 1];
      match x
      case Post(_, bytes) => Some(bytes[..Min(|bytes|, length)])
      case PostAt(_, bytes, off) =>
        if off < length then Some(bytes[..Min(|bytes|, length - off)]) else Slot(rest, length)
      case Fetch(_, n) => if n == 0 then Slot(rest, length) else None
      case Look(_, _, _) => Slot(rest, length)
  }

  // Whether a send covers byte p of a block of this length, and with what.
  function Covers(x: Xfer, length: nat, p: nat): Option<byte> {
    match x
    case Post(_, bytes) => if p < |bytes| && p < length then Some(bytes[p]) else None
    case PostAt(_, bytes, off) => if off <= p < off + |bytes| && p < length then Some(bytes[p - off]) else None
    case _ => None
  }

  // Byte p as the most recent send covering it wrote it.
  function LastWritten(init: seq<byte>, xs: seq<Xfer>, p: nat): byte
    requires p < |init|
  {
    if xs == [] then init[p]
    else
      match Covers(xs[|xs| - 1], |init|, p)
      case Some(b) => b
      case None => LastWritten(init, xs[..|xs| - 1], p)
  }

  function Content(s: Option<seq<byte>>): seq<byte> {
    match s
    case Some(f) => f
    case None => []
  }

  // Over any history of one life of an entry that starts with an empty slot: the pending
  // fragment is what the slot holds, in place inside the block, and every byte is its last
  // writer's.
  lemma {:induction false} History(e: Entry, xs: seq<Xfer>)
    requires Sound(e) && e.size == 0 && AllSane(xs)
    ensures var r := After(e, xs);
      && (e.offset <= e.length ==> r.offset + r.size <= r.length)
      && Pending(r) == Content(Slot(xs, e.length))
      && forall p | 0 <= p < e.length :: r.data[p] == LastWritten(e.data, xs, p)
    decreases |xs|
  {
    if xs != [] {
      var x, rest := xs[|xs| - 1], xs[..|xs| - 1];
      History(e, rest);
      assert xs == rest + [x];
      var q, r := After(e, rest), After(e, xs);
      BytesStep(q, x);
      SlotStep(q, x, rest);
      if e.offset <= e.length {
        BoundStep(q, x);
      }
      hide Apply;
      hide Slot;
      hide Pending;
    }
  }

  lemma BoundStep(q: Entry, x: Xfer)
    requires Sound(q) && Sane(x) && q.offset + q.size <= q.length
    ensures var r := Apply(q, x); r.offset + r.size <= r.length
  {
    if x.PostAt? && x.off < q.length {
      ClipInBlock(|x.bytes|, x.off, q.length);
    }
  }

  lemma BytesStep(q: Entry, x: Xfer)
    requires Sound(q) && Sane(x)
    ensures forall p | 0 <= p < q.length ::
              Apply(q, x).data[p] == match Covers(x, q.length, p) case Some(b) => b case None => q.data[p]
  {
    match x
    case Post(core, bytes) =>
    case PostAt(core, bytes, off) =>
      if off < q.length {
        ClipInBlock(|bytes|, off, q.length);
      }
    case Fetch(core, n) =>
    case Look(core, n, off) =>
  }

  lemma SlotStep(q: Entry, x: Xfer, rest: seq<Xfer>)
    requires Sound(q) && Sane(x)
    requires Pending(q) == Content(Slot(rest, q.length))
    ensures Pending(Apply(q, x)) == Content(Slot(rest + [x], q.length))
  {
    assert (rest + [x])[..|rest|] == rest;
    match x
    case Post(core, bytes) =>
    case PostAt(core, bytes, off) =>
      if off < q.length {
        ClipInBlock(|bytes|, off, q.length);
      }
    case Fetch(core, n) =>
    case Look(core, n, off) =>
  }

  // So a get of n bytes returns the first n of the pending fragment, or nothing.
  lemma FetchReturns(e: Entry, xs: seq<Xfer>, n: nat)
    requires Sound(e) && e.size == 0 && AllSane(xs)
    ensures var f := Content(Slot(xs, e.length));
      Fragment(After(e, xs), n) == f[..Min(n, |f|)]
  {
    hide Slot;
    hide Content;
    hide LastWritten;
    History(e, xs);
    var r := After(e, xs);
    hide After;
    if r.size > 0 {
      SliceOfSlice(r.data, r.offset, r.size, 0, Min(n, r.size));
    }
  }

  // And get_offset returns the slice asked for, cut at the end of the block.
  lemma LookReturns(e: Entry, xs: seq<Xfer>, n: nat, off: nat)
    requires Sound(e) && e.size == 0 && AllSane(xs)
    requires off < e.length && n + off < TWO32
    ensures var s := SliceAt(After(e, xs), n, off);
      && |s| == Min(off + n, e.length) - off
      && forall k | 0 <= k < |s| :: s[k] == LastWritten(e.data, xs, off + k)
  {
    History(e, xs);
    ClipInBlock(n, off, e.length);
  }

  // Whether the slot ever tells the truth of an entry is decided by what is pending at its
  // start: every history from there on ends with what the slot holds, or not even the empty one.
  lemma FreshIsExact(e: Entry)
    requires Sound(e)
    ensures e.size == 0 <==> forall xs | AllSane(xs) :: Pending(After(e, xs)) == Content(Slot(xs, e.length))
  {
    if e.size == 0 {
      forall xs | AllSane(xs) ensures Pending(After(e, xs)) == Content(Slot(xs, e.length)) {
        History(e, xs);
      }
    } else {
      assert Pending(After(e, [])) != Content(Slot([], e.length));
    }
  }

  // An entry that is closed with a fragment pending keeps m_size and m_offset into its next
  // life. It is in order there exactly when that fragment would fit the new block, and then
  // the first get finds nothing, as it should, exactly when none was pending.
  lemma StaleSlot(reg: Reg, handle: nat, core: Core, name: string, size: nat, other: Core, g: Grant, n: nat)
    requires Good(reg) && LastClose(reg, handle, core) && Sound(reg.entries[handle])
    requires var reg1 := Close(reg, handle, core).0; Good(reg1) && Creates(reg1, name, size)
    requires g.mem != 0 && |g.data| == size && size < TWO32 && n > 0
    ensures var e, e' := reg.entries[handle],
      Open(Close(reg, handle, core).0, name, size, other, g).reg.entries[handle];
      && e'.size == e.size && e'.offset == e.offset && e'.update == e.update - {core}
      && (Sound(e') <==> e.size == 0 || e.offset + e.size <= size)
      && (Sound(e') ==> (Fragment(e', n) == [] <==> e.size == 0))
  {
  }

  // ---------------------------------------------------------------- the calls as transfers

  // What a call hands back: its result, what an open stores through its length argument, and
  // the bytes a get puts into the caller's buffer.
  datatype Outcome = Outcome(ret: int, length: nat, bytes: seq<byte>)

  function Only(ret: int): Outcome { Outcome(ret, 0, []) }

  // The core whose bit the call tests: its own for a send, its peer's for a get.
  function Tested(x: Xfer): Core {
    if x.Post? || x.PostAt? then x.core else 1 - x.core
  }

  predicate HasOffset(x: Xfer) { x.PostAt? || x.Look? }

  function Off(x: Xfer): nat {
    if HasOffset(x) then x.off else 0
  }

  // What an atomic transfer hands back.
  function Atomically(e: Entry, x: Xfer): Outcome
    requires Sound(e) && Sane(x)
  {
    match x
    case Post(_, bytes) => Only(Min(|bytes|, e.length))
    case PostAt(_, bytes, off) => Only(if off < e.length then Min(|bytes|, e.length - off) else LENGTH_ERR)
    case Fetch(_, n) => Outcome(|Fragment(e, n)|, 0, Fragment(e, n))
    case Look(_, n, off) =>
      if off < e.length then Outcome(|SliceAt(e, n, off)|, 0, SliceAt(e, n, off)) else Only(LENGTH_ERR)
  }

  // The answer a transfer gets when one of its tests fails, in the order of the tests.
  function Refused(reg: Reg, handle: int, x: Xfer): Option<int> {
    if (x.Fetch? || x.Look?) && x.n == 0 then Some(INVALID)
    else if handle < 0 || handle >= |reg.entries| then Some(OPEN_ERR)
    else
      var e := reg.entries[handle];
      if HasOffset(x) && e.length <= Off(x) then Some(LENGTH_ERR)
      else if e.mem == 0 then Some(NULL_MEM)
      else if Tested(x) !in e.open then Some(NOT_OPEN)
      else None
  }

  // Which answer that is on a registry in order. A closed handle is NULL_MEM to a send or get,
  // but LENGTH_ERR to the offset forms.
  lemma RefusedExactly(reg: Reg, handle: int, x: Xfer)
    requires Good(reg) && (x.Fetch? || x.Look? ==> x.n > 0)
    ensures var r, there := Refused(reg, handle, x), 0 <= handle < |reg.entries|;
      && (r == Some(OPEN_ERR) <==> !there)
      && (r == Some(LENGTH_ERR) <==> there && HasOffset(x)
                                     && (handle in reg.free || reg.entries[handle].length <= x.off))
      && (r == Some(NULL_MEM) <==> there && !HasOffset(x) && handle in reg.free)
      && (r == Some(NOT_OPEN) <==> there && handle in reg.busy && Tested(x) !in reg.entries[handle].open
                                   && (HasOffset(x) ==> x.off < reg.entries[handle].length))
      && (r == None <==> there && Tested(x) in reg.entries[handle].open
                         && (HasOffset(x) ==> x.off < reg.entries[handle].length))
  {
    if 0 <= handle < |reg.entries| {
      assert handle in reg.busy ==> BusyEntry(reg.entries[handle]);
      assert handle in reg.free ==> FreeEntry(reg.entries[handle]);
    }
  }

  function Transfer(reg: Reg, handle: int, x: Xfer): (Reg, Outcome)
    requires Good(reg) && Sized(reg) && SoundAt(reg, handle) && Sane(x)
  {
    match x
    case Post(core, bytes) => var (reg', ret) := Send(reg, handle, bytes, core); (reg', Only(ret))
    case PostAt(core, bytes, off) => var (reg', ret) := SendOffset(reg, handle, bytes, off, core); (reg', Only(ret))
    case Fetch(core, n) => var (reg', ret, out) := Get(reg, handle, n, core); (reg', Outcome(ret, 0, out))
    case Look(core, n, off) =>
      var (reg', ret, out) := GetOffset(reg, handle, n, off, core);
      (reg', Outcome(ret, 0, out))
  }

  // Each of the four calls is either refused, and changes nothing, or makes its transfer on
  // its entry and changes nothing else.
  lemma TransferIs(reg: Reg, handle: int, x: Xfer)
    requires Good(reg) && Sized(reg) && SoundAt(reg, handle) && Sane(x)
    ensures var (reg', out) := Transfer(reg, handle, x);
      match Refused(reg, handle, x)
      case Some(ret) => reg' == reg && out == Only(ret)
      case None =>
        && 0 <= handle < |reg.entries| && Sound(reg.entries[handle]) && Off(x) < reg.entries[handle].length
        && reg' == Put(reg, handle, Apply(reg.entries[handle], x)) && out == Atomically(reg.entries[handle], x)
  {
    if Refused(reg, handle, x).None? {
      var e := reg.entries[handle];
      assert handle in reg.busy && BusyEntry(e);
    }
    hide Good;
    hide Sized;
  }

  lemma PeekedSame(e: Entry, core: Core, x: Xfer)
    requires Sound(e) && Sane(x)
    ensures Sound(Peeked(e, core)) && Atomically(Peeked(e, core), x) == Atomically(e, x)
  {
  }

  lemma RefusedSame(reg: Reg, h: nat, e: Entry, handle: int, x: Xfer)
    requires h < |reg.entries| && SameItem(reg.entries[h], e)
    ensures Refused(Put(reg, h, e), handle, x) == Refused(reg, handle, x)
  {
  }

  // What a get_offset makes of the registry.
  lemma LookIs(reg: Reg, handle: int, n: nat, off: nat, core: Core)
    requires Good(reg) && Sized(reg) && n + off < TWO32 && Refused(reg, handle, Look(core, n, off)).None?
    ensures 0 <= handle < |reg.entries| && Sound(reg.entries[handle].(size := 0))
    ensures var reg', e := GetOffset(reg, handle, n, off, core).0, Peeked(reg.entries[handle], core);
      && reg' == Put(reg, handle, e) && SameItem(reg.entries[handle], e)
      && Good(reg') && Sized(reg')
  {
    assert handle in reg.busy;
    PutKeeps(reg, handle, Peeked(reg.entries[handle], core));
  }

  // A get_offset leaves the answer of every later transfer as it was, whichever kind it is.
  lemma LookDisturbsNothing(reg: Reg, handle: int, n: nat, off: nat, core: Core, x: Xfer, later: int)
    requires Good(reg) && Sized(reg) && SoundAt(reg, later) && n + off < TWO32 && Sane(x)
    ensures var reg' := GetOffset(reg, handle, n, off, core).0;
      && Good(reg') && Sized(reg') && SoundAt(reg', later)
      && Transfer(reg', later, x).1 == Transfer(reg, later, x).1
  {
    if Refused(reg, handle, Look(core, n, off)).None? {
      LookIs(reg, handle, n, off, core);
      var e, reg' := reg.entries[handle], GetOffset(reg, handle, n, off, core).0;
      hide GetOffset;
      hide Transfer;
      hide Good;
      hide Sized;
      hide Peeked;
      RefusedSame(reg, handle, Peeked(e, core), later, x);
      hide Refused;
      if later == handle && Refused(reg, later, x).None? { PeekedSame(e, core, x); }
      assert SoundAt(reg', later) by {
        if later == handle && e.mem != 0 { PeekedSame(e, core, x); }
      }
      TransferIs(reg', later, x);
      TransferIs(reg, later, x);
      hide Apply;
      hide Atomically;
      hide Sound;
    } else {
      assert GetOffset(reg, handle, n, off, core).0 == reg;
    }
  }

  // What fits of a send is what the next get hands out, as far as it asks; a get that asks for
  // less takes the rest away as well.
  lemma SendThenGet(reg: Reg, h: nat, bytes: seq<byte>, core: Core, n: nat, n': nat, other: Core, third: Core)
    requires Good(reg) && Sized(reg) && SoundAt(reg, h) && n > 0 && n' > 0
    requires h < |reg.entries| && reg.entries[h].open == {0, 1} && |bytes| < TWO32
    ensures var (reg1, sent) := Send(reg, h, bytes, core);
      && sent == Min(|bytes|, reg.entries[h].length) && Good(reg1) && SoundAt(reg1, h)
      && var (reg2, got, out) := Get(reg1, h, n, other);
         && got == |out| == Min(n, sent) && out == bytes[..got] && Good(reg2) && SoundAt(reg2, h)
         && Get(reg2, h, n', third).1 == 0 && Get(reg2, h, n', third).2 == []
  {
    var e := reg.entries[h];
    assert BusyEntry(e) by { assert h in reg.busy; }
    var reg1 := Send(reg, h, bytes, core).0;
    assert reg1 == Put(reg, h, Sent(e, core, bytes));
    PutKeeps(reg, h, Sent(e, core, bytes));
    var e1 := Sent(e, core, bytes);
    assert e1.data[..e1.size] == bytes[..e1.size];
    PutKeeps(reg1, h, Taken(e1, other));
    hide Good;
    hide Sized;
    hide Splice;
    assert Fragment(e1, n) == bytes[..Min(n, e1.size)] by {
      if e1.size > 0 { assert e1.data[0..0 + Min(n, e1.size)] == e1.data[..e1.size][..Min(n, e1.size)]; }
    }
  }

  // ---------------------------------------------------------------- the update bits

  // The transfer sets, or clears, the update bit of core c.
  predicate Sets(x: Xfer, length: nat, c: Core) {
    (x.Post? || (x.PostAt? && x.off < length)) && x.core == c
  }

  predicate Clears(x: Xfer, length: nat, c: Core) {
    ((x.Fetch? && x.n > 0) || (x.Look? && x.n > 0 && x.off < length)) && x.core == 1 - c
  }

  ghost predicate NoneClears(xs: seq<Xfer>, from: nat, length: nat, c: Core) {
    forall j | from <= j < |xs| :: !Clears(xs[j], length, c)
  }

  // Core c has sent since its peer last got, by either form of get.
  ghost predicate Unread(xs: seq<Xfer>, length: nat, c: Core) {
    exists i | 0 <= i < |xs| :: Sets(xs[i], length, c) && NoneClears(xs, i + 1, length, c)
  }

  // Over any history, that is what the update bit of a core says. A bit that was set before
  // stays until the peer's first get.
  lemma {:induction false} UpdateTells(e: Entry, xs: seq<Xfer>, c: Core)
    requires Sound(e) && AllSane(xs)
    ensures c in After(e, xs).update <==>
            Unread(xs, e.length, c) || (c in e.update && NoneClears(xs, 0, e.length, c))
    decreases |xs|
  {
    if xs != [] {
      var rest, x := xs[..|xs| - 1], xs[|xs| - 1];
      UpdateTells(e, rest, c);
      UpdateStep(After(e, rest), x, c);
      hide Apply;
      UnreadStep(rest, x, e.length, c);
      assert xs == rest + [x];
      hide Unread;
      hide NoneClears;
    } else {
      assert NoneClears(xs, 0, e.length, c);
    }
  }

  lemma UpdateStep(e: Entry, x: Xfer, c: Core)
    requires Sound(e) && Sane(x)
    ensures c in Apply(e, x).update <==>
            Sets(x, e.length, c) || (c in e.update && !Clears(x, e.length, c))
  {
  }

  lemma UnreadStep(xs: seq<Xfer>, x: Xfer, length: nat, c: Core)
    ensures Unread(xs + [x], length, c) <==> Sets(x, length, c) || (Unread(xs, length, c) && !Clears(x, length, c))
    ensures NoneClears(xs + [x], 0, length, c) <==> NoneClears(xs, 0, length, c) && !Clears(x, length, c)
  {
    var ys := xs + [x];
    assert ys[|xs|] == x && forall i | 0 <= i < |xs| :: ys[i] == xs[i];
    if Sets(x, length, c) {
      assert NoneClears(ys, |xs| + 1, length, c);
    }
    if Unread(xs, length, c) && !Clears(x, length, c) {
      var i :| 0 <= i < |xs| && Sets(xs[i], length, c) && NoneClears(xs, i + 1, length, c);
      assert Sets(ys[i], length, c) && NoneClears(ys, i + 1, length, c);
    }
    if Unread(ys, length, c) && !Sets(x, length, c) {
      var i :| 0 <= i < |ys| && Sets(ys[i], length, c) && NoneClears(ys, i + 1, length, c);
      assert i < |xs| && !Clears(ys[|xs|], length, c);
      assert Sets(xs[i], length, c) && NoneClears(xs, i + 1, length, c);
    }
  }
}
