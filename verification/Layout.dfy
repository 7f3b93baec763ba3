/** Where the pools, the registry's info array and the control area lie in the region, and
    when the size check made before carving is right. Addresses are unsigned words. */
module Layout {
  import opened Words
  import opened Pools

  const INFO_SIZE: nat := 96     // sizeof(struct Shm_block_info)
  const CONTROL_SIZE: nat := 836 // sizeof(struct Shm_control_area)

  function NumberSum(counts: seq<nat>, i: nat): nat
    requires i <= |counts|
  {
    if i == 0 then 0 else NumberSum(counts, i - 1) + counts[i - 1]
  }

  function PoolSize(counts: seq<nat>, i: nat): nat
    requires i < |counts|
  {
    counts[i] * ClassSize(i)
  }

  // Bytes of the first i pools, as a mathematical number.
  function Offset(counts: seq<nat>, i: nat): nat
    requires i <= |counts|
  {
    if i == 0 then 0 else Offset(counts, i - 1) + PoolSize(counts, i - 1)
  }

  function Blocks(counts: seq<nat>): nat { NumberSum(counts, |counts|) }

  function PoolBytes(counts: seq<nat>): nat { Offset(counts, |counts|) }

  method TotalShmNumber(counts: seq<nat>) returns (ret: word)
    ensures ret == Wrap(Blocks(counts))
  {
    ret := 0;
    for i := 0 to |counts|
      invariant ret == Wrap(NumberSum(counts, i))
    {
      ret := Wrap(ret + counts[i]);
    }
  }

  lemma WrapSum(a: nat, b: nat)
    ensures Wrap(Wrap(a) + Wrap(b)) == Wrap(a + b)
  {
  }

  lemma {:induction false} ClassesGrow(i: nat, k: nat)
    requires i <= k
    ensures ClassSize(i) <= ClassSize(k)
  {
    if i < k {
      ClassesGrow(i, k - 1);
    }
  }

  // Doubling the size never wraps for the classes there are.
  lemma SmallClasses(i: nat)
    requires i <= TOTAL_POOLS
    ensures ClassSize(i) < TWO32
    ensures i > 0 ==> ClassSize(i) == Wrap(ClassSize(i - 1) * 2)
  {
    ClassesGrow(i, TOTAL_POOLS);
    assert ClassSize(15) == 0x200_0000;
  }

  lemma SizeStep(counts: seq<nat>, i: nat)
    requires i < |counts|
    ensures Wrap(Wrap(Offset(counts, i)) + Wrap(counts[i] * ClassSize(i))) == Wrap(Offset(counts, i + 1))
  {
    WrapSum(Offset(counts, i), counts[i] * ClassSize(i));
    hide Wrap;
  }

  method TotalShmSize(counts: seq<nat>) returns (ret: word)
    requires |counts| <= TOTAL_POOLS
    ensures ret == Wrap(PoolBytes(counts))
  {
    ret := 0;
    var size: word := 1024;
    assert Wrap(0) == 0;
    assert ClassSize(0) == 1024 && Offset(counts, 0) == 0;
    hide ClassSize;
    hide Offset;
    hide Wrap;
    for i := 0 to |counts|
      invariant ret == Wrap(Offset(counts, i))
      invariant size == ClassSize(i)
    {
      SizeStep(counts, i);
      SmallClasses(i + 1);
      ret := Wrap(ret + Wrap(counts[i] * size));
      size := Wrap(size * 2);
    }
  }

  // ---------------------------------------------------------------- the region

  function RoundDown(x: nat, k: nat): (r: nat)
    requires k > 0
    ensures r <= x < r + k
  {
    x - x % k
  }

  // control_size and rounded_start, in 32-bit arithmetic.
  function ControlBytes(counts: seq<nat>): word {
    Wrap(Wrap(Wrap(Blocks(counts)) * INFO_SIZE) + CONTROL_SIZE)
  }

  function PoolBase(start: word, counts: seq<nat>): word {
    RoundDown(Wrap(start + ControlBytes(counts) + 4096 - 1), 1024)
  }

  // The assertion and the test that mod_mem_init makes before it carves the pools.
  predicate LengthAsserted(start: word, length: word, counts: seq<nat>) {
    length > Wrap(PoolBase(start, counts) - start)
  }

  predicate SizeChecked(start: word, length: word, counts: seq<nat>) {
    Wrap(length - Wrap(PoolBase(start, counts) - start)) >= Wrap(PoolBytes(counts))
  }

  // m_block_start, and the true end of the info array.
  function InfoStart(start: nat): nat { RoundDown(start + CONTROL_SIZE + 32 - 1, 32) }

  function InfoEnd(start: nat, counts: seq<nat>): nat { InfoStart(start) + Blocks(counts) * INFO_SIZE }

  // Control area, info array and pools follow each other inside the region.
  predicate FitsRegion(start: word, length: word, counts: seq<nat>) {
    && start + CONTROL_SIZE <= InfoStart(start)
    && InfoEnd(start, counts) <= PoolBase(start, counts)
    && PoolBase(start, counts) + PoolBytes(counts) <= start + length
  }

  // The two sums the code forms modulo 2^32 are the true sums.
  predicate SumsDoNotWrap(start: word, counts: seq<nat>) {
    && start + Blocks(counts) * INFO_SIZE + CONTROL_SIZE + 4095 < TWO32
    && PoolBytes(counts) < TWO32
  }

  // The pools start on a 1K boundary, less than 4K behind the end of the control data.
  lemma BaseIsTight(start: word, counts: seq<nat>)
    requires SumsDoNotWrap(start, counts)
    ensures var used, base := CONTROL_SIZE + Blocks(counts) * INFO_SIZE, PoolBase(start, counts);
      base % 1024 == 0 && InfoEnd(start, counts) <= base && start + used + 3072 <= base < start + used + 4096
  {
    assert ControlBytes(counts) == Blocks(counts) * INFO_SIZE + CONTROL_SIZE;
  }

  // For pool counts that pass the check, everything fits if and only if no sum wrapped.
  lemma CheckIsExact(start: word, length: word, counts: seq<nat>)
    requires start + length <= TWO32
    requires LengthAsserted(start, length, counts) && SizeChecked(start, length, counts)
    ensures FitsRegion(start, length, counts) <==> SumsDoNotWrap(start, counts)
  {
    var n := Blocks(counts);
    if SumsDoNotWrap(start, counts) {
      assert ControlBytes(counts) == n * INFO_SIZE + CONTROL_SIZE;
    }
    if FitsRegion(start, length, counts) {
      assert start + CONTROL_SIZE + n * INFO_SIZE <= InfoEnd(start, counts) < TWO32;
      assert ControlBytes(counts) == n * INFO_SIZE + CONTROL_SIZE;
    }
  }

  // And when the sums do not wrap, the check passes exactly for regions long enough.
  lemma CheckIsComplete(start: word, length: word, counts: seq<nat>)
    requires start + length <= TWO32 && SumsDoNotWrap(start, counts)
    ensures (LengthAsserted(start, length, counts) && SizeChecked(start, length, counts) && PoolBytes(counts) > 0)
       <==> (FitsRegion(start, length, counts) && PoolBytes(counts) > 0)
  {
    assert ControlBytes(counts) == Blocks(counts) * INFO_SIZE + CONTROL_SIZE;
  }

  // One pool of 2^22 1K blocks passes the check in a 1 GB region that holds a quarter of it.
  lemma WrappedSizePasses()
    ensures var counts, start, length := [0x40_0000], 0x1000_0000, 0x4000_0000;
      && LengthAsserted(start, length, counts) && SizeChecked(start, length, counts)
      && !FitsRegion(start, length, counts)
  {
    var counts: seq<nat> := [0x40_0000];
    assert NumberSum(counts, 1) == NumberSum(counts, 0) + 0x40_0000;
    assert Offset(counts, 1) == Offset(counts, 0) + 0x40_0000 * ClassSize(0);
  }

  // The table compiled into the driver.
  const SHIPPED: seq<nat> := [4096, 4096, 2048, 2048, 64, 32, 16, 8, 8, 4, 4, 4, 4, 2, 0]

  lemma ShippedTotals()
    ensures Blocks(SHIPPED) == 12434 && PoolBytes(SHIPPED) == 88 * 0x10_0000
  {
    assert NumberSum(SHIPPED, 5) == 12352 && Offset(SHIPPED, 5) == 37 * 0x10_0000;
    assert NumberSum(SHIPPED, 10) == NumberSum(SHIPPED, 5) + 68;
    assert Offset(SHIPPED, 10) == Offset(SHIPPED, 5) + 7 * 0x10_0000;
    assert NumberSum(SHIPPED, 15) == NumberSum(SHIPPED, 10) + 14;
    assert Offset(SHIPPED, 15) == Offset(SHIPPED, 10) + 44 * 0x10_0000;
  }

  // ---------------------------------------------------------------- blocks

  function BlockAddr(base: nat, counts: seq<nat>, s: Spot): nat
    requires s.i < |counts|
  {
    base + Offset(counts, s.i) + s.j * ClassSize(s.i)
  }

  // The pointer mod_malloc hands out.
  function Payload(base: nat, counts: seq<nat>, s: Spot): nat
    requires s.i < |counts|
  {
    BlockAddr(base, counts, s) + OVERHEAD
  }

  ghost predicate InTable(counts: seq<nat>, s: Spot) {
    s.i < |counts| && s.j < counts[s.i]
  }

  lemma Scale(a: nat, b: nat, c: nat)
    requires a < b
    ensures a * c + c <= b * c
  {
    assert b * c == (a + 1) * c + (b - a - 1) * c;
  }

  lemma {:induction false} OffsetMonotone(counts: seq<nat>, i: nat, k: nat)
    requires i <= k <= |counts|
    ensures Offset(counts, i) <= Offset(counts, k)
  {
    if i < k {
      OffsetMonotone(counts, i, k - 1);
    }
  }

  // A block lies inside its pool, and so inside the carved part of the region.
  lemma BlockInPool(base: nat, counts: seq<nat>, s: Spot)
    requires InTable(counts, s)
    ensures base + Offset(counts, s.i) <= BlockAddr(base, counts, s)
    ensures BlockAddr(base, counts, s) + ClassSize(s.i) <= base + Offset(counts, s.i + 1) <= base + PoolBytes(counts)
  {
    Scale(s.j, counts[s.i], ClassSize(s.i));
    OffsetMonotone(counts, s.i + 1, |counts|);
  }

  lemma BlocksDisjoint(base: nat, counts: seq<nat>, s: Spot, t: Spot)
    requires InTable(counts, s) && InTable(counts, t) && s != t
    ensures || BlockAddr(base, counts, s) + ClassSize(s.i) <= BlockAddr(base, counts, t)
            || BlockAddr(base, counts, t) + ClassSize(t.i) <= BlockAddr(base, counts, s)
  {
    BlockInPool(base, counts, s);
    BlockInPool(base, counts, t);
    if s.i < t.i {
      OffsetMonotone(counts, s.i + 1, t.i);
    } else if t.i < s.i {
      OffsetMonotone(counts, t.i + 1, s.i);
    } else if s.j < t.j {
      Scale(s.j, t.j, ClassSize(s.i));
    } else {
      Scale(t.j, s.j, ClassSize(s.i));
    }
  }

  // ---------------------------------------------------------------- runs of the allocator

  datatype Op = Alloc(size: nat) | Release(s: Spot)

  function Step(hs: seq<Pool>, op: Op): seq<Pool>
    requires HeapsInv(hs)
  {
    match op
    case Alloc(size) => Malloc(hs, size).0
    case Release(s) => if s.i < |hs| && s.j < |hs[s.i].flags| then FreeSpot(hs, s) else hs
  }

  lemma StepKeeps(hs: seq<Pool>, op: Op)
    requires HeapsInv(hs)
    ensures HeapsInv(Step(hs, op)) && SameShape(hs, Step(hs, op))
  {
    match op
    case Alloc(size) => if size > 0 { MallocChoice(hs, size); }
    case Release(s) => if IsSpot(hs, s) { FreeBusy(hs, s); }
  }

  function Run(hs: seq<Pool>, ops: seq<Op>): (r: seq<Pool>)
    requires HeapsInv(hs)
    ensures HeapsInv(r) && SameShape(hs, r)
    decreases |ops|
  {
    if ops == [] then hs
    else
      StepKeeps(hs, ops[0]);
      Run(Step(hs, ops[0]), ops[1..])
  }

  ghost predicate Shaped(hs: seq<Pool>, counts: seq<nat>) {
    |hs| == |counts| && forall i | 0 <= i < |hs| :: |hs[i].flags| == counts[i]
  }

  function FreshHeaps(counts: seq<nat>): (hs: seq<Pool>)
    ensures Shaped(hs, counts)
  {
    seq(|counts|, i requires 0 <= i < |counts| => FreshPool(counts[i]))
  }

  lemma FreshHeapsInv(counts: seq<nat>)
    ensures HeapsInv(FreshHeaps(counts))
  {
    forall i | 0 <= i < |counts| ensures FreshHeaps(counts)[i].Inv(i) {
      FreshPoolInv(counts[i], i);
    }
  }

  function Apart(a: nat, n: nat, b: nat, m: nat): bool { a + n <= b || b + m <= a }

  // After any run of allocations and releases, the bytes a caller was given lie inside the
  // region behind the control area and the info array, and overlap neither another live
  // payload nor any block's header.
  lemma LivePayloads(start: word, length: word, counts: seq<nat>, ops: seq<Op>, s: Spot, t: Spot)
    requires FitsRegion(start, length, counts) && InTable(counts, t)
    ensures HeapsInv(FreshHeaps(counts))
    ensures var hs, base := Run(FreshHeaps(counts), ops), PoolBase(start, counts);
      BusySpot(hs, s) ==>
        && InTable(counts, s)
        && var p, n := Payload(base, counts, s), hs[s.i].lengths[s.j];
           && InfoEnd(start, counts) <= p && p + n <= start + length
           && Apart(p, n, BlockAddr(base, counts, t), OVERHEAD)
           && (s != t && BusySpot(hs, t) ==> Apart(p, n, Payload(base, counts, t), hs[t.i].lengths[t.j]))
  {
    hide Offset;
    hide PoolBase;
    hide InfoEnd;
    hide BlockAddr;
    FreshHeapsInv(counts);
    var hs, base := Run(FreshHeaps(counts), ops), PoolBase(start, counts);
    if BusySpot(hs, s) {
      assert hs[s.i].Inv(s.i) && |hs[s.i].flags| == |FreshHeaps(counts)[s.i].flags| == counts[s.i];
      BlockInPool(base, counts, s);
      assert base <= BlockAddr(base, counts, s);
      if s != t {
        BlocksDisjoint(base, counts, s, t);
        if BusySpot(hs, t) {
          assert hs[t.i].Inv(t.i);
        }
      }
    }
  }
}
