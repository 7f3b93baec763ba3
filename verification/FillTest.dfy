/** The two counter loops run by any number of cores at once. One step is one access to
    shared memory; a schedule is the order in which the cores take their steps. */
module FillTest {
  import opened Words
  import opened Sums
  import opened Locks

  // ---------------------------------------------------------------- with the lock

  datatype Pc = Idle | Holding | Loaded | Stored

  // A core inside shm_fill_test: iterations asked for and finished, where it is in the
  // current one, and its local value.
  datatype Core = Core(count: nat, i: nat, pc: Pc, value: word)

  datatype State = State(cores: seq<Core>, lock: int, cell: word)

  function Start(counts: seq<nat>, cell: word): State {
    State(seq(|counts|, c requires 0 <= c < |counts| => Core(counts[c], 0, Idle, cell)), 0, cell)
  }

  // The next access of core c: test-and-set (repeated while it fails), load, store, clear.
  function Step(s: State, c: nat): State {
    if c >= |s.cores| then s else
    var k := s.cores[c];
    match k.pc
    case Idle =>
      if k.i >= k.count then s
      else if s.lock != 0 then s.(lock := 1)
      else s.(lock := 1, cores := s.cores[c := k.(pc := Holding)])
    case Holding => s.(cores := s.cores[c := k.(pc := Loaded, value := s.cell)])
    case Loaded =>
      var v := Wrap(k.value + 1);
      s.(cell := v, cores := s.cores[c := k.(pc := Stored, value := v)])
    case Stored => s.(lock := 0, cores := s.cores[c := k.(pc := Idle, i := k.i + 1)])
  }

  function Exec(s: State, schedule: seq<nat>): State
    decreases |schedule|
  {
    if schedule == [] then s else Exec(Step(s, schedule[0]), schedule[1..])
  }

  ghost predicate Finished(s: State) {
    forall c | 0 <= c < |s.cores| :: s.cores[c].pc == Idle && s.cores[c].i == s.cores[c].count
  }

  function Added(k: Core): int { k.i + if k.pc == Stored then 1 else 0 }

  function AllAdded(cores: seq<Core>): seq<int> {
    seq(|cores|, c requires 0 <= c < |cores| => Added(cores[c]))
  }

  ghost predicate Inv(s: State, counts: seq<nat>, cell0: word) {
    && |s.cores| == |counts|
    && (forall c | 0 <= c < |counts| :: s.cores[c].count == counts[c] && Added(s.cores[c]) <= counts[c])
    && (s.lock == 0 || s.lock == 1)
    && (s.lock == 1 ==> exists c :: 0 <= c < |counts| && s.cores[c].pc != Idle)
    && (forall c | 0 <= c < |counts| :: s.cores[c].pc != Idle ==> s.lock == 1 && s.cores[c].i < counts[c])
    && (forall c, d | 0 <= c < d < |counts| :: s.cores[c].pc == Idle || s.cores[d].pc == Idle)
    && (forall c | 0 <= c < |counts| :: s.cores[c].pc == Loaded ==> s.cores[c].value == s.cell)
    && s.cell == Wrap(cell0 + Sum(AllAdded(s.cores)))
  }

  lemma WrapSucc(x: int)
    ensures Wrap(Wrap(x) + 1) == Wrap(x + 1)
  {
  }

  lemma CellKept(s: State, c: nat, counts: seq<nat>, cell0: word)
    requires Inv(s, counts, cell0) && c < |s.cores|
    ensures Step(s, c).cell == Wrap(cell0 + Sum(AllAdded(Step(s, c).cores)))
  {
    var s' := Step(s, c);
    var k' := s'.cores[c];
    SumUpdate(AllAdded(s.cores), c, Added(k'));
    assert AllAdded(s'.cores) == AllAdded(s.cores)[c := Added(k')];
    WrapSucc(cell0 + Sum(AllAdded(s.cores)));
    hide Wrap;
  }

  lemma StepKeeps(s: State, c: nat, counts: seq<nat>, cell0: word)
    requires Inv(s, counts, cell0)
    ensures Inv(Step(s, c), counts, cell0)
  {
    if c < |s.cores| {
      CellKept(s, c, counts, cell0);
      hide Wrap;
      hide Sum;
      hide AllAdded;
    }
  }

  lemma {:induction false} ExecKeeps(s: State, schedule: seq<nat>, counts: seq<nat>, cell0: word)
    requires Inv(s, counts, cell0)
    ensures Inv(Exec(s, schedule), counts, cell0)
    decreases |schedule|
  {
    if schedule != [] {
      StepKeeps(s, schedule[0], counts, cell0);
      ExecKeeps(Step(s, schedule[0]), schedule[1..], counts, cell0);
    }
  }

  // At every point of every interleaving at most one core is between its test-and-set and
  // its clear, and once all cores are done no addition has been lost.
  lemma NoUpdateLost(counts: seq<nat>, cell0: word, schedule: seq<nat>)
    ensures var s := Exec(Start(counts, cell0), schedule);
      && |s.cores| == |counts|
      && (forall c, d | 0 <= c < d < |counts| :: s.cores[c].pc == Idle || s.cores[d].pc == Idle)
      && (Finished(s) ==> s.cell == Wrap(cell0 + Sum(counts)))
  {
    SumZero(AllAdded(Start(counts, cell0).cores));
    ExecKeeps(Start(counts, cell0), schedule, counts, cell0);
    var s := Exec(Start(counts, cell0), schedule);
    if Finished(s) {
      assert AllAdded(s.cores) == counts;
    }
  }

  // In every reachable state the lock word is set exactly while some core is inside.
  lemma LockTells(counts: seq<nat>, cell0: word, schedule: seq<nat>)
    ensures var s := Exec(Start(counts, cell0), schedule);
      && (s.lock == 0 || s.lock == 1)
      && (s.lock == 1 <==> exists c :: 0 <= c < |s.cores| && s.cores[c].pc != Idle)
  {
    SumZero(AllAdded(Start(counts, cell0).cores));
    ExecKeeps(Start(counts, cell0), schedule, counts, cell0);
  }

  // ---------------------------------------------------------------- and it ends

  predicate Spins(s: State, c: nat)
    requires c < |s.cores|
  {
    s.cores[c].pc == Idle && s.lock != 0
  }

  predicate Ended(k: Core) { k.pc == Idle && k.i >= k.count }

  // The accesses an iteration and a core have still to make, each counted once.
  function Rest(k: Core): int {
    4 * (k.count - k.i) - match k.pc case Idle => 0 case Holding => 1 case Loaded => 2 case Stored => 3
  }

  function AllRest(cores: seq<Core>): seq<int> {
    seq(|cores|, c requires 0 <= c < |cores| => Rest(cores[c]))
  }

  lemma {:induction false} RestPositive(cores: seq<Core>)
    requires forall c | 0 <= c < |cores| :: Rest(cores[c]) >= 0
    ensures Sum(AllRest(cores)) >= 0
    decreases |cores|
  {
    if cores != [] {
      var n := |cores| - 1;
      RestPositive(cores[..n]);
      assert AllRest(cores)[..n] == AllRest(cores[..n]);
    }
  }

  // A step of a core that has not ended and does not spin is one access less to make; a core
  // that spins, or has ended, changes nothing.
  lemma StepGetsOn(s: State, c: nat, counts: seq<nat>, cell0: word)
    requires Inv(s, counts, cell0) && c < |s.cores|
    ensures var s' := Step(s, c);
      if Ended(s.cores[c]) || Spins(s, c) then s' == s
      else |s'.cores| == |s.cores| && Sum(AllRest(s'.cores)) == Sum(AllRest(s.cores)) - 1
  {
    var s' := Step(s, c);
    if !Ended(s.cores[c]) && !Spins(s, c) {
      SumUpdate(AllRest(s.cores), c, Rest(s'.cores[c]));
      assert AllRest(s'.cores) == AllRest(s.cores)[c := Rest(s'.cores[c])];
    }
    hide Sum;
    hide AllAdded;
  }

  lemma SomeoneGetsOn(s: State, counts: seq<nat>, cell0: word) returns (c: nat)
    requires Inv(s, counts, cell0) && !Finished(s)
    ensures c < |s.cores| && !Ended(s.cores[c]) && !Spins(s, c)
  {
    if s.lock == 1 {
      c :| 0 <= c < |counts| && s.cores[c].pc != Idle;
    } else {
      c :| 0 <= c < |s.cores| && !(s.cores[c].pc == Idle && s.cores[c].i == s.cores[c].count);
    }
  }

  // So from every state of every run all cores can be brought to their ends, and then the
  // lock is clear and every addition has been made.
  lemma {:induction false} CanFinish(s: State, counts: seq<nat>, cell0: word) returns (schedule: seq<nat>)
    requires Inv(s, counts, cell0)
    ensures var r := Exec(s, schedule); Finished(r) && r.lock == 0 && r.cell == Wrap(cell0 + Sum(counts))
    decreases Sum(AllRest(s.cores))
  {
    RestPositive(s.cores);
    if Finished(s) {
      schedule := [];
      assert AllAdded(s.cores) == counts;
    } else {
      var c := SomeoneGetsOn(s, counts, cell0);
      StepGetsOn(s, c, counts, cell0);
      StepKeeps(s, c, counts, cell0);
      hide Finished;
      hide Step;
      hide Sum;
      hide AllRest;
      hide AllAdded;
      var rest := CanFinish(Step(s, c), counts, cell0);
      schedule := [c] + rest;
      assert schedule[1..] == rest;
    }
  }

  lemma RunCanFinish(counts: seq<nat>, cell0: word, schedule: seq<nat>) returns (rest: seq<nat>)
    ensures var r := Exec(Exec(Start(counts, cell0), schedule), rest);
      Finished(r) && r.lock == 0 && r.cell == Wrap(cell0 + Sum(counts))
  {
    SumZero(AllAdded(Start(counts, cell0).cores));
    ExecKeeps(Start(counts, cell0), schedule, counts, cell0);
    rest := CanFinish(Exec(Start(counts, cell0), schedule), counts, cell0);
  }

  // One core alone, as the source writes the loop.
  method ShmFillTest(locks: SystemLocks, shm: array<word>, offset: nat, number: nat)
    requires offset < shm.Length && |locks.words| > 0 && locks.words[0] == 0
    modifies locks, shm
    ensures locks.words == old(locks.words)
    ensures shm[..] == old(shm[..])[offset := Wrap(old(shm[offset]) + number)]
  {
    for i := 0 to number
      invariant locks.words == old(locks.words)
      invariant shm[..] == old(shm[..])[offset := Wrap(old(shm[offset]) + i)]
    {
      locks.Lock(0);
      WrapSucc(old(shm[offset]) + i);
      hide Wrap;
      var value: int := shm[offset];
      value := Wrap(value + 1);
      shm[offset] := value;
      locks.Unlock(0);
    }
  }

  // ---------------------------------------------------------------- without the lock

  // stores is the number of stores this core has made; loaded holds the value between its
  // load and its store.
  datatype Bare = Bare(count: nat, stores: nat, loaded: bool, value: word)

  // last is the core that stored last, |cores| before the first store.
  datatype BareState = BareState(cores: seq<Bare>, cell: word, last: nat)

  function BareStart(counts: seq<nat>, cell: word): BareState {
    BareState(seq(|counts|, c requires 0 <= c < |counts| => Bare(counts[c], 0, false, cell)), cell, |counts|)
  }

  function BareStep(s: BareState, c: nat): BareState {
    if c >= |s.cores| then s else
    var k := s.cores[c];
    if k.loaded then
      var v := Wrap(k.value + 1);
      BareState(s.cores[c := k.(stores := k.stores + 1, loaded := false, value := v)], v, c)
    else if k.stores < k.count then
      s.(cores := s.cores[c := k.(loaded := true, value := s.cell)])
    else s
  }

  function BareExec(s: BareState, schedule: seq<nat>): BareState
    decreases |schedule|
  {
    if schedule == [] then s else BareExec(BareStep(s, schedule[0]), schedule[1..])
  }

  ghost predicate BareFinished(s: BareState) {
    forall c | 0 <= c < |s.cores| :: !s.cores[c].loaded && s.cores[c].stores == s.cores[c].count
  }

  function AllStores(cores: seq<Bare>): seq<int> {
    seq(|cores|, c requires 0 <= c < |cores| => cores[c].stores)
  }

  ghost predicate BareInv(s: BareState, counts: seq<nat>, cell0: word) {
    && |s.cores| == |counts|
    && (forall c | 0 <= c < |counts| ::
          && s.cores[c].count == counts[c]
          && s.cores[c].stores + (if s.cores[c].loaded then 1 else 0) <= counts[c])
    && cell0 <= s.cell <= cell0 + Sum(AllStores(s.cores))
    && s.last <= |counts|
    && (s.last == |counts| ==> forall c | 0 <= c < |counts| :: s.cores[c].stores == 0)
    // the last store was of at least cell0 + 1, and of cell0 + 2 if not that core's first
    && (s.last < |counts| ==>
          && s.cores[s.last].stores > 0 && s.cell >= cell0 + 1
          && (s.cores[s.last].stores > 1 ==> s.cell >= cell0 + 2))
    && (forall c | 0 <= c < |counts| :: s.cores[c].loaded ==>
          && cell0 <= s.cores[c].value <= cell0 + Sum(AllStores(s.cores))
          && (s.cores[c].stores > 0 ==> s.cores[c].value >= cell0 + 1))
  }

  lemma {:induction false} StoresBounded(cores: seq<Bare>, counts: seq<nat>, c: nat)
    requires |cores| == |counts|
    requires forall d | 0 <= d < |counts| :: cores[d].stores <= counts[d]
    ensures Sum(AllStores(cores)) <= Sum(counts)
    ensures c < |counts| && cores[c].stores < counts[c] ==> Sum(AllStores(cores)) < Sum(counts)
    decreases |counts|
  {
    if counts != [] {
      var n := |counts| - 1;
      StoresBounded(cores[..n], counts[..n], c);
      assert AllStores(cores)[..n] == AllStores(cores[..n]);
    }
  }

  lemma BareStepKeeps(s: BareState, c: nat, counts: seq<nat>, cell0: word)
    requires BareInv(s, counts, cell0) && cell0 + Sum(counts) < TWO32
    ensures BareInv(BareStep(s, c), counts, cell0)
  {
    if c < |s.cores| {
      if s.cores[c].loaded {
        StoreKeeps(s, c, counts, cell0);
      } else {
        LoadKeeps(s, c, counts, cell0);
      }
    }
  }

  lemma StoreKeeps(s: BareState, c: nat, counts: seq<nat>, cell0: word)
    requires BareInv(s, counts, cell0) && cell0 + Sum(counts) < TWO32 && c < |s.cores| && s.cores[c].loaded
    ensures BareInv(BareStep(s, c), counts, cell0)
  {
    StoresStep(s, c, counts, cell0);
    hide Sum;
    hide AllStores;
    assert Wrap(s.cores[c].value + 1) == s.cores[c].value + 1;
    hide Wrap;
  }

  lemma LoadKeeps(s: BareState, c: nat, counts: seq<nat>, cell0: word)
    requires BareInv(s, counts, cell0) && c < |s.cores| && !s.cores[c].loaded
    ensures BareInv(BareStep(s, c), counts, cell0)
  {
    StoresStep(s, c, counts, cell0);
    hide Sum;
    hide AllStores;
    hide Wrap;
  }

  // The sum of all stores after a step, and its bound.
  lemma StoresStep(s: BareState, c: nat, counts: seq<nat>, cell0: word)
    requires BareInv(s, counts, cell0) && c < |s.cores|
    ensures var s' := BareStep(s, c);
      && |s'.cores| == |s.cores|
      && Sum(AllStores(s'.cores)) == Sum(AllStores(s.cores)) + s'.cores[c].stores - s.cores[c].stores
      && Sum(AllStores(s.cores)) <= Sum(counts)
      && (s.cores[c].stores < counts[c] ==> Sum(AllStores(s.cores)) < Sum(counts))
  {
    var s' := BareStep(s, c);
    StoresBounded(s.cores, counts, c);
    SumUpdate(AllStores(s.cores), c, s'.cores[c].stores);
    assert AllStores(s'.cores) == AllStores(s.cores)[c := s'.cores[c].stores];
    hide Sum;
  }

  lemma {:induction false} BareExecKeeps(s: BareState, schedule: seq<nat>, counts: seq<nat>, cell0: word)
    requires BareInv(s, counts, cell0) && cell0 + Sum(counts) < TWO32
    ensures BareInv(BareExec(s, schedule), counts, cell0)
    decreases |schedule|
  {
    if schedule != [] {
      BareStepKeeps(s, schedule[0], counts, cell0);
      BareExecKeeps(BareStep(s, schedule[0]), schedule[1..], counts, cell0);
    }
  }

  // Without the lock additions can be lost, but not more than this in any interleaving.
  lemma BareBounds(counts: seq<nat>, cell0: word, schedule: seq<nat>)
    requires cell0 + Sum(counts) < TWO32
    ensures var s := BareExec(BareStart(counts, cell0), schedule);
      BareFinished(s) ==>
        && s.cell <= cell0 + Sum(counts)
        && (counts != [] && (forall c | 0 <= c < |counts| :: counts[c] >= 2) ==> s.cell >= cell0 + 2)
  {
    SumZero(AllStores(BareStart(counts, cell0).cores));
    BareExecKeeps(BareStart(counts, cell0), schedule, counts, cell0);
    var s := BareExec(BareStart(counts, cell0), schedule);
    if BareFinished(s) {
      assert AllStores(s.cores) == counts;
      if counts != [] && forall c | 0 <= c < |counts| :: counts[c] >= 2 {
        assert s.cores[0].stores == counts[0] >= 2;
      }
    }
  }

  function Repeat(c: nat, k: nat): seq<nat> {
    if k == 0 then [] else [c, c] + Repeat(c, k - 1)
  }

  lemma {:induction false} BareExecConcat(s: BareState, a: seq<nat>, b: seq<nat>)
    ensures BareExec(s, a + b) == BareExec(BareExec(s, a), b)
    decreases |a|
  {
    if a == [] {
      assert a + b == b;
    } else {
      assert (a + b)[1..] == a[1..] + b;
      BareExecConcat(BareStep(s, a[0]), a[1..], b);
    }
  }

  // k undisturbed iterations of core c.
  lemma {:induction false} Undisturbed(s: BareState, c: nat, k: nat)
    requires c < |s.cores| && !s.cores[c].loaded && s.cores[c].stores + k <= s.cores[c].count
    requires s.cell + k < TWO32
    ensures var s' := BareExec(s, Repeat(c, k));
      && s'.cell == s.cell + k && |s'.cores| == |s.cores|
      && !s'.cores[c].loaded && s'.cores[c].stores == s.cores[c].stores + k && s'.cores[c].count == s.cores[c].count
      && forall d | 0 <= d < |s.cores| && d != c :: s'.cores[d] == s.cores[d]
    decreases k
  {
    if k > 0 {
      var s1 := BareStep(s, c);
      var s2 := BareStep(s1, c);
      var r := Repeat(c, k);
      assert r[0] == c && r[1..][0] == c && r[1..][1..] == Repeat(c, k - 1);
      assert BareExec(s, r) == BareExec(s1, r[1..]) == BareExec(s2, Repeat(c, k - 1));
      Undisturbed(s2, c, k - 1);
    }
  }

  function WorstSchedule(n: nat, m: nat): seq<nat>
    requires n > 0 && m > 0
  {
    [0] + (Repeat(1, m - 1) + ([0, 1] + (Repeat(0, n - 1) + [1])))
  }

  // The lower bound is attained by two cores, whatever their counts.
  lemma BareBoundIsTight(n: nat, m: nat, cell0: word)
    requires n >= 2 && m >= 2 && cell0 + n + m < TWO32
    ensures var s := BareExec(BareStart([n, m], cell0), WorstSchedule(n, m));
      BareFinished(s) && s.cell == cell0 + 2
  {
    var s0 := BareStart([n, m], cell0);
    var tail1 := Repeat(0, n - 1) + [1];
    var tail2 := [0, 1] + tail1;
    var s1 := BareStep(s0, 0);
    assert WorstSchedule(n, m)[1..] == Repeat(1, m - 1) + tail2;
    Undisturbed(s1, 1, m - 1);
    BareExecConcat(s1, Repeat(1, m - 1), tail2);
    var s2 := BareExec(s1, Repeat(1, m - 1));
    var s3 := BareStep(s2, 0);
    var s4 := BareStep(s3, 1);
    assert s4.cell == cell0 + 1 && s4.cores[1].loaded && s4.cores[1].value == cell0 + 1;
    assert tail2[1..] == [1] + tail1 && tail2[1..][1..] == tail1;
    assert BareExec(s2, tail2) == BareExec(s3, [1] + tail1) == BareExec(s4, tail1);
    Undisturbed(s4, 0, n - 1);
    BareExecConcat(s4, Repeat(0, n - 1), [1]);
    var s5 := BareExec(s4, Repeat(0, n - 1));
    var s6 := BareStep(s5, 1);
    assert BareExec(s5, [1]) == BareExec(s6, [1][1..]) == s6;
    assert s6.cell == cell0 + 2;
  }

  // The upper bound is attained too: cores that run one after the other lose nothing.
  function Serial(counts: seq<nat>, n: nat): seq<nat>
    requires n <= |counts|
  {
    if n == 0 then [] else Serial(counts, n - 1) + Repeat(n - 1, counts[n - 1])
  }

  lemma {:induction false} SerialRun(counts: seq<nat>, cell0: word, n: nat)
    requires n <= |counts| && cell0 + Sum(counts) < TWO32
    ensures var s, s0 := BareExec(BareStart(counts, cell0), Serial(counts, n)), BareStart(counts, cell0);
      && |s.cores| == |counts| && s.cell == cell0 + Sum(counts[..n]) && Sum(counts[..n]) <= Sum(counts)
      && (forall c | 0 <= c < n :: !s.cores[c].loaded && s.cores[c].stores == s.cores[c].count == counts[c])
      && (forall c | n <= c < |counts| :: s.cores[c] == s0.cores[c])
    decreases n
  {
    var s0 := BareStart(counts, cell0);
    SumPrefix(counts, n);
    if n == 0 {
      assert counts[..0] == [];
    } else {
      SerialRun(counts, cell0, n - 1);
      var s := BareExec(s0, Serial(counts, n - 1));
      assert counts[..n][..n - 1] == counts[..n - 1];
      BareExecConcat(s0, Serial(counts, n - 1), Repeat(n - 1, counts[n - 1]));
      Undisturbed(s, n - 1, counts[n - 1]);
      hide BareExec;
      hide BareStep;
      hide Repeat;
    }
  }

  lemma {:induction false} SumPrefix(counts: seq<nat>, n: nat)
    requires n <= |counts|
    ensures Sum(counts[..n]) <= Sum(counts)
    decreases |counts|
  {
    if n < |counts| {
      var m := |counts| - 1;
      SumPrefix(counts[..m], n);
      assert counts[..m][..n] == counts[..n];
    } else {
      assert counts[..n] == counts;
    }
  }

  lemma BareSumIsReached(counts: seq<nat>, cell0: word)
    requires cell0 + Sum(counts) < TWO32
    ensures var s := BareExec(BareStart(counts, cell0), Serial(counts, |counts|));
      BareFinished(s) && s.cell == cell0 + Sum(counts)
  {
    SerialRun(counts, cell0, |counts|);
    assert counts[..|counts|] == counts;
  }

  // No core ever waits: every step of one that has not finished is one access less to make.
  function BareRest(k: Bare): int { 2 * (k.count - k.stores) - if k.loaded then 1 else 0 }

  lemma BareGetsOn(s: BareState, c: nat, counts: seq<nat>, cell0: word)
    requires BareInv(s, counts, cell0) && c < |s.cores|
    requires s.cores[c].loaded || s.cores[c].stores != s.cores[c].count
    ensures var s' := BareStep(s, c);
      && |s'.cores| == |s.cores| && 0 <= BareRest(s'.cores[c]) == BareRest(s.cores[c]) - 1
      && forall d | 0 <= d < |s.cores| && d != c :: s'.cores[d] == s.cores[d]
  {
    hide Sum;
    hide AllStores;
  }

  // One core alone loses nothing.
  method ShmFillTestNolock(shm: array<word>, offset: nat, number: nat)
    requires offset < shm.Length
    modifies shm
    ensures shm[..] == old(shm[..])[offset := Wrap(old(shm[offset]) + number)]
  {
    for i := 0 to number
      invariant shm[..] == old(shm[..])[offset := Wrap(old(shm[offset]) + i)]
    {
      WrapSucc(old(shm[offset]) + i);
      hide Wrap;
      var value: int := shm[offset];
      value := Wrap(value + 1);
      shm[offset] := value;
    }
  }
}
