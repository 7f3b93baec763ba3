/** Any number of cores taking and giving up test-and-set locks as the driver's calls do: the
    registry lock first, and inside it at most one heap lock at a time. */
module LockOrder {
  import opened Options
  import opened Seqs
  import opened LockActs
  import opened Locks
  import opened Pools

  ghost predicate Rising(t: seq<nat>, i: nat, n: nat) {
    (forall k | 0 <= k < |t| :: i <= t[k] < n) && (forall a, b | 0 <= a < b < |t| :: t[a] < t[b])
  }

  lemma RisingCons(t: seq<nat>, i: nat, n: nat)
    requires Rising(t, i + 1, n) && i < n
    ensures Rising([i] + t, i, n) && Rising(t, i, n)
  {
  }

  // The classes tried rise,
  lemma {:induction false} TriesRise(hs: seq<Pool>, size: nat, i: nat)
    ensures Rising(MallocTries(hs, size, i), i, |hs|)
    decreases |hs| - i
  {
    if i < |hs| {
      TriesRise(hs, size, i + 1);
      RisingCons(MallocTries(hs, size, i + 1), i, |hs|);
      RisingCons([], i, |hs|);
      assert [i] + [] == [i];
      hide Rising;
    }
  }

  // and end with the class that has the block, if one has.
  lemma {:induction false} TriesEndAtBlock(hs: seq<Pool>, size: nat, i: nat)
    requires HeapsOrdered(hs)
    ensures var r, t := MallocFrom(hs, size, i), MallocTries(hs, size, i);
      Rising(t, i, |hs|) && (r.1.Some? ==> t != [] && t[|t| - 1] == r.1.value.i)
    decreases |hs| - i
  {
    TriesRise(hs, size, i);
    hide Rising;
    if i < |hs| {
      assert hs[i].Ordered(i);
      TriesEndAtBlock(hs, size, i + 1);
      hide HeapsOrdered;
      LastCons(i, MallocTries(hs, size, i + 1));
    }
  }

  lemma LastCons(i: nat, t: seq<nat>)
    ensures t != [] ==> ([i] + t)[|t|] == t[|t| - 1]
  {
  }

  // ---------------------------------------------------------------- the system

  // What a core has still to do, and the locks it holds, the latest first.
  datatype Worker = Worker(todo: seq<Act>, held: seq<nat>)

  datatype State = State(words: seq<bool>, workers: seq<Worker>)

  // One step of core c; a core that finds the lock word set tries again.
  function Step(s: State, c: nat): State {
    if c >= |s.workers| || s.workers[c].todo == [] then s
    else
      var w := s.workers[c];
      match w.todo[0]
      case Take(l) =>
        if l >= |s.words| || s.words[l] then s
        else State(s.words[l := true], s.workers[c := Worker(w.todo[1..], [l] + w.held)])
      case Give(l) =>
        if l >= |s.words| then s
        else State(s.words[l := false], s.workers[c := Worker(w.todo[1..], if w.held == [] then [] else w.held[1..])])
  }

  function Exec(s: State, schedule: seq<nat>): State
    decreases |schedule|
  {
    if schedule == [] then s else Exec(Step(s, schedule[0]), schedule[1..])
  }

  function Start(n: nat, calls: seq<seq<Call>>): State {
    State(seq(n, _ => false), seq(|calls|, c requires 0 <= c < |calls| => Worker(AllActs(calls[c]), [])))
  }

  // The rest of a program, for a core that holds these locks: it takes only locks above
  // those it holds, gives up the latest first, and ends holding none.
  predicate Ordered(todo: seq<Act>, held: seq<nat>, n: nat)
    decreases |todo|
  {
    if todo == [] then held == []
    else
      match todo[0]
      case Take(l) => l < n && (held == [] || held[0] < l) && Ordered(todo[1..], [l] + held, n)
      case Give(l) => held != [] && held[0] == l && l < n && Ordered(todo[1..], held[1..], n)
  }

  // A held lock's word is set, and no two cores hold the same lock.
  ghost predicate Inv(s: State) {
    && (forall c | 0 <= c < |s.workers| ::
          Ordered(s.workers[c].todo, s.workers[c].held, |s.words|) && Falling(s.workers[c].held, |s.words|))
    && (forall l | 0 <= l < |s.words| :: s.words[l] <==> exists c: nat :: Holds(s, c, l))
    && (forall c: nat, d: nat, l: nat :: Holds(s, c, l) && Holds(s, d, l) ==> c == d)
  }

  ghost predicate Holds(s: State, c: nat, l: nat) {
    c < |s.workers| && l in s.workers[c].held
  }

  ghost predicate Falling(held: seq<nat>, n: nat) {
    && (forall a, b | 0 <= a < b < |held| :: held[a] > held[b])
    && (forall a | 0 <= a < |held| :: held[a] < n)
  }

  // ---------------------------------------------------------------- the calls are ordered

  lemma {:induction false} OrderedJoin(a: seq<Act>, b: seq<Act>, held: seq<nat>, n: nat)
    requires Ordered(a, held, n) && Ordered(b, [], n)
    ensures Ordered(a + b, held, n)
    decreases |a|
  {
    if a == [] {
      assert a + b == b;
    } else {
      assert (a + b)[1..] == a[1..] + b;
      match a[0]
      case Take(l) => OrderedJoin(a[1..], b, [l] + held, n);
      case Give(l) => OrderedJoin(a[1..], b, held[1..], n);
    }
  }

  // A program that is in order on its own is in order inside a lower lock.
  lemma {:induction false} OrderedInside(a: seq<Act>, held: seq<nat>, lock: nat, b: seq<Act>, n: nat)
    requires Ordered(a, held, n) && lock < n && (forall k | 0 <= k < |a| && a[k].Take? :: lock < a[k].lock)
    requires Ordered(b, [], n)
    ensures Ordered(a + [Give(lock)] + b, held + [lock], n)
    decreases |a|
  {
    var rest := a + [Give(lock)] + b;
    if a == [] {
      assert rest[1..] == b && held + [lock] == [lock] && [lock][1..] == [];
    } else {
      assert rest[1..] == a[1..] + [Give(lock)] + b;
      match a[0]
      case Take(l) =>
        OrderedInside(a[1..], [l] + held, lock, b, n);
        assert [l] + (held + [lock]) == ([l] + held) + [lock];
      case Give(l) =>
        OrderedInside(a[1..], held[1..], lock, b, n);
        assert (held + [lock])[1..] == held[1..] + [lock];
    }
  }

  lemma {:induction false} TriedOrdered(tries: seq<nat>, m: nat)
    requires forall k | 0 <= k < |tries| :: tries[k] < m
    ensures Ordered(Tried(tries), [], HeapLock(m))
    ensures forall k | 0 <= k < |Tried(tries)| && Tried(tries)[k].Take? :: LOCK_SHM < Tried(tries)[k].lock
  {
    if tries != [] {
      TriedOrdered(tries[1..], m);
      OneOrdered(HeapLock(tries[0]), HeapLock(m));
      OrderedJoin(Around(HeapLock(tries[0]), []), Tried(tries[1..]), [], HeapLock(m));
    }
  }

  lemma OneOrdered(lock: nat, n: nat)
    requires lock < n
    ensures Ordered(Around(lock, []), [], n)
  {
    var a := Around(lock, []);
    assert a == [Take(lock), Give(lock)] && a[1..] == [Give(lock)] && a[1..][1..] == [];
    assert Ordered([Give(lock)], [lock], n);
  }

  lemma InsideOrdered(acts: seq<Act>, n: nat)
    requires Ordered(acts, [], n) && LOCK_SHM < n
      && forall k | 0 <= k < |acts| && acts[k].Take? :: LOCK_SHM < acts[k].lock
    ensures Ordered(Around(LOCK_SHM, acts), [], n)
  {
    OrderedInside(acts, [], LOCK_SHM, [], n);
    assert Around(LOCK_SHM, acts)[1..] == acts + [Give(LOCK_SHM)] + [];
    assert [] + [LOCK_SHM] == [LOCK_SHM] + [];
  }

  lemma CallOrdered(call: Call, m: nat)
    requires Within(call, m)
    ensures Ordered(Acts(call), [], HeapLock(m))
  {
    match call
    case Refused =>
    case Opens(tries) => TriedOrdered(tries, m); InsideOrdered(Tried(tries), HeapLock(m));
    case Closes(frees) =>
      if frees.Some? { OneOrdered(HeapLock(frees.value), HeapLock(m)); }
      InsideOrdered(Freed(frees), HeapLock(m));
    case Moves => InsideOrdered([], HeapLock(m));
    case Mallocs(tries) => TriedOrdered(tries, m);
    case Frees(i) => OneOrdered(HeapLock(i), HeapLock(m));
  }

  lemma {:induction false} CallsOrdered(calls: seq<Call>, m: nat)
    requires forall k | 0 <= k < |calls| :: Within(calls[k], m)
    ensures Ordered(AllActs(calls), [], HeapLock(m))
  {
    if calls != [] {
      CallsOrdered(calls[1..], m);
      CallOrdered(calls[0], m);
      OrderedJoin(Acts(calls[0]), AllActs(calls[1..]), [], HeapLock(m));
    }
  }

  // ---------------------------------------------------------------- runs

  lemma StepKeeps(s: State, c: nat)
    requires Inv(s)
    ensures Inv(Step(s, c)) && |Step(s, c).words| == |s.words| && |Step(s, c).workers| == |s.workers|
  {
    var s' := Step(s, c);
    if s' != s {
      var w := s.workers[c];
      var l := w.todo[0].lock;
      assert forall d | 0 <= d < |s.workers| && d != c :: s'.workers[d] == s.workers[d];
      match w.todo[0]
      case Take(_) =>
        assert forall k :: k in s'.workers[c].held <==> k == l || k in w.held;
        HoldsAfter(s, s', c, l, true);
      case Give(_) =>
        assert w.held == [l] + w.held[1..];
        assert forall k :: k in s'.workers[c].held <==> k != l && k in w.held;
        HoldsAfter(s, s', c, l, false);
    }
  }

  // The holders after a step that takes or gives lock l.
  lemma HoldsAfter(s: State, s': State, c: nat, l: nat, takes: bool)
    requires |s'.workers| == |s.workers| && c < |s.workers| && l < |s.words|
    requires forall d | 0 <= d < |s.workers| && d != c :: s'.workers[d] == s.workers[d]
    requires forall k :: k in s'.workers[c].held <==>
               if takes then k == l || k in s.workers[c].held else k != l && k in s.workers[c].held
    requires s'.words == s.words[l := takes]
    requires forall k | 0 <= k < |s.words| :: s.words[k] <==> exists d: nat :: Holds(s, d, k)
    requires forall d: nat, e: nat, k: nat :: Holds(s, d, k) && Holds(s, e, k) ==> d == e
    requires if takes then !s.words[l] else Holds(s, c, l)
    ensures forall k | 0 <= k < |s.words| :: s'.words[k] <==> exists d: nat :: Holds(s', d, k)
    ensures forall d: nat, e: nat, k: nat :: Holds(s', d, k) && Holds(s', e, k) ==> d == e
  {
    assert forall d: nat, k: nat :: k != l || d != c ==> (Holds(s', d, k) <==> Holds(s, d, k));
    assert Holds(s', c, l) <==> takes;
    forall k | 0 <= k < |s.words| ensures s'.words[k] <==> exists d: nat :: Holds(s', d, k) {
      if k != l {
        if s.words[k] {
          var d: nat :| Holds(s, d, k);
          assert Holds(s', d, k);
        }
      } else if !takes {
        assert forall d: nat :: Holds(s, d, l) <==> d == c;
      }
    }
    forall d: nat, e: nat, k: nat | Holds(s', d, k) && Holds(s', e, k) ensures d == e {
      assert takes ==> forall b: nat :: !Holds(s, b, l);
    }
  }

  lemma {:induction false} ExecKeeps(s: State, schedule: seq<nat>)
    requires Inv(s)
    ensures Inv(Exec(s, schedule)) && |Exec(s, schedule).workers| == |s.workers|
    decreases |schedule|
  {
    if schedule != [] {
      StepKeeps(s, schedule[0]);
      ExecKeeps(Step(s, schedule[0]), schedule[1..]);
    }
  }

  lemma StartInv(calls: seq<seq<Call>>, m: nat)
    requires forall c, k | 0 <= c < |calls| && 0 <= k < |calls[c]| :: Within(calls[c][k], m)
    ensures Inv(Start(HeapLock(m), calls))
  {
    forall c | 0 <= c < |calls| ensures Ordered(AllActs(calls[c]), [], HeapLock(m)) {
      CallsOrdered(calls[c], m);
    }
  }

  ghost predicate Finished(s: State) {
    forall c | 0 <= c < |s.workers| :: s.workers[c].todo == []
  }

  // The highest lock any core holds, and its holder.
  lemma {:induction false} HighestHeld(s: State, l: nat) returns (h: Option<nat>)
    requires Inv(s) && l <= |s.words|
    ensures h.None? ==> forall k | 0 <= k < l :: !s.words[k]
    ensures h.Some? ==> h.value < l && s.words[h.value] && forall k | h.value < k < l :: !s.words[k]
  {
    if l == 0 {
      h := None;
    } else if s.words[l - 1] {
      h := Some(l - 1);
    } else {
      h := HighestHeld(s, l - 1);
    }
  }

  // In a state with an unfinished core some core's next step is not a spin.
  lemma SomeoneMoves(s: State) returns (c: nat)
    requires Inv(s) && !Finished(s)
    ensures c < |s.workers| && s.workers[c].todo != []
    ensures Step(s, c).workers[c].todo == s.workers[c].todo[1..] && |Step(s, c).workers| == |s.workers|
    ensures forall d | 0 <= d < |s.workers| && d != c :: Step(s, c).workers[d] == s.workers[d]
  {
    var h := HighestHeld(s, |s.words|);
    if h.Some? {
      var k: nat :| Holds(s, k, h.value);
      c := k;
      var held := s.workers[c].held;
      assert s.words[held[0]] by { assert Holds(s, c, held[0]); }
      assert held[0] == h.value;
    } else {
      c :| 0 <= c < |s.workers| && s.workers[c].todo != [];
      var held := s.workers[c].held;
      if held != [] {
        HeldIsSet(s, c);
        assert false;
      }
    }
  }

  lemma HeldIsSet(s: State, c: nat)
    requires Inv(s) && c < |s.workers| && s.workers[c].held != []
    ensures s.workers[c].held[0] < |s.words| && s.words[s.workers[c].held[0]]
  {
    assert Holds(s, c, s.workers[c].held[0]);
  }

  // For any number of cores and any calls: no two cores ever hold the same lock, and in every
  // reachable state with an unfinished core some core can step and gets on.
  lemma NoDeadlock(calls: seq<seq<Call>>, m: nat, schedule: seq<nat>)
    requires forall c, k | 0 <= c < |calls| && 0 <= k < |calls[c]| :: Within(calls[c][k], m)
    ensures var s := Exec(Start(HeapLock(m), calls), schedule);
      && (forall c: nat, d: nat, l: nat :: Holds(s, c, l) && Holds(s, d, l) ==> c == d)
      && (!Finished(s) ==> exists c: nat :: c < |s.workers| && Step(s, c) != s)
  {
    StartInv(calls, m);
    ExecKeeps(Start(HeapLock(m), calls), schedule);
    var s := Exec(Start(HeapLock(m), calls), schedule);
    if !Finished(s) {
      var c := SomeoneMoves(s);
      assert |Step(s, c).workers[c].todo| < |s.workers[c].todo|;
    }
  }

  function Left(workers: seq<Worker>): nat {
    if workers == [] then 0 else Left(workers[..|workers| - 1]) + |workers[|workers| - 1].todo|
  }

  lemma {:induction false} LeftUpdate(a: seq<Worker>, b: seq<Worker>, c: nat)
    requires |a| == |b| && c < |a| && |b[c].todo| + 1 == |a[c].todo|
    requires forall d | 0 <= d < |a| && d != c :: a[d] == b[d]
    ensures Left(b) + 1 == Left(a)
    decreases |a|
  {
    var n := |a| - 1;
    if c < n {
      LeftUpdate(a[..n], b[..n], c);
    } else {
      assert a[..n] == b[..n];
    }
  }

  // From every state that keeps the invariant all cores can be brought to their ends, and
  // then every lock word is clear.
  lemma {:induction false} CanFinish(s: State) returns (schedule: seq<nat>)
    requires Inv(s)
    ensures var r := Exec(s, schedule); Finished(r) && forall l | 0 <= l < |r.words| :: !r.words[l]
    decreases Left(s.workers)
  {
    if Finished(s) {
      schedule := [];
      forall l | 0 <= l < |s.words| ensures !s.words[l] {
        forall c: nat ensures !Holds(s, c, l) {
          if c < |s.workers| {
            assert s.workers[c].todo == [];
          }
        }
      }
    } else {
      var c := SomeoneMoves(s);
      StepKeeps(s, c);
      LeftUpdate(s.workers, Step(s, c).workers, c);
      var rest := CanFinish(Step(s, c));
      schedule := [c] + rest;
      assert schedule[1..] == rest;
    }
  }
}
