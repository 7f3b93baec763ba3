/** What each call does to the lock words, in order. The classes of Allocator and SharedMemory
    are proved to do exactly this; LockOrder is about any number of cores doing it. */
module LockActs {
  import opened Options
  import opened Locks
  import opened Pools

  // A call, by what decides the locks it takes: the classes mod_malloc tries, the class
  // mod_free returns a block to, or nothing when the call is refused before any lock.
  datatype Call =
    | Refused
    | Opens(tries: seq<nat>)
    | Closes(frees: Option<nat>)
    | Moves
    | Mallocs(tries: seq<nat>)
    | Frees(i: nat)

  function HeapLock(i: nat): nat { LOCK_SHM + START_ORDER + i }

  function Around(lock: nat, acts: seq<Act>): seq<Act> { [Take(lock)] + acts + [Give(lock)] }

  function Tried(tries: seq<nat>): seq<Act> {
    if tries == [] then [] else Around(HeapLock(tries[0]), []) + Tried(tries[1..])
  }

  function Freed(frees: Option<nat>): seq<Act> {
    match frees
    case None => []
    case Some(i) => Around(HeapLock(i), [])
  }

  function Acts(call: Call): seq<Act> {
    match call
    case Refused => []
    case Opens(tries) => Around(LOCK_SHM, Tried(tries))
    case Closes(frees) => Around(LOCK_SHM, Freed(frees))
    case Moves => Around(LOCK_SHM, [])
    case Mallocs(tries) => Tried(tries)
    case Frees(i) => Around(HeapLock(i), [])
  }

  function AllActs(calls: seq<Call>): seq<Act> {
    if calls == [] then [] else Acts(calls[0]) + AllActs(calls[1..])
  }

  // The classes mod_malloc tries on these pools, from class i on.
  function MallocTries(hs: seq<Pool>, size: nat, i: nat): seq<nat>
    decreases |hs| - i
  {
    if i >= |hs| then []
    else if !Fits(hs, size, i) then MallocTries(hs, size, i + 1)
    else if hs[i].free != [] then [i]
    else [i] + MallocTries(hs, size, i + 1)
  }

  // Every class number of a call is one of m.
  predicate Within(call: Call, m: nat) {
    match call
    case Opens(tries) => forall k | 0 <= k < |tries| :: tries[k] < m
    case Mallocs(tries) => forall k | 0 <= k < |tries| :: tries[k] < m
    case Closes(Some(i)) => i < m
    case Frees(i) => i < m
    case _ => true
  }

  lemma {:induction false} TriesWithin(hs: seq<Pool>, size: nat, i: nat)
    ensures forall k | 0 <= k < |MallocTries(hs, size, i)| :: MallocTries(hs, size, i)[k] < |hs|
    decreases |hs| - i
  {
    if i < |hs| {
      TriesWithin(hs, size, i + 1);
    }
  }

  lemma {:induction false} TriedJoin(a: nat, rest: seq<nat>)
    ensures Tried([a] + rest) == Around(HeapLock(a), []) + Tried(rest)
  {
    assert ([a] + rest)[1..] == rest;
  }

  lemma TriedOne(a: nat)
    ensures Tried([a]) == Around(HeapLock(a), [])
  {
    assert [a][1..] == [];
  }

  lemma Regroup(a: seq<Act>, b: seq<Act>, c: seq<Act>)
    ensures a + (b + c) == (a + b) + c
  {
  }

  lemma FreedActs(i: nat)
    ensures Freed(Some(i)) == Acts(Frees(i))
  {
  }

  lemma NoneFreed(before: seq<Act>)
    ensures before + Freed(None) == before
  {
  }

  // Taking a lock, acting inside, giving it up.
  lemma Enclosed(before: seq<Act>, lock: nat, acts: seq<Act>)
    ensures before + [Take(lock)] + acts + [Give(lock)] == before + Around(lock, acts)
  {
  }
}
