/** The lock-number keeper and the test-and-set lock words, as one core sees them. */
module Locks {

  const LOCK_KEEPER_LENGTH: nat := 0x4_0000
  const LOCK_SHM: nat := 500
  const LOCK_DEFAULT_CHANNEL: nat := 501

  // One use of a lock word.
  datatype Act = Take(lock: nat) | Give(lock: nat)

  class Mutex {
    var lock: nat

    constructor ()
      ensures lock == 0
    {
      lock := 0;
    }
  }

  // s_lock_keeper: which lock numbers this core has handed out.
  class LockKeeper {
    const kept: array<bool>

    constructor ()
      ensures fresh(kept) && kept.Length == LOCK_KEEPER_LENGTH
      ensures forall l | 0 <= l < kept.Length :: !kept[l]
    {
      kept := new bool[LOCK_KEEPER_LENGTH](_ => false);
    }

    method Init(mutex: Mutex, lock: nat) returns (ret: int)
      requires lock < kept.Length
      modifies kept, mutex
      ensures ret == (if old(kept[lock]) then -1 else 0)
      ensures kept[..] == old(kept[..])[lock := true]
      ensures mutex.lock == (if ret == 0 then lock else old(mutex.lock))
    {
      ret := 0;
      if kept[lock] {
        return -1;
      }
      kept[lock] := true;
      mutex.lock := lock;
    }

    // Clears whatever number the mutex holds, also when an Init on it failed.
    method Destroy(mutex: Mutex) returns (ret: int)
      requires mutex.lock < kept.Length
      modifies kept
      ensures ret == 0 && kept[..] == old(kept[..])[mutex.lock := false]
    {
      ret := 0;
      kept[mutex.lock] := false;
    }
  }

  // The shared lock words. Lock is called by a core that runs alone, so the word it asks for
  // is clear; the systems of several cores are in FillTest, TwoCores and LockOrder.
  class SystemLocks {
    var words: seq<int>
    ghost var trace: seq<Act> // what was taken and given up so far

    constructor (regions: nat)
      ensures |words| == regions && forall l | 0 <= l < regions :: words[l] == 0
      ensures trace == []
    {
      words, trace := seq(regions, _ => 0), [];
    }

    method TestAndSet(lock: nat) returns (was: int)
      requires lock < |words|
      modifies `words
      ensures was == old(words[lock]) && words == old(words)[lock := 1]
    {
      was := words[lock];
      words := words[lock := 1];
    }

    // The spin ends with its first test.
    method Lock(lock: nat)
      requires lock < |words| && words[lock] == 0
      modifies this
      ensures words == old(words)[lock := 1] && trace == old(trace) + [Take(lock)]
    {
      var was := TestAndSet(lock);
      assert was == 0;
      trace := trace + [Take(lock)];
    }

    method Unlock(lock: nat)
      requires lock < |words|
      modifies this
      ensures words == old(words)[lock := 0] && trace == old(trace) + [Give(lock)]
    {
      words := words[lock := 0];
      trace := trace + [Give(lock)];
    }
  }
}
