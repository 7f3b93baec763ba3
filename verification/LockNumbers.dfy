/** Which channel numbers a core can still use once its set-up is over. Heaps and channels
    number their locks from neighbouring starts, 500 and 501, in one table. */
module LockNumbers {
  import opened Words
  import opened Options
  import opened Locks
  import opened Pools
  import Agreement
  import opened ChannelNames
  import opened Channels
  import L = Layout
  import S = Setup

  // The numbers handed out on a core when mod_init has succeeded: the registry's own, those
  // of the heaps, and the default channel's. Setup.MemInit hands out the heaps'.
  function AfterInit(counts: seq<nat>): (kept: seq<bool>)
    requires |counts| <= TOTAL_POOLS
    ensures |kept| == LOCK_KEEPER_LENGTH
  {
    var before := seq(LOCK_KEEPER_LENGTH, l => l == LOCK_SHM);
    S.Handed(before, counts, |counts|)[LOCK_DEFAULT_CHANNEL := true]
  }

  // The channel numbers whose lock number set-up has taken: the default channel's, and from 9
  // on those of the pools that have blocks.
  predicate Collides(counts: seq<nat>, number: word) {
    number == 0 || (9 <= number < 9 + |counts| && counts[number - 9] > 0)
  }

  lemma TakenExactly(counts: seq<nat>, number: word)
    requires |counts| <= TOTAL_POOLS && LockOf(number) < LOCK_KEEPER_LENGTH
    ensures AfterInit(counts)[LockOf(number)] <==> Collides(counts, number)
  {
  }

  // On a core fresh from set-up a create fails, memory and names permitting, exactly for the
  // numbers that collide; and for those it fails whatever else holds, changing nothing.
  lemma HeapNumbersCollide(w: World, g: Region, a: Ask)
    requires Standing(w, g) && Proper(a) && |g.counts| <= TOTAL_POOLS && w.sides[a.core].kept == AfterInit(g.counts)
    ensures Collides(g.counts, a.number) ==> Create(w, g, a) == (w, None)
    ensures var (j1, r1) := OpenOn(w.j, g, SendName(a.core, a.number), a.length, a.core, a.junk);
      var r2 := OpenOn(j1, g, RecvName(a.core, a.number), a.length, a.core, a.junk').1;
      a.length > 0 && a.memory && r1.ret >= 0 && r2.ret >= 0 ==>
        (Create(w, g, a).1.None? <==> Collides(g.counts, a.number))
  {
    TakenExactly(g.counts, a.number);
    CreateFailsExactly(w, g, a);
    hide OpenOn;
    hide Agreement.Ready;
    hide Finish;
    hide AfterInit;
  }

  // With the compiled-in table those are 0 and 9 to 22. The eight devices, whose channels are
  // numbered from 1, just fit, and with any table.
  lemma ShippedNumbers(number: word)
    ensures Collides(L.SHIPPED, number) <==> number == 0 || 9 <= number <= 22
    ensures 1 <= number <= 8 ==> forall counts :: !Collides(counts, number)
  {
  }
}
