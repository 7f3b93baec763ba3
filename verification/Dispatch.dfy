/** The list of registered channels, threaded through the channels themselves, and the loop
    by which the message interrupt finds the channel a message is for. */
module Dispatch {
  import opened Words
  import opened Options
  import opened Seqs
  import opened RegistrySpec
  import opened Locks
  import opened Channels

  // struct Mpi_channel.
  class MpiChannel {
    const lock: Mutex
    var number: word
    var sendName: string
    var recvName: string
    var send: int
    var recv: int
    var sendLength: nat
    var recvLength: nat
    var slot: Core
    var next: MpiChannel?

    // As kmalloc and memset leave it.
    constructor ()
      ensures fresh(lock) && next == null && send == 0 && recv == 0
    {
      lock := new Mutex();
      number, sendName, recvName, send, recv := 0, "", "", 0, 0;
      sendLength, recvLength, slot, next := 0, 0, 0, null;
    }

    ghost function Value(): Channel
      reads `number, `send, `recv, `sendLength, `recvLength, `slot
    {
      Channel(number, if send >= 0 then send else 0, if recv >= 0 then recv else 0, sendLength, recvLength, slot)
    }
  }

  ghost function ValuesOf(chain: seq<MpiChannel>): (s: seq<Channel>)
    reads chain`number, chain`send, chain`recv, chain`sendLength, chain`recvLength, chain`slot
    ensures |s| == |chain| && forall i | 0 <= i < |chain| :: s[i] == chain[i].Value()
  {
    if chain == [] then [] else [chain[0].Value()] + ValuesOf(chain[1..])
  }

  ghost predicate AllOpen(chain: seq<MpiChannel>)
    reads chain`send, chain`recv
  {
    forall i | 0 <= i < |chain| :: chain[i].send >= 0 && chain[i].recv >= 0
  }

  class Callbacks {
    var head: MpiChannel?
    ghost var chain: seq<MpiChannel>

    // chain is the list from the head on.
    ghost predicate Valid()
      reads this, chain
    {
      && Distinct(chain)
      && head == (if chain == [] then null else chain[0])
      && (forall i, j | 0 <= i < j < |chain| && j == i + 1 :: chain[i].next == chain[j])
      && (chain != [] ==> chain[|chain| - 1].next == null)
    }

    ghost function Values(): (s: seq<Channel>)
      reads `chain, chain`number, chain`send, chain`recv, chain`sendLength, chain`recvLength, chain`slot
      ensures |s| == |chain| && forall i | 0 <= i < |chain| :: s[i] == chain[i].Value()
    {
      ValuesOf(chain)
    }

    // Every channel on the list has both its handles.
    ghost predicate Open()
      reads `chain, chain`send, chain`recv
    {
      AllOpen(chain)
    }

    constructor ()
      ensures Valid() && chain == []
    {
      head, chain := null, [];
    }

    // message_int_reg.
    method Register(channel: MpiChannel)
      requires Valid() && channel !in chain
      modifies `head, `chain, channel`next, chain`next
      ensures Valid() && chain == old(chain) + [channel]
    {
      channel.next := null;
      var plink := head;
      if plink != null {
        ghost var k := 0;
        while plink.next != null
          invariant 0 <= k < |chain| && plink == chain[k]
          invariant plink.next == (if k + 1 < |chain| then chain[k + 1] else null)
          invariant Valid()
          decreases |chain| - k
        {
          plink := plink.next;
          k := k + 1;
        }
        plink.next := channel;
      } else {
        head := channel;
      }
      chain := chain + [channel];
    }

    // message_int_unreg.
    method Unregister(channel: MpiChannel)
      requires Valid()
      modifies `head, `chain, chain`next
      ensures Valid() && chain == Remove(old(chain), channel)
    {
      var plink := head;
      if plink == channel {
        assert |chain| > 1 ==> channel.next == chain[1];
        head := channel.next;
        chain := chain[1..];
        assert forall i | 0 <= i < |chain| :: chain[i] == old(chain[i + 1]);
      } else {
        ghost var k := 0;
        while plink != null
          invariant 0 <= k <= |chain| && chain == old(chain)
          invariant plink == (if k < |chain| then chain[k] else null)
          invariant channel !in chain[..k] && (k < |chain| ==> channel != chain[k])
          invariant Valid()
          decreases |chain| - k
        {
          assert k + 1 < |chain| ==> plink.next == chain[k + 1];
          if plink.next == channel {
            RemoveAt(chain, k + 1);
            Unlink(plink, channel, k + 1);
            return;
          }
          plink := plink.next;
          k := k + 1;
        }
        assert chain[..k] == chain;
      }
    }

    // plink->m_next = channel->m_next, for the channel at position k.
    method Unlink(plink: MpiChannel, channel: MpiChannel, ghost k: nat)
      requires Valid() && 0 < k < |chain| && chain[k - 1] == plink && chain[k] == channel
      modifies plink`next, `chain
      ensures Valid() && chain == old(chain[..k] + chain[k + 1..])
    {
      ghost var before := chain;
      assert k + 1 < |chain| ==> channel.next == chain[k + 1];
      plink.next := channel.next;
      chain := chain[..k] + chain[k + 1..];
      assert forall i | 0 <= i < |chain| :: chain[i] == before[if i < k then i else i + 1];
      forall i, j | 0 <= i < j < |chain| && j == i + 1 ensures chain[i].next == chain[j] {
        if j != k {
          assert before[if i < k then i else i + 1].next == before[if j < k then j else j + 1];
        }
      }
    }

    // The loop of message_isr.
    method Find(msg: int) returns (hit: MpiChannel?)
      requires Valid() && Open()
      ensures hit == null ==> Dispatched(Values(), msg) == None
      ensures hit != null ==> hit in chain && Dispatched(Values(), msg) == Some(hit.Value())
    {
      hit := head;
      ghost var k := 0;
      while hit != null
        invariant 0 <= k <= |chain|
        invariant hit == (if k < |chain| then chain[k] else null)
        invariant Dispatched(Values(), msg) == Dispatched(Values()[k..], msg)
        decreases |chain| - k
      {
        if hit.recv == msg {
          return;
        }
        assert k + 1 < |chain| ==> hit.next == chain[k + 1];
        hit := hit.next;
        k := k + 1;
      }
    }
  }
}
