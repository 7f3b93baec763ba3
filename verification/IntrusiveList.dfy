/** The doubly linked lists threaded through static node arrays. The source writes the
    three operations twice, once for allocator nodes and once for registry entries, with
    the same body; here they are written once, over the payload type T. */
module IntrusiveList {
  import opened Seqs

  // A node. Its links are meaningful only while it is on a list.
  class Link<T> {
    var data: T
    var next: Link?<T>
    var prev: Link?<T>

    constructor (d: T)
      ensures data == d && next == null && prev == null
    {
      data, next, prev := d, null, null;
    }
  }

  class ListHead<T> {
    var next: Link?<T>
    var number: nat
    ghost var elems: seq<Link<T>>

    // elems is the chain from the head: back links mirror forward links, the chain ends in
    // null, no node occurs twice, and the stored count is the length.
    ghost predicate Valid()
      reads `next, `number, `elems, elems`next, elems`prev
    {
      && number == |elems|
      && Distinct(elems)
      && (elems == [] ==> next == null)
      && (elems != [] ==> next == elems[0] && elems[0].prev == null && elems[|elems| - 1].next == null)
      && (forall i, j | 0 <= i < j < |elems| && j == i + 1 :: elems[i].next == elems[j] && elems[j].prev == elems[i])
    }

    constructor ()
      ensures Valid() && elems == []
    {
      next, number, elems := null, 0, [];
    }

    method Clear()
      modifies `next, `number, `elems
      ensures Valid() && elems == []
    {
      next, number, elems := null, 0, [];
    }

    method AddHead(link: Link<T>)
      requires Valid() && link !in elems
      modifies `next, `number, `elems, link`next, link`prev, elems`prev
      ensures Valid() && elems == [link] + old(elems)
    {
      link.prev := null;
      link.next := next;
      assert next != null ==> next == elems[0];
      if next != null {
        next.prev := link;
      }
      next := link;
      number := number + 1;
      elems := [link] + elems;
      forall i, j | 0 <= i < j < |elems| && j == i + 1
        ensures elems[i].next == elems[j] && elems[j].prev == elems[i]
      {
        if i > 0 {
          assert old(elems[i - 1].next) == old(elems[j - 1]);
        }
      }
    }

    method RemoveHead() returns (ret: int)
      requires Valid()
      modifies `next, `number, `elems, elems`prev
      ensures Valid()
      ensures old(elems) == [] ==> ret == -1 && elems == []
      ensures old(elems) != [] ==> ret == 0 && elems == old(elems)[1..]
    {
      ret := -1;
      if number != 0 {
        var first := next;
        assert |elems| > 1 ==> first.next == elems[1];
        ret := 0;
        number := number - 1;
        next := first.next;
        if first.next != null {
          assert number != 0;
          first.next.prev := null;
        }
        elems := elems[1..];
        forall i, j | 0 <= i < j < |elems| && j == i + 1
          ensures elems[i].next == elems[j] && elems[j].prev == elems[i]
        {
          assert old(elems[i + 1].next) == old(elems[j + 1]);
        }
      }
    }

    method RemoveEntry(link: Link<T>) returns (ret: int)
      requires Valid()
      modifies `next, `number, `elems, elems`next, elems`prev
      ensures Valid()
      ensures ret == (if link in old(elems) then 0 else -1)
      ensures elems == Remove(old(elems), link)
    {
      ret := -1;
      if number != 0 {
        var current := next;
        ghost var k := 0;
        while current != null
          invariant 0 <= k <= |elems|
          invariant current == (if k < |elems| then elems[k] else null)
          invariant link !in elems[..k]
          invariant Valid() && elems == old(elems) && ret == -1
          decreases |elems| - k
        {
          if current == link {
            RemoveAt(elems, k);
            Unlink(current, k);
            ret := 0;
            return;
          }
          assert k + 1 < |elems| ==> current.next == elems[k + 1];
          current := current.next;
          k := k + 1;
        }
        assert elems == elems[..k];
      }
    }

    // The relinking inside the search loop, for the node found at position k.
    method Unlink(found: Link<T>, ghost k: nat)
      requires Valid() && k < |elems| && elems[k] == found
      modifies `next, `number, `elems, elems`next, elems`prev
      ensures Valid() && elems == old(elems[..k] + elems[k + 1..])
    {
      ghost var before := elems;
      ghost var after := elems[..k] + elems[k + 1..];
      assert forall i | 0 <= i < |after| :: after[i] == before[if i < k then i else i + 1];
      Around(k);
      number := number - 1;
      if found.prev == null {
        next := found.next;
      } else {
        found.prev.next := found.next;
      }
      if found.next != null {
        assert number != 0;
        found.next.prev := found.prev;
      }
      elems := after;
      forall i, j | 0 <= i < j < |after| && j == i + 1
        ensures after[i].next == after[j] && after[j].prev == after[i]
      {
        var at, to := if i < k then i else i + 1, if j < k then j else j + 1;
        assert after[i] == before[at] && after[j] == before[to];
        if j != k {
          assert old(before[at].next) == before[to];
        }
      }
    }

    // The neighbours of the node at position k, as its links name them.
    lemma Around(k: nat)
      requires Valid() && k < |elems|
      ensures elems[k].prev == null <==> k == 0
      ensures k > 0 ==> elems[k].prev == elems[k - 1]
      ensures elems[k].next == null <==> k == |elems| - 1
      ensures k < |elems| - 1 ==> elems[k].next == elems[k + 1]
    {
      assert k > 0 ==> elems[k - 1].next == elems[k];
      assert k < |elems| - 1 ==> elems[k + 1].prev == elems[k];
    }
  }

  // ---------------------------------------------------------------- two lists over one array

  // elems are the nodes of the array numbered so, in that order.
  ghost predicate Names<T>(list: seq<T>, elems: seq<T>, numbers: seq<nat>) {
    && |elems| == |numbers|
    && forall k | 0 <= k < |numbers| :: numbers[k] < |list| && elems[k] == list[numbers[k]]
  }

  lemma NamesTail<T>(list: seq<T>, elems: seq<T>, numbers: seq<nat>)
    requires Names(list, elems, numbers) && numbers != []
    ensures Names(list, elems[1..], numbers[1..])
  {
  }

  lemma NamesCons<T>(list: seq<T>, elems: seq<T>, numbers: seq<nat>, j: nat)
    requires Names(list, elems, numbers) && Distinct(list) && j < |list| && j !in numbers
    ensures list[j] !in elems
    ensures Names(list, [list[j]] + elems, [j] + numbers)
  {
    forall k | 0 <= k < |elems| ensures elems[k] != list[j] {
      assert numbers[k] in numbers;
    }
  }

  ghost predicate Apart<T>(xs: seq<T>, ys: seq<T>) {
    forall a, b | 0 <= a < |xs| && 0 <= b < |ys| :: xs[a] != ys[b]
  }

  lemma ApartMove<T>(xs: seq<T>, ys: seq<T>, y: T)
    requires Apart(xs, ys) && Distinct(ys) && y in ys
    ensures Apart([y] + xs, Remove(ys, y)) && Apart(xs, Remove(ys, y)) && Apart([y], Remove(ys, y)) && y !in xs
  {
    var k :| 0 <= k < |ys| && ys[k] == y;
    RemoveAt(ys, k);
  }

  lemma NamesRemove<T>(list: seq<T>, elems: seq<T>, numbers: seq<nat>, j: nat)
    requires Names(list, elems, numbers) && Distinct(list) && Distinct(numbers) && j in numbers
    ensures j < |list| && list[j] in elems
    ensures Names(list, Remove(elems, list[j]), Remove(numbers, j))
  {
    hide Remove;
    var k :| 0 <= k < |numbers| && numbers[k] == j;
    assert elems[k] == list[j];
    forall a, b | 0 <= a < b < |elems| ensures elems[a] != elems[b] {
      assert numbers[a] != numbers[b];
    }
    RemoveAt(elems, k);
    RemoveAt(numbers, k);
  }

  // Two disjoint chains over a node array: the nodes numbered m are free, those numbered n
  // are busy.
  ghost predicate Chains<T>(list: seq<Link<T>>, free: ListHead<T>, busy: ListHead<T>, m: seq<nat>, n: seq<nat>)
    reads free`next, free`number, free`elems, busy`next, busy`number, busy`elems
    reads free.elems`next, free.elems`prev, busy.elems`next, busy.elems`prev
  {
    && free != busy && Distinct(list)
    && free.Valid() && busy.Valid()
    && Names(list, free.elems, m) && Names(list, busy.elems, n)
    && Apart(free.elems, busy.elems)
  }

  lemma ChainsInList<T>(list: seq<Link<T>>, free: ListHead<T>, busy: ListHead<T>, m: seq<nat>, n: seq<nat>)
    requires Chains(list, free, busy, m, n)
    ensures (forall l :: l in free.elems ==> l in list) && (forall l :: l in busy.elems ==> l in list)
  {
  }

  // Removing the head of the free list and adding it to the busy list.
  method HeadToBusy<T>(list: seq<Link<T>>, free: ListHead<T>, busy: ListHead<T>, plist: Link<T>,
                       ghost m: seq<nat>, ghost n: seq<nat>)
    requires Chains(list, free, busy, m, n)
    requires m != [] && m[0] < |list| && plist == list[m[0]] && m[0] !in n && m[0] !in m[1..]
    modifies free`next, free`number, free`elems, busy`next, busy`number, busy`elems, list`next, list`prev
    ensures Chains(list, free, busy, m[1..], [m[0]] + n)
  {
    NamesTail(list, free.elems, m);
    NamesCons(list, free.elems[1..], m[1..], m[0]);
    NamesCons(list, busy.elems, n, m[0]);
    var _ := free.RemoveHead();
    busy.AddHead(plist);
  }

  // Removing an entry of the busy list and adding it to the free list.
  method EntryToFree<T>(list: seq<Link<T>>, free: ListHead<T>, busy: ListHead<T>, plist: Link<T>,
                        ghost m: seq<nat>, ghost n: seq<nat>, ghost j: nat) returns (ret: int)
    requires Chains(list, free, busy, m, n) && j < |list| && plist == list[j] && j in n && j !in m && Distinct(n)
    modifies free`next, free`number, free`elems, busy`next, busy`number, busy`elems, list`next, list`prev
    ensures ret == 0 && Chains(list, free, busy, [j] + m, Remove(n, j))
  {
    hide Remove;
    NamesRemove(list, busy.elems, n, j);
    NamesCons(list, free.elems, m, j);
    ApartMove(free.elems, busy.elems, plist);
    ret := busy.RemoveEntry(plist);
    free.AddHead(plist);
  }
}
