/** The linked structures behind the hand-off of connections to worker threads: the
    connection queue and the free list of its items. Each method is one critical section. */
module Queues {

  const ITEMS_PER_ALLOC: nat := 64

  class CqItem {
    var sfd: int
    var next: CqItem?

    constructor ()
      ensures next == null
    {
      sfd, next := 0, null;
    }
  }

  /** What follows item `i`: the next item, or nothing. */
  function After(items: seq<CqItem>, i: nat): CqItem? {
    if i + 1 < |items| then items[i + 1] else null
  }

  /** The items are distinct and linked one to the next, and the last to none. */
  ghost predicate Linked(items: seq<CqItem>)
    reads items
  {
    && (forall i, j :: 0 <= i < j < |items| ==> items[i] != items[j])
    && (forall i: nat {:trigger After(items, i)} :: i < |items| ==> items[i].next == After(items, i))
  }

  lemma LinkedTail(items: seq<CqItem>)
    requires items != [] && Linked(items)
    ensures Linked(items[1..]) && items[0].next == if items[1..] == [] then null else items[1..][0]
  {
    assert items[0].next == After(items, 0);
    forall i: nat | i < |items[1..]| ensures items[1..][i].next == After(items[1..], i) {
      assert items[i + 1].next == After(items, i + 1);
    }
  }

  lemma LinkedCons(item: CqItem, items: seq<CqItem>)
    requires Linked(items) && item !in items && item.next == if items == [] then null else items[0]
    ensures Linked([item] + items)
  {
    var all := [item] + items;
    forall i: nat | i < |all| ensures all[i].next == After(all, i) {
      if i > 0 {
        assert items[i - 1].next == After(items, i - 1);
      }
    }
  }

  class ConnQueue {
    var head: CqItem?
    var tail: CqItem?
    ghost var items: seq<CqItem>

    ghost predicate Valid()
      reads this, items
    {
      && Linked(items)
      && (if items == [] then head == null && tail == null
          else head == items[0] && tail == items[|items| - 1])
    }

    constructor ()
      ensures Valid() && items == []
    {
      head, tail, items := null, null, [];
    }

    /** Appends an item that is not in the queue. */
    method Push(item: CqItem)
      requires Valid() && item !in items
      modifies this, items, item
      ensures Valid() && items == old(items) + [item]
      ensures item.sfd == old(item.sfd) && forall x :: x in items ==> x.sfd == old(x.sfd)
    {
      item.next := null;
      if tail == null {
        head := item;
      } else {
        tail.next := item;
      }
      tail := item;
      ghost var before := items;
      items := items + [item];
      forall i: nat | i < |items| ensures items[i].next == After(items, i) {
        if i + 1 < |before| {
          assert After(before, i) == before[i + 1];
        }
      }
    }

    /** Takes the item in front, if there is one. */
    method Pop() returns (item: CqItem?)
      requires Valid()
      modifies this
      ensures Valid()
      ensures if old(items) == [] then item == null && items == []
              else item == old(items)[0] && items == old(items)[1..]
    {
      item := head;
      if item != null {
        LinkedTail(items);
        head := item.next;
        if head == null {
          tail := null;
        }
        items := items[1..];
      }
    }
  }

  class FreeList {
    var first: CqItem?
    ghost var free: seq<CqItem>

    ghost predicate Valid()
      reads this, free
    {
      && Linked(free)
      && first == if free == [] then null else free[0]
    }

    constructor ()
      ensures Valid() && free == []
    {
      first, free := null, [];
    }

    /** The first critical section of `cqi_new`: an item off the list, or none. */
    method TakeFree() returns (item: CqItem?)
      requires Valid()
      modifies this
      ensures Valid()
      ensures if old(free) == [] then item == null && free == []
              else item == old(free)[0] && free == old(free)[1..]
    {
      item := null;
      if first != null {
        LinkedTail(free);
        item := first;
        first := item.next;
        free := free[1..];
      }
    }

    /** The second one: a batch of new items, linked except for the first, goes on the list
        in front of whatever has been freed meanwhile. */
    method AddBatch(batch: seq<CqItem>)
      requires Valid() && |batch| == ITEMS_PER_ALLOC
      requires forall i, j :: 0 <= i < j < |batch| ==> batch[i] != batch[j]
      requires forall i :: 0 <= i < |batch| ==> batch[i] !in free
      requires forall i :: 1 <= i < |batch| - 1 ==> batch[i].next == batch[i + 1]
      modifies this, batch[|batch| - 1]
      ensures Valid() && free == batch[1..] + old(free)
    {
      batch[|batch| - 1].next := first;
      first := batch[1];
      ghost var before := free;
      free := batch[1..] + free;
      var n := |batch| - 1;
      forall i: nat | i < |free| ensures free[i].next == After(free, i) {
        if i + 1 < n {
          assert free[i] == batch[i + 1] && free[i + 1] == batch[i + 2];
        } else if i >= n {
          assert before[i - n].next == After(before, i - n);
        }
      }
    }

    /** Returns an item, from a new batch of 64 when the list is empty. */
    method New() returns (item: CqItem)
      requires Valid()
      modifies this
      ensures Valid() && item !in free
      ensures if old(free) != [] then item == old(free)[0] && free == old(free)[1..]
              else fresh(item) && |free| == 63 && forall x :: x in free ==> fresh(x)
    {
      var taken := TakeFree();
      if taken != null {
        return taken;
      }
      var batch := NewBatch();
      AddBatch(batch);
      return batch[0];
    }

    method Free(item: CqItem)
      requires Valid() && item !in free
      modifies this, item`next
      ensures Valid() && free == [item] + old(free)
    {
      item.next := first;
      first := item;
      LinkedCons(item, free);
      free := [item] + free;
    }
  }

  /** A block of new items, linked one to the next except for the first. */
  method NewBatch() returns (batch: seq<CqItem>)
    ensures |batch| == ITEMS_PER_ALLOC && fresh(batch)
    ensures forall i, j :: 0 <= i < j < |batch| ==> batch[i] != batch[j]
    ensures forall i :: 1 <= i < |batch| - 1 ==> batch[i].next == batch[i + 1]
  {
    batch := [];
    for i := 0 to ITEMS_PER_ALLOC
      invariant |batch| == i && fresh(batch)
      invariant forall k, l :: 0 <= k < l < |batch| ==> batch[k] != batch[l]
    {
      var item := new CqItem();
      batch := batch + [item];
    }
    for i := 2 to ITEMS_PER_ALLOC
      invariant forall k :: 1 <= k < i - 1 ==> batch[k].next == batch[k + 1]
    {
      batch[i - 1].next := batch[i];
    }
  }
}
