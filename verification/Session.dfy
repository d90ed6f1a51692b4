/**
 The session store of mqtt_session.c: a fixed pool of items threaded on two intrusive lists.
 The ghost sequences `used` and `free` are what the two lists hold, in list order, and `Contents`
 is what the used items store.
 */
module Session {
  import opened MqttTypes
  import opened SessionSpec
  import opened LinkedList

  /** The pool items are split over the two lists and the loose ones. */
  ghost predicate Partition<T>(items: seq<ListHead<T>>, used: seq<ListHead<T>>, free: seq<ListHead<T>>, loose: set<ListHead<T>>) {
    && |used| + |free| + |loose| == |items|
    && (forall i :: 0 <= i < |used| ==> used[i] in items && used[i] !in free && used[i] !in loose)
    && (forall i :: 0 <= i < |free| ==> free[i] in items && free[i] !in loose)
    && (forall n | n in loose :: n in items)
    && (forall i :: 0 <= i < |items| ==> items[i] in used || items[i] in free || items[i] in loose)
  }

  lemma TakeFirst<T>(items: seq<ListHead<T>>, used: seq<ListHead<T>>, free: seq<ListHead<T>>)
    requires Partition(items, used, free, {}) && Distinct(free) && free != []
    ensures Partition(items, used, free[1..], {free[0]})
  {
    assert free == [free[0]] + free[1..];
  }

  lemma TakeAt<T>(items: seq<ListHead<T>>, used: seq<ListHead<T>>, free: seq<ListHead<T>>, k: nat)
    requires Partition(items, used, free, {}) && Distinct(used) && k < |used|
    ensures Partition(items, Removed(used, k), free, {used[k]})
  {
    assert used == used[..k] + [used[k]] + used[k + 1..];
  }

  lemma GiveBack<T>(items: seq<ListHead<T>>, used: seq<ListHead<T>>, free: seq<ListHead<T>>, item: ListHead<T>)
    requires Partition(items, used, free, {item})
    ensures Partition(items, used, [item] + free, {}) && Partition(items, used + [item], free, {})
  {
  }

  lemma AllFree<T>(items: seq<ListHead<T>>, free: seq<ListHead<T>>)
    requires |free| == |items| && forall i :: 0 <= i < |items| ==> free[i] == items[|items| - 1 - i]
    ensures Partition(items, [], free, {})
  {
    forall i | 0 <= i < |items| ensures items[i] in free {
      assert free[|items| - 1 - i] == items[i];
    }
  }

  class Session {
    const usedList: ListHead<Packet>
    const nonusedList: ListHead<Packet>
    const items: seq<ListHead<Packet>>
    ghost var used: seq<ListHead<Packet>>
    ghost var free: seq<ListHead<Packet>>
    ghost var Contents: seq<Packet>
    ghost const Repr: set<object>

    /** The storage itself: two heads and the pool, all different.  Nothing is said about the links. */
    ghost predicate Storage() {
      && usedList != nonusedList && usedList !in items && nonusedList !in items
      && Distinct(items)
      && Repr == {this, usedList, nonusedList} + (set n | n in items)
      && |items| < 256  // the pool index of init is an 8-bit counter
    }

    /** Both lists are well formed and disjoint, and with the `loose` items hold every pool item exactly once. */
    ghost predicate Shape(loose: set<ListHead<Packet>>)
      reads Repr
    {
      && Storage()
      && Partition(items, used, free, loose)
      && Ring(usedList, used) && Ring(nonusedList, free)
    }

    ghost predicate Holding(loose: set<ListHead<Packet>>)
      reads Repr
    {
      Shape(loose) && |Contents| == |used| && (forall i :: 0 <= i < |used| ==> Contents[i] == used[i].item)
    }

    /** No item is loose: the state between any two operations. */
    ghost predicate Valid()
      reads Repr
    {
      Holding({})
    }

    constructor (capacity: nat)
      requires capacity < 256
      ensures Storage() && |items| == capacity
      ensures fresh(Repr)
    {
      var u := new ListHead<Packet>(Pingreq);
      var n := new ListHead<Packet>(Pingreq);
      var pool: seq<ListHead<Packet>> := [];
      while |pool| < capacity
        invariant |pool| <= capacity && Distinct(pool) && u !in pool && n !in pool
        invariant fresh(u) && fresh(n) && u != n && forall x :: x in pool ==> fresh(x)
      {
        var item := new ListHead<Packet>(Pingreq);
        pool := pool + [item];
      }
      usedList, nonusedList, items := u, n, pool;
      used, free, Contents := [], [], [];
      Repr := {this, u, n} + (set x | x in pool);
    }

    /** Whatever the links were before, every item ends up free, the last pool item first. */
    method Init()
      requires Storage()
      modifies Repr
      ensures Valid() && used == [] && Contents == []
      ensures |free| == |items| && forall i :: 0 <= i < |items| ==> free[i] == items[|items| - 1 - i]
    {
      hide Partition;
      hide Ring;
      InitListHead(usedList);
      InitListHead(nonusedList);
      used, free, Contents := [], [], [];
      var index := 0;
      while index < |items|
        invariant 0 <= index <= |items| == |items|
        invariant Ring(usedList, used) && Ring(nonusedList, free) && used == [] && Contents == []
        invariant |free| == index && forall i :: 0 <= i < index ==> free[i] == items[index - 1 - i]
      {
        ListAdd(items[index], nonusedList, free);
        free := [items[index]] + free;
        index := index + 1;
      }
      AllFree(items, free);
    }

    method TakeFree() returns (item: ListHead<Packet>)
      requires Valid() && free != []
      modifies this`free, nonusedList, items
      ensures Holding({item}) && item == old(free)[0] && free == old(free)[1..]
    {
      TakeFirst(items, used, free);
      assert forall i :: 0 <= i < |used| ==> used[i] !in free;
      assert forall i :: 0 <= i < |free| ==> free[i] in items;
      hide Partition;
      hide Distinct;
      assert At(nonusedList, free, -1).next == At(nonusedList, free, 0);
      item := nonusedList.next;
      assert item == free[0] && Removed(free, 0) == free[1..];
      ListDel(item, nonusedList, free, 0);
      free := free[1..];
    }

    method GiveFree(item: ListHead<Packet>)
      requires Holding({item})
      modifies this`free, nonusedList, items
      ensures Valid() && free == [item] + old(free)
    {
      GiveBack(items, used, free, item);
      assert item in {item};
      ListAdd(item, nonusedList, free);
      free := [item] + free;
    }

    method PutUsed(item: ListHead<Packet>, p: Packet)
      requires Holding({item})
      modifies this`used, this`Contents, usedList, items
      ensures Valid() && used == old(used) + [item]
      ensures Contents == old(Contents) + [p]
    {
      GiveBack(items, used, free, item);
      item.item := p;
      ListAddTail(item, usedList, used);
      used, Contents := used + [item], Contents + [p];
    }

    method Unlink(item: ListHead<Packet>, ghost k: nat)
      requires Valid() && k < |used| && item == used[k]
      modifies this`used, usedList`next, usedList`prev, set n | n in items :: n`next, set n | n in items :: n`prev
      ensures Shape({item}) && used == Removed(old(used), k)
    {
      TakeAt(items, used, free, k);
      assert item !in free && At(usedList, used, k - 1) !in free && At(usedList, used, k + 1) !in free;
      ListDel(item, usedList, used, k);
      assert Ring(nonusedList, free);
      used := Removed(used, k);
    }

    method TakeUsed(item: ListHead<Packet>, ghost k: nat)
      requires Valid() && k < |used| && item == used[k]
      modifies this`used, this`Contents, usedList, items
      ensures Holding({item}) && used == Removed(old(used), k) && free == old(free)
      ensures Contents == old(Contents[..k] + Contents[k + 1..])
    {
      Unlink(item, k);
      Contents := Contents[..k] + Contents[k + 1..];
    }

    /** Moves the used item at position `k` to the front of the free list. */
    method Release(item: ListHead<Packet>, ghost k: nat)
      requires Valid() && k < |used| && item == used[k]
      modifies Repr
      ensures Valid() && used == Removed(old(used), k) && free == [item] + old(free)
      ensures Contents == old(Contents[..k] + Contents[k + 1..])
    {
      TakeUsed(item, k);
      GiveFree(item);
    }

    /** Moves the first free item to the tail of the used list; a full pool or an untracked type changes neither list. */
    method AddItem(p: Packet) returns (ok: bool)
      requires Valid()
      modifies Repr
      ensures Valid()
      ensures ok <==> |old(used)| < |items| && Tracked(TypeOf(p))
      ensures ok ==> used == old(used) + [old(free)[0]] && free == old(free)[1..]
      ensures !ok ==> used == old(used) && free == old(free)
      ensures Contents == Added(old(Contents), |items|, p)
    {
      var full := ListEmpty(nonusedList, free);
      if full {
        return false;
      }
      var item := TakeFree();
      if TypeOf(p) !in {PUBLISH, SUBSCRIBE, UNSUBSCRIBE, PUBREC, PUBREL} {
        GiveFree(item);
        return false;
      }
      PutUsed(item, p);
      return true;
    }

    /**
     Moves the first used item with this packet id to the front of the free list.
     The loop remembers the successor, as the safe iteration macro does, although it never needs it.
     */
    method RemoveItem(t: PacketType, id: PacketId) returns (ok: bool)
      requires Valid()
      modifies Repr
      ensures Valid()
      ensures ok <==> Tracked(t) && Live(old(Contents), id)
      ensures ok ==>
        var k := FirstWith(old(Contents), id);
        used == Removed(old(used), k) && free == [old(used)[k]] + old(free)
      ensures !ok ==> used == old(used) && free == old(free)
      ensures Contents == if Tracked(t) then Without(old(Contents), id) else old(Contents)
    {
      ghost var k := 0;
      assert At(usedList, used, -1).next == At(usedList, used, 0);
      assert At(usedList, used, 0).next == if used == [] then At(usedList, used, 0) else At(usedList, used, 1);
      var pos, q := usedList.next, usedList.next.next;
      while pos != usedList
        invariant 0 <= k <= |used| && pos == At(usedList, used, k)
        invariant q == if k < |used| then At(usedList, used, k + 1) else At(usedList, used, 0)
        invariant Tracked(t) ==> k <= FirstWith(Contents, id)
        decreases |used| - k
      {
        if t in {PUBLISH, SUBSCRIBE, UNSUBSCRIBE, PUBREC, PUBREL} && IdOf(pos.item) == id {
          assert IdOf(Contents[k]) == id;
          Release(pos, k);
          return true;
        }
        pos := q;
        assert At(usedList, used, k + 1).next == if k + 1 == |used| then At(usedList, used, 0) else At(usedList, used, k + 2);
        q := pos.next;
        k := k + 1;
      }
      return false;
    }

    method ItemExist(t: PacketType, id: PacketId) returns (found: bool)
      requires Valid()
      ensures found <==> Tracked(t) && Live(Contents, id)
    {
      ghost var k := 0;
      assert At(usedList, used, -1).next == At(usedList, used, 0);
      var pos := usedList.next;
      while pos != usedList
        invariant 0 <= k <= |used| && pos == At(usedList, used, k)
        invariant Tracked(t) ==> forall i :: 0 <= i < k ==> IdOf(Contents[i]) != id
        decreases |used| - k
      {
        if t in {PUBLISH, SUBSCRIBE, UNSUBSCRIBE, PUBREC, PUBREL} && IdOf(pos.item) == id {
          assert IdOf(Contents[k]) == id;
          return true;
        }
        assert At(usedList, used, k).next == At(usedList, used, k + 1);
        pos := pos.next;
        k := k + 1;
      }
      return false;
    }

    /** Calls `iter` on each used item in list order until it fails; `seen` is what it succeeded on. */
    method IterateThroughItems(iter: (Packet, nat) -> bool) returns (seen: seq<Packet>, ok: bool)
      requires Valid()
      ensures seen <= Contents
      ensures forall i :: 0 <= i < |seen| ==> iter(Contents[i], i)
      ensures ok ==> seen == Contents
      ensures !ok ==> |seen| < |used| && !iter(Contents[|seen|], |seen|)
    {
      seen := [];
      assert At(usedList, used, -1).next == At(usedList, used, 0);
      var pos := usedList.next;
      while pos != usedList
        invariant |seen| <= |used| && pos == At(usedList, used, |seen|)
        invariant seen == Contents[..|seen|]
        invariant forall i :: 0 <= i < |seen| ==> iter(Contents[i], i)
        decreases |used| - |seen|
      {
        if !iter(pos.item, |seen|) {
          return seen, false;
        }
        assert At(usedList, used, |seen|).next == At(usedList, used, |seen| + 1);
        seen := seen + [pos.item];
        pos := pos.next;
      }
      return seen, true;
    }
  }
}
