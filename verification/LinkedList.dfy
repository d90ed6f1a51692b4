/**
 The intrusive circular doubly linked list of linked_list.h.

 A `ListHead` is both a list head and an entry.  `list_entry` finds the record that an entry is
 embedded in; here that record hangs off the entry as `item`, which no list operation touches.
 */
module LinkedList {

  class ListHead<T> {
    var next: ListHead?<T>
    var prev: ListHead?<T>
    var item: T

    constructor (item: T) {
      next, prev := null, null;
      this.item := item;
    }
  }

  /** Position `i` of the ring through `head` and `nodes`; `head` closes it at both ends. */
  ghost function At<T>(head: ListHead<T>, nodes: seq<ListHead<T>>, i: int): ListHead<T> {
    if 0 <= i < |nodes| then nodes[i] else head
  }

  ghost predicate Distinct<T>(nodes: seq<ListHead<T>>) {
    forall i, j :: 0 <= i < j < |nodes| ==> nodes[i] != nodes[j]
  }

  /** `head` is the head of a well-formed circular list of exactly `nodes`: next and prev are inverse. */
  ghost predicate Ring<T>(head: ListHead<T>, nodes: seq<ListHead<T>>)
    reads head, nodes
  {
    && head !in nodes
    && Distinct(nodes)
    && (forall i :: -1 <= i < |nodes| ==> At(head, nodes, i).next == At(head, nodes, i + 1))
    && (forall i :: 0 <= i <= |nodes| ==> At(head, nodes, i).prev == At(head, nodes, i - 1))
  }

  ghost function Removed<T>(nodes: seq<ListHead<T>>, k: nat): seq<ListHead<T>>
    requires k < |nodes|
  {
    nodes[..k] + nodes[k + 1..]
  }

  method InitListHead<T>(head: ListHead<T>)
    modifies head`next, head`prev
    ensures Ring(head, [])
  {
    head.next := head;
    head.prev := head;
  }

  /** Links `entry` between two consecutive positions; `k` is where it lands. */
  method ListInsert<T>(entry: ListHead<T>, prev: ListHead<T>, next: ListHead<T>,
                       ghost head: ListHead<T>, ghost nodes: seq<ListHead<T>>, ghost k: nat)
    requires Ring(head, nodes) && k <= |nodes|
    requires entry != head && entry !in nodes
    requires prev == At(head, nodes, k - 1) && next == At(head, nodes, k)
    modifies entry`next, entry`prev, prev`next, next`prev
    ensures Ring(head, nodes[..k] + [entry] + nodes[k..])
  {
    next.prev := entry;
    entry.next := next;
    entry.prev := prev;
    prev.next := entry;
    ghost var now := nodes[..k] + [entry] + nodes[k..];
    assert forall i :: -1 <= i < k ==> At(head, now, i) == At(head, nodes, i);
    assert At(head, now, k) == entry;
    assert forall i :: k < i <= |now| ==> At(head, now, i) == At(head, nodes, i - 1);
  }

  /** Puts `entry` right after the head: a stack push. */
  method ListAdd<T>(entry: ListHead<T>, head: ListHead<T>, ghost nodes: seq<ListHead<T>>)
    requires Ring(head, nodes)
    requires entry != head && entry !in nodes
    modifies entry`next, entry`prev, head`next, At(head, nodes, 0)`prev
    ensures Ring(head, [entry] + nodes)
  {
    assert At(head, nodes, -1).next == At(head, nodes, 0);
    ListInsert(entry, head, head.next, head, nodes, 0);
    assert nodes[..0] + [entry] + nodes[0..] == [entry] + nodes;
  }

  /** Puts `entry` right before the head: a queue append. */
  method ListAddTail<T>(entry: ListHead<T>, head: ListHead<T>, ghost nodes: seq<ListHead<T>>)
    requires Ring(head, nodes)
    requires entry != head && entry !in nodes
    modifies entry`next, entry`prev, head`prev, At(head, nodes, |nodes| - 1)`next
    ensures Ring(head, nodes + [entry])
  {
    assert At(head, nodes, |nodes|).prev == At(head, nodes, |nodes| - 1);
    ListInsert(entry, head.prev, head, head, nodes, |nodes|);
    assert nodes[..|nodes|] + [entry] + nodes[|nodes|..] == nodes + [entry];
  }

  /** Unlinks the entry at position `k` and clears its links. */
  method ListDel<T>(entry: ListHead<T>, ghost head: ListHead<T>, ghost nodes: seq<ListHead<T>>, ghost k: nat)
    requires Ring(head, nodes) && k < |nodes| && entry == nodes[k]
    modifies entry`next, entry`prev, At(head, nodes, k - 1)`next, At(head, nodes, k + 1)`prev
    ensures Ring(head, Removed(nodes, k))
    ensures entry.next == null && entry.prev == null
  {
    ghost var rest := Removed(nodes, k);
    assert At(head, nodes, k) == entry;
    assert At(head, nodes, k).next == At(head, nodes, k + 1) && At(head, nodes, k).prev == At(head, nodes, k - 1);
    entry.next.prev := entry.prev;
    entry.prev.next := entry.next;
    entry.next := null;
    entry.prev := null;
    assert forall i :: -1 <= i < k ==> At(head, rest, i) == At(head, nodes, i);
    assert forall i :: k <= i <= |rest| ==> At(head, rest, i) == At(head, nodes, i + 1);
  }

  method ListEmpty<T>(head: ListHead<T>, ghost nodes: seq<ListHead<T>>) returns (empty: bool)
    requires Ring(head, nodes)
    ensures empty <==> nodes == []
  {
    assert At(head, nodes, -1).next == At(head, nodes, 0);
    empty := head.next == head;
  }

  /** Links the nodes of a nonempty `list` in front of those at `head`; the links of `list` itself are left stale. */
  method Splice<T>(list: ListHead<T>, head: ListHead<T>, ghost moved: seq<ListHead<T>>, ghost nodes: seq<ListHead<T>>)
    requires Ring(list, moved) && Ring(head, nodes) && moved != []
    requires list != head && list !in nodes && head !in moved && Distinct(moved + nodes)
    modifies head`next, At(head, nodes, 0)`prev, At(list, moved, 0)`prev, At(list, moved, |moved| - 1)`next
    ensures Ring(head, moved + nodes)
  {
    assert At(list, moved, -1).next == At(list, moved, 0);
    assert At(list, moved, |moved|).prev == At(list, moved, |moved| - 1);
    assert At(head, nodes, -1).next == At(head, nodes, 0);
    var first, last, at := list.next, list.prev, head.next;
    first.prev := head;
    head.next := first;
    last.next := at;
    at.prev := last;
    ghost var now := moved + nodes;
    assert forall i :: 0 <= i < |moved| ==> At(head, now, i) == At(list, moved, i);
    assert forall i :: |moved| <= i <= |now| ==> At(head, now, i) == At(head, nodes, i - |moved|);
  }

  /** Moves all of `list` to the front of the list at `head`; `list` ends up empty. */
  method ListSpliceInit<T>(list: ListHead<T>, head: ListHead<T>,
                           ghost moved: seq<ListHead<T>>, ghost nodes: seq<ListHead<T>>)
    requires Ring(list, moved) && Ring(head, nodes)
    requires list != head && list !in nodes && head !in moved && Distinct(moved + nodes)
    modifies list`next, list`prev, head`next, At(head, nodes, 0)`prev
    modifies At(list, moved, 0)`prev, At(list, moved, |moved| - 1)`next
    ensures Ring(head, moved + nodes) && Ring(list, [])
  {
    var empty := ListEmpty(list, moved);
    if empty {
      assert moved + nodes == nodes;
    } else {
      Splice(list, head, moved, nodes);
      hide Ring;
      InitListHead(list);
    }
  }
}
