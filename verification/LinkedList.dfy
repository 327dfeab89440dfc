/** The intrusive circular doubly linked list of list.h. */
module LinkedList {
  class ListHead {
    var next: ListHead?
    var prev: ListHead?

    /** LIST_HEAD(name): an empty list. */
    constructor ()
      ensures IsList(this, [])
    {
      next := this;
      prev := this;
    }
  }

  /** The nodes met when walking once around the list, the head at both ends. */
  ghost function Ring(head: ListHead, items: seq<ListHead>): (r: seq<ListHead>)
    ensures |r| == |items| + 2
  {
    [head] + items + [head]
  }

  ghost predicate NoDuplicates(s: seq<ListHead>) {
    forall i, j :: 0 <= i < j < |s| ==> s[i] != s[j]
  }

  ghost function Nodes(head: ListHead, items: seq<ListHead>): set<ListHead> {
    {head} + set x | x in items
  }

  /** head heads a well-formed circular list of exactly these items, in this order. */
  ghost predicate IsList(head: ListHead, items: seq<ListHead>)
    reads Nodes(head, items)
  {
    && NoDuplicates(items) && head !in items
    && forall k :: 0 <= k <= |items| ==>
         Ring(head, items)[k].next == Ring(head, items)[k + 1] && Ring(head, items)[k + 1].prev == Ring(head, items)[k]
  }

  /** The node k steps after the head's successor; the head itself past the end. */
  ghost function NodeAt(head: ListHead, items: seq<ListHead>, k: nat): ListHead
    requires k <= |items|
  {
    if k < |items| then items[k] else head
  }

  ghost function Without(items: seq<ListHead>, k: nat): seq<ListHead>
    requires k < |items|
  {
    items[..k] + items[k + 1..]
  }

  /** list_del: unlinks the k-th item. */
  method ListDel(entry: ListHead, ghost head: ListHead, ghost items: seq<ListHead>, ghost k: nat)
    requires IsList(head, items) && k < |items| && entry == items[k]
    modifies Nodes(head, items)
    ensures IsList(head, Without(items, k))
    ensures entry.next == null && entry.prev == null
  {
    ghost var ring := Ring(head, items);
    assert ring[k + 1] == entry && ring[k].next == entry && ring[k + 1].next == ring[k + 2];
    var p, n := entry.prev, entry.next;
    n.prev := p;
    p.next := n;
    entry.next, entry.prev := null, null;
    ghost var left := Ring(head, Without(items, k));
    forall i | 0 <= i <= |items| - 1
      ensures left[i].next == left[i + 1] && left[i + 1].prev == left[i]
    {
      if i < k {
        assert left[i] == ring[i] && left[i + 1] == ring[i + 1];
      } else if i == k {
        assert left[i] == ring[i] && left[i + 1] == ring[i + 2];
      } else {
        assert left[i] == ring[i + 1] && left[i + 1] == ring[i + 2];
      }
    }
  }

  /** list_add_tail: links a free node in front of the head, that is at the end. */
  method ListAddTail(entry: ListHead, head: ListHead, ghost items: seq<ListHead>)
    requires IsList(head, items) && entry !in Nodes(head, items)
    modifies Nodes(head, items), entry
    ensures IsList(head, items + [entry])
  {
    ghost var ring := Ring(head, items);
    assert ring[|items| + 1].prev == ring[|items|];
    var p := head.prev;
    head.prev := entry;
    entry.next := head;
    entry.prev := p;
    p.next := entry;
    ghost var more := Ring(head, items + [entry]);
    forall i | 0 <= i <= |items| + 1
      ensures more[i].next == more[i + 1] && more[i + 1].prev == more[i]
    {
      if i < |items| {
        assert more[i] == ring[i] && more[i + 1] == ring[i + 1];
        assert ring[i].next == ring[i + 1] && ring[i + 1].prev == ring[i];
      }
    }
  }
}
