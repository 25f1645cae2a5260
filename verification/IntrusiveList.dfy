/** The circular doubly linked list under the allocator, the wait queues, the run queue and the areas
    (kern/include/list.h). */
module IntrusiveList {
  import opened Sequences

  class Link {
    var prev: Link
    var next: Link

    /** initList on a fresh element: a ring of its own. */
    constructor ()
      ensures Ring([this])
    {
      prev, next := this, this;
    }

    /** initList. */
    method Init()
      modifies this
      ensures Ring([this])
    {
      prev, next := this, this;
    }
  }

  function Succ(n: nat, i: nat): (j: nat)
    requires i < n
    ensures j < n
  {
    if i + 1 < n then i + 1 else 0
  }

  /** Element i of the ring and the one after it point to each other. */
  ghost predicate Joined(ring: seq<Link>, i: nat)
    requires i < |ring|
    reads ring
  {
    ring[i].next == ring[Succ(|ring|, i)] && ring[Succ(|ring|, i)].prev == ring[i]
  }

  /** A list with its head at the front: the elements linked in a circle. */
  ghost predicate Ring(ring: seq<Link>)
    reads ring
  {
    ring != [] && Distinct(ring) && forall i :: 0 <= i < |ring| ==> Joined(ring, i)
  }

  function Inserted(ring: seq<Link>, i: nat, elem: Link): seq<Link>
    requires i < |ring|
  {
    ring[..i + 1] + [elem] + ring[i + 1..]
  }

  function Deleted(ring: seq<Link>, i: nat): seq<Link>
    requires i < |ring|
  {
    ring[..i] + ring[i + 1..]
  }

  lemma InsertedDistinct(ring: seq<Link>, i: nat, elem: Link)
    requires Distinct(ring) && i < |ring| && elem !in ring
    ensures Distinct(Inserted(ring, i, elem))
  {
    var r := Inserted(ring, i, elem);
    assert forall j :: 0 <= j < |r| ==> r[j] == if j <= i then ring[j] else if j == i + 1 then elem else ring[j - 1];
  }

  lemma DeletedDistinct(ring: seq<Link>, i: nat)
    requires Distinct(ring) && i < |ring|
    ensures Distinct(Deleted(ring, i)) && ring[i] !in Deleted(ring, i)
  {
    var r := Deleted(ring, i);
    assert forall j :: 0 <= j < |r| ==> r[j] == ring[if j < i then j else j + 1];
  }

  /** _list_add between element i and the next one. */
  method AddBetween(elem: Link, prev: Link, next: Link, ghost ring: seq<Link>, ghost i: nat)
    requires Ring(ring) && i < |ring| && prev == ring[i] && next == ring[Succ(|ring|, i)] && elem !in ring
    modifies elem, prev`next, next`prev
    ensures Ring(Inserted(ring, i, elem))
  {
    ghost var n := |ring|;
    prev.next := elem;
    next.prev := elem;
    elem.next := next;
    elem.prev := prev;
    InsertedDistinct(ring, i, elem);
    ghost var r := Inserted(ring, i, elem);
    assert forall j :: 0 <= j < |r| ==> r[j] == if j <= i then ring[j] else if j == i + 1 then elem else ring[j - 1];
    forall j | 0 <= j < |r|
      ensures Joined(r, j)
    {
      if j < i {
        assert old(Joined(ring, j));
        assert ring[j] != ring[i] && ring[j + 1] != ring[Succ(n, i)];
      } else if j > i + 1 {
        assert old(Joined(ring, j - 1));
        assert ring[j - 1] != ring[i] && ring[Succ(n, j - 1)] != ring[Succ(n, i)];
      }
    }
  }

  /** listAdd and listAddAfter. */
  method AddAfter(listelem: Link, elem: Link, ghost ring: seq<Link>, ghost i: nat)
    requires Ring(ring) && i < |ring| && listelem == ring[i] && elem !in ring
    modifies elem, ring
    ensures Ring(Inserted(ring, i, elem))
  {
    assert Joined(ring, i);
    AddBetween(elem, listelem, listelem.next, ring, i);
  }

  /** listAddTail and listAddBefore: in front of the head is at the end. */
  method AddBefore(listelem: Link, elem: Link, ghost ring: seq<Link>, ghost i: nat)
    requires Ring(ring) && i < |ring| && listelem == ring[i] && elem !in ring
    modifies elem, ring
    ensures Ring(Inserted(ring, if i == 0 then |ring| - 1 else i - 1, elem))
    ensures i == 0 ==> Ring(ring + [elem])
  {
    ghost var k := if i == 0 then |ring| - 1 else i - 1;
    assert Joined(ring, k);
    AddBetween(elem, listelem.prev, listelem, ring, k);
    assert i == 0 ==> Inserted(ring, k, elem) == ring + [elem];
  }

  /** listDelInit of an element other than the head: it becomes a ring of its own. */
  method DelInit(elem: Link, ghost ring: seq<Link>, ghost i: nat)
    requires Ring(ring) && 0 < i < |ring| && elem == ring[i]
    modifies ring
    ensures Ring(Deleted(ring, i)) && Ring([elem])
  {
    Unlink(elem, ring, i);
    DeletedDistinct(ring, i);
    ghost var r := Deleted(ring, i);
    elem.Init();
    assert forall j :: 0 <= j < |r| ==> r[j] != elem && r[Succ(|r|, j)] != elem;
    assert Ring(r) by {
      forall j | 0 <= j < |r|
        ensures Joined(r, j)
      {
        assert r[j] != elem && r[Succ(|r|, j)] != elem;
      }
    }
  }

  /** listDel of an element other than the head. */
  method Unlink(elem: Link, ghost ring: seq<Link>, ghost i: nat)
    requires Ring(ring) && 0 < i < |ring| && elem == ring[i]
    modifies set j | 0 <= j < |ring| && j != i :: ring[j]
    ensures Ring(Deleted(ring, i)) && elem.prev == old(elem.prev) && elem.next == old(elem.next)
    ensures forall j :: 0 <= j < |Deleted(ring, i)| ==> Joined(Deleted(ring, i), j)
  {
    ghost var n := |ring|;
    assert Joined(ring, i) && Joined(ring, i - 1);
    var prev, next := elem.prev, elem.next;
    prev.next := next;
    next.prev := prev;
    DeletedDistinct(ring, i);
    ghost var r := Deleted(ring, i);
    assert forall j :: 0 <= j < |r| ==> r[j] == ring[if j < i then j else j + 1];
    forall j | 0 <= j < |r|
      ensures Joined(r, j)
    {
      if j < i - 1 {
        assert old(Joined(ring, j));
        assert ring[j] != ring[i - 1] && ring[j + 1] != ring[Succ(n, i)];
      } else if j >= i {
        assert old(Joined(ring, j + 1));
        assert ring[j + 1] != ring[i - 1] && ring[Succ(n, j + 1)] != ring[Succ(n, i)];
      }
    }
  }

  /** listIsEmpty: only the head is in the ring. */
  method IsEmpty(list: Link, ghost ring: seq<Link>) returns (empty: bool)
    requires Ring(ring) && list == ring[0]
    ensures empty <==> |ring| == 1
  {
    assert Joined(ring, 0);
    empty := list.next == list;
  }

  /** listForEach visits the elements in order, once each, and stops. */
  method ForEach(head: Link, ghost ring: seq<Link>) returns (visited: seq<Link>)
    requires Ring(ring) && head == ring[0]
    ensures visited == ring[1..]
  {
    visited := [];
    ghost var k := 0;
    assert Joined(ring, 0);
    var i := head.next;
    while i != head
      invariant k < |ring| && i == ring[Succ(|ring|, k)] && visited == ring[1..k + 1]
      decreases |ring| - k
    {
      assert Succ(|ring|, k) == k + 1 && Joined(ring, k + 1);
      visited := visited + [i];
      i := i.next;
      k := k + 1;
    }
    assert Succ(|ring|, k) == 0;
  }
}
