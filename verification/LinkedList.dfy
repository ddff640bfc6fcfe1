// The list of bochs/qemu-queue.h: doubly linked, headed by a single pointer. Insertion next to an
// element and removal need no head.
module LinkedList {
  import opened IntrusiveLinks

  type LLink = Link<Head>
  type LElem = Elem<Head>

  function Owner(l: LLink): set<object> {
    match l
    case HeadSlot(h) => {h}
    case NextSlot(e) => {e}
  }

  // *l = v
  method Save(l: LLink, v: Elem?<Head>)
    modifies Owner(l)
    ensures l.HeadSlot? ==> l.head.first == v && l.head.elems == old(l.head.elems)
    ensures l.NextSlot? ==> l.e.next == v && l.e.prev == old(l.e.prev)
  {
    match l
    case HeadSlot(h) => h.first := v;
    case NextSlot(e) => e.next := v;
  }

  class Head {
    var first: Elem?<Head>
    ghost var elems: seq<LElem>

    ghost predicate Valid()
      reads this, elems
    {
      Distinct(elems) && Linked(this, elems) && first == if |elems| == 0 then null else elems[0]
    }

    constructor ()
      ensures Valid() && elems == []
    {
      first := null;
      elems := [];
    }

    method InsertHead(elm: LElem)
      requires Valid() && elm !in elems
      modifies this, elems, elm
      ensures Valid() && elems == [elm] + old(elems)
    {
      elm.next := first;
      if elm.next != null {
        first.prev := NextSlot(elm);
      }
      first := elm;
      elm.prev := HeadSlot(this);
      elems := [elm] + elems;
    }

    method Foreach() returns (visited: seq<LElem>)
      requires Valid()
      ensures visited == elems
    {
      visited := [];
      var e := first;
      ghost var k: nat := 0;
      while e != null
        invariant k <= |elems| && visited == elems[..k] && e == (if k < |elems| then elems[k] else null)
        decreases |elems| - k
      {
        visited := visited + [e];
        e := e.next;
        k := k + 1;
      }
    }
  }

  // The list `h` and the position `k` below are there for the specification only.

  method InsertAfter(listelm: LElem, elm: LElem, ghost h: Head, ghost k: nat)
    requires h.Valid() && elm !in h.elems && k < |h.elems| && h.elems[k] == listelm
    modifies h, h.elems, elm
    ensures h.Valid() && h.elems == old(h.elems[..k + 1] + [elm] + h.elems[k + 1..])
  {
    ghost var was := h.elems;
    elm.next := listelm.next;
    if elm.next != null {
      listelm.next.prev := NextSlot(elm);
    }
    listelm.next := elm;
    elm.prev := NextSlot(listelm);
    LinkedIn(h, was, k + 1, elm);
    h.elems := was[..k + 1] + [elm] + was[k + 1..];
  }

  method InsertBefore(listelm: LElem, elm: LElem, ghost h: Head, ghost k: nat)
    requires h.Valid() && elm !in h.elems && k < |h.elems| && h.elems[k] == listelm
    modifies h, h.elems, elm
    ensures h.Valid() && h.elems == old(h.elems[..k] + [elm] + h.elems[k..])
  {
    ghost var was := h.elems;
    elm.prev := listelm.prev;
    elm.next := listelm;
    assert listelm.prev == old(listelm.prev) == if k == 0 then HeadSlot(h) else NextSlot(was[k - 1]);
    Save(listelm.prev, elm);
    listelm.prev := NextSlot(elm);
    LinkedIn(h, was, k, elm);
    h.elems := was[..k] + [elm] + was[k..];
  }

  method Remove(elm: LElem, ghost h: Head, ghost k: nat)
    requires h.Valid() && k < |h.elems| && h.elems[k] == elm
    modifies h, h.elems
    ensures h.Valid() && h.elems == old(h.elems[..k] + h.elems[k + 1..])
  {
    ghost var was := h.elems;
    if elm.next != null {
      elm.next.prev := elm.prev;
    }
    assert elm.prev == old(elm.prev) == if k == 0 then HeadSlot(h) else NextSlot(was[k - 1]);
    Save(elm.prev, elm.next);
    Unlinked(h, was, k);
    h.elems := was[..k] + was[k + 1..];
  }
}
