// The simple queue of bochs/qemu-queue.h: singly linked, with the address of the last `next` field
// in the head.
module SimpleQueue {
  import Links = IntrusiveLinks

  // The address of `sqh_first` of a head or of `sqe_next` of an element.
  datatype Link = HeadSlot(q: Queue) | NextSlot(e: Elem)

  class Elem {
    var next: Elem?

    constructor ()
      ensures next == null
    {
      next := null;
    }
  }

  function Owner(l: Link): set<object> {
    match l
    case HeadSlot(q) => {q}
    case NextSlot(e) => {e}
  }

  // *l = v
  method Save(l: Link, v: Elem?)
    modifies Owner(l)
    ensures l.HeadSlot? ==> l.q.first == v && l.q.last == old(l.q.last) && l.q.elems == old(l.q.elems)
    ensures l.NextSlot? ==> l.e.next == v
  {
    match l
    case HeadSlot(q) => q.first := v;
    case NextSlot(e) => e.next := v;
  }

  ghost predicate Chained(s: seq<Elem>)
    reads s
  {
    forall i {:trigger s[i].next} :: 0 <= i < |s| ==> s[i].next == if i + 1 < |s| then s[i + 1] else null
  }

  class Queue {
    var first: Elem?
    var last: Link
    ghost var elems: seq<Elem>

    ghost predicate Valid()
      reads this, elems
    {
      && Links.Distinct(elems) && Chained(elems)
      && first == (if |elems| == 0 then null else elems[0])
      && last == if |elems| == 0 then HeadSlot(this) else NextSlot(elems[|elems| - 1])
    }

    constructor ()
      ensures Valid() && elems == []
    {
      first := null;
      elems := [];
      last := HeadSlot(this);
    }

    method Init()
      modifies this
      ensures Valid() && elems == []
    {
      first := null;
      last := HeadSlot(this);
      elems := [];
    }

    method InsertHead(elm: Elem)
      requires Valid() && elm !in elems
      modifies this, elm
      ensures Valid() && elems == [elm] + old(elems)
    {
      elm.next := first;
      if elm.next == null {
        last := NextSlot(elm);
      }
      first := elm;
      elems := [elm] + elems;
    }

    method InsertTail(elm: Elem)
      requires Valid() && elm !in elems
      modifies this, elems, elm
      ensures Valid() && elems == old(elems) + [elm]
    {
      elm.next := null;
      Save(last, elm);
      last := NextSlot(elm);
      elems := elems + [elm];
    }

    method InsertAfter(listelm: Elem, elm: Elem, ghost k: nat)
      requires Valid() && elm !in elems && k < |elems| && elems[k] == listelm
      modifies this, listelm, elm
      ensures Valid() && elems == old(elems[..k + 1] + [elm] + elems[k + 1..])
    {
      ghost var was := elems;
      elm.next := listelm.next;
      if elm.next == null {
        last := NextSlot(elm);
      }
      listelm.next := elm;
      elems := was[..k + 1] + [elm] + was[k + 1..];
      assert forall i :: 0 <= i < |elems| ==>
               elems[i] == if i <= k then was[i] else if i == k + 1 then elm else was[i - 1];
    }

    method RemoveHead()
      requires Valid() && |elems| > 0
      modifies this
      ensures Valid() && elems == old(elems[1..])
    {
      first := first.next;
      if first == null {
        last := HeadSlot(this);
      }
      elems := elems[1..];
    }

    // QSIMPLEQ_REMOVE looks for the element's predecessor from the front.
    method Remove(elm: Elem, ghost k: nat)
      requires Valid() && k < |elems| && elems[k] == elm
      modifies this, elems
      ensures Valid() && elems == old(elems[..k] + elems[k + 1..])
    {
      if first == elm {
        RemoveHead();
      } else {
        ghost var was, i := elems, 0;
        var cur := first;
        while cur.next != elm
          invariant 0 <= i < k && cur == was[i] && elems == was && Valid()
          decreases k - i
        {
          cur := cur.next;
          i := i + 1;
        }
        cur.next := cur.next.next;
        if cur.next == null {
          last := NextSlot(cur);
        }
        elems := was[..k] + was[k + 1..];
        assert forall j :: 0 <= j < |elems| ==> elems[j] == if j < k then was[j] else was[j + 1];
      }
    }

    // QSIMPLEQ_LAST takes the element around the field that the head's last link points to.
    method Last() returns (e: Elem?)
      requires Valid()
      ensures e == if |elems| == 0 then null else elems[|elems| - 1]
    {
      if first == null {
        e := null;
      } else {
        e := last.e;
      }
    }

    method Foreach() returns (visited: seq<Elem>)
      requires Valid()
      ensures visited == elems
    {
      visited := [];
      var e := first;
      ghost var k: nat := 0;
      while e != null
        invariant k <= |elems| && visited == elems[..k] && e == (if k < |elems| then elems[k] else null)
        decreases |elems| - k
      {
        visited := visited + [e];
        e := e.next;
        k := k + 1;
      }
    }
  }

  lemma Joined(a: seq<Elem>, b: seq<Elem>)
    requires Links.Distinct(a) && Links.Distinct(b) && (forall e :: e in a ==> e !in b)
    requires Chained(b) && |b| > 0
    requires forall i {:trigger a[i].next} :: 0 <= i < |a| ==> a[i].next == if i + 1 < |a| then a[i + 1] else b[0]
    ensures Links.Distinct(a + b) && Chained(a + b)
  {
    var t := a + b;
    assert forall i :: 0 <= i < |t| ==> t[i] == if i < |a| then a[i] else b[i - |a|];
    assert forall i :: 0 <= i < |a| ==> a[i] in a;
    forall i | 0 <= i < |t| ensures t[i].next == if i + 1 < |t| then t[i + 1] else null {
    }
  }

  // QSIMPLEQ_CONCAT: everything in the second queue goes to the end of the first.
  method Concat(q1: Queue, q2: Queue)
    requires q1.Valid() && q2.Valid() && q1 != q2 && (forall e :: e in q1.elems ==> e !in q2.elems)
    modifies q1, q2, q1.elems
    ensures q1.Valid() && q2.Valid()
    ensures q1.elems == old(q1.elems + q2.elems) && q2.elems == []
  {
    if q2.first != null {
      ghost var a, b := q1.elems, q2.elems;
      assert |a| > 0 ==> a[|a| - 1] in a;
      Save(q1.last, q2.first);
      assert Chained(b);
      q1.last := q2.last;
      q2.Init();
      Joined(a, b);
      q1.elems := a + b;
    } else {
      assert q1.elems + q2.elems == q1.elems;
    }
  }
}
