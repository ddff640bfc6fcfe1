// The tail queue of bochs/qemu-queue.h: doubly linked elements whose back link is the address of
// the previous `next` field, and a head whose tail link is the address of the last `next` field.
module TailQueue {
  import opened IntrusiveLinks

  // Both `tqh_first` and `tqe_next`, whose addresses are links, are followed in their struct by
  // another link (`tqh_last` and `tqe_prev`), which is what lets an element be read as if it were a
  // head.
  type TLink = Link<Queue>
  type TElem = Elem<Queue>

  function Owner(l: TLink): set<object> {
    match l
    case HeadSlot(q) => {q}
    case NextSlot(e) => {e}
  }

  // *l
  function Load(l: TLink): Elem?<Queue>
    reads Owner(l)
  {
    match l
    case HeadSlot(q) => q.first
    case NextSlot(e) => e.next
  }

  // ((struct headname *) l)->tqh_last
  function Second(l: TLink): TLink
    reads Owner(l)
  {
    match l
    case HeadSlot(q) => q.last
    case NextSlot(e) => e.prev
  }

  // *l = v
  method Save(l: TLink, v: Elem?<Queue>)
    modifies Owner(l)
    ensures l.HeadSlot? ==> l.head.first == v && l.head.last == old(l.head.last) && l.head.elems == old(l.head.elems)
    ensures l.NextSlot? ==> l.e.next == v && l.e.prev == old(l.e.prev)
  {
    match l
    case HeadSlot(q) => q.first := v;
    case NextSlot(e) => e.next := v;
  }

  ghost function Reversed(s: seq<TElem>): (r: seq<TElem>)
    ensures |r| == |s| && forall i :: 0 <= i < |s| ==> r[i] == s[|s| - 1 - i]
  {
    if s == [] then [] else Reversed(s[1..]) + [s[0]]
  }

  class Queue {
    var first: Elem?<Queue>
    var last: TLink
    ghost var elems: seq<TElem>

    ghost predicate Valid()
      reads this, elems
    {
      && Distinct(elems) && Linked(this, elems)
      && first == (if |elems| == 0 then null else elems[0])
      && last == if |elems| == 0 then HeadSlot(this) else NextSlot(elems[|elems| - 1])
    }

    constructor ()
      ensures Valid() && elems == []
    {
      first := null;
      elems := [];
      last := HeadSlot(this);
    }

    method InsertHead(elm: TElem)
      requires Valid() && elm !in elems
      modifies this, elems, elm
      ensures Valid() && elems == [elm] + old(elems)
    {
      elm.next := first;
      if elm.next != null {
        first.prev := NextSlot(elm);
      } else {
        last := NextSlot(elm);
      }
      first := elm;
      elm.prev := HeadSlot(this);
      elems := [elm] + elems;
    }

    method InsertTail(elm: TElem)
      requires Valid() && elm !in elems
      modifies this, elems, elm
      ensures Valid() && elems == old(elems) + [elm]
    {
      elm.next := null;
      elm.prev := last;
      Save(last, elm);
      last := NextSlot(elm);
      elems := elems + [elm];
    }

    method InsertAfter(listelm: TElem, elm: TElem, ghost k: nat)
      requires Valid() && elm !in elems && k < |elems| && elems[k] == listelm
      modifies this, elems, elm
      ensures Valid() && elems == old(elems[..k + 1] + [elm] + elems[k + 1..])
    {
      ghost var was := elems;
      elm.next := listelm.next;
      if elm.next != null {
        elm.next.prev := NextSlot(elm);
      } else {
        last := NextSlot(elm);
      }
      listelm.next := elm;
      elm.prev := NextSlot(listelm);
      LinkedIn(this, was, k + 1, elm);
      elems := was[..k + 1] + [elm] + was[k + 1..];
    }

    method Remove(elm: TElem, ghost k: nat)
      requires Valid() && k < |elems| && elems[k] == elm
      modifies this, elems
      ensures Valid() && elems == old(elems[..k] + elems[k + 1..])
    {
      ghost var was := elems;
      if elm.next != null {
        elm.next.prev := elm.prev;
      } else {
        last := elm.prev;
      }
      assert elm.prev == old(elm.prev) == if k == 0 then HeadSlot(this) else NextSlot(was[k - 1]);
      Save(elm.prev, elm.next);
      Unlinked(this, was, k);
      elems := was[..k] + was[k + 1..];
    }

    method Last() returns (e: Elem?<Queue>)
      requires Valid()
      ensures e == if |elems| == 0 then null else elems[|elems| - 1]
    {
      e := Load(Second(last));
    }

    method Prev(elm: TElem, ghost k: nat) returns (e: Elem?<Queue>)
      requires Valid() && k < |elems| && elems[k] == elm
      ensures e == if k == 0 then null else elems[k - 1]
    {
      e := Load(Second(elm.prev));
    }

    // QTAILQ_FOREACH: the elements in the order in which the loop visits them.
    method Foreach() returns (visited: seq<TElem>)
      requires Valid()
      ensures visited == elems
    {
      visited := [];
      var e := first;
      ghost var k: nat := 0;
      while e != null
        invariant k <= |elems| && visited == elems[..k] && e == (if k < |elems| then elems[k] else null)
        decreases |elems| - k
      {
        visited := visited + [e];
        e := e.next;
        k := k + 1;
      }
    }

    // QTAILQ_FOREACH_REVERSE, which goes back by reading each element as if it were a head.
    method ForeachReverse() returns (visited: seq<TElem>)
      requires Valid()
      ensures visited == Reversed(elems)
    {
      visited := [];
      var e := Load(Second(last));
      ghost var k: nat := |elems|;
      while e != null
        invariant k <= |elems| && visited == Reversed(elems[k..]) && e == (if k > 0 then elems[k - 1] else null)
        decreases k
      {
        visited := visited + [e];
        assert elems[k - 1..] == [e] + elems[k..];
        e := Load(Second(e.prev));
        k := k - 1;
      }
      assert elems[0..] == elems;
    }
  }

  // QTAILQ_INSERT_BEFORE has no head argument: the queue is only there for the specification.
  method InsertBefore(listelm: TElem, elm: TElem, ghost q: Queue, ghost k: nat)
    requires q.Valid() && elm !in q.elems && k < |q.elems| && q.elems[k] == listelm
    modifies q, q.elems, elm
    ensures q.Valid() && q.elems == old(q.elems[..k] + [elm] + q.elems[k..])
  {
    ghost var was := q.elems;
    elm.prev := listelm.prev;
    elm.next := listelm;
    assert listelm.prev == old(listelm.prev) == if k == 0 then HeadSlot(q) else NextSlot(was[k - 1]);
    Save(listelm.prev, elm);
    listelm.prev := NextSlot(elm);
    LinkedIn(q, was, k, elm);
    q.elems := was[..k] + [elm] + was[k..];
  }

  // ---- Any sequence of operations ----

  datatype Command =
    | InsertHead(elm: TElem)
    | InsertTail(elm: TElem)
    | InsertAfter(elm: TElem, listelm: TElem)
    | InsertBefore(elm: TElem, listelm: TElem)
    | Remove(elm: TElem)

  ghost function IndexOf(s: seq<TElem>, e: TElem): (k: nat)
    requires e in s
    ensures k < |s| && s[k] == e
  {
    if s[0] == e then 0 else 1 + IndexOf(s[1..], e)
  }

  // What the caller owes: new elements are not in the queue, the others are.
  ghost predicate Fits(s: seq<TElem>, c: Command) {
    match c
    case InsertHead(e) => e !in s
    case InsertTail(e) => e !in s
    case InsertAfter(e, l) => e !in s && l in s
    case InsertBefore(e, l) => e !in s && l in s
    case Remove(e) => e in s
  }

  ghost function Effect(s: seq<TElem>, c: Command): seq<TElem>
    requires Fits(s, c)
  {
    match c
    case InsertHead(e) => [e] + s
    case InsertTail(e) => s + [e]
    case InsertAfter(e, l) => var k := IndexOf(s, l); s[..k + 1] + [e] + s[k + 1..]
    case InsertBefore(e, l) => var k := IndexOf(s, l); s[..k] + [e] + s[k..]
    case Remove(e) => var k := IndexOf(s, e); s[..k] + s[k + 1..]
  }

  ghost predicate AllFit(s: seq<TElem>, cs: seq<Command>)
    decreases |cs|
  {
    cs == [] || (Fits(s, cs[0]) && AllFit(Effect(s, cs[0]), cs[1..]))
  }

  ghost function Effects(s: seq<TElem>, cs: seq<Command>): seq<TElem>
    requires AllFit(s, cs)
    decreases |cs|
  {
    if cs == [] then s else Effects(Effect(s, cs[0]), cs[1..])
  }

  method Perform(q: Queue, c: Command)
    requires q.Valid() && Fits(q.elems, c)
    modifies q, q.elems, c.elm
    ensures q.Valid() && q.elems == Effect(old(q.elems), c)
  {
    match c
    case InsertHead(e) => q.InsertHead(e);
    case InsertTail(e) => q.InsertTail(e);
    case InsertAfter(e, l) => q.InsertAfter(l, e, IndexOf(q.elems, l));
    case InsertBefore(e, l) => InsertBefore(l, e, q, IndexOf(q.elems, l));
    case Remove(e) => q.Remove(e, IndexOf(q.elems, e));
  }

  ghost function Elements(cs: seq<Command>): set<TElem> {
    set c | c in cs :: c.elm
  }

  lemma EffectElements(s: seq<TElem>, c: Command)
    requires Fits(s, c)
    ensures forall e :: e in Effect(s, c) ==> e in s || e == c.elm
  {
  }

  // After any sequence of operations the queue holds what the sequence operations say, the head
  // cast finds its true last element, and the reverse loop visits its reversal and stops.
  method Replay(q: Queue, cs: seq<Command>) returns (last: Elem?<Queue>, backwards: seq<TElem>)
    requires q.Valid() && AllFit(q.elems, cs)
    modifies q, q.elems, Elements(cs)
    ensures q.Valid() && q.elems == Effects(old(q.elems), cs)
    ensures last == if |q.elems| == 0 then null else q.elems[|q.elems| - 1]
    ensures backwards == Reversed(q.elems)
  {
    hide Queue.Valid, Effect, Fits;
    var todo := cs;
    while todo != []
      invariant q.Valid() && AllFit(q.elems, todo) && Effects(q.elems, todo) == Effects(old(q.elems), cs)
      invariant forall e :: e in q.elems ==> e in old(q.elems) || e in Elements(cs)
      invariant forall c :: c in todo ==> c in cs
      decreases |todo|
    {
      assert todo[0] in cs && todo[0].elm in Elements(cs);
      EffectElements(q.elems, todo[0]);
      Perform(q, todo[0]);
      todo := todo[1..];
    }
    last := q.Last();
    backwards := q.ForeachReverse();
  }
}
