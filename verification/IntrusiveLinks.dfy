// What the doubly linked structures of bochs/qemu-queue.h have in common: elements whose back link
// is the address of the field that points to them.
module IntrusiveLinks {
  // The address of a field that holds a pointer to an element: the first member of a head of type
  // H, or the `next` field of an element.
  datatype Link<H> = HeadSlot(head: H) | NextSlot(e: Elem<H>)

  class Elem<H> {
    var next: Elem?<H>
    var prev: Link<H>

    constructor (link: Link<H>)
      ensures next == null && prev == link
    {
      next, prev := null, link;
    }
  }

  ghost predicate Distinct<T>(s: seq<T>) {
    forall i, j :: 0 <= i < j < |s| ==> s[i] != s[j]
  }

  // The elements are linked to each other and to `head` in the order of `s`.
  ghost predicate Linked<H>(head: H, s: seq<Elem<H>>)
    reads s
  {
    && (forall i {:trigger s[i].next} :: 0 <= i < |s| ==>
          s[i].next == (if i + 1 < |s| then s[i + 1] else null))
    && (forall i {:trigger s[i].prev} :: 0 <= i < |s| ==>
          s[i].prev == (if i == 0 then HeadSlot(head) else NextSlot(s[i - 1])))
  }

  // Leaving out the element at `k`, of which only its neighbours knew.
  lemma Unlinked<H>(head: H, s: seq<Elem<H>>, k: nat)
    requires k < |s| && Distinct(s)
    requires forall i {:trigger s[i].next} :: 0 <= i < |s| && i != k ==>
               s[i].next == if i == k - 1 then (if k + 1 < |s| then s[k + 1] else null)
                            else if i + 1 < |s| then s[i + 1] else null
    requires forall i {:trigger s[i].prev} :: 0 <= i < |s| && i != k ==>
               s[i].prev == if i == k + 1 then (if k == 0 then HeadSlot(head) else NextSlot(s[k - 1]))
                            else if i == 0 then HeadSlot(head) else NextSlot(s[i - 1])
    ensures Linked(head, s[..k] + s[k + 1..]) && Distinct(s[..k] + s[k + 1..])
  {
  }

  // Putting `e` in at `k`, when it and its neighbours know of each other.
  lemma LinkedIn<H>(head: H, s: seq<Elem<H>>, k: nat, e: Elem<H>)
    requires k <= |s| && Distinct(s) && e !in s
    requires forall i {:trigger s[i].next} :: 0 <= i < |s| ==>
               s[i].next == if i == k - 1 then e else if i + 1 < |s| then s[i + 1] else null
    requires forall i {:trigger s[i].prev} :: 0 <= i < |s| ==>
               s[i].prev == if i == k then NextSlot(e) else if i == 0 then HeadSlot(head) else NextSlot(s[i - 1])
    requires e.next == if k < |s| then s[k] else null
    requires e.prev == if k == 0 then HeadSlot(head) else NextSlot(s[k - 1])
    ensures Linked(head, s[..k] + [e] + s[k..]) && Distinct(s[..k] + [e] + s[k..])
  {
  }
}
