// The keyboard buffer of the BIOS data area (bochs/bios/rombios.c): a ring of sixteen two-byte
// entries at 0x1E of segment 0x40, with head and tail offsets at 0x1A and 0x1C and the buffer's own
// bounds at 0x80 and 0x82.
module KeyBuffer {
  import opened Wrappers
  import opened Machine

  datatype Key = Key(scan: Byte, ascii: Byte)

  const HEAD := 0x1A
  const TAIL := 0x1C
  const START := 0x1E
  const END := 0x3E
  const BUFFER_START := 0x80
  const BUFFER_END := 0x82
  const CAPACITY := 15

  // The position of an entry of the ring.
  predicate IsEntry(p: int) {
    START <= p < END && p % 2 == 0
  }

  // The entry `k` places after `p`.
  function After(p: int, k: nat): (q: int)
    requires IsEntry(p) && k <= CAPACITY
    ensures IsEntry(q)
  {
    if p + 2 * k < END then p + 2 * k else p + 2 * k - (END - START)
  }

  function Distance(p: int, q: int): (n: nat)
    requires IsEntry(p) && IsEntry(q)
    ensures n <= CAPACITY
  {
    if p <= q then (q - p) / 2 else (q - p + END - START) / 2
  }

  // How the ring closes, in the arithmetic of the code.
  lemma Ring(p: int, q: int)
    requires IsEntry(p) && IsEntry(q)
    ensures After(q, 1) == if q + 2 >= END then START else q + 2
    ensures Distance(p, q) == 0 <==> p == q
    ensures Distance(p, q) == CAPACITY <==> After(q, 1) == p
    ensures Distance(p, q) < CAPACITY ==> Distance(p, After(q, 1)) == Distance(p, q) + 1
    ensures After(p, 0) == p && After(p, Distance(p, q)) == q
  {
    RingEnds(p, q);
  }

  lemma RingEnds(p: int, q: int)
    requires IsEntry(p) && IsEntry(q)
    ensures Distance(p, q) < CAPACITY ==> Distance(p, After(q, 1)) == Distance(p, q) + 1
    ensures After(p, Distance(p, q)) == q
  {
  }

  lemma RingApart(p: int, q: int, k: nat)
    requires IsEntry(p) && IsEntry(q) && k < Distance(p, q)
    ensures After(p, k) != q
  {
  }

  function WordAt(m: seq<Byte>, p: nat): nat
    requires p + 1 < |m|
  {
    (m[p] as int) + 256 * (m[p + 1] as int)
  }

  function WithWord(m: seq<Byte>, p: nat, w: nat): (r: seq<Byte>)
    requires p + 1 < |m| && w < 0x10000
    ensures |r| == |m| && WordAt(r, p) == w
    ensures forall k :: 0 <= k < |m| && k != p && k != p + 1 ==> r[k] == m[k]
  {
    m[p := w % 256][p + 1 := w / 256]
  }

  // A well-formed data area, and the keys in its buffer, oldest first.
  predicate Good(m: seq<Byte>) {
    && |m| == 256 && WordAt(m, BUFFER_START) == START && WordAt(m, BUFFER_END) == END
    && IsEntry(WordAt(m, HEAD)) && IsEntry(WordAt(m, TAIL))
  }

  function Contents(m: seq<Byte>): (r: seq<Key>)
    requires Good(m)
    ensures |r| == Distance(WordAt(m, HEAD), WordAt(m, TAIL))
  {
    var head := WordAt(m, HEAD);
    seq(Distance(head, WordAt(m, TAIL)), k requires 0 <= k <= CAPACITY => Key(m[After(head, k) + 1], m[After(head, k)]))
  }

  function Pushed(m: seq<Byte>, key: Key): seq<Byte>
    requires Good(m)
  {
    var tail := WordAt(m, TAIL);
    WithWord(m[tail := key.ascii][tail + 1 := key.scan], TAIL, After(tail, 1))
  }

  lemma PushedContents(m: seq<Byte>, key: Key)
    requires Good(m) && |Contents(m)| < CAPACITY
    ensures Good(Pushed(m, key)) && Contents(Pushed(m, key)) == Contents(m) + [key]
  {
    var head, tail, r := WordAt(m, HEAD), WordAt(m, TAIL), Pushed(m, key);
    Ring(head, tail);
    hide After, Distance;
    assert WordAt(r, HEAD) == head;
    forall k | 0 <= k < |Contents(m)| ensures Contents(r)[k] == Contents(m)[k] {
      RingApart(head, tail, k);
    }
  }

  function Popped(m: seq<Byte>): seq<Byte>
    requires Good(m)
  {
    WithWord(m, HEAD, After(WordAt(m, HEAD), 1))
  }

  lemma PoppedContents(m: seq<Byte>)
    requires Good(m) && Contents(m) != []
    ensures Good(Popped(m)) && Contents(Popped(m)) == Contents(m)[1..]
  {
  }

  class DataArea {
    const mem: array<Byte>

    ghost predicate Valid()
      reads mem
    {
      Good(mem[..])
    }

    ghost function Keys(): (r: seq<Key>)
      requires Valid()
      reads mem
    {
      Contents(mem[..])
    }

    // What the power-on self test writes.
    constructor ()
      ensures fresh(mem) && Valid() && Keys() == []
      ensures WordAt(mem[..], 0x1A) == 0x1E && WordAt(mem[..], 0x1C) == 0x1E
      ensures WordAt(mem[..], 0x80) == 0x1E && WordAt(mem[..], 0x82) == 0x3E
    {
      mem := new Byte[256](_ => 0);
      new;
      WriteWord(HEAD, START);
      WriteWord(TAIL, START);
      WriteWord(BUFFER_START, START);
      WriteWord(BUFFER_END, END);
    }

    method ReadWord(p: nat) returns (w: nat)
      requires p + 1 < mem.Length
      ensures w == WordAt(mem[..], p)
    {
      w := (mem[p] as int) + 256 * (mem[p + 1] as int);
    }

    method WriteWord(p: nat, w: nat)
      requires p + 1 < mem.Length && w < 0x10000
      modifies mem
      ensures mem[..] == WithWord(old(mem[..]), p, w)
    {
      mem[p] := w % 256;
      mem[p + 1] := w / 256;
    }

    method EnqueueKey(scan: Byte, ascii: Byte) returns (ok: bool)
      requires Valid()
      modifies mem
      ensures Valid() && ok == (|old(Keys())| < CAPACITY)
      ensures Keys() == if ok then old(Keys()) + [Key(scan, ascii)] else old(Keys())
      ensures !ok ==> mem[..] == old(mem[..])
      ensures var tail := WordAt(old(mem[..]), 0x1C);
              ok ==> && WordAt(mem[..], tail) == 256 * (scan as int) + ascii as int
                     && WordAt(mem[..], 0x1C) == if tail == 0x3C then 0x1E else tail + 2
    {
      hide Contents, WithWord, After, Distance;
      var start := ReadWord(BUFFER_START);
      var end := ReadWord(BUFFER_END);
      var head := ReadWord(HEAD);
      var tail := ReadWord(TAIL);
      Ring(head, tail);
      var temp := tail;
      tail := tail + 2;
      if tail >= end {
        tail := start;
      }
      if tail == head {
        return false;
      }
      PushedContents(mem[..], Key(scan, ascii));
      mem[temp] := ascii;
      mem[temp + 1] := scan;
      WriteWord(TAIL, tail);
      return true;
    }

    // The oldest key, which is taken out when `incr` is set.
    method DequeueKey(incr: bool) returns (key: Option<Key>)
      requires Valid()
      modifies mem
      ensures Valid() && key == if old(Keys()) == [] then None else Some(old(Keys())[0])
      ensures Keys() == if incr && key.Some? then old(Keys())[1..] else old(Keys())
      ensures !incr ==> mem[..] == old(mem[..])
    {
      hide WithWord, After, Distance;
      var start := ReadWord(BUFFER_START);
      var end := ReadWord(BUFFER_END);
      var head := ReadWord(HEAD);
      var tail := ReadWord(TAIL);
      Ring(head, tail);
      Ring(tail, head);
      if head == tail {
        return None;
      }
      key := Some(Key(mem[head + 1], mem[head]));
      assert Keys()[0] == Key(mem[..][After(head, 0) + 1], mem[..][After(head, 0)]);
      if incr {
        PoppedContents(mem[..]);
        head := head + 2;
        if head >= end {
          head := start;
        }
        WriteWord(HEAD, head);
      }
    }

    // The first thing Ctrl-Break does: it empties the buffer. The handler of interrupt 1Bh follows, and
    // then a key of zeroes is put in.
    method Flush()
      requires Valid()
      modifies mem
      ensures Valid() && Keys() == []
    {
      var head := ReadWord(HEAD);
      WriteWord(TAIL, head);
      Ring(head, head);
    }
  }

  // ---- Any interleaving of the operations ----

  datatype KeyOp = Enqueue(key: Key) | Peek | Dequeue | Flush

  // A queue of at most fifteen keys with the history of every key it has taken: `done` lists the
  // keys that are gone, each with whether it was delivered or flushed by Ctrl-Break.
  datatype Fifo = Fifo(keys: seq<Key>, done: seq<(Key, bool)>, accepted: seq<Key>, answers: seq<Option<Key>>)

  function Marked(keys: seq<Key>, delivered: bool): (r: seq<(Key, bool)>)
    ensures |r| == |keys| && forall k :: 0 <= k < |keys| ==> r[k] == (keys[k], delivered)
  {
    seq(|keys|, k requires 0 <= k < |keys| => (keys[k], delivered))
  }

  function Front(keys: seq<Key>): Option<Key> {
    if keys == [] then None else Some(keys[0])
  }

  function Step(f: Fifo, op: KeyOp): Fifo {
    match op
    case Enqueue(key) =>
      if |f.keys| < CAPACITY then f.(keys := f.keys + [key], accepted := f.accepted + [key]) else f
    case Peek => f.(answers := f.answers + [Front(f.keys)])
    case Dequeue =>
      if f.keys == [] then f.(answers := f.answers + [None])
      else f.(keys := f.keys[1..], done := f.done + [(f.keys[0], true)], answers := f.answers + [Front(f.keys)])
    case Flush => f.(keys := [], done := f.done + Marked(f.keys, false))
  }

  function Steps(f: Fifo, ops: seq<KeyOp>): Fifo
    decreases |ops|
  {
    if ops == [] then f else Steps(Step(f, ops[0]), ops[1..])
  }

  // The keys accepted are those gone followed by those still there, in the order they came in.
  predicate InOrder(f: Fifo) {
    && |f.keys| <= CAPACITY && |f.accepted| == |f.done| + |f.keys|
    && (forall k :: 0 <= k < |f.done| ==> f.accepted[k] == f.done[k].0)
    && f.accepted[|f.done|..] == f.keys
  }

  lemma {:induction false} StepsInOrder(f: Fifo, ops: seq<KeyOp>)
    requires InOrder(f)
    ensures InOrder(Steps(f, ops))
    decreases |ops|
  {
    hide InOrder, Step;
    if ops != [] {
      StepInOrder(f, ops[0]);
      StepsInOrder(Step(f, ops[0]), ops[1..]);
    }
  }

  lemma StepInOrder(f: Fifo, op: KeyOp)
    requires InOrder(f)
    ensures InOrder(Step(f, op))
  {
  }

  // The data area gives the answers of the queue, whatever the interleaving.
  method Replay(ops: seq<KeyOp>) returns (area: DataArea, answers: seq<Option<Key>>)
    ensures area.Valid()
    ensures var f := Steps(Fifo([], [], [], []), ops);
            area.Keys() == f.keys && answers == f.answers && InOrder(f)
  {
    hide Good, Contents, Step;
    area := new DataArea();
    answers := [];
    ghost var f := Fifo([], [], [], []);
    var todo := ops;
    while todo != []
      invariant area.Valid() && fresh(area) && fresh(area.mem)
      invariant area.Keys() == f.keys && answers == f.answers
      invariant Steps(f, todo) == Steps(Fifo([], [], [], []), ops)
      decreases |todo|
    {
      answers := Perform(area, todo[0], answers, f);
      f := Step(f, todo[0]);
      todo := todo[1..];
    }
    StepsInOrder(Fifo([], [], [], []), ops);
  }

  method Perform(area: DataArea, op: KeyOp, answers: seq<Option<Key>>, ghost f: Fifo) returns (r: seq<Option<Key>>)
    requires area.Valid() && area.Keys() == f.keys && answers == f.answers
    modifies area.mem
    ensures area.Valid() && area.Keys() == Step(f, op).keys && r == Step(f, op).answers
  {
    hide Good, Contents;
    r := answers;
    match op
    case Enqueue(key) =>
      var _ := area.EnqueueKey(key.scan, key.ascii);
    case Peek =>
      var k := area.DequeueKey(false);
      r := r + [k];
    case Dequeue =>
      var k := area.DequeueKey(true);
      r := r + [k];
    case Flush =>
      area.Flush();
  }
}
