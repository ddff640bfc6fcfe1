// The slot table of the emulator's timer framework (bochs/pc_system.cc), the operations of
// its public interface, and the trace of everything that happens to it.
module TimerTable {
  import opened Wrappers
  import opened Machine

  const MAX_TIMERS := 64
  const NULL_INTERVAL := 0xffff_ffff
  const MAX_BIT64S := 0x7fff_ffff_ffff_ffff

  // A callback is named; what it does is given by a Script.
  datatype Handler = NullTimer | Device(id: nat)

  datatype Slot = Slot(inUse: bool, period: nat, timeToFire: nat, active: bool,
                       continuous: bool, funct: Option<Handler>)

  datatype Table = Table(slots: seq<Slot>, numTimers: nat)

  datatype Op =
    | Register(ticks: nat, continuous: bool, active: bool, funct: Handler)
    | Activate(i: nat, ticks: nat, continuous: bool)
    | Deactivate(i: nat)
    | Unregister(i: nat)

  // Fired: the callback in `slot` was entered and read `time` from the clock.
  // Called: an operation was performed and returned `result`.
  datatype Event =
    | Fired(time: nat, slot: nat, handler: Handler)
    | Called(op: Op, result: int)

  type Trace = seq<Event>

  // What the callback with a given id does may depend on everything that has happened so far.
  type Script = (nat, Trace) -> seq<Op>

  function Behaviour(script: Script, h: Handler, trace: Trace): seq<Op> {
    match h
    case NullTimer => []
    case Device(id) => script(id, trace)
  }

  predicate WellFormed(t: Table) {
    |t.slots| == MAX_TIMERS && 1 <= t.numTimers <= MAX_TIMERS
  }

  // The period an operation asks for, raised to the minimum of one tick.
  function AtLeastOne(ticks: nat): (r: nat)
    ensures r >= 1 && r >= ticks
  {
    if ticks < 1 then 1 else ticks
  }

  // What the source demands of a caller: the null timer is left alone, indices are allocated,
  // and a fire time fits in 64 bits.
  predicate Legal(t: Table, now: nat, op: Op)
    requires WellFormed(t)
  {
    match op
    case Register(ticks, _, _, _) => now + AtLeastOne(ticks) < TWO64
    case Activate(i, ticks, _) => 1 <= i < t.numTimers && now + AtLeastOne(ticks) < TWO64
    case Deactivate(i) => 1 <= i < t.numTimers
    case Unregister(i) => 1 <= i < t.numTimers && t.slots[i].inUse
  }

  // The lowest free slot from `i` on, or numTimers when all of them are taken.
  function FirstFree(t: Table, i: nat): (r: nat)
    requires WellFormed(t) && 1 <= i <= t.numTimers
    ensures i <= r <= t.numTimers
    ensures r < t.numTimers ==> !t.slots[r].inUse
    ensures forall k :: i <= k < r ==> t.slots[k].inUse
    decreases t.numTimers - i
  {
    if i == t.numTimers || !t.slots[i].inUse then i else FirstFree(t, i + 1)
  }

  datatype Applied = Applied(table: Table, result: int)

  // The table part of an operation at time `now`, with the operation's return value.
  function Apply(t: Table, now: nat, op: Op): (r: Applied)
    requires WellFormed(t) && Legal(t, now, op)
    ensures WellFormed(r.table)
  {
    match op
    case Register(ticks, continuous, active, funct) =>
      if t.numTimers >= MAX_TIMERS then Applied(t, -1)
      else
        var i := FirstFree(t, 1);
        var p := AtLeastOne(ticks);
        Applied(Table(t.slots[i := Slot(true, p, now + p, active, continuous, Some(funct))],
               if i == t.numTimers then t.numTimers + 1 else t.numTimers), i)
    case Activate(i, ticks, continuous) =>
      var p := AtLeastOne(ticks);
      Applied(t.(slots := t.slots[i := t.slots[i].(period := p, timeToFire := now + p, active := true,
                                             continuous := continuous)]), 0)
    case Deactivate(i) =>
      Applied(t.(slots := t.slots[i := t.slots[i].(active := false)]), 0)
    case Unregister(i) =>
      if t.slots[i].active then Applied(t, 0)
      else
        Applied(Table(t.slots[i := Slot(false, MAX_BIT64S, MAX_BIT64S, false, false, None)],
               if i == t.numTimers - 1 then t.numTimers - 1 else t.numTimers), 1)
  }

  // Registering fails exactly when numTimers is at its maximum, free slots or not; otherwise it takes
  // the lowest free slot.
  lemma RegisterResult(t: Table, now: nat, op: Op)
    requires WellFormed(t) && Legal(t, now, op) && op.Register?
    ensures var Applied(table, i) := Apply(t, now, op);
            && (i == -1 <==> t.numTimers == MAX_TIMERS)
            && (i == -1 ==> table == t)
            && (i != -1 ==> && 1 <= i <= t.numTimers && (forall k :: 1 <= k < i ==> t.slots[k].inUse)
                            && (i < t.numTimers ==> !t.slots[i].inUse) && i < table.numTimers
                            && forall k :: 0 <= k < MAX_TIMERS && k != i ==> table.slots[k] == t.slots[k])
  {
  }

  // Unregistering fails exactly while the timer is active, and then changes nothing; otherwise that slot
  // and no other is free, and if it was the last one there is room for one more.
  lemma UnregisterResult(t: Table, now: nat, i: nat)
    requires WellFormed(t) && Legal(t, now, Unregister(i))
    ensures var Applied(table, ok) := Apply(t, now, Unregister(i));
            && (ok == 0 <==> t.slots[i].active) && (ok == 0 ==> table == t)
            && (ok != 0 ==> && ok == 1
                            && table.slots[i] == Slot(false, 0x7fff_ffff_ffff_ffff, 0x7fff_ffff_ffff_ffff, false, false, None)
                            && (forall k :: 0 <= k < MAX_TIMERS && k != i ==> table.slots[k] == t.slots[k])
                            && table.numTimers == (if i == t.numTimers - 1 then t.numTimers - 1 else t.numTimers))
  {
  }

  // So a registration right after unregistering the last slot always succeeds.
  lemma RoomAgain(t: Table, now: nat, i: nat, op: Op)
    requires WellFormed(t) && Legal(t, now, Unregister(i)) && i == t.numTimers - 1 && !t.slots[i].active
    requires op.Register? && Legal(t, now, op)
    ensures var table := Apply(t, now, Unregister(i)).table;
            Legal(table, now, op) && 1 <= Apply(table, now, op).result <= i
  {
  }

  // The delay after which an operation's timer is due, when it starts one.
  function Starts(op: Op, result: int): Option<nat> {
    match op
    case Register(ticks, _, active, _) => if active && result >= 0 then Some(AtLeastOne(ticks)) else None
    case Activate(_, ticks, _) => Some(AtLeastOne(ticks))
    case _ => None
  }

  predicate IsDue(s: Slot, now: nat) {
    s.active && s.timeToFire == now
  }

  predicate Ascending(s: seq<nat>) {
    forall j, k :: 0 <= j < k < |s| ==> s[j] < s[k]
  }

  // The slots below `n` that are due at `now`, in ascending order.
  function Due(slots: seq<Slot>, n: nat, now: nat): (r: seq<nat>)
    requires n <= |slots|
    ensures forall k :: k in r <==> 0 <= k < n && IsDue(slots[k], now)
    ensures Ascending(r)
  {
    if n == 0 then []
    else
      var rest := Due(slots, n - 1, now);
      assert forall j :: 0 <= j < |rest| ==> rest[j] in rest;
      if IsDue(slots[n - 1], now) then rest + [n - 1] else rest
  }

  // A due one-shot timer goes inactive, a due continuous one moves on by its period.
  function RearmSlot(s: Slot, now: nat): Slot {
    if !IsDue(s, now) then s
    else if s.continuous then s.(timeToFire := s.timeToFire + s.period)
    else s.(active := false)
  }

  function Rearm(slots: seq<Slot>, now: nat): (r: seq<Slot>)
    ensures |r| == |slots| && forall k :: 0 <= k < |r| ==> r[k] == RearmSlot(slots[k], now)
  {
    seq(|slots|, k requires 0 <= k < |slots| => RearmSlot(slots[k], now))
  }

  // Moving the due timers on stays within 64 bits.
  predicate Rearmable(slots: seq<Slot>, now: nat) {
    forall k :: 0 <= k < |slots| && IsDue(slots[k], now) && slots[k].continuous ==>
      now + slots[k].period < TWO64
  }

  // Whether the trace says that the timer in slot `i` was called at time `t`.
  predicate HasFired(trace: Trace, t: nat, i: nat) {
    exists k :: 0 <= k < |trace| && trace[k].Fired? && trace[k].time == t && trace[k].slot == i
  }

  // The calls of slot `i` in a trace: when, and of which handler.
  datatype Firing = Firing(time: nat, handler: Handler)

  function Firings(trace: Trace, i: nat): seq<Firing> {
    if trace == [] then []
    else
      var e := trace[|trace| - 1];
      Firings(trace[..|trace| - 1], i) + (if e.Fired? && e.slot == i then [Firing(e.time, e.handler)] else [])
  }
}
