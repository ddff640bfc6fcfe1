// The countdown scheduler of bochs/pc_system.cc and bochs/pc_system.h: 64-bit fire times
// driven by one 32-bit countdown, as functions on a value. PcSystem.dfy proves the
// imperative form against these.
module Countdown {
  import opened Wrappers
  import opened Machine
  import opened TimerTable

  datatype Clock = Clock(table: Table, countdown: nat, period: nat, ticksTotal: nat, trace: Trace)

  datatype Cmd = Tick(n: nat) | Call(op: Op)

  function Now(c: Clock): int {
    c.ticksTotal + (c.period - c.countdown)
  }

  // No slot past numTimers is taken, every active timer is due at `deadline` or later, and the null
  // timer is due at most one of its intervals after `base`.
  ghost predicate Guarded(t: Table, base: nat, deadline: nat)
    requires WellFormed(t)
  {
    && (forall i :: t.numTimers <= i < MAX_TIMERS ==> !t.slots[i].active && !t.slots[i].inUse)
    && (forall i :: 0 <= i < MAX_TIMERS && t.slots[i].active ==>
          t.slots[i].period >= 1 && deadline <= t.slots[i].timeToFire < TWO64)
    && t.slots[0].active && t.slots[0].continuous && t.slots[0].inUse
    && t.slots[0].period == NULL_INTERVAL && t.slots[0].funct == Some(NullTimer)
    && t.slots[0].timeToFire <= base + NULL_INTERVAL
  }

  // What holds whenever an event is being handled ...
  ghost predicate Sound(c: Clock) {
    && WellFormed(c.table) && Guarded(c.table, c.ticksTotal, c.ticksTotal + c.period)
    && c.countdown <= c.period && 1 <= c.period
  }

  // ... and, between ticks and in every callback, with the countdown still running.
  ghost predicate Inv(c: Clock) {
    Sound(c) && 1 <= c.countdown
  }

  const FREE := Slot(false, 0, 0, false, false, None)

  // The state after construction and `initialize`.
  function Initial(): (c: Clock)
    ensures Inv(c) && Now(c) == 0
  {
    Clock(Table([Slot(true, NULL_INTERVAL, NULL_INTERVAL, true, true, Some(NullTimer))]
                + seq(MAX_TIMERS - 1, _ => FREE), 1),
          NULL_INTERVAL, NULL_INTERVAL, 0, [])
  }

  // A timer due before the countdown ends shortens the countdown and its period alike.
  function Skew(c: Clock, delay: nat): Clock
    requires c.countdown <= c.period
  {
    if delay < c.countdown then c.(period := c.period - (c.countdown - delay), countdown := delay) else c
  }

  // One call of the timer interface; None when it breaks the caller's obligations.
  function Perform(c: Clock, op: Op): (r: Option<Clock>)
    requires Inv(c)
    ensures r.Some? ==> Inv(r.value) && Now(r.value) == Now(c)
  {
    if !Legal(c.table, Now(c), op) then None
    else
      var Applied(table, result) := Apply(c.table, Now(c), op);
      var c1 := c.(table := table, trace := c.trace + [Called(op, result)]);
      match Starts(op, result)
      case None => Some(c1)
      case Some(delay) => Some(Skew(c1, delay))
  }

  function PerformAll(c: Clock, ops: seq<Op>): (r: Option<Clock>)
    requires Inv(c)
    ensures r.Some? ==> Inv(r.value) && Now(r.value) == Now(c)
    decreases |ops|
  {
    if ops == [] then Some(c)
    else
      var c1 :- Perform(c, ops[0]);
      PerformAll(c1, ops[1..])
  }

  // Enter the callback of slot `i`, if it has one.
  function CallSlot(c: Clock, i: nat, script: Script): (r: Option<Clock>)
    requires Inv(c) && i < MAX_TIMERS
    ensures r.Some? ==> Inv(r.value) && Now(r.value) == Now(c)
  {
    match c.table.slots[i].funct
    case None => Some(c)
    case Some(h) =>
      var c1 := c.(trace := c.trace + [Fired(Now(c), i, h)]);
      PerformAll(c1, Behaviour(script, h, c1.trace))
  }

  function CallAll(c: Clock, due: seq<nat>, script: Script): (r: Option<Clock>)
    requires Inv(c) && forall k :: 0 <= k < |due| ==> due[k] < MAX_TIMERS
    ensures r.Some? ==> Inv(r.value) && Now(r.value) == Now(c)
    decreases |due|
  {
    if due == [] then Some(c)
    else
      var c1 :- CallSlot(c, due[0], script);
      CallAll(c1, due[1..], script)
  }

  // The earliest fire time among the active slots below `n`.
  function MinFire(slots: seq<Slot>, n: nat): (r: nat)
    requires n <= |slots|
    ensures forall k :: 0 <= k < n && slots[k].active ==> r <= slots[k].timeToFire
    ensures r == TWO64 - 1 || exists k :: 0 <= k < n && slots[k].active && r == slots[k].timeToFire
  {
    if n == 0 then TWO64 - 1
    else
      var m := MinFire(slots, n - 1);
      if slots[n - 1].active && slots[n - 1].timeToFire < m then slots[n - 1].timeToFire else m
  }

  // The clock settled at the end of the countdown period and set for the next one.
  function Settle(c: Clock): (r: Clock)
    requires Sound(c) && Rearmable(c.table.slots, c.ticksTotal + c.period)
    ensures Inv(r) && Now(r) == c.ticksTotal + c.period
    ensures r.trace == c.trace && r.table.slots == Rearm(c.table.slots, c.ticksTotal + c.period)
  {
    var now := c.ticksTotal + c.period;
    var slots := Rearm(c.table.slots, now);
    assert slots[0].active;
    var next := MinFire(slots, c.table.numTimers);
    assert now < next <= slots[0].timeToFire;
    Clock(Table(slots, c.table.numTimers), next - now, next - now, now, c.trace)
  }

  // What happens when the countdown has reached zero.
  function CountdownEvent(c: Clock, script: Script): (r: Option<Clock>)
    requires Sound(c) && c.countdown == 0
    ensures r.Some? ==> Inv(r.value) && Now(r.value) == c.ticksTotal + c.period
  {
    var now := c.ticksTotal + c.period;
    if !Rearmable(c.table.slots, now) then None
    else
      var due := Due(c.table.slots, c.table.numTimers, now);
      assert forall k :: 0 <= k < |due| ==> due[k] in due;
      CallAll(Settle(c), due, script)
  }

  function Tick1(c: Clock, script: Script): (r: Option<Clock>)
    requires Inv(c)
    ensures r.Some? ==> Inv(r.value) && Now(r.value) == Now(c) + 1
  {
    var c1 := c.(countdown := c.countdown - 1);
    if c1.countdown == 0 then CountdownEvent(c1, script) else Some(c1)
  }

  function TickN(c: Clock, n: nat, script: Script): (r: Option<Clock>)
    requires Inv(c)
    ensures r.Some? ==> Inv(r.value) && Now(r.value) == Now(c) + n
    decreases n
  {
    if n < c.countdown then Some(c.(countdown := c.countdown - n))
    else
      var c1 :- CountdownEvent(c.(countdown := 0), script);
      TickN(c1, n - c.countdown, script)
  }

  // A whole run of the machine: ticks handed over by the processors, calls made by the devices.
  function Run(c: Clock, cmds: seq<Cmd>, script: Script): (r: Option<Clock>)
    requires Inv(c)
    ensures r.Some? ==> Inv(r.value) && Now(r.value) == Now(c) + Elapsed(cmds)
    decreases |cmds|
  {
    if cmds == [] then Some(c)
    else
      var c1 :- match cmds[0] case Tick(n) => TickN(c, n, script) case Call(op) => Perform(c, op);
      Run(c1, cmds[1..], script)
  }

  function Elapsed(cmds: seq<Cmd>): nat {
    if cmds == [] then 0
    else (match cmds[0] case Tick(n) => n case Call(_) => 0) + Elapsed(cmds[1..])
  }

  // In every reachable state the countdown and its period are positive 32-bit numbers, and no active
  // timer is due before the period ends.
  lemma ReachableInRange(cmds: seq<Cmd>, script: Script, c: Clock)
    requires Run(Initial(), cmds, script) == Some(c)
    ensures 1 <= c.countdown <= c.period <= TWO32 - 1 && Now(c) == Elapsed(cmds)
    ensures forall i :: 0 <= i < |c.table.slots| && c.table.slots[i].active ==>
              c.ticksTotal + c.period <= c.table.slots[i].timeToFire
  {
  }

  // `n` calls of Tick1.
  function Ticks(c: Clock, n: nat, script: Script): (r: Option<Clock>)
    requires Inv(c)
    ensures r.Some? ==> Inv(r.value) && Now(r.value) == Now(c) + n
    decreases n
  {
    if n == 0 then Some(c)
    else
      var c1 :- Tick1(c, script);
      Ticks(c1, n - 1, script)
  }

  lemma {:induction false} TicksBeforeEvent(c: Clock, k: nat, n: nat, script: Script)
    requires Inv(c) && k <= n && k < c.countdown
    ensures Ticks(c, n, script) == Ticks(c.(countdown := c.countdown - k), n - k, script)
    decreases k
  {
    hide Guarded, CountdownEvent;
    if k > 0 {
      TicksBeforeEvent(c.(countdown := c.countdown - 1), k - 1, n - 1, script);
    }
  }

  lemma TicksAtEvent(c: Clock, n: nat, script: Script)
    requires Inv(c) && c.countdown == 1 && n >= 1
    ensures Ticks(c, n, script) == match CountdownEvent(c.(countdown := 0), script)
                                   case None => None
                                   case Some(c1) => Ticks(c1, n - 1, script)
  {
  }

  // TickN is the same as n single ticks: same final state, same trace, same failures.
  lemma {:induction false} TickNIsTicks(c: Clock, n: nat, script: Script)
    requires Inv(c)
    ensures TickN(c, n, script) == Ticks(c, n, script)
    decreases n
  {
    hide Guarded, CountdownEvent, Tick1;
    if n < c.countdown {
      TicksBeforeEvent(c, n, n, script);
    } else {
      var c0 := c.(countdown := 1);
      TicksBeforeEvent(c, c.countdown - 1, n, script);
      TicksAtEvent(c0, n - c.countdown + 1, script);
      assert c0.(countdown := 0) == c.(countdown := 0);
      match CountdownEvent(c.(countdown := 0), script)
      case None =>
      case Some(c1) => TickNIsTicks(c1, n - c.countdown, script);
    }
  }

  // ---- Traces only grow ----

  lemma {:induction false} PerformAllGrows(c: Clock, ops: seq<Op>)
    requires Inv(c) && PerformAll(c, ops).Some?
    ensures c.trace <= PerformAll(c, ops).value.trace
    decreases |ops|
  {
    hide Guarded, Apply;
    if ops != [] {
      PerformAllGrows(Perform(c, ops[0]).value, ops[1..]);
    }
  }

  lemma CallSlotGrows(c: Clock, i: nat, script: Script)
    requires Inv(c) && i < MAX_TIMERS && CallSlot(c, i, script).Some?
    ensures c.trace <= CallSlot(c, i, script).value.trace
    ensures c.table.slots[i].funct.Some? ==> HasFired(CallSlot(c, i, script).value.trace, Now(c), i)
  {
    match c.table.slots[i].funct
    case None =>
    case Some(h) =>
      var c1 := c.(trace := c.trace + [Fired(Now(c), i, h)]);
      PerformAllGrows(c1, Behaviour(script, h, c1.trace));
      assert CallSlot(c, i, script).value.trace[|c.trace|] == Fired(Now(c), i, h);
  }

  lemma {:induction false} CallAllGrows(c: Clock, due: seq<nat>, script: Script)
    requires Inv(c) && (forall k :: 0 <= k < |due| ==> due[k] < MAX_TIMERS)
    requires CallAll(c, due, script).Some?
    ensures c.trace <= CallAll(c, due, script).value.trace
    decreases |due|
  {
    hide Guarded;
    if due != [] {
      CallSlotGrows(c, due[0], script);
      CallAllGrows(CallSlot(c, due[0], script).value, due[1..], script);
    }
  }

  lemma EventGrows(c: Clock, script: Script)
    requires Sound(c) && c.countdown == 0 && CountdownEvent(c, script).Some?
    ensures c.trace <= CountdownEvent(c, script).value.trace
  {
    hide Guarded, CallAll;
    var due := Due(c.table.slots, c.table.numTimers, c.ticksTotal + c.period);
    assert forall k :: 0 <= k < |due| ==> due[k] in due;
    CallAllGrows(Settle(c), due, script);
  }

  lemma {:induction false} TickNGrows(c: Clock, n: nat, script: Script)
    requires Inv(c) && TickN(c, n, script).Some?
    ensures c.trace <= TickN(c, n, script).value.trace
    decreases n
  {
    hide Guarded, CountdownEvent;
    if n >= c.countdown {
      EventGrows(c.(countdown := 0), script);
      TickNGrows(CountdownEvent(c.(countdown := 0), script).value, n - c.countdown, script);
    }
  }

  lemma {:induction false} RunGrows(c: Clock, cmds: seq<Cmd>, script: Script)
    requires Inv(c) && Run(c, cmds, script).Some?
    ensures c.trace <= Run(c, cmds, script).value.trace
    decreases |cmds|
  {
    hide Guarded, Apply, TickN;
    if cmds != [] {
      match cmds[0]
      case Tick(n) =>
        TickNGrows(c, n, script);
        RunGrows(TickN(c, n, script).value, cmds[1..], script);
      case Call(op) =>
        RunGrows(Perform(c, op).value, cmds[1..], script);
    }
  }
}
