// bx_pc_system_c: the timer framework as the source has it, an object whose methods update the
// slot array and the machine-width clock fields in place. Every method is proved against the
// functions of Countdown.dfy, so all that is proved about those holds of this object; in
// particular no 32-bit or 64-bit operation below ever wraps.
module PcSystem {
  import opened Wrappers
  import opened Machine
  import opened TimerTable
  import Spec = Countdown

  lemma NoWrap(base: nat, elapsed: nat, delay: nat)
    requires elapsed < TWO32 && base + elapsed + delay < TWO64
    ensures U64(U64(base + U32(elapsed)) + delay) == base + elapsed + delay
  {
  }

  // The first and last of the due slots; an empty range when there are none.
  ghost predicate Bounds(due: seq<nat>, first: nat, last: nat) {
    if due == [] then last < first else first == due[0] && last == due[|due| - 1]
  }

  // The same for the slots below `i`, while the rest of the `n` slots is still to be looked at.
  ghost predicate Tracked(was: seq<Slot>, i: nat, now: nat, n: nat, first: nat, last: nat)
    requires i <= |was|
  {
    var due := Due(was, i, now);
    if due == [] then first == n && last == 0 else first == due[0] < i && last == due[|due| - 1]
  }

  // The slots when those below `i` have been serviced, and the marks made so far.
  ghost function Half(was: seq<Slot>, i: nat, now: nat): (r: seq<Slot>)
    requires i <= |was|
    ensures |r| == |was|
  {
    Rearm(was, now)[..i] + was[i..]
  }

  function Marks(was: seq<Slot>, i: nat, now: nat): (r: seq<bool>)
    requires i <= |was|
    ensures |r| == i && forall k :: 0 <= k < i ==> r[k] == IsDue(was[k], now)
  {
    seq(i, k requires 0 <= k < i => IsDue(was[k], now))
  }

  lemma Started(was: seq<Slot>, now: nat, n: nat)
    ensures Tracked(was, 0, now, n, n, 0) && Spec.MinFire(was, 0) == TWO64 - 1
    ensures Spec.MinFire(Rearm(was, now), 0) == TWO64 - 1
    ensures Half(was, 0, now) == was && Marks(was, 0, now) == []
  {
  }

  lemma Fits(was: seq<Slot>, i: nat, now: nat)
    requires i < |was| && Rearmable(was, now)
    ensures IsDue(was[i], now) && was[i].continuous ==> now + was[i].period < TWO64
  {
  }

  lemma Advance(was: seq<Slot>, i: nat, now: nat, n: nat, first: nat, last: nat)
    requires i < n <= |was| && Tracked(was, i, now, n, first, last)
    ensures var s := RearmSlot(was[i], now);
            && Rearm(was, now)[i] == s
            && Spec.MinFire(Rearm(was, now), i + 1)
               == (var m := Spec.MinFire(Rearm(was, now), i);
                   if s.active && s.timeToFire < m then s.timeToFire else m)
            && (if IsDue(was[i], now) then Tracked(was, i + 1, now, n, if i < first then i else first, i)
                else Tracked(was, i + 1, now, n, first, last))
            && Half(was, i, now)[i] == was[i]
            && Half(was, i + 1, now) == Half(was, i, now)[i := s]
            && Marks(was, i + 1, now) == Marks(was, i, now) + [IsDue(was[i], now)]
  {
  }

  lemma Tracks(was: seq<Slot>, n: nat, now: nat, first: nat, last: nat)
    requires 1 <= n <= |was| && Tracked(was, n, now, n, first, last)
    ensures Bounds(Due(was, n, now), first, last)
  {
  }

  lemma Finished(was: seq<Slot>, n: nat, now: nat)
    requires n <= |was| && forall k :: n <= k < |was| ==> !was[k].active
    ensures Half(was, n, now) == Rearm(was, now)
  {
  }

  // What the event handler may rely on: slots past numTimers are inactive and nothing wraps.
  lemma EventFits(c: Spec.Clock)
    requires Spec.Sound(c) && Rearmable(c.table.slots, c.ticksTotal + c.period)
    ensures c.ticksTotal + c.period < TWO64
    ensures forall k :: c.table.numTimers <= k < MAX_TIMERS ==> !c.table.slots[k].active
    ensures 1 <= Spec.Settle(c).period < TWO32
  {
  }

  lemma EventSettles(c: Spec.Clock)
    requires Spec.Sound(c) && Rearmable(c.table.slots, c.ticksTotal + c.period)
    ensures var now, s := c.ticksTotal + c.period, Spec.Settle(c);
            && s.countdown == s.period && s.ticksTotal == now && s.trace == c.trace
            && s.table == Table(Rearm(c.table.slots, now), c.table.numTimers)
            && Spec.MinFire(s.table.slots, c.table.numTimers) == now + s.period
  {
  }

  // The slots that an event calls.
  function CalledSlots(c: Spec.Clock): (due: seq<nat>)
    requires WellFormed(c.table)
    ensures Ascending(due) && forall k :: 0 <= k < |due| ==> due[k] < MAX_TIMERS
  {
    var due := Due(c.table.slots, c.table.numTimers, c.ticksTotal + c.period);
    assert forall k :: 0 <= k < |due| ==> due[k] in due;
    due
  }

  lemma EventMarks(c: Spec.Clock)
    requires WellFormed(c.table)
    ensures var marks := Marks(c.table.slots, c.table.numTimers, c.ticksTotal + c.period);
            forall k :: k in CalledSlots(c) <==> 0 <= k < |marks| && marks[k]
  {
  }

  lemma EventCalls(c: Spec.Clock, script: Script)
    requires Spec.Sound(c) && c.countdown == 0 && Spec.CountdownEvent(c, script).Some?
    ensures Rearmable(c.table.slots, c.ticksTotal + c.period)
    ensures Spec.CountdownEvent(c, script) == Spec.CallAll(Spec.Settle(c), CalledSlots(c), script)
  {
    hide Spec.CallAll, Spec.Guarded, Rearmable, Spec.Settle;
  }

  // `rest` is what is left of `due` when the slots below `i` have been called.
  ghost predicate Remaining(due: seq<nat>, rest: seq<nat>, i: nat) {
    && |rest| <= |due| && rest == due[|due| - |rest|..]
    && (forall k :: 0 <= k < |due| - |rest| ==> due[k] < i)
    && (forall k :: 0 <= k < |rest| ==> i <= rest[k] < MAX_TIMERS)
  }

  lemma InRange(due: seq<nat>, first: nat, last: nat, n: nat)
    requires Ascending(due) && Bounds(due, first, last)
    requires (forall k :: k in due ==> k < n) && (forall k :: 0 <= k < |due| ==> due[k] < MAX_TIMERS)
    ensures Remaining(due, due, first) && (first <= last ==> last < n)
  {
    if due != [] {
      assert due[|due| - 1] in due;
    }
  }

  // The turn of slot `i`: it is called when it is due, and then it is the next one left.
  lemma NextCall(c: Spec.Clock, due: seq<nat>, rest: seq<nat>, i: nat, script: Script)
    requires Spec.Inv(c) && Ascending(due) && Remaining(due, rest, i)
    requires (forall k :: 0 <= k < |rest| ==> rest[k] < MAX_TIMERS) && Spec.CallAll(c, rest, script).Some?
    ensures i !in due ==> Remaining(due, rest, i + 1)
    ensures i in due ==> && i < MAX_TIMERS && Spec.CallSlot(c, i, script).Some?
                         && |rest| > 0 && Remaining(due, rest[1..], i + 1)
                         && Spec.CallAll(c, rest, script)
                            == Spec.CallAll(Spec.CallSlot(c, i, script).value, rest[1..], script)
    ensures i in due && c.table.slots[i].funct.None? ==> Spec.CallSlot(c, i, script) == Some(c)
  {
    hide Spec.Guarded, Spec.CallAll, Spec.PerformAll, Remaining, Ascending;
    NextLeft(due, rest, i);
    if i in due {
      CallUnfolds(c, rest, script);
    }
  }

  lemma NextLeft(due: seq<nat>, rest: seq<nat>, i: nat)
    requires Ascending(due) && Remaining(due, rest, i)
    ensures i !in due ==> Remaining(due, rest, i + 1)
    ensures i in due ==> i < MAX_TIMERS && |rest| > 0 && rest[0] == i && Remaining(due, rest[1..], i + 1)
    ensures forall k :: 0 <= k < |rest| ==> rest[k] < MAX_TIMERS
  {
  }

  lemma CallUnfolds(c: Spec.Clock, rest: seq<nat>, script: Script)
    requires Spec.Inv(c) && |rest| > 0 && (forall k :: 0 <= k < |rest| ==> rest[k] < MAX_TIMERS)
    requires Spec.CallAll(c, rest, script).Some?
    ensures Spec.CallSlot(c, rest[0], script).Some?
    ensures Spec.CallAll(c, rest, script)
            == Spec.CallAll(Spec.CallSlot(c, rest[0], script).value, rest[1..], script)
  {
  }

  lemma NoMoreCalls(c: Spec.Clock, due: seq<nat>, rest: seq<nat>, first: nat, last: nat, i: nat, script: Script)
    requires Spec.Inv(c) && Ascending(due) && Remaining(due, rest, i) && Bounds(due, first, last) && i > last
    ensures Spec.CallAll(c, rest, script) == Some(c)
  {
  }

  class System {
    const timer: array<Slot>
    const script: Script
    var numTimers: nat
    var triggeredTimer: nat
    var currCountdown: nat
    var currCountdownPeriod: nat
    var ticksTotal: nat
    var trace: Trace

    function View(): Spec.Clock
      reads this, timer
    {
      Spec.Clock(Table(timer[..], numTimers), currCountdown, currCountdownPeriod, ticksTotal, trace)
    }

    ghost predicate Valid()
      reads this, timer
    {
      Spec.Inv(View())
    }

    // Construction followed by `initialize`.
    constructor (script: Script)
      ensures fresh(timer) && this.script == script && View() == Spec.Initial() && Valid()
    {
      timer := new Slot[MAX_TIMERS](i =>
        if i == 0 then Slot(true, NULL_INTERVAL, NULL_INTERVAL, true, true, Some(NullTimer)) else Spec.FREE);
      this.script := script;
      numTimers, triggeredTimer := 1, 0;
      currCountdown, currCountdownPeriod, ticksTotal := NULL_INTERVAL, NULL_INTERVAL, 0;
      trace := [];
      new;
      assert View().table.slots == Spec.Initial().table.slots;
    }

    method TimeTicks() returns (t: nat)
      requires Valid() && Spec.Now(View()) < TWO64
      ensures t == Spec.Now(View())
    {
      t := U64(ticksTotal + U32(currCountdownPeriod - currCountdown));
    }

    // A new timer that fires before the current countdown ends skews the countdown.
    method SkewCountdown(ticks: nat)
      requires currCountdown <= currCountdownPeriod < TWO32
      modifies this`currCountdown, this`currCountdownPeriod
      ensures View() == Spec.Skew(old(View()), ticks)
    {
      if ticks < currCountdown {
        currCountdownPeriod := U32(currCountdownPeriod - (currCountdown - U32(ticks)));
        currCountdown := U32(ticks);
      }
    }

    // The fire time that a delay gives, in the source's 32-bit and 64-bit arithmetic.
    function FireTime(delay: nat): (t: nat)
      requires Spec.Sound(View()) && Spec.Now(View()) + delay < TWO64
      reads this, timer
      ensures t == Spec.Now(View()) + delay
    {
      PeriodIsNarrow();
      NoWrap(ticksTotal, currCountdownPeriod - currCountdown, delay);
      U64(U64(ticksTotal + U32(currCountdownPeriod - currCountdown)) + delay)
    }

    lemma PeriodIsNarrow()
      requires Spec.Sound(View())
      ensures currCountdown <= currCountdownPeriod < TWO32
    {
    }

    method FindFree() returns (i: nat)
      requires WellFormed(View().table)
      ensures i == FirstFree(View().table, 1)
    {
      i := 1;
      while i < numTimers && timer[i].inUse
        invariant 1 <= i <= numTimers
        invariant FirstFree(View().table, i) == FirstFree(View().table, 1)
      {
        i := i + 1;
      }
    }

    method Store(i: nat, s: Slot)
      requires i <= numTimers && i < timer.Length
      modifies this`numTimers, timer
      ensures timer[..] == old(timer[..])[i := s]
      ensures numTimers == if i == old(numTimers) then old(numTimers) + 1 else old(numTimers)
    {
      timer[i] := s;
      if i == numTimers {
        numTimers := numTimers + 1;
      }
    }

    // What registering a timer does, spelled out for the method below.
    static lemma Registered(c: Spec.Clock, ticks: nat, continuous: bool, active: bool, funct: Handler)
      requires Spec.Inv(c) && Legal(c.table, Spec.Now(c), Register(ticks, continuous, active, funct))
      ensures var op := Register(ticks, continuous, active, funct);
              var i, p, n := FirstFree(c.table, 1), AtLeastOne(ticks), c.table.numTimers;
              var s := Slot(true, p, Spec.Now(c) + p, active, continuous, Some(funct));
              && Spec.Now(c) + p < TWO64
              && (n >= MAX_TIMERS ==>
                    Spec.Perform(c, op) == Some(c.(trace := c.trace + [Called(op, -1)])))
              && (n < MAX_TIMERS ==>
                    var c1 := c.(table := Table(c.table.slots[i := s], if i == n then n + 1 else n),
                                 trace := c.trace + [Called(op, i)]);
                    Spec.Perform(c, op) == Some(if active then Spec.Skew(c1, p) else c1))
    {
    }

    method RegisterTimerTicks(funct: Handler, ticks: nat, continuous: bool, active: bool) returns (id: int)
      requires Valid() && Legal(View().table, Spec.Now(View()), Register(ticks, continuous, active, funct))
      modifies this, timer
      ensures Valid() && triggeredTimer == old(triggeredTimer)
      ensures Spec.Perform(old(View()), Register(ticks, continuous, active, funct)) == Some(View())
      ensures trace == old(trace) + [Called(Register(ticks, continuous, active, funct), id)]
    {
      hide Spec.Guarded, Spec.Perform, Apply, Legal, FireTime, U32, U64, FirstFree;
      var op := Register(ticks, continuous, active, funct);
      Registered(View(), ticks, continuous, active, funct);
      var delay := ticks;
      if delay < 1 { delay := 1; }
      PeriodIsNarrow();
      var i := FindFree();
      var t := FireTime(delay);
      if numTimers >= MAX_TIMERS {
        trace := trace + [Called(op, -1)];
        return -1;
      }
      Store(i, Slot(true, delay, t, active, continuous, Some(funct)));
      trace := trace + [Called(op, i)];
      if active {
        SkewCountdown(delay);
      }
      return i;
    }

    // What activating a timer does, spelled out for the method below.
    static lemma Activated(c: Spec.Clock, i: nat, ticks: nat, continuous: bool)
      requires Spec.Inv(c) && Legal(c.table, Spec.Now(c), Activate(i, ticks, continuous))
      ensures var op, p := Activate(i, ticks, continuous), AtLeastOne(ticks);
              var s := c.table.slots[i].(period := p, timeToFire := Spec.Now(c) + p, active := true,
                                         continuous := continuous);
              && Spec.Now(c) + p < TWO64
              && Spec.Perform(c, op)
                 == Some(Spec.Skew(c.(table := c.table.(slots := c.table.slots[i := s]),
                                      trace := c.trace + [Called(op, 0)]), p))
    {
    }

    method ActivateTimerTicks(i: nat, ticks: nat, continuous: bool)
      requires Valid() && Legal(View().table, Spec.Now(View()), Activate(i, ticks, continuous))
      modifies this, timer
      ensures Valid() && triggeredTimer == old(triggeredTimer)
      ensures Spec.Perform(old(View()), Activate(i, ticks, continuous)) == Some(View())
    {
      hide Spec.Guarded, Spec.Perform, FireTime, U32, U64;
      var op := Activate(i, ticks, continuous);
      Activated(View(), i, ticks, continuous);
      var delay := ticks;
      if delay < 1 { delay := 1; }
      PeriodIsNarrow();
      timer[i] := timer[i].(period := delay, timeToFire := FireTime(delay), active := true,
                            continuous := continuous);
      trace := trace + [Called(op, 0)];
      SkewCountdown(delay);
    }

    method DeactivateTimer(i: nat)
      requires Valid() && Legal(View().table, Spec.Now(View()), Deactivate(i))
      modifies this, timer
      ensures Valid() && triggeredTimer == old(triggeredTimer)
      ensures Spec.Perform(old(View()), Deactivate(i)) == Some(View())
    {
      ghost var c := View();
      timer[i] := timer[i].(active := false);
      trace := trace + [Called(Deactivate(i), 0)];
      assert View().table == Apply(c.table, Spec.Now(c), Deactivate(i)).table;
    }

    // The result is false, and nothing changes, while the timer is still active.
    method UnregisterTimer(i: nat) returns (ok: bool)
      requires Valid() && Legal(View().table, Spec.Now(View()), Unregister(i))
      modifies this, timer
      ensures Valid() && triggeredTimer == old(triggeredTimer)
      ensures Spec.Perform(old(View()), Unregister(i)) == Some(View())
      ensures ok == !old(timer[i].active)
    {
      ghost var c := View();
      if timer[i].active {
        trace := trace + [Called(Unregister(i), 0)];
        return false;
      }
      timer[i] := Slot(false, MAX_BIT64S, MAX_BIT64S, timer[i].active, false, None);
      if i == numTimers - 1 {
        numTimers := numTimers - 1;
      }
      trace := trace + [Called(Unregister(i), 1)];
      assert View().table == Apply(c.table, Spec.Now(c), Unregister(i)).table;
      return true;
    }

    method Execute(op: Op)
      requires Valid() && Legal(View().table, Spec.Now(View()), op)
      modifies this, timer
      ensures Valid() && triggeredTimer == old(triggeredTimer)
      ensures Spec.Perform(old(View()), op) == Some(View())
    {
      hide Spec.Guarded, Spec.Perform, Legal;
      match op
      case Register(ticks, continuous, active, funct) =>
        var _ := RegisterTimerTicks(funct, ticks, continuous, active);
      case Activate(i, ticks, continuous) => ActivateTimerTicks(i, ticks, continuous);
      case Deactivate(i) => DeactivateTimer(i);
      case Unregister(i) => var _ := UnregisterTimer(i);
    }

    // The callback of the triggered timer: it reads the clock and calls the timer interface.
    method Callback(h: Handler)
      requires Valid() && triggeredTimer < MAX_TIMERS && Spec.Now(View()) < TWO64
      requires timer[triggeredTimer].funct == Some(h) && Spec.CallSlot(View(), triggeredTimer, script).Some?
      modifies this, timer
      ensures Valid() && triggeredTimer == old(triggeredTimer)
      ensures Spec.CallSlot(old(View()), old(triggeredTimer), script) == Some(View())
    {
      hide Spec.Guarded, Spec.Perform;
      var now := TimeTicks();
      trace := trace + [Fired(now, triggeredTimer, h)];
      var ops := Behaviour(script, h, trace);
      while ops != []
        invariant Valid() && triggeredTimer == old(triggeredTimer)
        invariant Spec.PerformAll(View(), ops) == Spec.CallSlot(old(View()), triggeredTimer, script)
        decreases |ops|
      {
        LegalNext(ops);
        Execute(ops[0]);
        ops := ops[1..];
      }
    }

    lemma LegalNext(ops: seq<Op>)
      requires Valid() && ops != [] && Spec.PerformAll(View(), ops).Some?
      ensures Legal(View().table, Spec.Now(View()), ops[0])
    {
    }

    // One slot of the first loop of `countdownEvent`: a due timer is rearmed or put out, and the
    // earliest fire time so far is brought up to date.
    method Service(i: nat, min: nat) returns (due: bool, next: nat)
      requires i < timer.Length
      requires IsDue(timer[i], ticksTotal) && timer[i].continuous ==> ticksTotal + timer[i].period < TWO64
      modifies timer
      ensures due == IsDue(old(timer[i]), ticksTotal)
      ensures timer[..] == old(timer[..])[i := RearmSlot(old(timer[i]), ticksTotal)]
      ensures var s := RearmSlot(old(timer[i]), ticksTotal);
              next == if s.active && s.timeToFire < min then s.timeToFire else min
    {
      due, next := false, min;
      if timer[i].active {
        if ticksTotal == timer[i].timeToFire {
          due := true;
          if !timer[i].continuous {
            timer[i] := timer[i].(active := false);
          } else {
            timer[i] := timer[i].(timeToFire := U64(timer[i].timeToFire + timer[i].period));
            if timer[i].timeToFire < next {
              next := timer[i].timeToFire;
            }
          }
        } else if timer[i].timeToFire < next {
          next := timer[i].timeToFire;
        }
      }
    }

    // The first loop of `countdownEvent`: mark and rearm what is due, find the next fire time.
    method ServiceTimers() returns (triggered: seq<bool>, first: nat, last: nat, min: nat)
      requires timer.Length == MAX_TIMERS && 1 <= numTimers <= MAX_TIMERS && Rearmable(timer[..], ticksTotal)
      requires forall k :: numTimers <= k < MAX_TIMERS ==> !timer[k].active
      modifies timer
      ensures timer[..] == Rearm(old(timer[..]), ticksTotal)
      ensures min == Spec.MinFire(timer[..], numTimers)
      ensures triggered == Marks(old(timer[..]), numTimers, ticksTotal)
      ensures Bounds(Due(old(timer[..]), numTimers, ticksTotal), first, last)
    {
      hide RearmSlot, IsDue, Rearm, Rearmable, Due, Spec.MinFire, Half, Marks, Tracked, Bounds;
      ghost var was, rearmed := timer[..], Rearm(timer[..], ticksTotal);
      Finished(was, numTimers, ticksTotal);
      Started(was, ticksTotal, numTimers);
      triggered, first, last, min := [], numTimers, 0, TWO64 - 1;
      for i := 0 to numTimers
        invariant timer[..] == Half(was, i, ticksTotal)
        invariant triggered == Marks(was, i, ticksTotal)
        invariant min == Spec.MinFire(rearmed, i)
        invariant Tracked(was, i, ticksTotal, numTimers, first, last)
      {
        Advance(was, i, ticksTotal, numTimers, first, last);
        Fits(was, i, ticksTotal);
        assert timer[i] == timer[..][i] == was[i];
        var due;
        due, min := Service(i, min);
        triggered := triggered + [due];
        if due {
          if i < first { first := i; }
          last := i;
        }
      }
      assert Bounds(Due(was, numTimers, ticksTotal), first, last) by { Tracks(was, numTimers, ticksTotal, first, last); }
    }

    // The second loop of `countdownEvent`: call what was triggered, in ascending order. `due` is
    // the list of the triggered slots.
    method CallTriggered(triggered: seq<bool>, first: nat, last: nat, ghost due: seq<nat>)
      requires Valid() && Spec.Now(View()) < TWO64 && |triggered| <= MAX_TIMERS
      requires Ascending(due) && Bounds(due, first, last)
      requires forall k :: k in due <==> 0 <= k < |triggered| && triggered[k]
      requires (forall k :: 0 <= k < |due| ==> due[k] < MAX_TIMERS) && Spec.CallAll(View(), due, script).Some?
      modifies this, timer
      ensures Valid() && Spec.CallAll(old(View()), due, script) == Some(View())
    {
      hide Spec.Guarded, Spec.CallAll, Spec.CallSlot, Bounds, Ascending;
      ghost var rest := due;
      InRange(due, first, last, |triggered|);
      var i := first;
      while i <= last
        invariant Valid() && Spec.Now(View()) == Spec.Now(old(View()))
        invariant first <= i && Remaining(due, rest, i)
        invariant Spec.CallAll(View(), rest, script) == Spec.CallAll(old(View()), due, script)
      {
        NextCall(View(), due, rest, i, script);
        if triggered[i] {
          if timer[i].funct.Some? {
            triggeredTimer := i;
            Callback(timer[i].funct.value);
            triggeredTimer := 0;
          }
          rest := rest[1..];
        }
        i := i + 1;
      }
      NoMoreCalls(View(), due, rest, first, last, i, script);
    }

    method CountdownEvent()
      requires Spec.Sound(View()) && currCountdown == 0 && Spec.CountdownEvent(View(), script).Some?
      modifies this, timer
      ensures Valid() && Spec.CountdownEvent(old(View()), script) == Some(View())
    {
      hide Spec.Guarded, Spec.CountdownEvent, Spec.CallAll, Spec.Settle, Spec.MinFire, Rearmable, Rearm, Due, Marks;
      ghost var c := View();
      ghost var due := CalledSlots(c);
      EventMarks(c);
      EventCalls(c, script);
      EventFits(c);
      EventSettles(c);
      ticksTotal := U64(ticksTotal + currCountdownPeriod);
      var triggered, first, last, min := ServiceTimers();
      currCountdownPeriod := U32(min - ticksTotal);
      currCountdown := currCountdownPeriod;
      CallTriggered(triggered, first, last, due);
    }

    method Tick1()
      requires Valid() && Spec.Tick1(View(), script).Some?
      modifies this, timer
      ensures Valid() && Spec.Tick1(old(View()), script) == Some(View())
    {
      hide Spec.Guarded, Spec.CountdownEvent;
      PeriodIsNarrow();
      currCountdown := U32(currCountdown - 1);
      if currCountdown == 0 {
        CountdownEvent();
      }
    }

    method TickN(n: nat)
      requires Valid() && n < TWO32 && Spec.TickN(View(), n, script).Some?
      modifies this, timer
      ensures Valid() && Spec.TickN(old(View()), n, script) == Some(View())
    {
      hide Spec.Guarded, Spec.CountdownEvent;
      var m: nat := n;
      while m >= currCountdown
        invariant Valid() && Spec.TickN(View(), m, script) == Spec.TickN(old(View()), n, script)
        decreases m
      {
        m := m - currCountdown;
        currCountdown := 0;
        CountdownEvent();
      }
      currCountdown := currCountdown - m;
    }
  }
}
