// Runs that show what the timer framework does in corner cases.
module TimerExamples {
  import opened Wrappers
  import opened Machine
  import opened TimerTable
  import opened Countdown

  // ---- A run in which a slot is taken over ----

  // Two one-shot timers are due at time 1. The callback of the first unregisters the second and
  // registers a third one, due 100 ticks later; it gets the freed slot and is called at once.
  function TakeOver(id: nat, trace: Trace): seq<Op> {
    if id == 1 then [Unregister(2), Register(100, false, true, Device(3))] else []
  }

  function Pair(): seq<Cmd> {
    [Call(Register(1, false, true, Device(1))), Call(Register(1, false, true, Device(2)))]
  }

  lemma PerformTwo(c: Clock, a: Op, b: Op, script: Script)
    requires Inv(c) && Perform(c, a).Some?
    ensures PerformAll(c, [a, b]) == Perform(Perform(c, a).value, b)
    ensures Run(c, [Call(a), Call(b)], script) == Perform(Perform(c, a).value, b)
  {
    hide Guarded, Apply, Legal, Perform;
    var c1 := Perform(c, a).value;
    assert [a, b][1..] == [b] && [Call(a), Call(b)][1..] == [Call(b)];
    if Perform(c1, b).Some? {
      assert PerformAll(c1, [b]) == Perform(c1, b);
      assert Run(c1, [Call(b)], script) == Perform(c1, b);
    }
  }

  // The state in which the two timers have just been registered.
  lemma PairRegistered(script: Script) returns (c: Clock)
    ensures Run(Initial(), Pair(), script) == Some(c) && Inv(c)
    ensures c.countdown == 1 && c.ticksTotal + c.period == 1
    ensures c.table.numTimers == 3 && Due(c.table.slots, 3, 1) == [1, 2]
    ensures c.table.slots[1] == Slot(true, 1, 1, true, false, Some(Device(1)))
    ensures c.table.slots[2] == Slot(true, 1, 1, true, false, Some(Device(2)))
  {
    hide Run, PerformAll;
    var c1 := Perform(Initial(), Pair()[0].op).value;
    assert c1.table.slots[1] == Slot(true, 1, 1, true, false, Some(Device(1)));
    c := Perform(c1, Pair()[1].op).value;
    PerformTwo(Initial(), Pair()[0].op, Pair()[1].op, script);
    PairDue(c.table.slots);
  }

  lemma PairDue(slots: seq<Slot>)
    requires |slots| >= 3 && !IsDue(slots[0], 1) && IsDue(slots[1], 1) && IsDue(slots[2], 1)
    ensures Due(slots, 3, 1) == [1, 2]
  {
    assert Due(slots, 1, 1) == [];
    assert Due(slots, 2, 1) == [1];
  }

  // The first callback's two operations put the third timer into slot 2.
  lemma SlotTaken(c: Clock) returns (r: Clock)
    requires Inv(c) && Now(c) == 1 && c.table.numTimers == 3
    requires c.table.slots[1].inUse && c.table.slots[2].inUse && !c.table.slots[2].active
    ensures PerformAll(c, TakeOver(1, c.trace)) == Some(r) && Inv(r) && Now(r) == 1
    ensures r.table.slots[2].funct == Some(Device(3)) && r.table.slots[2].timeToFire == 101
  {
    hide Guarded, PerformAll, Run;
    var ops := TakeOver(1, c.trace);
    var c1 := Perform(c, ops[0]).value;
    assert c1.table.numTimers == 2 && FirstFree(c1.table, 1) == 2;
    r := Perform(c1, ops[1]).value;
    PerformTwo(c, ops[0], ops[1], TakeOver);
    assert ops == [ops[0], ops[1]];
  }

  lemma CallTwo(c: Clock, i: nat, j: nat, script: Script)
    requires Inv(c) && i < MAX_TIMERS && j < MAX_TIMERS && CallSlot(c, i, script).Some?
    ensures CallAll(c, [i, j], script) == CallSlot(CallSlot(c, i, script).value, j, script)
  {
    hide Guarded, CallSlot;
    var c1 := CallSlot(c, i, script).value;
    assert [i, j][1..] == [j];
    if CallSlot(c1, j, script).Some? {
      assert CallAll(c1, [j], script) == CallSlot(c1, j, script);
    }
  }

  lemma PairSettled(c: Clock, script: Script) returns (s: Clock)
    requires Inv(c) && c.countdown == 1 && c.ticksTotal + c.period == 1
    requires c.table.numTimers == 3 && Due(c.table.slots, 3, 1) == [1, 2]
    requires c.table.slots[1] == Slot(true, 1, 1, true, false, Some(Device(1)))
    requires c.table.slots[2] == Slot(true, 1, 1, true, false, Some(Device(2)))
    ensures Inv(s) && Now(s) == 1 && s.table.numTimers == 3 && s.trace == c.trace
    ensures s.table.slots[1] == c.table.slots[1].(active := false)
    ensures s.table.slots[2] == c.table.slots[2].(active := false)
    ensures Tick1(c, script) == CallAll(s, [1, 2], script)
  {
    hide CallAll, Due, MinFire;
    s := Settle(c.(countdown := 0));
  }

  // The third timer, due at time 101, is called at time 1.
  lemma TakenOverSlotFiresEarly() returns (c: Clock, r: Clock)
    ensures Run(Initial(), Pair(), TakeOver) == Some(c) && Inv(c) && Tick1(c, TakeOver) == Some(r)
    ensures WellFormed(r.table) && r.table.slots[2].timeToFire == 101 && Fired(1, 2, Device(3)) in r.trace
  {
    hide Guarded, Run, CallAll, Apply, Legal, Tick1, Settle, Due;
    c := PairRegistered(TakeOver);
    var s := PairSettled(c, TakeOver);
    var s1 := s.(trace := s.trace + [Fired(1, 1, Device(1))]);
    var s2 := SlotTaken(s1);
    assert CallSlot(s, 1, TakeOver) == Some(s2);
    r := s2.(trace := s2.trace + [Fired(1, 2, Device(3))]);
    assert CallSlot(s2, 2, TakeOver) == Some(r);
    CallTwo(s, 1, 2, TakeOver);
    assert r.trace[|s2.trace|] == Fired(1, 2, Device(3));
  }

  // ---- A run in which a due timer is deactivated ----

  // The same two timers, but the callback of the first deactivates the second.
  function PutOut(id: nat, trace: Trace): seq<Op> {
    if id == 1 then [Deactivate(2)] else []
  }

  lemma PerformOne(c: Clock, op: Op)
    requires Inv(c)
    ensures PerformAll(c, [op]) == Perform(c, op)
  {
    hide Guarded, Apply, Legal, Perform;
    assert [op][1..] == [];
  }

  // The second timer is called in that tick all the same, after it has been deactivated.
  lemma DeactivatedTimerFires() returns (c: Clock, r: Clock, k: nat)
    ensures Run(Initial(), Pair(), PutOut) == Some(c) && Inv(c) && Tick1(c, PutOut) == Some(r)
    ensures |c.trace| <= k < |r.trace| - 1 && r.trace[k] == Called(Deactivate(2), 0)
    ensures r.trace[k + 1] == Fired(1, 2, Device(2))
  {
    hide Guarded, Run, CallAll, PerformAll, Tick1, Settle, Due;
    c := PairRegistered(PutOut);
    var s := PairSettled(c, PutOut);
    var s1 := s.(trace := s.trace + [Fired(1, 1, Device(1))]);
    var s2 := Perform(s1, Deactivate(2)).value;
    PerformOne(s1, Deactivate(2));
    assert CallSlot(s, 1, PutOut) == Some(s2);
    r := s2.(trace := s2.trace + [Fired(1, 2, Device(2))]);
    assert PerformAll(r, []) == Some(r) by { NoOps(r); }
    assert CallSlot(s2, 2, PutOut) == Some(r);
    CallTwo(s, 1, 2, PutOut);
    k := |s1.trace|;
  }

  lemma NoOps(c: Clock)
    requires Inv(c)
    ensures PerformAll(c, []) == Some(c)
  {
  }

  // ---- A run that ends with a free slot and no room ----

  const ANY := Register(1, false, false, Device(0))

  // Register `k` timers and give the first one back.
  function FillUp(k: nat): seq<Cmd> {
    if k == 0 then [Call(Unregister(1))] else [Call(ANY)] + FillUp(k - 1)
  }

  // All the slots below numTimers but the null timer's are taken by timers that are not active.
  ghost predicate Crowded(c: Clock) {
    Inv(c) && Now(c) == 0 && forall i :: 1 <= i < c.table.numTimers ==> c.table.slots[i].inUse && !c.table.slots[i].active
  }

  lemma RegisterCrowds(c: Clock)
    requires Crowded(c) && c.table.numTimers < MAX_TIMERS
    ensures Perform(c, ANY).Some? && Crowded(Perform(c, ANY).value)
    ensures Perform(c, ANY).value.table.numTimers == c.table.numTimers + 1
  {
    hide Guarded;
    assert FirstFree(c.table, 1) == c.table.numTimers;
  }

  lemma UnregisterFirst(c: Clock)
    requires Crowded(c) && c.table.numTimers == MAX_TIMERS
    ensures Perform(c, Unregister(1)).Some?
    ensures var r := Perform(c, Unregister(1)).value; r.table.numTimers == MAX_TIMERS && !r.table.slots[1].inUse
  {
    hide Guarded;
  }

  lemma {:induction false} FillsUp(c: Clock, k: nat, script: Script) returns (r: Clock)
    requires Crowded(c) && c.table.numTimers + k == MAX_TIMERS
    ensures Run(c, FillUp(k), script) == Some(r)
    ensures WellFormed(r.table) && r.table.numTimers == MAX_TIMERS && !r.table.slots[1].inUse
    decreases k
  {
    hide Perform, Guarded;
    if k == 0 {
      UnregisterFirst(c);
      r := Perform(c, Unregister(1)).value;
      assert [Call(Unregister(1))][1..] == [];
      assert Run(r, [], script) == Some(r);
    } else {
      RegisterCrowds(c);
      assert FillUp(k)[1..] == FillUp(k - 1);
      r := FillsUp(Perform(c, ANY).value, k - 1, script);
    }
  }

  // After 63 registrations and one unregistration slot 1 is free, and registering fails.
  lemma FreeSlotNotFound(script: Script, op: Op) returns (c: Clock)
    requires op.Register? && AtLeastOne(op.ticks) < TWO64
    ensures Run(Initial(), FillUp(63), script) == Some(c) && Inv(c)
    ensures WellFormed(c.table) && !c.table.slots[1].inUse
    ensures Legal(c.table, Now(c), op) && Apply(c.table, Now(c), op) == Applied(c.table, -1)
  {
    hide Run, Guarded;
    assert Crowded(Initial());
    c := FillsUp(Initial(), 63, script);
    NoTimePasses(63);
  }

  lemma {:induction false} NoTimePasses(k: nat)
    ensures Elapsed(FillUp(k)) == 0
  {
    if k > 0 {
      NoTimePasses(k - 1);
      assert FillUp(k)[1..] == FillUp(k - 1);
    }
  }
}
