// When a timer that nobody touches fires, whatever the other timers and the devices do: an inactive
// one never, a one-shot timer once, a continuous one at every multiple of its period.
module TimerFirings {
  import opened Wrappers
  import opened Machine
  import opened TimerTable
  import opened Countdown

  // Whether an event is an operation on the timer in slot `i`.
  predicate Touches(e: Event, i: nat) {
    e.Called? && match e.op
                 case Register(_, _, _, _) => false
                 case Activate(j, _, _) => j == i
                 case Deactivate(j) => j == i
                 case Unregister(j) => j == i
  }

  // Nothing from `a` to its extension `b` touches slot `i`.
  ghost predicate Untouched(a: Trace, b: Trace, i: nat) {
    a <= b && forall k :: |a| <= k < |b| ==> !Touches(b[k], i)
  }

  lemma UntouchedParts(a: Trace, b: Trace, c: Trace, i: nat)
    requires a <= b <= c && Untouched(a, c, i)
    ensures Untouched(a, b, i) && Untouched(b, c, i)
  {
  }

  // A registered timer.
  predicate Attached(s: Slot) {
    s.inUse && s.funct.Some?
  }

  lemma InUseBelow(c: Clock, i: nat)
    requires Inv(c) && i < MAX_TIMERS && c.table.slots[i].inUse
    ensures i < c.table.numTimers
  {
  }

  lemma PerformLeaves(c: Clock, op: Op, i: nat)
    requires Inv(c) && i < MAX_TIMERS && Attached(c.table.slots[i]) && Perform(c, op).Some?
    requires Untouched(c.trace, Perform(c, op).value.trace, i)
    ensures var r := Perform(c, op).value;
            r.table.slots[i] == c.table.slots[i] && Firings(r.trace, i) == Firings(c.trace, i)
  {
    hide Guarded;
    InUseBelow(c, i);
    var r := Perform(c, op).value;
    assert !Touches(r.trace[|c.trace|], i);
    assert r.trace[..|r.trace| - 1] == c.trace;
  }

  lemma {:induction false} PerformAllLeaves(c: Clock, ops: seq<Op>, i: nat)
    requires Inv(c) && i < MAX_TIMERS && Attached(c.table.slots[i]) && PerformAll(c, ops).Some?
    requires Untouched(c.trace, PerformAll(c, ops).value.trace, i)
    ensures var r := PerformAll(c, ops).value;
            r.table.slots[i] == c.table.slots[i] && Firings(r.trace, i) == Firings(c.trace, i)
    decreases |ops|
  {
    hide Guarded, Apply, Legal, Firings, Untouched;
    if ops != [] {
      var c1 := Perform(c, ops[0]).value;
      PerformAllGrows(c1, ops[1..]);
      UntouchedParts(c.trace, c1.trace, PerformAll(c, ops).value.trace, i);
      PerformLeaves(c, ops[0], i);
      PerformAllLeaves(c1, ops[1..], i);
    }
  }

  // The firing that a call of slot `j` adds for slot `i`.
  function Hit(now: nat, called: bool, h: Handler): seq<Firing> {
    if called then [Firing(now, h)] else []
  }

  lemma CallSlotLeaves(c: Clock, j: nat, script: Script, i: nat)
    requires Inv(c) && i < MAX_TIMERS && j < MAX_TIMERS && Attached(c.table.slots[i]) && CallSlot(c, j, script).Some?
    requires Untouched(c.trace, CallSlot(c, j, script).value.trace, i)
    ensures var r := CallSlot(c, j, script).value;
            && r.table.slots[i] == c.table.slots[i]
            && Firings(r.trace, i) == Firings(c.trace, i) + Hit(Now(c), j == i, c.table.slots[i].funct.value)
  {
    hide Guarded, PerformAll;
    match c.table.slots[j].funct
    case None =>
    case Some(h) =>
      var c1 := c.(trace := c.trace + [Fired(Now(c), j, h)]);
      assert c1.trace[..|c1.trace| - 1] == c.trace;
      var ops := Behaviour(script, h, c1.trace);
      PerformAllGrows(c1, ops);
      UntouchedParts(c.trace, c1.trace, PerformAll(c1, ops).value.trace, i);
      PerformAllLeaves(c1, ops, i);
  }

  lemma {:induction false} CallAllLeaves(c: Clock, due: seq<nat>, script: Script, i: nat)
    requires Inv(c) && i < MAX_TIMERS && Attached(c.table.slots[i])
    requires (forall k :: 0 <= k < |due| ==> due[k] < MAX_TIMERS) && Ascending(due) && CallAll(c, due, script).Some?
    requires Untouched(c.trace, CallAll(c, due, script).value.trace, i)
    ensures var r := CallAll(c, due, script).value;
            && r.table.slots[i] == c.table.slots[i]
            && Firings(r.trace, i) == Firings(c.trace, i) + Hit(Now(c), i in due, c.table.slots[i].funct.value)
    decreases |due|
  {
    hide Guarded, CallSlot, Untouched, Firings;
    if due != [] {
      var c1 := CallSlot(c, due[0], script).value;
      CallSlotGrows(c, due[0], script);
      CallAllGrows(c1, due[1..], script);
      UntouchedParts(c.trace, c1.trace, CallAll(c, due, script).value.trace, i);
      CallSlotLeaves(c, due[0], script, i);
      CallAllLeaves(c1, due[1..], script, i);
    }
  }

  // One tick fires the timer exactly when its time has come, and then moves it on by its period.
  lemma Tick1Leaves(c: Clock, script: Script, i: nat)
    requires Inv(c) && i < MAX_TIMERS && Attached(c.table.slots[i]) && Tick1(c, script).Some?
    requires Untouched(c.trace, Tick1(c, script).value.trace, i)
    ensures var r, s := Tick1(c, script).value, c.table.slots[i];
            && (s.active ==> Now(c) < s.timeToFire && s.period >= 1)
            && r.table.slots[i] == RearmSlot(s, Now(c) + 1)
            && Firings(r.trace, i) == Firings(c.trace, i) + Hit(Now(c) + 1, IsDue(s, Now(c) + 1), s.funct.value)
  {
    hide CallAll, Firings, Untouched, Guarded, MinFire;
    InUseBelow(c, i);
    NextIsLater(c, i);
    if c.countdown == 1 {
      var due := Due(c.table.slots, c.table.numTimers, Now(c) + 1);
      assert forall k :: 0 <= k < |due| ==> due[k] in due;
      CallAllLeaves(Settle(c.(countdown := 0)), due, script, i);
    }
  }

  // Calls of `h` from the time `first` on, `p` apart, up to and including `now`.
  function Schedule(first: nat, p: nat, now: nat, h: Handler): seq<Firing>
    requires p >= 1
    decreases now + 1 - first
  {
    if first > now then [] else [Firing(first, h)] + Schedule(first + p, p, now, h)
  }

  // The firings to expect of a slot up to the time `end`.
  function Expected(s: Slot, end: nat): seq<Firing>
    requires s.funct.Some? && (s.active ==> s.period >= 1)
  {
    if !s.active then []
    else if s.continuous then Schedule(s.timeToFire, s.period, end, s.funct.value)
    else if s.timeToFire <= end then [Firing(s.timeToFire, s.funct.value)] else []
  }

  ghost predicate Sane(s: Slot) {
    Attached(s) && (s.active ==> s.period >= 1)
  }

  lemma Tick1Expected(c: Clock, script: Script, i: nat)
    requires Inv(c) && i < MAX_TIMERS && Sane(c.table.slots[i]) && Tick1(c, script).Some?
    requires Untouched(c.trace, Tick1(c, script).value.trace, i)
    ensures var r, s := Tick1(c, script).value, c.table.slots[i];
            && Sane(r.table.slots[i])
            && forall end: nat :: end >= Now(r) ==>
                 Firings(c.trace, i) + Expected(s, end) == Firings(r.trace, i) + Expected(r.table.slots[i], end)
  {
    hide Guarded, Tick1, Firings, Untouched, Expected, Hit, RearmSlot, IsDue;
    var r, s := Tick1(c, script).value, c.table.slots[i];
    Tick1Leaves(c, script, i);
    RearmedExpected(s, Now(c), Now(c) + 1);
    forall end: nat | end >= Now(r)
      ensures Firings(c.trace, i) + Expected(s, end)
              == Firings(r.trace, i) + Expected(r.table.slots[i], end)
    {
      RearmedExpected(s, Now(c), end);
    }
  }

  // A tick takes from the firings to expect the one that is due then.
  lemma RearmedExpected(s: Slot, now: nat, end: nat)
    requires Sane(s) && (s.active ==> now < s.timeToFire) && now < end
    ensures Sane(RearmSlot(s, now + 1))
    ensures Expected(s, end) == Hit(now + 1, IsDue(s, now + 1), s.funct.value) + Expected(RearmSlot(s, now + 1), end)
  {
  }

  lemma {:induction false} TicksExpected(c: Clock, n: nat, script: Script, i: nat)
    requires Inv(c) && i < MAX_TIMERS && Sane(c.table.slots[i]) && Ticks(c, n, script).Some?
    requires Untouched(c.trace, Ticks(c, n, script).value.trace, i)
    ensures var r, s := Ticks(c, n, script).value, c.table.slots[i];
            && Sane(r.table.slots[i])
            && forall end: nat :: end >= Now(r) ==>
                 Firings(c.trace, i) + Expected(s, end) == Firings(r.trace, i) + Expected(r.table.slots[i], end)
    decreases n
  {
    hide Guarded, Tick1, Firings, Untouched, Expected, Attached;
    if n > 0 {
      var c1, r := Tick1(c, script).value, Ticks(c, n, script).value;
      TickNIsTicks(c1, n - 1, script);
      TickNGrows(c1, n - 1, script);
      Tick1Grows(c, script);
      UntouchedParts(c.trace, c1.trace, r.trace, i);
      Tick1Expected(c, script, i);
      TicksExpected(c1, n - 1, script, i);
    }
  }

  lemma Tick1Grows(c: Clock, script: Script)
    requires Inv(c) && Tick1(c, script).Some?
    ensures c.trace <= Tick1(c, script).value.trace
  {
    hide Guarded, CountdownEvent;
    if c.countdown == 1 {
      EventGrows(c.(countdown := 0), script);
    }
  }

  lemma {:induction false} RunExpected(c: Clock, cmds: seq<Cmd>, script: Script, i: nat)
    requires Inv(c) && i < MAX_TIMERS && Sane(c.table.slots[i]) && Run(c, cmds, script).Some?
    requires Untouched(c.trace, Run(c, cmds, script).value.trace, i)
    ensures var r, s := Run(c, cmds, script).value, c.table.slots[i];
            && Sane(r.table.slots[i])
            && Firings(c.trace, i) + Expected(s, Now(r))
               == Firings(r.trace, i) + Expected(r.table.slots[i], Now(r))
    decreases |cmds|
  {
    hide Guarded, TickN, Ticks, Perform, Firings, Untouched, Expected, Attached;
    if cmds != [] {
      var r := Run(c, cmds, script).value;
      match cmds[0]
      case Tick(n) =>
        var c1 := TickN(c, n, script).value;
        TickNGrows(c, n, script);
        RunGrows(c1, cmds[1..], script);
        UntouchedParts(c.trace, c1.trace, r.trace, i);
        TickNIsTicks(c, n, script);
        TicksExpected(c, n, script, i);
        RunExpected(c1, cmds[1..], script, i);
      case Call(op) =>
        var c1 := Perform(c, op).value;
        PerformGrows(c, op);
        RunGrows(c1, cmds[1..], script);
        UntouchedParts(c.trace, c1.trace, r.trace, i);
        PerformLeaves(c, op, i);
        RunExpected(c1, cmds[1..], script, i);
    }
  }

  lemma PerformGrows(c: Clock, op: Op)
    requires Inv(c) && Perform(c, op).Some?
    ensures c.trace <= Perform(c, op).value.trace
  {
  }

  // ---- The main results ----

  // By the end of any run a timer that has been left alone has fired exactly as its slot said at the
  // beginning. Nothing is asked of the other timers or of the devices.
  lemma UntouchedFirings(c: Clock, cmds: seq<Cmd>, script: Script, i: nat)
    requires Inv(c) && i < MAX_TIMERS && Attached(c.table.slots[i]) && Run(c, cmds, script).Some?
    requires Untouched(c.trace, Run(c, cmds, script).value.trace, i)
    ensures c.table.slots[i].active ==> c.table.slots[i].period >= 1
    ensures var r := Run(c, cmds, script).value;
            Firings(r.trace, i) == Firings(c.trace, i) + Expected(c.table.slots[i], Now(r))
  {
    hide Run, Untouched, Firings, Guarded;
    NextIsLater(c, i);
    RunExpected(c, cmds, script, i);
    NextIsLater(Run(c, cmds, script).value, i);
  }

  // What a timer started at time T with period p has added to the calls of its slot n ticks later: the
  // calls of `h` at T + p, T + 2p and so on, n / p of them, or one at T + p if n reaches p.
  ghost predicate Periodic(before: seq<Firing>, after: seq<Firing>, T: int, p: nat, n: nat, continuous: bool, h: Handler)
    requires p >= 1
  {
    && before <= after
    && var added := after[|before|..];
       && |added| == (if continuous then n / p else if n >= p then 1 else 0)
       && forall k :: 0 <= k < |added| ==> added[k].time == T + p + k * p && added[k].handler == h
  }

  lemma StartedFirings(c: Clock, i: nat, p: nat, continuous: bool, h: Handler, cmds: seq<Cmd>, script: Script)
    requires Inv(c) && i < MAX_TIMERS && p >= 1 && Run(c, cmds, script).Some?
    requires c.table.slots[i] == Slot(true, p, Now(c) + p, true, continuous, Some(h))
    requires Untouched(c.trace, Run(c, cmds, script).value.trace, i)
    ensures Periodic(Firings(c.trace, i), Firings(Run(c, cmds, script).value.trace, i), Now(c), p, Elapsed(cmds),
                     continuous, h)
  {
    hide Run, Untouched, Firings, Guarded;
    var n := Elapsed(cmds);
    UntouchedFirings(c, cmds, script, i);
    var before, added := Firings(c.trace, i), Expected(c.table.slots[i], Now(c) + n);
    if continuous {
      ScheduleFrom(Now(c) + p, p, Now(c) + n, h);
      DivUnique(n, p, |added|, n - |added| * p);
    }
    assert (before + added)[|before|..] == added;
  }

  // A timer that is activated runs from then on as told, a delay of no ticks counting as one.
  lemma ActivatedFirings(c: Clock, i: nat, ticks: nat, continuous: bool, cmds: seq<Cmd>, script: Script)
    requires Inv(c) && i < MAX_TIMERS && Attached(c.table.slots[i])
    requires Perform(c, Activate(i, ticks, continuous)).Some?
    requires Run(Perform(c, Activate(i, ticks, continuous)).value, cmds, script).Some?
    requires var c1 := Perform(c, Activate(i, ticks, continuous)).value;
             Untouched(c1.trace, Run(c1, cmds, script).value.trace, i)
    ensures var r := Run(Perform(c, Activate(i, ticks, continuous)).value, cmds, script).value;
            Periodic(Firings(c.trace, i), Firings(r.trace, i), Now(c), Max(ticks, 1), Elapsed(cmds), continuous,
                     c.table.slots[i].funct.value)
  {
    hide Run, Untouched, Firings, Guarded, Perform, Periodic;
    Activated(c, i, ticks, continuous);
    StartedFirings(Perform(c, Activate(i, ticks, continuous)).value, i, Max(ticks, 1), continuous,
                   c.table.slots[i].funct.value, cmds, script);
  }

  lemma Activated(c: Clock, i: nat, ticks: nat, continuous: bool)
    requires Inv(c) && i < MAX_TIMERS && Attached(c.table.slots[i])
    requires Perform(c, Activate(i, ticks, continuous)).Some?
    ensures var c1, s, p := Perform(c, Activate(i, ticks, continuous)).value, c.table.slots[i], Max(ticks, 1);
            && c1.table.slots[i] == Slot(true, p, Now(c) + p, true, continuous, s.funct)
            && Firings(c1.trace, i) == Firings(c.trace, i)
  {
    hide Guarded;
    var c1 := Perform(c, Activate(i, ticks, continuous)).value;
    assert c1.trace[..|c1.trace| - 1] == c.trace;
  }

  // A timer that is deactivated is not called any more, and can be unregistered at once.
  lemma DeactivatedFirings(c: Clock, i: nat, cmds: seq<Cmd>, script: Script)
    requires Inv(c) && i < MAX_TIMERS && Attached(c.table.slots[i]) && Perform(c, Deactivate(i)).Some?
    requires Run(Perform(c, Deactivate(i)).value, cmds, script).Some?
    requires var c1 := Perform(c, Deactivate(i)).value; Untouched(c1.trace, Run(c1, cmds, script).value.trace, i)
    ensures Firings(Run(Perform(c, Deactivate(i)).value, cmds, script).value.trace, i) == Firings(c.trace, i)
  {
    hide Run, Untouched, Firings, Guarded, Perform;
    PutOut(c, i);
    UntouchedFirings(Perform(c, Deactivate(i)).value, cmds, script, i);
  }

  lemma PutOut(c: Clock, i: nat)
    requires Inv(c) && i < MAX_TIMERS && Perform(c, Deactivate(i)).Some?
    ensures var c1 := Perform(c, Deactivate(i)).value;
            && c1.table.slots[i] == c.table.slots[i].(active := false)
            && Firings(c1.trace, i) == Firings(c.trace, i)
  {
    hide Guarded;
    var c1 := Perform(c, Deactivate(i)).value;
    assert c1.trace[..|c1.trace| - 1] == c.trace;
  }

  lemma DeactivatedIsUnregistered(c: Clock, i: nat)
    requires Inv(c) && 1 <= i < c.table.numTimers && c.table.slots[i].inUse
    ensures Perform(c, Deactivate(i)).Some? && Perform(Perform(c, Deactivate(i)).value, Unregister(i)).Some?
    ensures var r := Perform(Perform(c, Deactivate(i)).value, Unregister(i)).value;
            && r.trace == c.trace + [Called(Deactivate(i), 0), Called(Unregister(i), 1)]
            && !r.table.slots[i].inUse && r.table.slots[i].funct.None?
  {
    hide Guarded;
  }

  // The slot a registration got.
  function RegisteredSlot(c: Clock, op: Op): int
    requires Inv(c) && op.Register? && Perform(c, op).Some?
  {
    Apply(c.table, Now(c), op).result
  }

  // A timer that is registered runs from then on as told, with its own handler, if it was registered
  // active; otherwise it is never called.
  lemma RegisteredFirings(c: Clock, op: Op, cmds: seq<Cmd>, script: Script)
    requires Inv(c) && op.Register? && Perform(c, op).Some? && RegisteredSlot(c, op) >= 0
    requires Run(Perform(c, op).value, cmds, script).Some?
    requires var c1 := Perform(c, op).value; Untouched(c1.trace, Run(c1, cmds, script).value.trace, RegisteredSlot(c, op))
    ensures var r, i := Run(Perform(c, op).value, cmds, script).value, RegisteredSlot(c, op);
            && Perform(c, op).value.trace == c.trace + [Called(op, i)]
            && (op.active ==> Periodic(Firings(c.trace, i), Firings(r.trace, i), Now(c), Max(op.ticks, 1), Elapsed(cmds),
                                       op.continuous, op.funct))
            && (!op.active ==> Firings(r.trace, i) == Firings(c.trace, i))
  {
    hide Run, Untouched, Firings, Guarded, Perform, Periodic, RegisteredSlot;
    var c1, i := Perform(c, op).value, RegisteredSlot(c, op);
    Installed(c, op);
    if op.active {
      StartedFirings(c1, i, Max(op.ticks, 1), op.continuous, op.funct, cmds, script);
    } else {
      UntouchedFirings(c1, cmds, script, i);
    }
  }

  lemma Installed(c: Clock, op: Op)
    requires Inv(c) && op.Register? && Perform(c, op).Some? && RegisteredSlot(c, op) >= 0
    ensures var c1, i, p := Perform(c, op).value, RegisteredSlot(c, op), Max(op.ticks, 1);
            && i < MAX_TIMERS && c1.trace == c.trace + [Called(op, i)]
            && c1.table.slots[i] == Slot(true, p, Now(c) + p, op.active, op.continuous, Some(op.funct))
            && Firings(c1.trace, i) == Firings(c.trace, i)
  {
    hide Guarded;
    var c1 := Perform(c, op).value;
    assert c1.trace[..|c1.trace| - 1] == c.trace;
  }

  lemma NextIsLater(c: Clock, i: nat)
    requires Inv(c) && i < MAX_TIMERS
    ensures c.table.slots[i].active ==> Now(c) + c.countdown <= c.table.slots[i].timeToFire && c.table.slots[i].period >= 1
  {
  }

  lemma {:induction false} ScheduleFrom(first: nat, p: nat, now: nat, h: Handler)
    requires p >= 1
    ensures var s := Schedule(first, p, now, h);
            && (|s| > 0 ==> first + |s| * p <= now + p) && now < first + |s| * p
            && (forall k :: 0 <= k < |s| ==> s[k].time == first + k * p && s[k].handler == h)
    decreases now + 1 - first
  {
    if first <= now {
      ScheduleFrom(first + p, p, now, h);
      var s, rest := Schedule(first, p, now, h), Schedule(first + p, p, now, h);
      OneMoreTime(|rest|, p);
      forall k | 0 <= k < |s| ensures s[k].time == first + k * p && s[k].handler == h {
        if k > 0 {
          assert s[k] == rest[k - 1];
          OneMoreTime(k - 1, p);
        }
      }
    }
  }

  lemma OneMoreTime(k: nat, p: nat)
    ensures (k + 1) * p == k * p + p
  {
  }

  // ---- The null timer ----

  // Legal operations leave slot 0 alone, in callbacks too.
  lemma UntouchedJoined(a: Trace, b: Trace, c: Trace, i: nat)
    requires Untouched(a, b, i) && Untouched(b, c, i)
    ensures Untouched(a, c, i)
  {
    forall k | |a| <= k < |c| ensures !Touches(c[k], i) {
      if k < |b| {
        assert c[k] == b[k];
      }
    }
  }

  lemma {:induction false} PerformAllSparesNull(c: Clock, ops: seq<Op>)
    requires Inv(c) && PerformAll(c, ops).Some?
    ensures Untouched(c.trace, PerformAll(c, ops).value.trace, 0)
    decreases |ops|
  {
    hide Guarded, Apply;
    if ops != [] {
      var c1 := Perform(c, ops[0]).value;
      PerformAllSparesNull(c1, ops[1..]);
      UntouchedJoined(c.trace, c1.trace, PerformAll(c, ops).value.trace, 0);
    }
  }

  lemma CallSlotSparesNull(c: Clock, i: nat, script: Script)
    requires Inv(c) && i < MAX_TIMERS && CallSlot(c, i, script).Some?
    ensures Untouched(c.trace, CallSlot(c, i, script).value.trace, 0)
  {
    hide Guarded, PerformAll;
    match c.table.slots[i].funct
    case None =>
    case Some(h) =>
      var c1 := c.(trace := c.trace + [Fired(Now(c), i, h)]);
      PerformAllSparesNull(c1, Behaviour(script, h, c1.trace));
      UntouchedJoined(c.trace, c1.trace, CallSlot(c, i, script).value.trace, 0);
  }

  lemma {:induction false} CallAllSparesNull(c: Clock, due: seq<nat>, script: Script)
    requires Inv(c) && (forall k :: 0 <= k < |due| ==> due[k] < MAX_TIMERS) && CallAll(c, due, script).Some?
    ensures Untouched(c.trace, CallAll(c, due, script).value.trace, 0)
    decreases |due|
  {
    hide Guarded, CallSlot;
    if due != [] {
      var c1 := CallSlot(c, due[0], script).value;
      CallSlotSparesNull(c, due[0], script);
      CallAllSparesNull(c1, due[1..], script);
      UntouchedJoined(c.trace, c1.trace, CallAll(c, due, script).value.trace, 0);
    }
  }

  lemma {:induction false} TickNSparesNull(c: Clock, n: nat, script: Script)
    requires Inv(c) && TickN(c, n, script).Some?
    ensures Untouched(c.trace, TickN(c, n, script).value.trace, 0)
    decreases n
  {
    hide Guarded, CallAll, Due, Untouched;
    if n < c.countdown {
      UntouchedItself(c.trace, 0);
    } else {
      var c0 := c.(countdown := 0);
      var c1 := CountdownEvent(c0, script).value;
      var due := Due(c.table.slots, c.table.numTimers, c.ticksTotal + c.period);
      assert forall k :: 0 <= k < |due| ==> due[k] in due;
      CallAllSparesNull(Settle(c0), due, script);
      TickNSparesNull(c1, n - c.countdown, script);
      UntouchedJoined(c.trace, c1.trace, TickN(c, n, script).value.trace, 0);
    }
  }

  lemma UntouchedItself(a: Trace, i: nat)
    ensures Untouched(a, a, i)
  {
  }

  lemma PerformSparesNull(c: Clock, op: Op)
    requires Inv(c) && Perform(c, op).Some?
    ensures Untouched(c.trace, Perform(c, op).value.trace, 0)
  {
    hide Guarded, Apply;
  }

  lemma {:induction false} RunSparesNull(c: Clock, cmds: seq<Cmd>, script: Script)
    requires Inv(c) && Run(c, cmds, script).Some?
    ensures Untouched(c.trace, Run(c, cmds, script).value.trace, 0)
    decreases |cmds|
  {
    hide Guarded, TickN, Perform, Untouched;
    UntouchedItself(c.trace, 0);
    if cmds != [] {
      var c1 := match cmds[0] case Tick(n) => TickN(c, n, script).value case Call(op) => Perform(c, op).value;
      match cmds[0] {
        case Tick(n) => TickNSparesNull(c, n, script);
        case Call(op) => PerformSparesNull(c, op);
      }
      RunSparesNull(c1, cmds[1..], script);
      UntouchedJoined(c.trace, c1.trace, Run(c, cmds, script).value.trace, 0);
    }
  }

  // From power-on the null timer is called every 2^32 - 1 ticks, in every run.
  lemma NullTimerFirings(cmds: seq<Cmd>, script: Script)
    requires Run(Initial(), cmds, script).Some?
    ensures Periodic([], Firings(Run(Initial(), cmds, script).value.trace, 0), 0, 0xffff_ffff, Elapsed(cmds), true, NullTimer)
  {
    hide Run, Untouched, Periodic, Guarded;
    RunSparesNull(Initial(), cmds, script);
    StartedFirings(Initial(), 0, 0xffff_ffff, true, NullTimer, cmds, script);
  }

  // ---- When the countdown ends ----

  // A call that starts a timer makes the countdown end when that is due, if that is earlier; no other
  // call changes its end.
  lemma NextEvent(c: Clock, op: Op)
    requires Inv(c) && Perform(c, op).Some?
    ensures var r, end := Perform(c, op).value, c.ticksTotal + c.period;
            r.ticksTotal + r.period
            == (match op
                case Register(ticks, _, active, _) =>
                  if active && RegisteredSlot(c, op) >= 0 then Min(end, Now(c) + Max(ticks, 1)) else end
                case Activate(_, ticks, _) => Min(end, Now(c) + Max(ticks, 1))
                case _ => end)
  {
    hide Guarded;
  }

  // ---- What is allowed ----

  // The calls that are not None: the null timer is left alone, indices are allocated, and fire times fit
  // in 64 bits.
  lemma CallsAllowed(c: Clock, op: Op)
    requires Inv(c)
    ensures Perform(c, op).Some?
            <==> match op
                 case Register(ticks, _, _, _) => Now(c) + Max(ticks, 1) < TWO64
                 case Activate(i, ticks, _) => 1 <= i < c.table.numTimers && Now(c) + Max(ticks, 1) < TWO64
                 case Deactivate(i) => 1 <= i < c.table.numTimers
                 case Unregister(i) => 1 <= i < c.table.numTimers && c.table.slots[i].inUse
  {
    hide Guarded;
  }

  // No callback calls the timer interface.
  ghost predicate Silent(script: Script) {
    forall id, trace :: script(id, trace) == []
  }

  // All periods are at most `most`.
  ghost predicate ShortPeriods(c: Clock, most: nat)
    requires Inv(c)
  {
    forall i :: 0 <= i < MAX_TIMERS ==> c.table.slots[i].active ==> c.table.slots[i].period <= most
  }

  lemma {:induction false} SilentCalls(c: Clock, due: seq<nat>, script: Script)
    requires Inv(c) && Silent(script) && forall k :: 0 <= k < |due| ==> due[k] < MAX_TIMERS
    ensures CallAll(c, due, script).Some? && CallAll(c, due, script).value.table == c.table
    decreases |due|
  {
    hide Guarded;
    if due != [] {
      SilentCalls(CallSlot(c, due[0], script).value, due[1..], script);
    }
  }

  lemma SilentTick(c: Clock, script: Script, most: nat)
    requires Inv(c) && Silent(script) && ShortPeriods(c, most) && Now(c) + 1 + most < TWO64
    ensures Tick1(c, script).Some? && ShortPeriods(Tick1(c, script).value, most)
  {
    hide CallAll, MinFire, Guarded, Silent;
    if c.countdown == 1 {
      var due := Due(c.table.slots, c.table.numTimers, Now(c) + 1);
      assert forall k :: 0 <= k < |due| ==> due[k] in due;
      assert Rearmable(c.table.slots, Now(c) + 1);
      SilentCalls(Settle(c.(countdown := 0)), due, script);
    }
  }

  // Ticks alone are always possible as long as time and the periods fit in 64 bits.
  lemma {:induction false} SilentTicks(c: Clock, n: nat, script: Script, most: nat)
    requires Inv(c) && Silent(script) && ShortPeriods(c, most) && Now(c) + n + most < TWO64
    ensures TickN(c, n, script).Some? && ShortPeriods(TickN(c, n, script).value, most)
    decreases n
  {
    hide Guarded, TickN, Tick1, Silent, ShortPeriods;
    TickNIsTicks(c, n, script);
    if n > 0 {
      SilentTick(c, script, most);
      var c1 := Tick1(c, script).value;
      SilentTicks(c1, n - 1, script, most);
      TickNIsTicks(c1, n - 1, script);
    }
  }

  // ---- Timers that others touch ----

  // Whether an event puts a timer into slot `i` or takes the one there away.
  predicate Reregisters(e: Event, i: nat) {
    e.Called? && match e.op
                 case Register(_, _, _, _) => e.result == i
                 case Unregister(j) => j == i && e.result == 1
                 case _ => false
  }

  ghost predicate KeptRegistered(a: Trace, b: Trace, i: nat) {
    a <= b && forall k :: |a| <= k < |b| ==> !Reregisters(b[k], i)
  }

  lemma KeptParts(a: Trace, b: Trace, c: Trace, i: nat)
    requires a <= b <= c && KeptRegistered(a, c, i)
    ensures KeptRegistered(a, b, i) && KeptRegistered(b, c, i)
  {
    forall k | |a| <= k < |b| ensures !Reregisters(b[k], i) {
      assert b[k] == c[k];
    }
  }

  lemma PerformKeepsHandler(c: Clock, op: Op, i: nat)
    requires Inv(c) && i < MAX_TIMERS && Perform(c, op).Some?
    requires KeptRegistered(c.trace, Perform(c, op).value.trace, i)
    ensures Perform(c, op).value.table.slots[i].funct == c.table.slots[i].funct
  {
    hide Guarded;
    assert !Reregisters(Perform(c, op).value.trace[|c.trace|], i);
  }

  lemma {:induction false} PerformAllKeepsHandler(c: Clock, ops: seq<Op>, i: nat)
    requires Inv(c) && i < MAX_TIMERS && PerformAll(c, ops).Some?
    requires KeptRegistered(c.trace, PerformAll(c, ops).value.trace, i)
    ensures PerformAll(c, ops).value.table.slots[i].funct == c.table.slots[i].funct
    decreases |ops|
  {
    hide Guarded, Perform, KeptRegistered;
    if ops != [] {
      var c1 := Perform(c, ops[0]).value;
      PerformGrows(c, ops[0]);
      PerformAllGrows(c1, ops[1..]);
      KeptParts(c.trace, c1.trace, PerformAll(c, ops).value.trace, i);
      PerformKeepsHandler(c, ops[0], i);
      PerformAllKeepsHandler(c1, ops[1..], i);
    }
  }

  lemma CallSlotKeepsHandler(c: Clock, j: nat, script: Script, i: nat)
    requires Inv(c) && i < MAX_TIMERS && j < MAX_TIMERS && CallSlot(c, j, script).Some?
    requires KeptRegistered(c.trace, CallSlot(c, j, script).value.trace, i)
    ensures CallSlot(c, j, script).value.table.slots[i].funct == c.table.slots[i].funct
  {
    hide Guarded, PerformAll, KeptRegistered;
    match c.table.slots[j].funct
    case None =>
    case Some(h) =>
      var c1 := c.(trace := c.trace + [Fired(Now(c), j, h)]);
      var ops := Behaviour(script, h, c1.trace);
      PerformAllGrows(c1, ops);
      KeptParts(c.trace, c1.trace, PerformAll(c1, ops).value.trace, i);
      PerformAllKeepsHandler(c1, ops, i);
  }

  // A due slot is called with the handler it has when its turn comes, and that is the one it had if
  // its registration has not changed.
  lemma {:induction false} CallAllCalls(c: Clock, due: seq<nat>, script: Script, i: nat)
    requires Inv(c) && (forall k :: 0 <= k < |due| ==> due[k] < MAX_TIMERS) && CallAll(c, due, script).Some?
    requires i in due && i < MAX_TIMERS && c.table.slots[i].funct.Some?
    requires KeptRegistered(c.trace, CallAll(c, due, script).value.trace, i)
    ensures var r := CallAll(c, due, script).value;
            exists k :: |c.trace| <= k < |r.trace| && r.trace[k] == Fired(Now(c), i, c.table.slots[i].funct.value)
    decreases |due|
  {
    hide Guarded, KeptRegistered, PerformAll;
    var c1, r := CallSlot(c, due[0], script).value, CallAll(c, due, script).value;
    CallSlotGrows(c, due[0], script);
    CallAllGrows(c1, due[1..], script);
    if due[0] == i {
      var c2 := c.(trace := c.trace + [Fired(Now(c), i, c.table.slots[i].funct.value)]);
      PerformAllGrows(c2, Behaviour(script, c.table.slots[i].funct.value, c2.trace));
      assert c2.trace <= r.trace;
      assert r.trace[|c.trace|] == c2.trace[|c.trace|];
    } else {
      KeptParts(c.trace, c1.trace, r.trace, i);
      CallSlotKeepsHandler(c, due[0], script, i);
      CallAllCalls(c1, due[1..], script, i);
    }
  }

  lemma {:induction false} PerformAllFiresNothing(c: Clock, ops: seq<Op>)
    requires Inv(c) && PerformAll(c, ops).Some?
    ensures var r := PerformAll(c, ops).value;
            c.trace <= r.trace && forall k :: |c.trace| <= k < |r.trace| ==> r.trace[k].Called?
    decreases |ops|
  {
    hide Guarded, Apply, Legal;
    if ops != [] {
      PerformAllFiresNothing(Perform(c, ops[0]).value, ops[1..]);
    }
  }

  // The events from `a` to its extension `b` in which slots are called: all at `now`, only slots of
  // `due`, in ascending order.
  ghost predicate FiresOnly(a: Trace, b: Trace, now: int, due: seq<nat>) {
    && a <= b
    && (forall k :: |a| <= k < |b| && b[k].Fired? ==> b[k].time == now && b[k].slot in due)
    && forall j, k :: |a| <= j < k < |b| && b[j].Fired? && b[k].Fired? ==> b[j].slot < b[k].slot
  }

  lemma CallSlotFires(c: Clock, i: nat, script: Script)
    requires Inv(c) && i < MAX_TIMERS && CallSlot(c, i, script).Some?
    ensures FiresOnly(c.trace, CallSlot(c, i, script).value.trace, Now(c), [i])
  {
    hide Guarded, PerformAll;
    match c.table.slots[i].funct
    case None =>
    case Some(h) =>
      var c1 := c.(trace := c.trace + [Fired(Now(c), i, h)]);
      PerformAllFiresNothing(c1, Behaviour(script, h, c1.trace));
  }

  lemma {:induction false} CallAllFires(c: Clock, due: seq<nat>, script: Script)
    requires Inv(c) && (forall k :: 0 <= k < |due| ==> due[k] < MAX_TIMERS) && Ascending(due)
    requires CallAll(c, due, script).Some?
    ensures FiresOnly(c.trace, CallAll(c, due, script).value.trace, Now(c), due)
    decreases |due|
  {
    hide Guarded, CallSlot;
    if due != [] {
      var c1 := CallSlot(c, due[0], script).value;
      CallSlotFires(c, due[0], script);
      CallAllFires(c1, due[1..], script);
    }
  }

  // A tick calls only slots that were due when it began, at their time, in ascending order and so each
  // at most once, take-overs or not.
  lemma OnlyDueFires(c: Clock, script: Script)
    requires Inv(c) && Tick1(c, script).Some?
    ensures var r := Tick1(c, script).value;
            && c.trace <= r.trace
            && (forall k :: |c.trace| <= k < |r.trace| && r.trace[k].Fired? ==>
                  && r.trace[k].time == Now(c) + 1 && r.trace[k].slot < MAX_TIMERS
                  && IsDue(c.table.slots[r.trace[k].slot], Now(c) + 1))
            && forall j, k :: |c.trace| <= j < k < |r.trace| && r.trace[j].Fired? && r.trace[k].Fired? ==>
                 r.trace[j].slot < r.trace[k].slot
  {
    hide CallAll, MinFire, Guarded;
    if c.countdown == 1 {
      var due := Due(c.table.slots, c.table.numTimers, Now(c) + 1);
      assert forall k :: 0 <= k < |due| ==> due[k] in due;
      CallAllFires(Settle(c.(countdown := 0)), due, script);
    }
  }

  lemma DueNow(c: Clock, i: nat)
    requires Inv(c) && i < MAX_TIMERS && IsDue(c.table.slots[i], Now(c) + 1)
    ensures c.countdown == 1 && i < c.table.numTimers
  {
  }

  // Whether slot `i` is called between `a` and its extension `b`.
  ghost predicate Calls(a: Trace, b: Trace, i: nat) {
    exists k :: |a| <= k < |b| && b[k].Fired? && b[k].slot == i
  }

  // A timer is called at the next tick exactly when it is due then, whatever the callbacks before it do
  // to it short of unregistering it: it may have been deactivated or given another period. It is called
  // with its own handler.
  lemma DueIsCalled(c: Clock, script: Script, i: nat)
    requires Inv(c) && i < MAX_TIMERS && c.table.slots[i].funct.Some?
    requires Tick1(c, script).Some? && KeptRegistered(c.trace, Tick1(c, script).value.trace, i)
    ensures var r := Tick1(c, script).value;
            && (Calls(c.trace, r.trace, i) <==> IsDue(c.table.slots[i], Now(c) + 1))
            && forall k :: |c.trace| <= k < |r.trace| && r.trace[k].Fired? && r.trace[k].slot == i ==>
                 r.trace[k] == Fired(Now(c) + 1, i, c.table.slots[i].funct.value)
  {
    hide KeptRegistered, Guarded, CallAll, Settle;
    OnlyDueFires(c, script);
    if IsDue(c.table.slots[i], Now(c) + 1) {
      DueNow(c, i);
      var due := Due(c.table.slots, c.table.numTimers, Now(c) + 1);
      assert forall k :: 0 <= k < |due| ==> due[k] in due;
      CallAllCalls(Settle(c.(countdown := 0)), due, script, i);
    }
  }
}
