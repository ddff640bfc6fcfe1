// The countdown scheduler produces the trace of the per-tick scan.
module SchedulerEquivalence {
  import opened Wrappers
  import opened TimerTable
  import opened Countdown
  import Naive = NaiveScan

  predicate Agree(c: Clock, n: Naive.Scan) {
    c.table == n.table && Now(c) == n.now && c.trace == n.trace
  }

  // ---- Agreement as long as no slot is taken over before its turn ----

  lemma PerformAgrees(c: Clock, n: Naive.Scan, op: Op)
    requires Inv(c) && Agree(c, n)
    ensures Perform(c, op).Some? <==> Naive.Perform(n, op).Some?
    ensures Perform(c, op).Some? ==> Agree(Perform(c, op).value, Naive.Perform(n, op).value)
  {
  }

  lemma {:induction false} PerformAllAgrees(c: Clock, n: Naive.Scan, ops: seq<Op>)
    requires Inv(c) && Agree(c, n)
    ensures PerformAll(c, ops).Some? <==> Naive.PerformAll(n, ops).Some?
    ensures PerformAll(c, ops).Some? ==> Agree(PerformAll(c, ops).value, Naive.PerformAll(n, ops).value)
    decreases |ops|
  {
    hide Guarded, Apply, Legal, Perform, Naive.Perform;
    if ops != [] {
      PerformAgrees(c, n, ops[0]);
      if Perform(c, ops[0]).Some? {
        PerformAllAgrees(Perform(c, ops[0]).value, Naive.Perform(n, ops[0]).value, ops[1..]);
      }
    }
  }

  lemma CallSlotAgrees(c: Clock, n: Naive.Scan, i: nat, script: Script)
    requires Inv(c) && Agree(c, n) && !n.clash && i < MAX_TIMERS
    requires Naive.CallSlot(n, i, script).Some? && !Naive.CallSlot(n, i, script).value.clash
    ensures CallSlot(c, i, script).Some?
    ensures Agree(CallSlot(c, i, script).value, Naive.CallSlot(n, i, script).value)
  {
    hide Guarded, PerformAll, Naive.PerformAll;
    match c.table.slots[i].funct
    case None =>
    case Some(h) =>
      var c1 := c.(trace := c.trace + [Fired(Now(c), i, h)]);
      var n1 := n.(trace := n.trace + [Fired(n.now, i, h)]);
      PerformAllAgrees(c1, n1, Behaviour(script, h, c1.trace));
  }

  lemma {:induction false} CallAllAgrees(c: Clock, n: Naive.Scan, due: seq<nat>, script: Script)
    requires Inv(c) && Agree(c, n) && !n.clash && (forall k :: 0 <= k < |due| ==> due[k] < MAX_TIMERS)
    requires Naive.CallAll(n, due, script).Some? && !Naive.CallAll(n, due, script).value.clash
    ensures CallAll(c, due, script).Some?
    ensures Agree(CallAll(c, due, script).value, Naive.CallAll(n, due, script).value)
    decreases |due|
  {
    hide Guarded, CallSlot, Naive.CallSlot;
    if due != [] {
      CallSlotAgrees(c, n, due[0], script);
      CallAllAgrees(CallSlot(c, due[0], script).value, Naive.CallSlot(n, due[0], script).value, due[1..], script);
    }
  }

  lemma {:induction false} DueBelow(slots: seq<Slot>, k: nat, n: nat, now: nat)
    requires k <= n <= |slots| && (forall i :: k <= i < n ==> !slots[i].active)
    ensures Due(slots, n, now) == Due(slots, k, now)
  {
    if k < n {
      DueBelow(slots, k, n - 1, now);
    }
  }

  lemma {:induction false} NothingDue(slots: seq<Slot>, n: nat, now: nat)
    requires n <= |slots| && (forall i :: 0 <= i < n ==> !IsDue(slots[i], now))
    ensures Due(slots, n, now) == []
  {
    if n > 0 {
      NothingDue(slots, n - 1, now);
    }
  }

  // In the middle of a countdown period nothing is due.
  lemma QuietTick(c: Clock, n: Naive.Scan, script: Script)
    requires Inv(c) && Agree(c, n) && 1 < c.countdown
    ensures Naive.Tick(n, script) == Some(n.(now := n.now + 1, changed := {}))
    ensures Tick1(c, script) == Some(c.(countdown := c.countdown - 1))
  {
    NothingDue(n.table.slots, MAX_TIMERS, n.now + 1);
    assert Rearm(n.table.slots, n.now + 1) == n.table.slots;
  }

  // At its end both schedulers rearm the same timers and call the same slots.
  lemma EventTick(c: Clock, n: Naive.Scan, script: Script)
    requires Inv(c) && Agree(c, n) && c.countdown == 1 && Rearmable(n.table.slots, n.now + 1)
    ensures c.ticksTotal + c.period == n.now + 1
    ensures Agree(Settle(c.(countdown := 0)), Naive.Rearmed(n))
    ensures Tick1(c, script) == CallAll(Settle(c.(countdown := 0)), Naive.NextDue(n), script)
  {
    hide CallAll;
    DueBelow(c.table.slots, c.table.numTimers, MAX_TIMERS, n.now + 1);
  }

  lemma TickAgrees(c: Clock, n: Naive.Scan, script: Script)
    requires Inv(c) && Agree(c, n) && !n.clash
    requires Naive.Tick(n, script).Some? && !Naive.Tick(n, script).value.clash
    ensures Tick1(c, script).Some? && Agree(Tick1(c, script).value, Naive.Tick(n, script).value)
  {
    if 1 < c.countdown {
      QuietTick(c, n, script);
    } else {
      hide Guarded, CallAll, Naive.CallAll, Due, Settle, Tick1, Rearmable, Rearm, RearmSlot;
      EventTick(c, n, script);
      CallAllAgrees(Settle(c.(countdown := 0)), Naive.Rearmed(n), Naive.NextDue(n), script);
    }
  }

  lemma {:induction false} TicksAgree(c: Clock, n: Naive.Scan, k: nat, script: Script)
    requires Inv(c) && Agree(c, n) && !n.clash
    requires Naive.Ticks(n, k, script).Some? && !Naive.Ticks(n, k, script).value.clash
    ensures Ticks(c, k, script).Some? && Agree(Ticks(c, k, script).value, Naive.Ticks(n, k, script).value)
    decreases k
  {
    hide Guarded, Tick1, Naive.Tick;
    if k > 0 {
      TickAgrees(c, n, script);
      TicksAgree(Tick1(c, script).value, Naive.Tick(n, script).value, k - 1, script);
    }
  }

  lemma {:induction false} RunAgrees(c: Clock, n: Naive.Scan, cmds: seq<Cmd>, script: Script)
    requires Inv(c) && Agree(c, n) && !n.clash
    requires Naive.Run(n, cmds, script).Some? && !Naive.Run(n, cmds, script).value.clash
    ensures Run(c, cmds, script).Some? && Agree(Run(c, cmds, script).value, Naive.Run(n, cmds, script).value)
    decreases |cmds|
  {
    hide Guarded, TickN, Ticks, Naive.Ticks, Perform, Naive.Perform;
    if cmds != [] {
      match cmds[0]
      case Tick(k) =>
        TickNIsTicks(c, k, script);
        TicksAgree(c, n, k, script);
        RunAgrees(TickN(c, k, script).value, Naive.Ticks(n, k, script).value, cmds[1..], script);
      case Call(op) =>
        PerformAgrees(c, n, op);
        RunAgrees(Perform(c, op).value, Naive.Perform(n, op).value, cmds[1..], script);
    }
  }

  // ---- Disagreement as soon as one is ----

  // Nothing in the trace happened after now.
  ghost predicate Past(n: Naive.Scan) {
    forall k :: 0 <= k < |n.trace| && n.trace[k].Fired? ==> n.trace[k].time <= n.now
  }

  lemma {:induction false} CallAllDiverges(c: Clock, n: Naive.Scan, due: seq<nat>, script: Script) returns (i: nat)
    requires Inv(c) && Agree(c, n) && !n.clash
    requires (forall k :: 0 <= k < |due| ==> due[k] < MAX_TIMERS) && Ascending(due)
    requires forall k :: 0 <= k < |due| ==> !HasFired(n.trace, n.now, due[k])
    requires Naive.CallAll(n, due, script).Some? && Naive.CallAll(n, due, script).value.clash
    requires CallAll(c, due, script).Some?
    ensures HasFired(CallAll(c, due, script).value.trace, n.now, i)
    ensures !HasFired(Naive.CallAll(n, due, script).value.trace, n.now, i)
    decreases |due|
  {
    hide Guarded, PerformAll, Naive.PerformAll;
    var c1, n1 := CallSlot(c, due[0], script).value, Naive.CallSlot(n, due[0], script).value;
    Naive.CallSlotSteps(n, due[0], script);
    if n1.clash {
      i := due[0];
      CallSlotGrows(c, i, script);
      CallAllGrows(c1, due[1..], script);
      StillFired(c1.trace, CallAll(c1, due[1..], script).value.trace, n.now, i);
      Naive.CallAllSteps(n1, due[1..], script);
    } else {
      CallSlotAgrees(c, n, due[0], script);
      i := CallAllDiverges(c1, n1, due[1..], script);
    }
  }

  lemma StillFired(a: Trace, b: Trace, t: nat, i: nat)
    requires a <= b && HasFired(a, t, i)
    ensures HasFired(b, t, i)
  {
  }

  lemma TickDiverges(c: Clock, n: Naive.Scan, script: Script) returns (i: nat)
    requires Inv(c) && Agree(c, n) && !n.clash && Past(n)
    requires Naive.Tick(n, script).Some? && Naive.Tick(n, script).value.clash
    requires Tick1(c, script).Some?
    ensures HasFired(Tick1(c, script).value.trace, n.now + 1, i)
    ensures !HasFired(Naive.Tick(n, script).value.trace, n.now + 1, i)
  {
    if 1 < c.countdown {
      QuietTick(c, n, script);
      assert false;
    } else {
      hide Guarded, CallAll, Naive.CallAll, Due, Settle, Tick1, Rearmable, Rearm, RearmSlot;
      EventTick(c, n, script);
      i := CallAllDiverges(Settle(c.(countdown := 0)), Naive.Rearmed(n), Naive.NextDue(n), script);
    }
  }

  // What the scan has not called by now it never calls at that time.
  lemma TickKeeps(n: Naive.Scan, script: Script, t: nat, i: nat)
    requires WellFormed(n.table) && Naive.Tick(n, script).Some? && t <= n.now
    ensures Past(n) ==> Past(Naive.Tick(n, script).value)
    ensures !HasFired(n.trace, t, i) ==> !HasFired(Naive.Tick(n, script).value.trace, t, i)
  {
    hide Naive.Tick;
    Naive.TickSteps(n, script);
    var r := Naive.Tick(n, script).value;
    assert forall k :: 0 <= k < |n.trace| ==> r.trace[k] == n.trace[k];
  }

  lemma {:induction false} TicksKeep(n: Naive.Scan, k: nat, script: Script, t: nat, i: nat)
    requires WellFormed(n.table) && Naive.Ticks(n, k, script).Some? && t <= n.now
    ensures Past(n) ==> Past(Naive.Ticks(n, k, script).value)
    ensures !HasFired(n.trace, t, i) ==> !HasFired(Naive.Ticks(n, k, script).value.trace, t, i)
    decreases k
  {
    hide Naive.Tick, Past, HasFired;
    if k > 0 {
      TickKeeps(n, script, t, i);
      TicksKeep(Naive.Tick(n, script).value, k - 1, script, t, i);
    }
  }

  lemma PerformKeeps(n: Naive.Scan, op: Op, t: nat, i: nat)
    requires WellFormed(n.table) && Naive.Perform(n, op).Some?
    ensures Past(n) ==> Past(Naive.Perform(n, op).value)
    ensures !HasFired(n.trace, t, i) ==> !HasFired(Naive.Perform(n, op).value.trace, t, i)
  {
  }

  lemma {:induction false} RunKeeps(n: Naive.Scan, cmds: seq<Cmd>, script: Script, t: nat, i: nat)
    requires WellFormed(n.table) && Naive.Run(n, cmds, script).Some? && t <= n.now
    ensures !HasFired(n.trace, t, i) ==> !HasFired(Naive.Run(n, cmds, script).value.trace, t, i)
    decreases |cmds|
  {
    hide Naive.Ticks, Naive.Perform, Past, HasFired;
    if cmds != [] {
      match cmds[0]
      case Tick(k) =>
        TicksKeep(n, k, script, t, i);
        RunKeeps(Naive.Ticks(n, k, script).value, cmds[1..], script, t, i);
      case Call(op) =>
        PerformKeeps(n, op, t, i);
        RunKeeps(Naive.Perform(n, op).value, cmds[1..], script, t, i);
    }
  }

  lemma {:induction false} TicksDiverge(c: Clock, n: Naive.Scan, k: nat, script: Script) returns (t: nat, i: nat)
    requires Inv(c) && Agree(c, n) && !n.clash && Past(n)
    requires Naive.Ticks(n, k, script).Some? && Naive.Ticks(n, k, script).value.clash
    requires Ticks(c, k, script).Some?
    ensures t <= Naive.Ticks(n, k, script).value.now
    ensures HasFired(Ticks(c, k, script).value.trace, t, i)
    ensures !HasFired(Naive.Ticks(n, k, script).value.trace, t, i)
    decreases k
  {
    hide Guarded, Tick1, Naive.Tick, HasFired, Past;
    var c1, n1 := Tick1(c, script).value, Naive.Tick(n, script).value;
    if n1.clash {
      t := n1.now;
      i := TickDiverges(c, n, script);
      TickNIsTicks(c1, k - 1, script);
      TickNGrows(c1, k - 1, script);
      StillFired(c1.trace, Ticks(c, k, script).value.trace, t, i);
      TicksKeep(n1, k - 1, script, t, i);
    } else {
      TickAgrees(c, n, script);
      TickKeeps(n, script, 0, 0);
      t, i := TicksDiverge(c1, n1, k - 1, script);
    }
  }

  lemma {:induction false} RunDiverges(c: Clock, n: Naive.Scan, cmds: seq<Cmd>, script: Script) returns (t: nat, i: nat)
    requires Inv(c) && Agree(c, n) && !n.clash && Past(n)
    requires Naive.Run(n, cmds, script).Some? && Naive.Run(n, cmds, script).value.clash
    requires Run(c, cmds, script).Some?
    ensures HasFired(Run(c, cmds, script).value.trace, t, i)
    ensures !HasFired(Naive.Run(n, cmds, script).value.trace, t, i)
    decreases |cmds|
  {
    hide Guarded, TickN, Ticks, Naive.Ticks, Perform, Naive.Perform, HasFired, Past;
    match cmds[0]
    case Tick(k) =>
      var c1, n1 := TickN(c, k, script).value, Naive.Ticks(n, k, script).value;
      TickNIsTicks(c, k, script);
      if n1.clash {
        t, i := TicksDiverge(c, n, k, script);
        RunGrows(c1, cmds[1..], script);
        StillFired(c1.trace, Run(c1, cmds[1..], script).value.trace, t, i);
        RunKeeps(n1, cmds[1..], script, t, i);
      } else {
        TicksAgree(c, n, k, script);
        TicksKeep(n, k, script, 0, 0);
        t, i := RunDiverges(c1, n1, cmds[1..], script);
      }
    case Call(op) =>
      PerformAgrees(c, n, op);
      PerformKeeps(n, op, 0, 0);
      t, i := RunDiverges(Perform(c, op).value, Naive.Perform(n, op).value, cmds[1..], script);
  }

  // ---- Runs that come to an illegal call ----

  lemma CallSlotFails(c: Clock, n: Naive.Scan, i: nat, script: Script)
    requires Inv(c) && Agree(c, n) && i < MAX_TIMERS && Naive.CallSlot(n, i, script).None?
    ensures CallSlot(c, i, script).None?
  {
    hide Guarded, PerformAll, Naive.PerformAll;
    var h := c.table.slots[i].funct.value;
    var c1 := c.(trace := c.trace + [Fired(Now(c), i, h)]);
    var n1 := n.(trace := n.trace + [Fired(n.now, i, h)]);
    PerformAllAgrees(c1, n1, Behaviour(script, h, c1.trace));
  }

  lemma {:induction false} CallAllClash(c: Clock, n: Naive.Scan, due: seq<nat>, script: Script)
    requires Inv(c) && Agree(c, n) && !n.clash && (forall k :: 0 <= k < |due| ==> due[k] < MAX_TIMERS)
    ensures var r := Naive.CallAll(n, due, script);
            && (r.Some? ==> (r.value.clash <==> Naive.CallAllClashes(n, due, script)))
            && (r.None? && CallAll(c, due, script).Some? ==> Naive.CallAllClashes(n, due, script))
    decreases |due|
  {
    hide Guarded, CallSlot, Naive.CallSlot;
    if due != [] {
      var n1 := Naive.CallSlot(n, due[0], script);
      if n1.None? {
        CallSlotFails(c, n, due[0], script);
      } else if !n1.value.clash {
        CallSlotAgrees(c, n, due[0], script);
        CallAllClash(CallSlot(c, due[0], script).value, n1.value, due[1..], script);
      }
    }
  }

  lemma TickClash(c: Clock, n: Naive.Scan, script: Script)
    requires Inv(c) && Agree(c, n) && !n.clash
    ensures var r := Naive.Tick(n, script);
            && (r.Some? ==> (r.value.clash <==> Naive.TickClashes(n, script)))
            && (r.None? && Tick1(c, script).Some? ==> Naive.TickClashes(n, script))
  {
    if 1 < c.countdown {
      QuietTick(c, n, script);
      NothingDue(n.table.slots, MAX_TIMERS, n.now + 1);
    } else if Rearmable(n.table.slots, n.now + 1) {
      hide Guarded, CallAll, Naive.CallAll, Due, Settle, Tick1, Rearmable, Rearm, RearmSlot, Naive.CallAllClashes;
      EventTick(c, n, script);
      CallAllClash(Settle(c.(countdown := 0)), Naive.Rearmed(n), Naive.NextDue(n), script);
    }
  }

  lemma {:induction false} TicksClash(c: Clock, n: Naive.Scan, k: nat, script: Script)
    requires Inv(c) && Agree(c, n) && !n.clash
    ensures var r := Naive.Ticks(n, k, script);
            && (r.Some? ==> (r.value.clash <==> Naive.TicksClash(n, k, script)))
            && (r.None? && Ticks(c, k, script).Some? ==> Naive.TicksClash(n, k, script))
    decreases k
  {
    hide Guarded, Tick1, Naive.Tick, Naive.TickClashes;
    if k > 0 {
      TickClash(c, n, script);
      var n1 := Naive.Tick(n, script);
      if n1.Some? && !n1.value.clash {
        TickAgrees(c, n, script);
        TicksClash(Tick1(c, script).value, n1.value, k - 1, script);
      }
    }
  }

  lemma {:induction false} RunClash(c: Clock, n: Naive.Scan, cmds: seq<Cmd>, script: Script)
    requires Inv(c) && Agree(c, n) && !n.clash
    ensures var r := Naive.Run(n, cmds, script);
            && (r.Some? ==> (r.value.clash <==> Naive.RunClashes(n, cmds, script)))
            && (r.None? && Run(c, cmds, script).Some? ==> Naive.RunClashes(n, cmds, script))
    decreases |cmds|
  {
    hide Guarded, TickN, Ticks, Naive.Ticks, Naive.TicksClash, Perform, Naive.Perform;
    if cmds != [] {
      match cmds[0]
      case Tick(k) =>
        TickNIsTicks(c, k, script);
        TicksClash(c, n, k, script);
        var n1 := Naive.Ticks(n, k, script);
        if n1.Some? && !n1.value.clash {
          TicksAgree(c, n, k, script);
          RunClash(TickN(c, k, script).value, n1.value, cmds[1..], script);
        }
      case Call(op) =>
        PerformAgrees(c, n, op);
        if Perform(c, op).Some? {
          RunClash(Perform(c, op).value, Naive.Perform(n, op).value, cmds[1..], script);
        }
    }
  }

  // ---- The first take-over ----

  // The two schedulers still agree, it is the turn of slot `i`, and another timer has taken it: the
  // countdown scheduler calls that timer's handler and the scan passes the slot over.
  ghost predicate TakenOver(c: Clock, n: Naive.Scan, i: nat) {
    Inv(c) && Agree(c, n) && !n.clash && i < MAX_TIMERS && i in n.changed && c.table.slots[i].funct.Some?
  }

  lemma {:induction false} CallAllFirst(c: Clock, n: Naive.Scan, due: seq<nat>, script: Script)
      returns (j: nat, c1: Clock, n1: Naive.Scan)
    requires Inv(c) && Agree(c, n) && !n.clash && (forall k :: 0 <= k < |due| ==> due[k] < MAX_TIMERS)
    requires Naive.CallAllClashes(n, due, script)
    ensures j < |due| && CallAll(c, due[..j], script) == Some(c1) && Naive.CallAll(n, due[..j], script) == Some(n1)
    ensures TakenOver(c1, n1, due[j])
    decreases |due|
  {
    hide Guarded, PerformAll, Naive.PerformAll;
    var n' := Naive.CallSlot(n, due[0], script).value;
    if n'.clash {
      j, c1, n1 := 0, c, n;
    } else {
      CallSlotAgrees(c, n, due[0], script);
      var i;
      i, c1, n1 := CallAllFirst(CallSlot(c, due[0], script).value, n', due[1..], script);
      j := i + 1;
      assert due[..j][1..] == due[1..][..i];
    }
  }

  lemma {:induction false} TicksFirst(c: Clock, n: Naive.Scan, k: nat, script: Script)
      returns (m: nat, c1: Clock, n1: Naive.Scan)
    requires Inv(c) && Agree(c, n) && !n.clash && Naive.TicksClash(n, k, script)
    ensures m < k && Ticks(c, m, script) == Some(c1) && Naive.Ticks(n, m, script) == Some(n1)
    ensures Inv(c1) && Agree(c1, n1) && !n1.clash && Naive.TickClashes(n1, script)
    decreases k
  {
    hide Guarded, Tick1, Naive.Tick, Naive.TickClashes;
    if Naive.TickClashes(n, script) {
      m, c1, n1 := 0, c, n;
    } else {
      TickClash(c, n, script);
      TickAgrees(c, n, script);
      var i;
      i, c1, n1 := TicksFirst(Tick1(c, script).value, Naive.Tick(n, script).value, k - 1, script);
      m := i + 1;
    }
  }

  // `part` is `cmds` up to some point in the middle of a series of ticks.
  predicate UpTo(part: seq<Cmd>, cmds: seq<Cmd>) {
    && 1 <= |part| <= |cmds| && part[..|part| - 1] == cmds[..|part| - 1]
    && part[|part| - 1].Tick? && cmds[|part| - 1].Tick? && part[|part| - 1].n < cmds[|part| - 1].n
  }

  lemma {:induction false} RunFirst(c: Clock, n: Naive.Scan, cmds: seq<Cmd>, script: Script)
      returns (part: seq<Cmd>, c1: Clock, n1: Naive.Scan)
    requires Inv(c) && Agree(c, n) && !n.clash && Naive.RunClashes(n, cmds, script)
    ensures UpTo(part, cmds) && Run(c, part, script) == Some(c1) && Naive.Run(n, part, script) == Some(n1)
    ensures Inv(c1) && Agree(c1, n1) && !n1.clash && Naive.TickClashes(n1, script)
    decreases |cmds|
  {
    hide Guarded, TickN, Ticks, Naive.Ticks, Naive.TicksClash, Naive.TickClashes, Perform, Naive.Perform;
    if cmds[0].Tick? && Naive.TicksClash(n, cmds[0].n, script) {
      var m;
      m, c1, n1 := TicksFirst(c, n, cmds[0].n, script);
      part := [Tick(m)];
      TickNIsTicks(c, m, script);
      assert Run(c1, part[1..], script) == Some(c1) && Naive.Run(n1, part[1..], script) == Some(n1);
    } else {
      var c', n';
      match cmds[0] {
        case Tick(k) =>
          TickNIsTicks(c, k, script);
          TicksClash(c, n, k, script);
          TicksAgree(c, n, k, script);
          c', n' := TickN(c, k, script).value, Naive.Ticks(n, k, script).value;
        case Call(op) =>
          PerformAgrees(c, n, op);
          c', n' := Perform(c, op).value, Naive.Perform(n, op).value;
      }
      var rest;
      rest, c1, n1 := RunFirst(c', n', cmds[1..], script);
      part := [cmds[0]] + rest;
      assert part[1..] == rest;
      UpToMore(rest, cmds);
    }
  }

  lemma UpToMore(rest: seq<Cmd>, cmds: seq<Cmd>)
    requires |cmds| > 0 && UpTo(rest, cmds[1..])
    ensures UpTo([cmds[0]] + rest, cmds)
  {
    var part := [cmds[0]] + rest;
    assert part[..|part| - 1] == [cmds[0]] + rest[..|rest| - 1];
    assert cmds[..|part| - 1] == [cmds[0]] + cmds[1..][..|rest| - 1];
  }

  // What the two do with the slot then.
  ghost predicate PartWays(c: Clock, n: Naive.Scan, i: nat, script: Script) {
    && TakenOver(c, n, i)
    && var h := c.table.slots[i].funct.value;
       var called := c.(trace := c.trace + [Fired(Now(c), i, h)]);
       && CallSlot(c, i, script) == PerformAll(called, Behaviour(script, h, called.trace))
       && Naive.CallSlot(n, i, script) == Some(n.(clash := true))
  }

  lemma TakenOverDiffers(c: Clock, n: Naive.Scan, i: nat, script: Script)
    requires TakenOver(c, n, i)
    ensures PartWays(c, n, i, script)
  {
    hide Guarded, PerformAll;
  }

  lemma ClashIsEvent(c: Clock, n: Naive.Scan, script: Script)
    requires Inv(c) && Agree(c, n) && Naive.TickClashes(n, script)
    ensures c.countdown == 1
  {
  }

  // In every run with a take-over, whatever becomes of it later, there is a first one. Up to it both
  // schedulers do the same and nothing illegal; there the one calls a handler that the other does not.
  lemma FirstTakeOver(cmds: seq<Cmd>, script: Script)
      returns (part: seq<Cmd>, c: Clock, n: Naive.Scan, j: nat, c1: Clock, n1: Naive.Scan)
    requires Naive.RunClashes(Naive.Start(Initial()), cmds, script)
    ensures UpTo(part, cmds) && Run(Initial(), part, script) == Some(c)
    ensures Naive.Run(Naive.Start(Initial()), part, script) == Some(n)
    ensures Inv(c) && Agree(c, n) && c.countdown == 1 && Rearmable(n.table.slots, n.now + 1) && j < |Naive.NextDue(n)|
    ensures Tick1(c, script) == CallAll(Settle(c.(countdown := 0)), Naive.NextDue(n), script)
    ensures CallAll(Settle(c.(countdown := 0)), Naive.NextDue(n)[..j], script) == Some(c1)
    ensures Naive.CallAll(Naive.Rearmed(n), Naive.NextDue(n)[..j], script) == Some(n1)
    ensures PartWays(c1, n1, Naive.NextDue(n)[j], script)
  {
    hide PartWays;
    hide Guarded, CallAll, Naive.CallAll, Due, Settle, Tick1, Rearmable, Rearm, RearmSlot, Naive.CallAllClashes, Run;
    part, c, n := RunFirst(Initial(), Naive.Start(Initial()), cmds, script);
    ClashIsEvent(c, n, script);
    EventTick(c, n, script);
    j, c1, n1 := CallAllFirst(Settle(c.(countdown := 0)), Naive.Rearmed(n), Naive.NextDue(n), script);
    TakenOverDiffers(c1, n1, Naive.NextDue(n)[j], script);
  }

  // ---- The main result ----

  // From the initial state, for every run and every script of callbacks: as long as no callback puts a
  // new timer into a slot that is due in the same tick and not yet called, the countdown scheduler can
  // make the run exactly when the per-tick scan can, and then with the same table, time and trace.
  // After such a take-over the traces of the two differ.
  lemma SameTraceIffNoClash(cmds: seq<Cmd>, script: Script)
    ensures var start := Naive.Start(Initial());
            var n, c := Naive.Run(start, cmds, script), Run(Initial(), cmds, script);
            && (!Naive.RunClashes(start, cmds, script) ==>
                  (c.Some? <==> n.Some?) && (c.Some? ==> Agree(c.value, n.value)))
            && (c.Some? && n.Some? ==> (c.value.trace == n.value.trace <==> !Naive.RunClashes(start, cmds, script)))
            && (n.Some? ==> (n.value.clash <==> Naive.RunClashes(start, cmds, script)))
  {
    hide Guarded, Run, Naive.Run, HasFired;
    var c0, n0 := Initial(), Naive.Start(Initial());
    var n := Naive.Run(n0, cmds, script);
    RunClash(c0, n0, cmds, script);
    if n.Some? {
      if !n.value.clash {
        RunAgrees(c0, n0, cmds, script);
      } else if Run(c0, cmds, script).Some? {
        var t, i := RunDiverges(c0, n0, cmds, script);
      }
    }
  }

  // ---- Runs that cannot clash ----

  // No callback registers a timer.
  ghost predicate NeverRegisters(script: Script) {
    forall id, trace, k :: 0 <= k < |script(id, trace)| ==> !script(id, trace)[k].Register?
  }

  // Of the slots whose registration has changed in this tick, none has a handler.
  ghost predicate Vacated(n: Naive.Scan) {
    WellFormed(n.table) && !n.clash && forall i :: i in n.changed && i < MAX_TIMERS ==> n.table.slots[i].funct.None?
  }

  lemma {:induction false} PerformAllVacated(n: Naive.Scan, ops: seq<Op>)
    requires Vacated(n) && (forall k :: 0 <= k < |ops| ==> !ops[k].Register?) && Naive.PerformAll(n, ops).Some?
    ensures Vacated(Naive.PerformAll(n, ops).value)
    decreases |ops|
  {
    if ops != [] {
      PerformAllVacated(Naive.Perform(n, ops[0]).value, ops[1..]);
    }
  }

  lemma {:induction false} CallAllVacated(n: Naive.Scan, due: seq<nat>, script: Script)
    requires Vacated(n) && NeverRegisters(script) && (forall k :: 0 <= k < |due| ==> due[k] < MAX_TIMERS)
    ensures !Naive.CallAllClashes(n, due, script)
    ensures Naive.CallAll(n, due, script).Some? ==> !Naive.CallAll(n, due, script).value.clash
    decreases |due|
  {
    hide Naive.PerformAll;
    if due != [] && Naive.CallSlot(n, due[0], script).Some? {
      match n.table.slots[due[0]].funct {
        case None =>
        case Some(h) =>
          var n1 := n.(trace := n.trace + [Fired(n.now, due[0], h)]);
          PerformAllVacated(n1, Behaviour(script, h, n1.trace));
      }
      CallAllVacated(Naive.CallSlot(n, due[0], script).value, due[1..], script);
    }
  }

  lemma {:induction false} TicksVacated(n: Naive.Scan, k: nat, script: Script)
    requires WellFormed(n.table) && !n.clash && NeverRegisters(script)
    ensures !Naive.TicksClash(n, k, script)
    ensures Naive.Ticks(n, k, script).Some? ==> !Naive.Ticks(n, k, script).value.clash
    decreases k
  {
    hide Naive.CallAll, Naive.CallAllClashes, NeverRegisters, Rearmable;
    if k > 0 {
      CallAllVacated(Naive.Rearmed(n), Naive.NextDue(n), script);
      if Naive.Tick(n, script).Some? {
        TicksVacated(Naive.Tick(n, script).value, k - 1, script);
      }
    }
  }

  lemma {:induction false} RunVacated(n: Naive.Scan, cmds: seq<Cmd>, script: Script)
    requires WellFormed(n.table) && !n.clash && NeverRegisters(script)
    ensures !Naive.RunClashes(n, cmds, script)
    decreases |cmds|
  {
    hide Naive.Ticks, Naive.TicksClash, Naive.Perform, NeverRegisters;
    if cmds != [] {
      match cmds[0]
      case Tick(k) =>
        TicksVacated(n, k, script);
        if Naive.Ticks(n, k, script).Some? {
          RunVacated(Naive.Ticks(n, k, script).value, cmds[1..], script);
        }
      case Call(op) =>
        if Naive.Perform(n, op).Some? {
          RunVacated(Naive.Perform(n, op).value, cmds[1..], script);
        }
    }
  }

  // If no callback registers timers, the two schedulers agree on every run.
  lemma SameTraceIfNoneRegisters(cmds: seq<Cmd>, script: Script)
    requires NeverRegisters(script)
    ensures var n, c := Naive.Run(Naive.Start(Initial()), cmds, script), Run(Initial(), cmds, script);
            (c.Some? <==> n.Some?) && (c.Some? ==> Agree(c.value, n.value))
  {
    hide Run, Naive.Run, Naive.RunClashes, NeverRegisters;
    RunVacated(Naive.Start(Initial()), cmds, script);
    SameTraceIffNoClash(cmds, script);
  }
}
