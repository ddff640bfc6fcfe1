// The scheduler that the countdown speeds up: at every tick look at all the slots, and call
// those whose fire time is now, in ascending order.
module NaiveScan {
  import opened Wrappers
  import opened TimerTable
  import opened Countdown

  // changed: the slots registered or unregistered since the tick began. A timer that was due but
  // is gone by its turn is not called; `clash` records that another one had taken its slot.
  datatype Scan = Scan(table: Table, now: nat, trace: Trace, changed: set<nat>, clash: bool)

  // The slot whose registration an operation changes.
  function Changes(op: Op, result: int): set<nat> {
    match op
    case Register(_, _, _, _) => if result >= 0 then {result} else {}
    case Unregister(i) => if result == 1 then {i} else {}
    case _ => {}
  }

  function Perform(n: Scan, op: Op): (r: Option<Scan>)
    requires WellFormed(n.table)
    ensures r.Some? ==> WellFormed(r.value.table) && r.value.now == n.now && r.value.clash == n.clash
  {
    if !Legal(n.table, n.now, op) then None
    else
      var Applied(table, result) := Apply(n.table, n.now, op);
      Some(n.(table := table, trace := n.trace + [Called(op, result)], changed := n.changed + Changes(op, result)))
  }

  function PerformAll(n: Scan, ops: seq<Op>): (r: Option<Scan>)
    requires WellFormed(n.table)
    ensures r.Some? ==> WellFormed(r.value.table) && r.value.now == n.now && r.value.clash == n.clash
    decreases |ops|
  {
    if ops == [] then Some(n)
    else
      var n1 :- Perform(n, ops[0]);
      PerformAll(n1, ops[1..])
  }

  function CallSlot(n: Scan, i: nat, script: Script): (r: Option<Scan>)
    requires WellFormed(n.table) && i < MAX_TIMERS
    ensures r.Some? ==> WellFormed(r.value.table) && r.value.now == n.now
    ensures r.Some? && n.clash ==> r.value.clash
  {
    match n.table.slots[i].funct
    case None => Some(n)
    case Some(h) =>
      if i in n.changed then Some(n.(clash := true))
      else
        var n1 := n.(trace := n.trace + [Fired(n.now, i, h)]);
        PerformAll(n1, Behaviour(script, h, n1.trace))
  }

  function CallAll(n: Scan, due: seq<nat>, script: Script): (r: Option<Scan>)
    requires WellFormed(n.table) && forall k :: 0 <= k < |due| ==> due[k] < MAX_TIMERS
    ensures r.Some? ==> WellFormed(r.value.table) && r.value.now == n.now
    ensures r.Some? && n.clash ==> r.value.clash
    decreases |due|
  {
    if due == [] then Some(n)
    else
      var n1 :- CallSlot(n, due[0], script);
      CallAll(n1, due[1..], script)
  }

  // The slots called at the next tick, in order.
  function NextDue(n: Scan): (due: seq<nat>)
    requires WellFormed(n.table)
    ensures forall k :: 0 <= k < |due| ==> due[k] < MAX_TIMERS && IsDue(n.table.slots[due[k]], n.now + 1)
    ensures forall k :: 0 <= k < MAX_TIMERS && IsDue(n.table.slots[k], n.now + 1) ==> k in due
    ensures Ascending(due)
  {
    var due := Due(n.table.slots, MAX_TIMERS, n.now + 1);
    assert forall k :: 0 <= k < |due| ==> due[k] in due;
    due
  }

  function Rearmed(n: Scan): (r: Scan)
    requires WellFormed(n.table)
    ensures WellFormed(r.table)
  {
    Scan(Table(Rearm(n.table.slots, n.now + 1), n.table.numTimers), n.now + 1, n.trace, {}, n.clash)
  }

  function Tick(n: Scan, script: Script): (r: Option<Scan>)
    requires WellFormed(n.table)
    ensures r.Some? ==> WellFormed(r.value.table) && r.value.now == n.now + 1
    ensures r.Some? && n.clash ==> r.value.clash
  {
    if !Rearmable(n.table.slots, n.now + 1) then None
    else CallAll(Rearmed(n), NextDue(n), script)
  }

  function Ticks(n: Scan, k: nat, script: Script): (r: Option<Scan>)
    requires WellFormed(n.table)
    ensures r.Some? ==> WellFormed(r.value.table) && r.value.now == n.now + k
    ensures r.Some? && n.clash ==> r.value.clash
    decreases k
  {
    if k == 0 then Some(n)
    else
      var n1 :- Tick(n, script);
      Ticks(n1, k - 1, script)
  }

  function Run(n: Scan, cmds: seq<Cmd>, script: Script): (r: Option<Scan>)
    requires WellFormed(n.table)
    ensures r.Some? ==> WellFormed(r.value.table) && r.value.now >= n.now
    ensures r.Some? && n.clash ==> r.value.clash
    decreases |cmds|
  {
    if cmds == [] then Some(n)
    else
      var n1 :- match cmds[0] case Tick(k) => Ticks(n, k, script) case Call(op) => Perform(n, op);
      Run(n1, cmds[1..], script)
  }

  function Start(c: Clock): Scan
    requires Now(c) >= 0
  {
    Scan(c.table, Now(c), c.trace, {}, false)
  }

  // ---- Clashes ----

  // While the slots `due` are called, one of them is found taken over by another timer. Unlike the
  // flag of the final state this also speaks about runs that come to an illegal call later on.
  predicate CallAllClashes(n: Scan, due: seq<nat>, script: Script)
    requires WellFormed(n.table) && forall k :: 0 <= k < |due| ==> due[k] < MAX_TIMERS
    decreases |due|
  {
    && due != [] && CallSlot(n, due[0], script).Some?
    && var n1 := CallSlot(n, due[0], script).value;
       n1.clash || CallAllClashes(n1, due[1..], script)
  }

  predicate TickClashes(n: Scan, script: Script)
    requires WellFormed(n.table)
  {
    Rearmable(n.table.slots, n.now + 1) && CallAllClashes(Rearmed(n), NextDue(n), script)
  }

  predicate TicksClash(n: Scan, k: nat, script: Script)
    requires WellFormed(n.table)
    decreases k
  {
    k > 0 && (TickClashes(n, script) || (Tick(n, script).Some? && TicksClash(Tick(n, script).value, k - 1, script)))
  }

  predicate RunClashes(n: Scan, cmds: seq<Cmd>, script: Script)
    requires WellFormed(n.table)
    decreases |cmds|
  {
    && cmds != []
    && match cmds[0]
       case Tick(k) =>
         TicksClash(n, k, script) || (Ticks(n, k, script).Some? && RunClashes(Ticks(n, k, script).value, cmds[1..], script))
       case Call(op) => Perform(n, op).Some? && RunClashes(Perform(n, op).value, cmds[1..], script)
  }

  // ---- What a tick of the scan does, without reference to how it does it ----

  lemma {:induction false} PerformAllSteps(n: Scan, ops: seq<Op>)
    requires WellFormed(n.table) && PerformAll(n, ops).Some?
    ensures var r := PerformAll(n, ops).value;
            && n.trace <= r.trace && n.changed <= r.changed
            && (forall k :: |n.trace| <= k < |r.trace| ==> r.trace[k].Called?)
            && forall i :: 0 <= i < MAX_TIMERS && i !in r.changed ==> r.table.slots[i].funct == n.table.slots[i].funct
    decreases |ops|
  {
    if ops != [] {
      PerformAllSteps(Perform(n, ops[0]).value, ops[1..]);
    }
  }

  lemma {:induction false} CallAllSteps(n: Scan, due: seq<nat>, script: Script)
    requires WellFormed(n.table) && (forall k :: 0 <= k < |due| ==> due[k] < MAX_TIMERS) && Ascending(due)
    requires CallAll(n, due, script).Some?
    ensures var r := CallAll(n, due, script).value;
            && n.trace <= r.trace && n.changed <= r.changed
            && (forall k :: |n.trace| <= k < |r.trace| && r.trace[k].Fired? ==>
                  r.trace[k].time == n.now && r.trace[k].slot in due)
            && (forall j, k :: |n.trace| <= j < k < |r.trace| && r.trace[j].Fired? && r.trace[k].Fired? ==>
                  r.trace[j].slot < r.trace[k].slot)
            && (forall k :: 0 <= k < |due| && n.table.slots[due[k]].funct.Some? && due[k] !in r.changed ==>
                  HasFired(r.trace, n.now, due[k]))
    decreases |due|
  {
    if due != [] {
      var n1 := CallSlot(n, due[0], script).value;
      var r := CallAll(n, due, script).value;
      CallSlotSteps(n, due[0], script);
      CallAllSteps(n1, due[1..], script);
      forall k | 0 <= k < |due| && n.table.slots[due[k]].funct.Some? && due[k] !in r.changed
        ensures HasFired(r.trace, n.now, due[k])
      {
        if k == 0 {
          assert r.trace[|n.trace|].slot == due[0];
        } else {
          assert due[k] == due[1..][k - 1];
        }
      }
    }
  }

  lemma CallSlotSteps(n: Scan, i: nat, script: Script)
    requires WellFormed(n.table) && i < MAX_TIMERS && CallSlot(n, i, script).Some?
    ensures var r := CallSlot(n, i, script).value;
            && n.trace <= r.trace && n.changed <= r.changed
            && (forall k :: |n.trace| < k < |r.trace| ==> r.trace[k].Called?)
            && (|n.trace| < |r.trace| ==> r.trace[|n.trace|].Fired? && r.trace[|n.trace|].time == n.now
                                          && r.trace[|n.trace|].slot == i)
            && (n.table.slots[i].funct.Some? && i !in n.changed ==> |n.trace| < |r.trace|)
            && forall j :: 0 <= j < MAX_TIMERS && j !in r.changed ==> r.table.slots[j].funct == n.table.slots[j].funct
  {
    match n.table.slots[i].funct
    case None =>
    case Some(h) =>
      if i !in n.changed {
        var n1 := n.(trace := n.trace + [Fired(n.now, i, h)]);
        PerformAllSteps(n1, Behaviour(script, h, n1.trace));
      }
  }

  // A tick calls only timers that are due then, in ascending slot order and so each at most
  // once, and calls every due timer that is still registered as it was when the tick began.
  lemma TickSteps(n: Scan, script: Script)
    requires WellFormed(n.table) && Tick(n, script).Some?
    ensures var r := Tick(n, script).value;
            && n.trace <= r.trace
            && (forall k :: |n.trace| <= k < |r.trace| && r.trace[k].Fired? ==>
                  && r.trace[k].time == n.now + 1 && r.trace[k].slot < MAX_TIMERS
                  && IsDue(n.table.slots[r.trace[k].slot], n.now + 1))
            && (forall j, k :: |n.trace| <= j < k < |r.trace| && r.trace[j].Fired? && r.trace[k].Fired? ==>
                  r.trace[j].slot < r.trace[k].slot)
            && (forall i :: 0 <= i < MAX_TIMERS && IsDue(n.table.slots[i], n.now + 1)
                            && n.table.slots[i].funct.Some? && i !in r.changed ==>
                  HasFired(r.trace, n.now + 1, i))
  {
    CallAllSteps(Rearmed(n), NextDue(n), script);
  }
}
