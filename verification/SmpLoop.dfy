// The multiprocessor branch of `bx_sim_loop` (bochs/main.cc), which feeds the clock.
module SmpLoop {
  import opened Wrappers
  import opened Machine
  import opened TimerTable
  import opened Countdown
  import opened PcSystem

  datatype Smp = Smp(clock: Clock, executed: nat, processor: nat)

  // What a processor that ran `instructions` is charged, in 32 bits; a halted one is charged the quantum.
  function Charge(instructions: nat, quantum: nat): (n: nat)
    ensures n < TWO32
  {
    if U32(instructions) == 0 then U32(quantum) else U32(instructions)
  }

  function Charged(traces: seq<nat>, quantum: nat): nat {
    if traces == [] then 0 else Charge(traces[0], quantum) + Charged(traces[1..], quantum)
  }

  // The account of one turn: what is charged is what was run, and the quantum for a turn whose count came
  // out as zero, less 2^32 for every time that count overran its 32 bits.
  function Idle(instructions: nat, quantum: nat): nat {
    if U32(instructions) == 0 then U32(quantum) else 0
  }

  function Overrun(instructions: nat): nat {
    instructions / TWO32
  }

  // The same for a run.
  function Ran(traces: seq<nat>): nat {
    if traces == [] then 0 else traces[0] + Ran(traces[1..])
  }

  function Idled(traces: seq<nat>, quantum: nat): nat {
    if traces == [] then 0 else Idle(traces[0], quantum) + Idled(traces[1..], quantum)
  }

  function Overruns(traces: seq<nat>): nat {
    if traces == [] then 0 else Overrun(traces[0]) + Overruns(traces[1..])
  }

  lemma {:induction false} ChargedIs(traces: seq<nat>, quantum: nat)
    ensures Charged(traces, quantum) + TWO32 * Overruns(traces) == Ran(traces) + Idled(traces, quantum)
  {
    if traces != [] {
      ChargedIs(traces[1..], quantum);
      assert traces[0] == TWO32 * Overrun(traces[0]) + U32(traces[0]);
    }
  }

  // A turn is charged the instructions it ran exactly when it ran some and their count fits in 32 bits,
  // or ran none and the quantum is nothing.
  lemma ChargeIsExactIff(instructions: nat, quantum: nat)
    ensures Charge(instructions, quantum) == instructions
            <==> 0 < instructions < TWO32 || (instructions == 0 && U32(quantum) == 0)
  {
  }

  // The ticks a round of `executed` instructions amounts to, and what is left over.
  function Share(executed: nat, count: nat): (ticks: nat)
    requires count >= 1
    ensures ticks <= executed && ticks * count <= executed < ticks * count + count
  {
    assert executed == (executed / count) * count + executed % count;
    executed / count
  }

  function Left(executed: nat, count: nat): (left: nat)
    requires count >= 1
    ensures left < count && left == executed - Share(executed, count) * count
  {
    assert executed == (executed / count) * count + executed % count;
    executed % count
  }

  // One pass of the loop body on `count` processors.
  function Step(s: Smp, instructions: nat, count: nat, quantum: nat, script: Script): (r: Option<Smp>)
    requires count >= 1 && Inv(s.clock)
    ensures r.Some? ==> Inv(r.value.clock)
  {
    var executed := U32(s.executed + Charge(instructions, quantum));
    if s.processor + 1 == count then
      var clock :- TickN(s.clock, Share(executed, count), script);
      Some(Smp(clock, Left(executed, count), 0))
    else Some(Smp(s.clock, executed, s.processor + 1))
  }

  function Steps(s: Smp, traces: seq<nat>, count: nat, quantum: nat, script: Script): (r: Option<Smp>)
    requires count >= 1 && Inv(s.clock)
    ensures r.Some? ==> Inv(r.value.clock)
    decreases |traces|
  {
    if traces == [] then Some(s)
    else
      var s1 :- Step(s, traces[0], count, quantum, script);
      Steps(s1, traces[1..], count, quantum, script)
  }

  // Whether the 32-bit sum wraps in a pass, and how often it does in a run.
  function Wrap(s: Smp, instructions: nat, quantum: nat): nat {
    if s.executed + Charge(instructions, quantum) < TWO32 then 0 else 1
  }

  function Wraps(s: Smp, traces: seq<nat>, count: nat, quantum: nat, script: Script): nat
    requires count >= 1 && Inv(s.clock)
    decreases |traces|
  {
    if traces == [] then 0
    else Wrap(s, traces[0], quantum) + match Step(s, traces[0], count, quantum, script)
                                       case None => 0
                                       case Some(s1) => Wraps(s1, traces[1..], count, quantum, script)
  }

  lemma StepConserves(s: Smp, instructions: nat, count: nat, quantum: nat, script: Script)
    requires count >= 1 && Inv(s.clock) && s.executed < TWO32 && Step(s, instructions, count, quantum, script).Some?
    ensures var r := Step(s, instructions, count, quantum, script).value;
            && Now(r.clock) >= Now(s.clock) && r.executed < TWO32
            && (Now(r.clock) - Now(s.clock)) * count + r.executed + TWO32 * Wrap(s, instructions, quantum)
               == s.executed + Charge(instructions, quantum)
            && (s.processor < count ==> r.processor < count) && (r.processor == 0 ==> r.executed < count)
  {
    hide Guarded, TickN, Share, Left, Charge, U32;
    Narrowed(s.executed, Charge(instructions, quantum));
  }

  lemma Narrowed(a: nat, b: nat)
    requires a < TWO32 && b < TWO32
    ensures U32(a + b) == if a + b < TWO32 then a + b else a + b - TWO32
  {
  }

  // At every pass of the loop the ticks delivered, times the number of processors, plus the
  // remainder carried, are the instructions charged so far, less 2^32 for every time the sum has
  // wrapped; at the end of a round the remainder is less than one tick. So time is conserved exactly in
  // runs without a wrap.
  lemma {:induction false} TicksConserved(s: Smp, traces: seq<nat>, count: nat, quantum: nat, script: Script)
    requires count >= 1 && Inv(s.clock) && s.executed < TWO32 && Steps(s, traces, count, quantum, script).Some?
    ensures var r := Steps(s, traces, count, quantum, script).value;
            && Now(r.clock) >= Now(s.clock)
            && (Now(r.clock) - Now(s.clock)) * count + r.executed + TWO32 * Wraps(s, traces, count, quantum, script)
               == s.executed + Charged(traces, quantum)
            && (r.processor == 0 && traces != [] ==> r.executed < count)
    decreases |traces|
  {
    hide Guarded, Step, Charge, Wrap;
    if traces != [] {
      StepConserves(s, traces[0], count, quantum, script);
      var s1 := Step(s, traces[0], count, quantum, script).value;
      TicksConserved(s1, traces[1..], count, quantum, script);
      var r := Steps(s, traces, count, quantum, script).value;
      assert (Now(r.clock) - Now(s1.clock)) * count + (Now(s1.clock) - Now(s.clock)) * count
             == (Now(r.clock) - Now(s.clock)) * count;
    }
  }

  // Nothing wraps or overruns in a run in which one turn is charged at most `most`, if a round of that
  // fits in 32 bits.
  lemma {:induction false} BoundedTurns(s: Smp, traces: seq<nat>, count: nat, quantum: nat, script: Script, most: nat)
    requires Inv(s.clock) && s.processor < count && s.executed <= count - 1 + s.processor * most
    requires quantum <= most && (forall k :: 0 <= k < |traces| ==> traces[k] <= most) && count * (most + 1) <= TWO32
    ensures Wraps(s, traces, count, quantum, script) == 0 && Overruns(traces) == 0
    decreases |traces|
  {
    hide Guarded, TickN, Share, Left, U32;
    if traces != [] {
      Bounded(s.executed, s.processor, 0, most, count);
      Fits32(quantum);
      Fits32(traces[0]);
      Bounded(s.executed, s.processor, Charge(traces[0], quantum), most, count);
      var s1 := Step(s, traces[0], count, quantum, script);
      if s1.Some? {
        BoundedTurns(s1.value, traces[1..], count, quantum, script, most);
      }
      NoOverruns(traces, most);
    }
  }

  // ---- The schedule ----

  // The processors take turns.
  lemma {:induction false} TurnsTaken(s: Smp, traces: seq<nat>, count: nat, quantum: nat, script: Script)
    requires count >= 1 && Inv(s.clock) && s.processor < count && Steps(s, traces, count, quantum, script).Some?
    ensures Steps(s, traces, count, quantum, script).value.processor == (s.processor + |traces|) % count
    decreases |traces|
  {
    hide Guarded, TickN, Share, Left, Charge, U32;
    if traces == [] {
      DivUnique(s.processor, count, 0, s.processor);
    } else {
      var s1 := Step(s, traces[0], count, quantum, script).value;
      TurnsTaken(s1, traces[1..], count, quantum, script);
      if s1.processor == 0 {
        RoundsModulo(|traces| - 1, count);
        assert s.processor + |traces| == count + (|traces| - 1);
      }
    }
  }

  lemma RoundsModulo(k: nat, count: nat)
    requires count >= 1
    ensures (count + k) % count == k % count
  {
    assert k == k / count * count + k % count;
    assert count + k == (k / count + 1) * count + k % count;
    DivUnique(count + k, count, k / count + 1, k % count);
  }

  lemma {:induction false} StepsAppend(s: Smp, a: seq<nat>, b: seq<nat>, count: nat, quantum: nat, script: Script)
    requires count >= 1 && Inv(s.clock) && Steps(s, a + b, count, quantum, script).Some?
    ensures Steps(s, a, count, quantum, script).Some?
    ensures Steps(s, a + b, count, quantum, script)
            == Steps(Steps(s, a, count, quantum, script).value, b, count, quantum, script)
    decreases |a|
  {
    hide Guarded, Step;
    if a == [] {
      assert a + b == b;
    } else {
      assert (a + b)[1..] == a[1..] + b;
      StepsAppend(Step(s, a[0], count, quantum, script).value, a[1..], b, count, quantum, script);
    }
  }

  // Before the end of a round no tick is delivered.
  lemma {:induction false} NoTickWithin(s: Smp, traces: seq<nat>, count: nat, quantum: nat, script: Script)
    requires count >= 1 && Inv(s.clock) && s.processor + |traces| < count
    ensures Steps(s, traces, count, quantum, script).Some?
    ensures Steps(s, traces, count, quantum, script).value.clock == s.clock
    decreases |traces|
  {
    hide Guarded, Charge, U32;
    if traces != [] {
      NoTickWithin(Step(s, traces[0], count, quantum, script).value, traces[1..], count, quantum, script);
    }
  }

  // The turns of the complete rounds.
  function Rounds(traces: seq<nat>, count: nat): seq<nat>
    requires count >= 1
  {
    traces[..|traces| - |traces| % count]
  }

  // After any number of turns exactly the ticks of the complete rounds have been delivered: what was
  // charged in them, divided by the number of processors.
  lemma TicksDelivered(c: Clock, traces: seq<nat>, count: nat, quantum: nat, script: Script)
    requires count >= 1 && Inv(c) && Steps(Smp(c, 0, 0), traces, count, quantum, script).Some?
    ensures var r, done := Steps(Smp(c, 0, 0), traces, count, quantum, script).value, Rounds(traces, count);
            && r.processor == |traces| % count
            && Now(r.clock) - Now(c)
               == (Charged(done, quantum) - TWO32 * Wraps(Smp(c, 0, 0), done, count, quantum, script)) / count
  {
    hide Guarded, Step, Steps, Charged, Wraps;
    var s, done := Smp(c, 0, 0), Rounds(traces, count);
    var rest := traces[|done|..];
    assert traces == done + rest;
    StepsAppend(s, done, rest, count, quantum, script);
    TurnsTaken(s, traces, count, quantum, script);
    TurnsTaken(s, done, count, quantum, script);
    WholeRounds(|traces|, count);
    var s1 := Steps(s, done, count, quantum, script).value;
    NoTickWithin(s1, rest, count, quantum, script);
    TicksConserved(s, done, count, quantum, script);
    if done == [] {
      NothingDone(s, count, quantum, script);
    }
    var ticks := Now(s1.clock) - Now(c);
    DivUnique(ticks * count + s1.executed, count, ticks, s1.executed);
  }

  lemma NothingDone(s: Smp, count: nat, quantum: nat, script: Script)
    requires count >= 1 && Inv(s.clock)
    ensures Steps(s, [], count, quantum, script) == Some(s)
  {
  }

  lemma WholeRounds(n: nat, count: nat)
    requires count >= 1
    ensures n % count < count && n >= n % count && (n - n % count) % count == 0
  {
    assert n - n % count == n / count * count + 0;
    DivUnique(n - n % count, count, n / count, 0);
  }

  lemma {:induction false} NoOverruns(traces: seq<nat>, most: nat)
    requires most < TWO32 && forall k :: 0 <= k < |traces| ==> traces[k] <= most
    ensures Overruns(traces) == 0
  {
    if traces != [] {
      NoOverruns(traces[1..], most);
    }
  }

  // Two turns after which the 2^32 instructions they ran have left no trace ...
  lemma SumWraps(script: Script)
    ensures var s := Smp(Initial(), 0, 0);
            && Steps(s, [TWO32 - 1, 1], 3, 1, script) == Some(Smp(Initial(), 0, 2))
            && Wraps(s, [TWO32 - 1, 1], 3, 1, script) == 1
  {
    hide Guarded, TickN;
    var s := Smp(Initial(), 0, 0);
    var s1 := Smp(Initial(), TWO32 - 1, 1);
    var s2 := Smp(Initial(), 0, 2);
    var ts: seq<nat> := [TWO32 - 1, 1];
    assert Step(s, ts[0], 3, 1, script) == Some(s1) && Step(s1, ts[1], 3, 1, script) == Some(s2);
    assert ts[1..] == [1] && ts[1..][1..] == [];
    assert Steps(s2, ts[1..][1..], 3, 1, script) == Some(s2) && Wraps(s2, ts[1..][1..], 3, 1, script) == 0;
    assert Steps(s1, ts[1..], 3, 1, script) == Some(s2) && Wraps(s1, ts[1..], 3, 1, script) == 1;
  }

  // ... and turns that ran more than 2^32 and are charged 5, or the quantum.
  lemma TurnOverruns()
    ensures Charge(TWO32 + 5, 7) == 5 && Charge(TWO32, 7) == 7
  {
  }

  // A processor as the loop sees it: its instruction counter and the value at the last switch.
  datatype Cpu = Cpu(icount: nat, lastSync: nat)

  // One pass of the loop on the timer object.
  method Turn(sys: System, cpus: array<Cpu>, quantum: nat, instructions: nat, executed: nat, processor: nat)
      returns (executed': nat, processor': nat)
    requires sys.Valid() && processor < cpus.Length && cpus[processor].lastSync == cpus[processor].icount
    requires Step(Smp(sys.View(), executed, processor), instructions, cpus.Length, quantum, sys.script).Some?
    modifies sys, sys.timer, cpus
    ensures sys.Valid() && processor' < cpus.Length && cpus[processor'].lastSync == cpus[processor'].icount
    ensures forall j :: 0 <= j < cpus.Length ==>
              cpus[j].icount == old(cpus[j].icount) + if j == processor then instructions else 0
    ensures Step(Smp(old(sys.View()), executed, processor), instructions, cpus.Length, quantum, sys.script)
            == Some(Smp(sys.View(), executed', processor'))
  {
    hide Guarded, TickN, Share, Left, Charge;
    var n := Account(cpus, processor, quantum, instructions);
    executed' := U32(executed + n);
    processor' := processor + 1;
    if processor' == cpus.Length {
      processor' := 0;
      sys.TickN(Share(executed', cpus.Length));
      executed' := Left(executed', cpus.Length);
    }
    cpus[processor'] := cpus[processor'].(lastSync := cpus[processor'].icount);
  }

  // A processor runs a trace, and the loop sees how many instructions that was.
  method Account(cpus: array<Cpu>, processor: nat, quantum: nat, instructions: nat) returns (n: nat)
    requires processor < cpus.Length && cpus[processor].lastSync == cpus[processor].icount
    modifies cpus
    ensures n == Charge(instructions, quantum)
    ensures forall j :: 0 <= j < cpus.Length ==>
              cpus[j].icount == old(cpus[j].icount) + if j == processor then instructions else 0
  {
    hide U32;
    cpus[processor] := cpus[processor].(icount := cpus[processor].icount + instructions);
    n := U32(cpus[processor].icount - cpus[processor].lastSync);
    if n == 0 { n := U32(quantum); }
  }

  // What processor `j` runs in the first `k` turns.
  function RanBy(traces: seq<nat>, k: nat, j: nat, count: nat): nat
    requires k <= |traces| && count >= 1
  {
    if k == 0 then 0 else RanBy(traces, k - 1, j, count) + if (k - 1) % count == j then traces[k - 1] else 0
  }

  lemma NextProcessor(k: nat, count: nat)
    requires count >= 1
    ensures (k + 1) % count == if k % count + 1 == count then 0 else k % count + 1
  {
    var q, r := k / count, k % count;
    assert k == q * count + r;
    if r + 1 == count {
      assert k + 1 == (q + 1) * count + 0;
      DivUnique(k + 1, count, q + 1, 0);
    } else {
      DivUnique(k + 1, count, q, r + 1);
    }
  }

  // The loop; `traces` says how many instructions each turn executes before it gives up its turn.
  method SimLoop(sys: System, cpus: array<Cpu>, quantum: nat, traces: seq<nat>)
      returns (executed: nat, processor: nat)
    requires sys.Valid() && cpus.Length >= 1 && cpus[0].lastSync == cpus[0].icount
    requires Steps(Smp(sys.View(), 0, 0), traces, cpus.Length, quantum, sys.script).Some?
    modifies sys, sys.timer, cpus
    ensures sys.Valid()
    ensures Steps(Smp(old(sys.View()), 0, 0), traces, cpus.Length, quantum, sys.script)
            == Some(Smp(sys.View(), executed, processor))
    ensures processor == |traces| % cpus.Length
    ensures forall j :: 0 <= j < cpus.Length ==>
              cpus[j].icount == old(cpus[j].icount) + RanBy(traces, |traces|, j, cpus.Length)
    ensures (Now(sys.View()) - Now(old(sys.View()))) * cpus.Length + executed
            + TWO32 * (Wraps(Smp(old(sys.View()), 0, 0), traces, cpus.Length, quantum, sys.script) + Overruns(traces))
            == Ran(traces) + Idled(traces, quantum)
  {
    hide Guarded, Step, Wraps, Ran, Idled, Overruns, Charged;
    executed, processor := 0, 0;
    var k := 0;
    assert traces[0..] == traces;
    while k < |traces|
      invariant 0 <= k <= |traces| && sys.Valid() && processor == k % cpus.Length
      invariant cpus[processor].lastSync == cpus[processor].icount
      invariant forall j :: 0 <= j < cpus.Length ==>
                  cpus[j].icount == old(cpus[j].icount) + RanBy(traces, k, j, cpus.Length)
      invariant Steps(Smp(sys.View(), executed, processor), traces[k..], cpus.Length, quantum, sys.script)
                == Steps(Smp(old(sys.View()), 0, 0), traces, cpus.Length, quantum, sys.script)
    {
      assert traces[k..][1..] == traces[k + 1..];
      NextProcessor(k, cpus.Length);
      StepTurns(Smp(sys.View(), executed, processor), traces[k], cpus.Length, quantum, sys.script);
      executed, processor := Turn(sys, cpus, quantum, traces[k], executed, processor);
      k := k + 1;
    }
    NothingDone(Smp(sys.View(), executed, processor), cpus.Length, quantum, sys.script);
    TicksConserved(Smp(old(sys.View()), 0, 0), traces, cpus.Length, quantum, sys.script);
    ChargedIs(traces, quantum);
  }

  lemma StepTurns(s: Smp, instructions: nat, count: nat, quantum: nat, script: Script)
    requires count >= 1 && Inv(s.clock) && Step(s, instructions, count, quantum, script).Some?
    ensures Step(s, instructions, count, quantum, script).value.processor
            == if s.processor + 1 == count then 0 else s.processor + 1
  {
    hide Guarded, TickN, Charge, Share, Left, U32;
  }

  lemma Bounded(executed: nat, processor: nat, n: nat, most: nat, count: nat)
    requires processor < count && n <= most && executed <= count - 1 + processor * most
    requires count * (most + 1) <= TWO32
    ensures executed + n <= count - 1 + (processor + 1) * most
    ensures executed + n < TWO32 && U32(executed + n) == executed + n && most < TWO32
  {
  }
}
