// A driver that replays a run of ticks and device calls on the imperative timer object.
module TimerReplay {
  import opened Wrappers
  import opened Machine
  import opened TimerTable
  import opened Countdown
  import opened PcSystem
  import Naive = NaiveScan
  import Equivalence = SchedulerEquivalence

  // In every legal run without slot take-overs the object leaves the trace of the per-tick scan.
  method Replay(cmds: seq<Cmd>, script: Script) returns (sys: System)
    requires Run(Initial(), cmds, script).Some? && forall k :: 0 <= k < |cmds| && cmds[k].Tick? ==> cmds[k].n < TWO32
    ensures fresh(sys) && sys.Valid() && Run(Initial(), cmds, script) == Some(sys.View())
    ensures var start := Naive.Start(Initial());
            var n := Naive.Run(start, cmds, script);
            && (!Naive.RunClashes(start, cmds, script) ==> n.Some?)
            && (n.Some? ==> (sys.trace == n.value.trace <==> !Naive.RunClashes(start, cmds, script)))
  {
    hide Guarded, TickN, Perform, Naive.Run, Naive.RunClashes, Legal;
    sys := new System(script);
    var todo := cmds;
    while todo != []
      invariant sys.Valid() && sys.script == script && fresh(sys) && fresh(sys.timer)
      invariant forall k :: 0 <= k < |todo| && todo[k].Tick? ==> todo[k].n < TWO32
      invariant Run(sys.View(), todo, script) == Run(Initial(), cmds, script)
      decreases |todo|
    {
      match todo[0] {
        case Tick(n) => sys.TickN(n);
        case Call(op) =>
          LegalCall(sys.View(), op);
          sys.Execute(op);
      }
      todo := todo[1..];
    }
    Equivalence.SameTraceIffNoClash(cmds, script);
  }

  lemma LegalCall(c: Clock, op: Op)
    requires Inv(c) && Perform(c, op).Some?
    ensures Legal(c.table, Now(c), op)
  {
  }
}
