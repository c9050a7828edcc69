/**
 What holds in every run of the scheduler: who may touch the mesh, where every gate is, in which order
 and how early gates complete.
 */
module SchedulerRuns {
  import opened Collections
  import opened Mesh
  import opened Events
  import opened Dag
  import opened CriticalPath
  import opened Scheduler
  import opened SchedulerInvariant
  import opened SchedulerSteps

  // One iteration of one of the simulator's loops.  Positions refer to the list of lapsed events.
  datatype Step =
    | QueueStep                // queue the events of the first ready gate
    | TickStep                 // advance the clock
    | SortStep                 // put the lapsed events in some other order
    | DoStep(i: nat)           // the event succeeds
    | RetryStep(i: nat)        // the event is blocked
    | SwitchStep(i: nat)       // the event has been blocked often enough to switch its route
    | DropStep(i: nat)         // the event has been blocked often enough to drop its gate

  ghost predicate Next(cfg: Config, s: State, step: Step, s': State)
    requires cfg.Valid()
  {
    match step
    case QueueStep => s.ready != [] && s.ready[0] < |cfg.gates| && s' == QueueFirst(cfg, s)
    case TickStep => s.ready == [] && s' == Tick(cfg, s)
    case SortStep => s' == s.(lapsed := s'.lapsed) && multiset(s'.lapsed) == multiset(s.lapsed)
    case DoStep(i) => EventAt(cfg, s, i) && Doable(cfg, s, i) && s' == Succeed(cfg, s, i)
    case RetryStep(i) => EventAt(cfg, s, i) && !Doable(cfg, s, i) && s' == Wait(s, i)
    case SwitchStep(i) =>
      Switchable(cfg, s, i) && s.lapsed[i].attempts > cfg.yxThreshold && s' == SwitchRoute(cfg, s, i)
    case DropStep(i) =>
      EventAt(cfg, s, i) && s.lapsed[i].attempts > cfg.dropThreshold && s' == Drop(cfg, s, i)
  }

  predicate EventAt(cfg: Config, s: State, i: nat) {
    i < |s.lapsed| && s.lapsed[i].gate < |cfg.gates|
  }

  predicate Doable(cfg: Config, s: State, i: nat)
    requires EventAt(cfg, s, i)
  {
    CanDo(s.owner, s.lapsed[i], cfg.gates[s.lapsed[i].gate].number)
  }

  // An empty mesh, the full dependency graph, and the gates without dependencies ready.
  ghost predicate IsInitial(cfg: Config, s: State) {
    && (forall r :: r in s.owner <==> cfg.grid.IsResource(r))
    && (forall r | r in s.owner :: s.owner[r] == 0)
    && s == Initial(cfg, s.owner, NextUseEdges(cfg.gates))
  }

  ghost predicate IsRun(cfg: Config, states: seq<State>, steps: seq<Step>)
    requires cfg.Valid()
  {
    && |states| == |steps| + 1
    && IsInitial(cfg, states[0])
    && forall i | 0 <= i < |steps| :: Next(cfg, states[i], steps[i], states[i + 1])
  }

  lemma ExtendRun(cfg: Config, states: seq<State>, steps: seq<Step>, step: Step, s: State)
    requires cfg.Valid() && IsRun(cfg, states, steps) && Next(cfg, states[|steps|], step, s)
    ensures IsRun(cfg, states + [s], steps + [step])
  {
    hide Next, IsInitial;
    var all, made := states + [s], steps + [step];
    forall i | 0 <= i < |made| ensures Next(cfg, all[i], made[i], all[i + 1]) {
      if i < |steps| { assert Next(cfg, states[i], steps[i], states[i + 1]); }
    }
  }

  lemma NextDo(cfg: Config, s: State, i: nat)
    requires cfg.Valid() && EventAt(cfg, s, i) && Doable(cfg, s, i)
    ensures Next(cfg, s, DoStep(i), Succeed(cfg, s, i))
  {
    hide Succeed;
  }

  // ----- The invariant over runs ------------------------------------------------------------------

  lemma NextKeepsInv(cfg: Config, s: State, step: Step, s': State)
    requires Inv(cfg, s) && Next(cfg, s, step, s')
    ensures Inv(cfg, s')
  {
    hide Inv, QueueFirst, Tick, Succeed, SwitchRoute, Drop, Wait;
    match step
    case QueueStep => QueueFirstKeepsInv(cfg, s);
    case TickStep => TickKeepsInv(cfg, s);
    case SortStep => ReorderKeepsInv(cfg, s, s'.lapsed);
    case DoStep(i) => SucceedKeepsInv(cfg, s, i);
    case RetryStep(i) => WaitKeepsInv(cfg, s, i);
    case SwitchStep(i) => SwitchRouteKeepsInv(cfg, s, i);
    case DropStep(i) => DropKeepsInv(cfg, s, i);
  }

  lemma {:induction false} RunKeepsInv(cfg: Config, states: seq<State>, steps: seq<Step>, k: nat)
    requires cfg.Valid() && IsRun(cfg, states, steps) && k < |states|
    ensures Inv(cfg, states[k])
  {
    hide Inv, Next, Initial;
    if k == 0 {
      InitialInv(cfg, states[0].owner);
    } else {
      RunKeepsInv(cfg, states, steps, k - 1);
      assert Next(cfg, states[k - 1], steps[k - 1], states[k]);
      NextKeepsInv(cfg, states[k - 1], steps[k - 1], states[k]);
    }
  }

  // ----- Ownership ----------------------------------------------------------------------------------

  // The step may release what gate g owns: a close event of g that names r, or dropping g.
  ghost predicate Releases(s: State, step: Step, g: nat, r: Resource) {
    match step
    case DoStep(i) => i < |s.lapsed| && s.lapsed[i].gate == g && !s.lapsed[i].open && r in Res(s.lapsed[i].braid)
    case DropStep(i) => i < |s.lapsed| && s.lapsed[i].gate == g
    case _ => false
  }

  // The step is an open event of g that names r.
  ghost predicate Acquires(s: State, step: Step, g: nat, r: Resource) {
    step.DoStep? && step.i < |s.lapsed| && s.lapsed[step.i].gate == g
    && s.lapsed[step.i].open && r in Res(s.lapsed[step.i].braid)
  }

  // A resource changes hands only through its owner: it becomes free by a close event or the drop of the
  // gate that owns it, and it is taken, when free, by an open event of the gate that then owns it.
  lemma OwnershipSafety(cfg: Config, s: State, step: Step, s': State, r: Resource)
    requires Inv(cfg, s) && Next(cfg, s, step, s') && r in s.owner
    ensures r in s'.owner
    ensures s.owner[r] != s'.owner[r] && s.owner[r] != 0 ==>
              s'.owner[r] == 0
              && exists g: nat :: g < |cfg.gates| && cfg.gates[g].number == s.owner[r] && Releases(s, step, g, r)
    ensures s.owner[r] != s'.owner[r] && s.owner[r] == 0 ==>
              exists g: nat :: g < |cfg.gates| && cfg.gates[g].number == s'.owner[r] && Acquires(s, step, g, r)
  {
    hide GateInv, NextUseEdges, Res, GateEvents, Reroute, Tick;
    if !step.DoStep? && !step.DropStep? {
      OnlyEventsTouchMesh(cfg, s, step, s');
    } else {
      var g := s.lapsed[step.i].gate;
      assert cfg.ValidGate(cfg.gates[g]);
    }
  }

  lemma OnlyEventsTouchMesh(cfg: Config, s: State, step: Step, s': State)
    requires cfg.Valid() && Next(cfg, s, step, s') && !step.DoStep? && !step.DropStep?
    ensures s'.owner == s.owner
  {
    hide Res, GateEvents, Reroute;
  }

  predicate Active(s: State, g: nat) { g in s.queues || InFlight(s.lapsed, g).Some? }

  // No leaks: every owned resource belongs to a gate that is running its events.
  lemma OnlyActiveGatesOwn(cfg: Config, s: State, r: Resource)
    requires Inv(cfg, s) && r in s.owner && s.owner[r] != 0
    ensures exists g: nat ::
              g < |cfg.gates| && cfg.gates[g].number == s.owner[r] && Active(s, g)
              && g !in s.doneAt && g !in s.ready && !Blocked(s.edges, g)
  {
    hide ActiveOK, NextUseEdges;
    var g: nat :| g < |cfg.gates| && cfg.gates[g].number == s.owner[r];
    assert GateInv(cfg, s, g);
    assert r in Owned(s.owner, cfg.gates[g].number);
    LiveGateIsActive(cfg, s, g);
  }

  // An event is blocked exactly if it names something that an active gate holds: another gate, or, when it is to be
  // opened, any gate, its own included.
  lemma BlockedByActiveGate(cfg: Config, s: State, i: nat)
    requires Inv(cfg, s) && i < |s.lapsed|
    ensures EventAt(cfg, s, i)
    ensures !Doable(cfg, s, i) <==>
            exists g: nat, r :: r in Res(s.lapsed[i].braid) && Holds(cfg, s, g, r) && (g != s.lapsed[i].gate || s.lapsed[i].open)
  {
    hide ActiveOK, NextUseEdges, Res, ListsOK;
    InFlightActive(cfg, s, i);
    var e := s.lapsed[i];
    if !Doable(cfg, s, i) {
      var r :| r in Res(e.braid) && r in s.owner && s.owner[r] != 0 && (e.open || s.owner[r] != cfg.gates[e.gate].number);
      OnlyActiveGatesOwn(cfg, s, r);
      var g: nat :| g < |cfg.gates| && cfg.gates[g].number == s.owner[r] && Active(s, g);
      assert Holds(cfg, s, g, r);
    }
    if g: nat, r :| r in Res(e.braid) && Holds(cfg, s, g, r) && (g != e.gate || e.open) {
      assert cfg.ValidGate(cfg.gates[g]);
      assert r in s.owner && s.owner[r] != 0;
    }
  }

  ghost predicate Holds(cfg: Config, s: State, g: nat, r: Resource) {
    g < |cfg.gates| && Active(s, g) && r in Owned(s.owner, cfg.gates[g].number)
  }

  lemma LiveGateIsActive(cfg: Config, s: State, g: nat)
    requires Inv(cfg, s) && g < |cfg.gates|
    ensures g in s.doneAt || Blocked(s.edges, g) || g in s.ready || Active(s, g)
  {
    hide Follows, OnTime, NextUseEdges;
    assert GateInv(cfg, s, g);
  }

  // ----- Conservation ---------------------------------------------------------------------------------

  function Count(a: bool, b: bool, c: bool, d: bool): nat {
    (if a then 1 else 0) + (if b then 1 else 0) + (if c then 1 else 0) + (if d then 1 else 0)
  }

  // Every gate is exactly one of done, blocked, ready and active.
  lemma GateHasOneStatus(cfg: Config, s: State, g: nat)
    requires Inv(cfg, s) && g < |cfg.gates|
    ensures Count(g in s.doneAt, Blocked(s.edges, g), g in s.ready, Active(s, g)) == 1
  {
    hide ActiveOK, NextUseEdges;
    assert GateInv(cfg, s, g);
    LiveGateIsActive(cfg, s, g);
  }

  // How many events gate g still has to do.
  function Remaining(s: State, g: nat): nat { |Pending(InFlight(s.lapsed, g), QueueOf(s.queues, g))| }

  // The event in flight is the next one of the gate's program; nothing else of that gate runs.
  lemma EventsRunInOrder(cfg: Config, s: State, i: nat)
    requires Inv(cfg, s) && i < |s.lapsed|
    ensures var e := s.lapsed[i];
            && e.gate < |cfg.gates| && 0 < Remaining(s, e.gate) <= |GateKinds(cfg, e.gate)|
            && e.kind == GateKinds(cfg, e.gate)[|GateKinds(cfg, e.gate)| - Remaining(s, e.gate)]
            && (forall j | 0 <= j < |s.lapsed| && j != i :: s.lapsed[j].gate != e.gate)
            && (forall x | x in QueueOf(s.queues, e.gate) :: x.timer == -1)
  {
    hide GatePlan, Held, OnTime, NextUseEdges;
    InFlightActive(cfg, s, i);
    var e := s.lapsed[i];
    var g, q := e.gate, QueueOf(s.queues, e.gate);
    var owned := Owned(s.owner, cfg.gates[g].number);
    var v3, v5 :| Follows(cfg, g, Pending(Some(e), q), owned, ViaOf(s.crossed, g), v3, v5);
    var pend := Pending(Some(e), q);
    var k := |GateKinds(cfg, g)| - |pend|;
    assert OnPlan(pend[0], g, GateKinds(cfg, g)[k + 0], GatePlan(cfg, g, v3, v5)[k + 0]);
    forall j | 0 <= j < |s.lapsed| && j != i ensures s.lapsed[j].gate != g {}
  }

  // A step moves a gate forward by one event, or (queueing it) back to the start; only dropping it stops it.
  lemma ProgressOfGate(cfg: Config, s: State, step: Step, s': State, g: nat)
    requires Inv(cfg, s) && Next(cfg, s, step, s') && g < |cfg.gates|
    ensures Remaining(s', g) == Remaining(s, g)
            || (step.DoStep? && s.lapsed[step.i].gate == g && Remaining(s', g) == Remaining(s, g) - 1)
            || (step.QueueStep? && s.ready[0] == g && Remaining(s, g) == 0 && Remaining(s', g) == |GateKinds(cfg, g)|)
            || (step.DropStep? && s.lapsed[step.i].gate == g && Remaining(s', g) == 0 && g in s'.ready)
  {
    hide ActiveOK, NextUseEdges, Res, GateEvents, Reroute, GatePlan, Tick, MeshOK;
    assert GateInv(cfg, s, g);
    match step
    case QueueStep => if s.ready[0] == g { assert g in s.ready; }
    case TickStep => TickKeepsRemaining(cfg, s, g);
    case SortStep => SortKeepsInFlight(cfg, s, s', g);
    case DoStep(i) => RemovedEvent(cfg, s, i, g);
    case RetryStep(i) => UpdatedEvent(cfg, s, i, s'.lapsed[i], g);
    case SwitchStep(i) => UpdatedEvent(cfg, s, i, s'.lapsed[i], g);
    case DropStep(i) => RemovedEvent(cfg, s, i, g);
  }

  lemma SortKeepsInFlight(cfg: Config, s: State, s': State, g: nat)
    requires Inv(cfg, s) && multiset(s'.lapsed) == multiset(s.lapsed)
    ensures InFlight(s'.lapsed, g) == InFlight(s.lapsed, g)
  {
    hide GateInv, NextUseEdges;
    UniqueUnderReorder(s.lapsed, s'.lapsed);
    forall e: Event ensures e in s.lapsed <==> e in s'.lapsed {
      assert e in s.lapsed <==> e in multiset(s.lapsed);
      assert e in s'.lapsed <==> e in multiset(s'.lapsed);
    }
    InFlightSame(s.lapsed, s'.lapsed, g);
  }

  lemma RemovedEvent(cfg: Config, s: State, i: nat, g: nat)
    requires Inv(cfg, s) && i < |s.lapsed|
    ensures InFlight(RemoveAt(s.lapsed, i), g) == if g == s.lapsed[i].gate then None else InFlight(s.lapsed, g)
    ensures g == s.lapsed[i].gate ==> InFlight(s.lapsed, g) == Some(s.lapsed[i])
  {
    hide ActiveOK, NextUseEdges;
    InFlightRemove(s.lapsed, i, g);
    InFlightActive(cfg, s, i);
  }

  lemma UpdatedEvent(cfg: Config, s: State, i: nat, e: Event, g: nat)
    requires Inv(cfg, s) && i < |s.lapsed| && e.gate == s.lapsed[i].gate
    ensures InFlight(s.lapsed[i := e], g).Some? == InFlight(s.lapsed, g).Some?
  {
    hide ActiveOK, NextUseEdges;
    InFlightUpdate(s.lapsed, i, e, g);
    InFlightActive(cfg, s, i);
  }

  lemma TickKeepsRemaining(cfg: Config, s: State, g: nat)
    requires Inv(cfg, s)
    ensures Remaining(Tick(cfg, s), g) == Remaining(s, g)
  {
    hide ActiveOK, NextUseEdges, GateInv;
    TickInFlight(cfg, s, g);
    if g in s.queues { QueueHeads(cfg, s, g); }
  }

  // A completed gate stays completed at the same time, and completing takes the success of a last event.
  lemma CompletionIsFinal(cfg: Config, s: State, step: Step, s': State)
    requires Inv(cfg, s) && Next(cfg, s, step, s')
    ensures forall g | g in s.doneAt :: g in s'.doneAt && s'.doneAt[g] == s.doneAt[g]
    ensures forall g | g in s'.doneAt && g !in s.doneAt ::
              step.DoStep? && s.lapsed[step.i].gate == g && Remaining(s, g) == 1 && s'.doneAt[g] == s.clk
  {
    hide ActiveOK, NextUseEdges, Res, GateEvents, Reroute, GatePlan;
    if step.DoStep? {
      InFlightActive(cfg, s, step.i);
    }
  }

  // ----- Dependencies -----------------------------------------------------------------------------------

  // A gate that is not done blocks everything it reaches in the dependency graph.
  lemma {:induction false} UnfinishedBlocks(cfg: Config, s: State, p: seq<nat>)
    requires Inv(cfg, s) && IsPath(NextUseEdges(cfg.gates), p) && |p| > 1 && p[0] !in s.doneAt
    ensures Blocked(s.edges, p[|p| - 1])
    decreases |p|
  {
    hide NextUseEdges, ActiveOK, DoneOK;
    assert (p[0], p[1]) in NextUseEdges(cfg.gates);
    assert (p[0], p[1]) in s.edges;
    EdgesAscend(cfg.gates);
    assert GateInv(cfg, s, p[1]);
    if |p| > 2 {
      var rest := p[1..];
      forall x | 0 <= x < |rest| - 1 ensures (rest[x], rest[x + 1]) in NextUseEdges(cfg.gates) {
        assert (p[x + 1], p[x + 2]) in NextUseEdges(cfg.gates);
      }
      UnfinishedBlocks(cfg, s, rest);
    }
  }

  // Along a dependency path, each gate completes at least its latency after the one before it.
  lemma {:induction false} PathCompletesInOrder(cfg: Config, s: State, p: seq<nat>)
    requires Inv(cfg, s) && IsPath(NextUseEdges(cfg.gates), p) && |p| > 1 && p[|p| - 1] in s.doneAt
    ensures p[|p| - 1] < |cfg.gates|
    ensures p[0] in s.doneAt
            && s.doneAt[p[0]] + Latency(cfg.distance, cfg.gates[p[|p| - 1]].op) <= s.doneAt[p[|p| - 1]]
    decreases |p|
  {
    hide NextUseEdges, ActiveOK;
    var n := |p| - 1;
    assert (p[n - 1], p[n]) in NextUseEdges(cfg.gates);
    EdgesAscend(cfg.gates);
    assert GateInv(cfg, s, p[n]);
    if n > 1 {
      var init := p[..n];
      forall x | 0 <= x < |init| - 1 ensures (init[x], init[x + 1]) in NextUseEdges(cfg.gates) {
        assert (p[x], p[x + 1]) in NextUseEdges(cfg.gates);
      }
      PathCompletesInOrder(cfg, s, init);
    }
  }

  // Two gates of which neither is done and neither is blocked have no tile in common.
  lemma LiveGatesShareNoTile(cfg: Config, s: State, i: nat, j: nat)
    requires Inv(cfg, s) && i < j < |cfg.gates|
    requires i in s.ready || Active(s, i)
    requires j in s.ready || Active(s, j)
    ensures !Shares(cfg.gates, i, j)
  {
    hide NextUseEdges, ActiveOK;
    if Shares(cfg.gates, i, j) {
      var q :| q in cfg.gates[i].qid && q in cfg.gates[j].qid;
      SharesReaches(cfg.gates, i, j, q);
      var p :| PathFrom(NextUseEdges(cfg.gates), i, j, p);
      GateHasOneStatus(cfg, s, i);
      GateHasOneStatus(cfg, s, j);
      UnfinishedBlocks(cfg, s, p);
    }
  }

  // Gates that share a tile complete in list order, the later one at least its latency after the earlier one.
  lemma SharersCompleteInOrder(cfg: Config, s: State, i: nat, j: nat)
    requires Inv(cfg, s) && i < j < |cfg.gates| && Shares(cfg.gates, i, j) && j in s.doneAt
    ensures i in s.doneAt && s.doneAt[i] + Latency(cfg.distance, cfg.gates[j].op) <= s.doneAt[j]
  {
    hide NextUseEdges;
    var q :| q in cfg.gates[i].qid && q in cfg.gates[j].qid;
    SharesReaches(cfg.gates, i, j, q);
    var p :| PathFrom(NextUseEdges(cfg.gates), i, j, p);
    PathCompletesInOrder(cfg, s, p);
  }

  // ----- Time ---------------------------------------------------------------------------------------------

  // List positions witness that the dependency graph is acyclic.
  function Positions(cfg: Config): seq<nat> { seq(|cfg.gates|, i => i) }

  lemma PositionsRank(cfg: Config)
    ensures Ranked(NextUseEdges(cfg.gates), Latencies(cfg), Positions(cfg))
  {
  }

  // No gate completes before the longest latency-weighted path that ends in it.
  lemma {:induction false} CompletesAfterLongestPath(cfg: Config, s: State, g: nat)
    requires Inv(cfg, s) && g in s.doneAt
    ensures g < |cfg.gates| && Ranked(NextUseEdges(cfg.gates), Latencies(cfg), Positions(cfg))
    ensures s.doneAt[g] >= LongestTo(NextUseEdges(cfg.gates), Latencies(cfg), Positions(cfg), g)
    decreases g
  {
    hide NextUseEdges, ActiveOK;
    PositionsRank(cfg);
    var es, w, rank := NextUseEdges(cfg.gates), Latencies(cfg), Positions(cfg);
    assert GateInv(cfg, s, g);
    forall p | (p, g) in es ensures s.doneAt[g] >= LongestTo(es, w, rank, p) + w[g] {
      EdgesAscend(cfg.gates);
      CompletesAfterLongestPath(cfg, s, p);
    }
    LongestToIsLeast(es, w, rank, g, s.doneAt[g]);
  }

  // When the main loop exits: every gate has completed, no earlier than its longest path; nothing of the
  // mesh is owned; the clock is at least the critical path of the initial graph.
  lemma FinishedState(cfg: Config, s: State)
    requires Inv(cfg, s) && Finished(s)
    ensures Ranked(NextUseEdges(cfg.gates), Latencies(cfg), Positions(cfg))
    ensures forall g: nat | g < |cfg.gates| ::
              g in s.doneAt
              && LongestTo(NextUseEdges(cfg.gates), Latencies(cfg), Positions(cfg), g) <= s.doneAt[g] <= s.clk
    ensures forall r | r in s.owner :: s.owner[r] == 0
    ensures s.clk >= LongestOverall(NextUseEdges(cfg.gates), Latencies(cfg), Positions(cfg), |cfg.gates|)
    ensures cfg.distance == 0 ==> forall g: nat | g < |cfg.gates| :: cfg.gates[g].op != CNOT
  {
    hide NextUseEdges, ActiveOK, LongestTo, LongestOverall;
    PositionsRank(cfg);
    var es, w, rank := NextUseEdges(cfg.gates), Latencies(cfg), Positions(cfg);
    forall g: nat | g < |cfg.gates|
      ensures g in s.doneAt && LongestTo(es, w, rank, g) <= s.doneAt[g] <= s.clk
      ensures cfg.distance == 0 ==> cfg.gates[g].op != CNOT
    {
      assert GateInv(cfg, s, g);
      GateHasOneStatus(cfg, s, g);
      CompletesAfterLongestPath(cfg, s, g);
    }
    forall r | r in s.owner ensures s.owner[r] == 0 {
      if s.owner[r] != 0 { OnlyActiveGatesOwn(cfg, s, r); }
    }
    OverallIsLeast(es, w, rank, |w|, s.clk);
  }

  // The same, for every run that reaches the loop's exit.
  lemma RunsEndAfterCriticalPath(cfg: Config, states: seq<State>, steps: seq<Step>)
    requires cfg.Valid() && IsRun(cfg, states, steps) && Finished(states[|steps|])
    ensures Ranked(NextUseEdges(cfg.gates), Latencies(cfg), Positions(cfg))
    ensures states[|steps|].clk >= LongestOverall(NextUseEdges(cfg.gates), Latencies(cfg), Positions(cfg), |cfg.gates|)
    ensures forall g: nat | g < |cfg.gates| :: g in states[|steps|].doneAt
    ensures forall r | r in states[|steps|].owner :: states[|steps|].owner[r] == 0
  {
    hide Inv, Next, LongestOverall, NextUseEdges;
    RunKeepsInv(cfg, states, steps, |steps|);
    FinishedState(cfg, states[|steps|]);
  }

  // With distance 0 the timer of cnot5 is negative: in no run does any CNOT ever complete.
  lemma DistanceZeroStallsCnots(cfg: Config, states: seq<State>, steps: seq<Step>, k: nat, g: nat)
    requires cfg.Valid() && cfg.distance == 0 && IsRun(cfg, states, steps) && k < |states|
    requires g < |cfg.gates| && cfg.gates[g].op == CNOT
    ensures g !in states[k].doneAt
  {
    hide ActiveOK, IsRun, NextUseEdges;
    RunKeepsInv(cfg, states, steps, k);
    assert GateInv(cfg, states[k], g);
  }
}
