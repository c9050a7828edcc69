/**
 The simulator's loops, in place over its fields.  Besides its data, the simulator carries the run it has
 made so far as a ghost history: every method extends that history by legal scheduler steps only, so
 whatever holds in every run holds of the simulator.
 */
module Simulator {
  import opened Collections
  import opened Mesh
  import opened Routes
  import opened Events
  import opened Dag
  import opened CriticalPath
  import opened Scheduler
  import opened SchedulerInvariant
  import opened SchedulerSteps
  import opened SchedulerRuns
  import opened SchedulerCycles
  import opened PassRules
  import opened SerialRuns

  class Simulator {
    const cfg: Config
    var owner: map<Resource, nat>
    var edges: Edges
    var ready: seq<nat>
    var queues: map<nat, seq<Event>>
    var lapsed: seq<Event>
    var clk: nat
    ghost var doneAt: map<nat, nat>
    ghost var crossed: map<nat, Braid>
    // The run made so far.
    ghost var states: seq<State>
    ghost var steps: seq<Step>

    ghost function S(): State
      reads this
    {
      State(owner, edges, ready, queues, lapsed, clk, doneAt, crossed)
    }

    // The history is a run of the scheduler that ends in the present state.
    ghost predicate Valid()
      reads this
    {
      cfg.Valid() && IsRun(cfg, states, steps) && states[|steps|] == S()
    }

    lemma ValidInv()
      requires Valid()
      ensures Inv(cfg, S())
    {
      RunKeepsInv(cfg, states, steps, |steps|);
    }

    // Record a step just made.
    ghost method Record(step: Step)
      requires cfg.Valid() && IsRun(cfg, states, steps) && Next(cfg, states[|steps|], step, S())
      modifies this`states, this`steps
      ensures Valid() && |states| == |old(states)| + 1 && states[..|old(states)|] == old(states)
      ensures steps == old(steps) + [step]
    {
      hide Next, IsInitial;
      ExtendRun(cfg, states, steps, step, S());
      states, steps := states + [S()], steps + [step];
    }

    constructor (cfg: Config)
      requires cfg.Valid()
      ensures Valid() && this.cfg == cfg && IsInitial(cfg, S())
    {
      this.cfg := cfg;
      var mesh := BuildMesh(cfg.grid);
      var dag := BuildDag(cfg.gates);
      owner, edges, queues, lapsed, clk, doneAt, crossed := mesh, dag, map[], [], 0, map[], map[];
      var list := [];
      var g := 0;
      while g < |cfg.gates|
        invariant g <= |cfg.gates|
        invariant list == Sources(dag, g)
      {
        if InDegree(dag, g) == 0 { list := list + [g]; }
        g := g + 1;
      }
      ready := list;
      states, steps := [Initial(cfg, mesh, dag)], [];
    }

    // Open or close a braid, unless that conflicts with the present owners.
    method DoEvent(e: Event, number: nat) returns (ok: bool)
      requires MeshOK(cfg, owner) && InMesh(cfg.grid, e.braid)
      modifies this`owner
      ensures ok == CanDo(old(owner), e, number)
      ensures owner == if ok then Done(old(owner), e, number) else old(owner)
    {
      var nodes, links := e.braid.nodes, e.braid.links;
      ok := true;
      for i := 0 to |nodes|
        invariant forall j | 0 <= j < i :: var x := owner[NodeRes(nodes[j])]; x == 0 || (!e.open && x == number)
      {
        var x := owner[NodeRes(nodes[i])];
        if x != 0 && (e.open || x != number) {
          assert NodeRes(nodes[i]) in Res(e.braid);
          return false;
        }
      }
      for i := 0 to |links|
        invariant forall j | 0 <= j < i :: var x := owner[LinkRes(links[j])]; x == 0 || (!e.open && x == number)
      {
        var x := owner[LinkRes(links[i])];
        if x != 0 && (e.open || x != number) {
          assert LinkRes(links[i]) in Res(e.braid);
          return false;
        }
      }
      SetOwners(e.braid, if e.open then number else 0);
    }

    method SetOwners(b: Braid, x: nat)
      requires MeshOK(cfg, owner) && InMesh(cfg.grid, b)
      modifies this`owner
      ensures owner == map r | r in old(owner) :: if r in Res(b) then x else old(owner)[r]
    {
      for i := 0 to |b.nodes|
        invariant owner.Keys == old(owner).Keys
        invariant forall r | r in owner ::
                    owner[r] == if r.NodeRes? && r.node in b.nodes[..i] then x else old(owner)[r]
      {
        owner := owner[NodeRes(b.nodes[i]) := x];
        assert b.nodes[..i + 1] == b.nodes[..i] + [b.nodes[i]];
      }
      assert b.nodes[..|b.nodes|] == b.nodes;
      for i := 0 to |b.links|
        invariant owner.Keys == old(owner).Keys
        invariant forall r | r in owner ::
                    owner[r] == if (r.NodeRes? && r.node in b.nodes) || (r.LinkRes? && r.link in b.links[..i])
                                then x else old(owner)[r]
      {
        owner := owner[LinkRes(b.links[i]) := x];
        assert b.links[..i + 1] == b.links[..i] + [b.links[i]];
      }
      assert b.links[..|b.links|] == b.links;
    }

    // Free one resource if the gate owns it.
    method PurgeOne(r: Resource, number: nat)
      requires r in owner
      modifies this`owner
      ensures owner == if old(owner)[r] == number then old(owner)[r := 0] else old(owner)
    {
      if owner[r] == number { owner := owner[r := 0]; }
    }

    // The nodes of row r, each with the link to its right.
    method PurgeRow(r: nat, number: nat, ghost before: map<Resource, nat>)
      requires cfg.Valid() && r <= cfg.grid.rows
      requires SweptTo(cfg.grid, before, owner, number, cfg.grid.NodeAt(r, 0), cfg.grid.NodeAt(r, 0))
      modifies this`owner
      ensures SweptTo(cfg.grid, before, owner, number, cfg.grid.NodeAt(r + 1, 0), cfg.grid.NodeAt(r, 0))
    {
      hide Grid.NodeAt, Grid.IsResource, Grid.RowOf, Grid.ColOf, Visited;
      ghost var first := cfg.grid.NodeAt(r, 0);
      var c := 0;
      RowOffsets(cfg.grid, r, c);
      while c < cfg.grid.cols + 1
        invariant c <= cfg.grid.cols + 1
        invariant SweptTo(cfg.grid, before, owner, number, cfg.grid.NodeAt(r, c), first)
      {
        SweepPoint(cfg.grid, r, c);
        RowOffsets(cfg.grid, r, c);
        ghost var start := owner;
        var n := cfg.grid.NodeAt(r, c);
        PurgeOne(NodeRes(n), number);
        if c != cfg.grid.cols { PurgeOne(LinkRes(Edge(n, n + 1)), number); }
        SweptNode(cfg.grid, before, start, owner, number, n, first);
        c := c + 1;
      }
      RowOffsets(cfg.grid, r, c);
    }

    // The links from row r to the row below it.
    method PurgeBelow(r: nat, number: nat, ghost before: map<Resource, nat>)
      requires cfg.Valid() && r <= cfg.grid.rows
      requires SweptTo(cfg.grid, before, owner, number, cfg.grid.NodeAt(r + 1, 0), cfg.grid.NodeAt(r, 0))
      modifies this`owner
      ensures SweptTo(cfg.grid, before, owner, number, cfg.grid.NodeAt(r + 1, 0), cfg.grid.NodeAt(r + 1, 0))
    {
      hide Grid.NodeAt, Grid.IsResource, Grid.RowOf, Grid.ColOf, Visited;
      ghost var rest := cfg.grid.NodeAt(r + 1, 0);
      var c := 0;
      RowOffsets(cfg.grid, r, c);
      while c < cfg.grid.cols + 1
        invariant c <= cfg.grid.cols + 1
        invariant SweptTo(cfg.grid, before, owner, number, rest, cfg.grid.NodeAt(r, c))
      {
        SweepPoint(cfg.grid, r, c);
        RowOffsets(cfg.grid, r, c);
        ghost var start := owner;
        var n := cfg.grid.NodeAt(r, c);
        if r != cfg.grid.rows { PurgeOne(LinkRes(Edge(n, n + cfg.grid.cols + 1)), number); }
        SweptBelow(cfg.grid, before, start, owner, number, rest, n);
        c := c + 1;
      }
      RowOffsets(cfg.grid, r, c);
    }

    // Free everything the gate owns, row by row: each node, the link to its right, then the links below the row.
    method Purge(number: nat)
      requires cfg.Valid() && MeshOK(cfg, owner)
      modifies this`owner
      ensures owner == Purged(old(owner), number)
    {
      hide Grid.IsResource;
      var r := 0;
      while r < cfg.grid.rows + 1
        invariant r <= cfg.grid.rows + 1
        invariant SweptTo(cfg.grid, old(owner), owner, number, cfg.grid.NodeAt(r, 0), cfg.grid.NodeAt(r, 0))
      {
        PurgeRow(r, number, old(owner));
        PurgeBelow(r, number, old(owner));
        r := r + 1;
      }
      SweepComplete(cfg.grid, old(owner), owner, number);
    }

    // Move every ready gate to the event queues.
    method QueueReadyGates()
      requires Valid()
      modifies this`queues, this`ready, this`states, this`steps
      ensures Valid() && S() == old(QueueAllNow()) && ready == []
    {
      hide IsRun, Inv, GateEvents;
      ValidInv();
      ghost var target := QueueAll(cfg, S());
      while ready != []
        invariant Valid()
        invariant Inv(cfg, S()) && QueueAll(cfg, S()) == target
        invariant owner == old(owner) && edges == old(edges) && lapsed == old(lapsed) && clk == old(clk) && doneAt == old(doneAt)
        decreases |ready|
      {
        ghost var before := S();
        QueueFirstKeepsInv(cfg, before);
        var g := ready[0];
        queues := queues[g := GateEvents(cfg, g)];
        ready := ready[1..];
        assert S() == QueueFirst(cfg, before);
        Record(QueueStep);
      }
    }

    ghost function QueueAllNow(): State
      requires Valid()
      reads this
    {
      ValidInv();
      QueueAll(cfg, S())
    }

    // Advance the clock: count the running head events down and move the lapsed ones out of their queues.
    method IncrementClock()
      requires Valid() && ready == []
      modifies this`clk, this`queues, this`lapsed, this`states, this`steps
      ensures Valid() && S() == Tick(cfg, old(S()))
    {
      hide IsRun, Inv, Lapses, Ticked, TickedBelow, TickQueues;
      ghost var before := S();
      ValidQueues();
      TickedNone(before.queues);
      clk := clk + 1;
      var emptied: set<nat> := {};
      var g := 0;
      while g < |cfg.gates|
        invariant 0 <= g <= |cfg.gates|
        invariant clk == before.clk + 1 && states == old(states) && steps == old(steps)
        invariant TickedBelow(before.queues, queues, emptied, g)
        invariant lapsed == before.lapsed + NewlyLapsed(before.queues, g)
      {
        TickedNext(before.queues, queues, emptied, g);
        if g in queues {
          var rest, out := TickQueue(queues[g]);
          lapsed := lapsed + out;
          queues := queues[g := rest];
          if rest == [] { emptied := emptied + {g}; }
        }
        g := g + 1;
      }
      TickedAll(before.queues, queues, emptied, |cfg.gates|);
      queues := queues - emptied;
      assert S() == Tick(cfg, before);
      Record(TickStep);
    }

    lemma ValidQueues()
      requires Valid()
      ensures forall g | g in queues :: g < |cfg.gates| && queues[g] != []
    {
      ValidInv();
    }

    // Order the lapsed events by priority.  The source's comparison reads a field that is never set,
    // so nothing is known about the order.
    method SortLapsed()
      requires Valid()
      modifies this`lapsed, this`states, this`steps
      ensures Valid() && multiset(lapsed) == multiset(old(lapsed))
      ensures S() == old(S()).(lapsed := lapsed)
    {
      hide IsRun;
      var order: seq<Event> :| multiset(order) == multiset(lapsed);
      lapsed := order;
      Record(SortStep);
    }

    // The gate of the event just done has no events left: release its successors.
    method Complete(g: nat)
      requires g < |cfg.gates|
      modifies this`queues, this`ready, this`edges, this`doneAt
      ensures queues == old(queues) - {g} && edges == old(edges) - OutEdges(old(edges), g)
      ensures ready == old(ready) + NewlyReady(old(edges), g, |cfg.gates|)
      ensures doneAt == old(doneAt)[g := clk]
    {
      queues := queues - {g};
      var h := 0;
      while h < |cfg.gates|
        invariant h <= |cfg.gates|
        invariant ready == old(ready) + NewlyReady(edges, g, h)
        invariant queues == old(queues) - {g} && edges == old(edges) && doneAt == old(doneAt)
      {
        if (g, h) in edges && InDegree(edges, h) == 1 { ready := ready + [h]; }
        h := h + 1;
      }
      edges := edges - OutEdges(edges, g);
      doneAt := doneAt[g := clk];
    }

    // Finish the successful event at position i.
    method FinishEvent(i: nat, ghost before: State)
      requires cfg.Valid() && IsRun(cfg, states, steps) && states[|steps|] == before && Inv(cfg, before)
      requires EventAt(cfg, before, i) && Doable(cfg, before, i) && lapsed == before.lapsed
      requires S() == before.(owner := Done(before.owner, lapsed[i], cfg.gates[lapsed[i].gate].number))
      modifies this`queues, this`ready, this`edges, this`doneAt, this`crossed, this`lapsed, this`states, this`steps
      ensures Valid() && S() == Succeed(cfg, before, i) && steps == old(steps) + [DoStep(i)]
    {
      hide IsRun, Inv, Next, Res, NewlyReady, Done, CanDo, OutEdges, TimerOf, RemoveAt;
      NextDo(cfg, before, i);
      var e := lapsed[i];
      crossed := if e.kind == Cnot3 then crossed[e.gate := e.braid] else crossed;
      lapsed := RemoveAt(lapsed, i);
      if e.gate !in queues || queues[e.gate] == [] {
        Complete(e.gate);
      } else {
        StartNext(e.gate);
      }
      Record(DoStep(i));
    }

    // Start the timer of the next event of gate g.
    method StartNext(g: nat)
      requires g in queues && queues[g] != []
      modifies this`queues
      ensures var q := old(queues)[g];
              queues == old(queues)[g := q[0 := q[0].(timer := TimerOf(cfg.distance, q[0].kind))]]
    {
      var q := queues[g];
      queues := queues[g := q[0 := q[0].(timer := TimerOf(cfg.distance, q[0].kind))]];
    }

    // The event at position i was blocked: count the attempt and switch its route when it is due.
    method Blocked(i: nat, switched0: bool, ghost dropped: bool) returns (switched: bool)
      requires Valid() && i < |lapsed| && EventAt(cfg, S(), i) && !Doable(cfg, S(), i)
      requires PassOK(cfg, Pass(S(), i, switched0, dropped))
      modifies this`queues, this`lapsed, this`states, this`steps
      ensures Valid() && S() == Fail(cfg, old(Pass(S(), i, switched0, dropped)))
      ensures steps == old(steps) + RoundSteps(Fails(SwitchDue(cfg, old(lapsed[i])) && !switched0, false), i)
      ensures switched == (switched0 || Switches(cfg, old(Pass(S(), i, switched0, dropped)), old(Wait(S(), i).lapsed[i])))
    {
      hide IsRun, Inv, Res, Reroute;
      ghost var p := Pass(S(), i, switched0, dropped);
      ghost var before := S();
      WaitKeepsInv(cfg, before, i);
      var e := lapsed[i].(attempts := lapsed[i].attempts + 1);
      lapsed := lapsed[i := e];
      assert S() == Wait(before, i);
      Record(RetryStep(i));
      switched := switched0;
      if e.attempts > cfg.yxThreshold && !switched0 && (e.kind == Cnot3 || e.kind == Cnot5) {
        SwitchRouteKeepsInv(cfg, S(), i);
        ghost var waited := S();
        var g := e.gate;
        var src, dest := cfg.gates[g].qid[0], cfg.gates[g].qid[1];
        if !cfg.grid.AreAdjacent(src, dest) {
          var q := queues[g];
          var (b, b') := Reroute(cfg.grid, src, dest, e.kind, q[0].braid);
          lapsed := lapsed[i := e.(braid := b)];
          queues := queues[g := q[0 := q[0].(braid := b')]];
        }
        assert S() == SwitchRoute(cfg, waited, i);
        Record(SwitchStep(i));
        switched := true;
      }
    }

    // Drop the gate of the event at position i and make it ready again.
    method DropGate(i: nat)
      requires Valid() && Inv(cfg, S()) && i < |lapsed| && EventAt(cfg, S(), i) && lapsed[i].attempts > cfg.dropThreshold
      modifies this`owner, this`queues, this`lapsed, this`ready, this`states, this`steps
      ensures Valid() && S() == Drop(cfg, old(S()), i) && steps == old(steps) + [DropStep(i)]
    {
      hide IsRun, GateInv;
      ghost var before := S();
      var g := lapsed[i].gate;
      Purge(cfg.gates[g].number);
      ready := ready + [g];
      queues := queues - {g};
      lapsed := RemoveAt(lapsed, i);
      assert S() == Drop(cfg, before, i);
      Record(DropStep(i));
    }

    // Do every lapsed event that can be done; handle the blocked ones.  The pass tries every lapsed event once, in
    // order, and its steps and the events that stay follow from the outcomes as the rules say.
    method DoLapsedEvents()
      requires Valid()
      modifies this`owner, this`edges, this`ready, this`queues, this`lapsed, this`doneAt, this`crossed, this`states, this`steps
      ensures Valid() && S() == old(HandledNow()) && clk == old(clk)
      ensures FollowsRules(cfg, old(lapsed), old(OutcomesNow()), false, false)
      ensures Stays(old(lapsed), old(OutcomesNow()), lapsed)
      ensures steps == old(steps) + PassSteps(old(OutcomesNow()), 0)
    {
      hide IsRun, Inv, HandleOne, Outcomes, OutcomeOf, FollowsRules, Stays, PassSteps, RoundSteps;
      ValidInv();
      var i: nat, switched, dropped := 0, false, false;
      ghost var all := PassSteps(OutcomesNow(), 0);
      PassFollowsRules(cfg, Pass(S(), 0, false, false));
      assert lapsed[0..] == lapsed;
      ghost var target := HandleAll(cfg, Pass(S(), 0, false, false));
      while i < |lapsed|
        invariant Valid() && clk == old(clk)
        invariant PassOK(cfg, Pass(S(), i, switched, dropped))
        invariant HandleAll(cfg, Pass(S(), i, switched, dropped)) == target
        invariant steps + PassSteps(Outcomes(cfg, Pass(S(), i, switched, dropped)), i) == old(steps) + all
        decreases |lapsed| - i
      {
        NextOutcomes(cfg, Pass(S(), i, switched, dropped));
        i, switched, dropped := HandleEvent(i, switched, dropped);
      }
      NoStepsLeft(cfg, Pass(S(), i, switched, dropped));
    }

    // One event of the pass: do it, or count the failure and perhaps switch its route or drop its gate.
    method HandleEvent(i: nat, switched0: bool, dropped0: bool) returns (next: nat, switched: bool, dropped: bool)
      requires Valid() && PassOK(cfg, Pass(S(), i, switched0, dropped0)) && i < |lapsed|
      modifies this`owner, this`edges, this`ready, this`queues, this`lapsed, this`doneAt, this`crossed, this`states, this`steps
      ensures Valid() && clk == old(clk)
      ensures Pass(S(), next, switched, dropped) == HandleOne(cfg, old(Pass(S(), i, switched0, dropped0)))
      ensures PassOK(cfg, Pass(S(), next, switched, dropped)) && |lapsed| - next < old(|lapsed|) - i
      ensures steps == old(steps) + RoundSteps(OutcomeOf(cfg, old(Pass(S(), i, switched0, dropped0))), i)
    {
      hide IsRun, Inv, CanDo, Fail, Succeed, Drop, OutcomeOf;
      next, switched, dropped := i, switched0, dropped0;
      ghost var before := S();
      EventInMesh(cfg, before, i);
      OutcomeIs(cfg, Pass(before, i, switched0, dropped0));
      var e := lapsed[i];
      var ok := DoEvent(e, cfg.gates[e.gate].number);
      if ok {
        FinishEvent(i, before);
      } else {
        switched := Blocked(i, switched, dropped);
        if lapsed[i].attempts > cfg.dropThreshold && !dropped {
          DropGate(i);
          dropped := true;
        } else {
          next := i + 1;
        }
      }
    }

    ghost function OutcomesNow(): seq<Outcome>
      requires Valid()
      reads this
    {
      ValidInv();
      Outcomes(cfg, Pass(S(), 0, false, false))
    }

    ghost function HandledNow(): State
      requires Valid()
      reads this
    {
      ValidInv();
      HandleAll(cfg, Pass(S(), 0, false, false)).s
    }

    // One clock cycle of the main loop.
    method Cycle()
      requires Valid()
      modifies this
      ensures Valid() && clk == old(clk) + 1
      ensures IsCycle(cfg, old(S()), S())
    {
      ValidInv();
      hide IsRun, Inv, QueueAll, HandleAll;
      QueueReadyGates();
      IncrementClock();
      SortLapsed();
      ghost var order := lapsed;
      DoLapsedEvents();
      assert S() == CycleWith(cfg, old(S()), order);
    }

    // The main loop, for at most `limit` cycles (the source gives up when it makes no progress).
    method Loop(limit: nat) returns (finished: bool)
      requires Valid()
      modifies this
      ensures Valid() && finished == Finished(S()) && (finished || clk == old(clk) + limit)
      ensures old(clk) <= clk <= old(clk) + limit && Cycles(cfg, old(S()), clk - old(clk), S())
    {
      hide IsRun, Config.Valid, IsCycle, Cycles;
      NoCycle(cfg, S());
      var n := 0;
      while n < limit && !(queues == map[] && lapsed == [] && edges == {} && ready == [])
        invariant Valid() && clk == old(clk) + n && n <= limit
        invariant Cycles(cfg, old(S()), n, S())
      {
        ghost var before := S();
        Cycle();
        OneMoreCycle(cfg, old(S()), n, before, S());
        n := n + 1;
      }
      finished := queues == map[] && lapsed == [] && edges == {} && ready == [];
    }

    // If the loop finishes, every gate has completed, the mesh is free, and the clock is no smaller than the
    // critical path of the dependency graph.
    method Run(limit: nat) returns (finished: bool)
      requires Valid()
      modifies this
      ensures Valid() && finished == Finished(S()) && (finished || clk == old(clk) + limit)
      ensures old(clk) <= clk <= old(clk) + limit && Cycles(cfg, old(S()), clk - old(clk), S())
      ensures Ranked(NextUseEdges(cfg.gates), Latencies(cfg), Positions(cfg))
      ensures finished ==> clk >= LongestOverall(NextUseEdges(cfg.gates), Latencies(cfg), Positions(cfg), |cfg.gates|)
      ensures finished ==> forall g: nat | g < |cfg.gates| :: g in doneAt
      ensures finished ==> forall r | r in owner :: owner[r] == 0
      ensures IsInitial(cfg, old(S())) && Serial(cfg.gates) ==>
                (finished <==> NoStall(cfg) && limit >= GateCycles(cfg, 0))
    {
      hide IsRun, Inv, IsInitial, IsCycle, Cycles, NextUseEdges, LongestOverall, LongestTo, Serial, NoStall, GateCycles;
      finished := Loop(limit);
      PositionsRank(cfg);
      ValidInv();
      if finished { FinishedState(cfg, S()); }
      if IsInitial(cfg, old(S())) && Serial(cfg.gates) { SerialFinishes(cfg, old(S()), clk - old(clk), S()); }
    }
  }

  // Count down the head of one queue; if it lapses, it leaves the queue.
  method TickQueue(q: seq<Event>) returns (rest: seq<Event>, out: seq<Event>)
    requires q != []
    ensures rest == Ticked(q)
    ensures out == if Lapses(q) then [q[0].(timer := 0)] else []
    ensures rest == [] <==> Lapses(q) && |q| == 1
  {
    rest, out := q, [];
    var e := q[0];
    if e.timer >= 0 {
      if e.timer != 0 { e := e.(timer := e.timer - 1); }
      if e.timer == 0 {
        out, rest := [e], q[1..];
      } else {
        rest := q[0 := e];
      }
    }
  }

  ghost predicate TickedBelow(before: map<nat, seq<Event>>, queues: map<nat, seq<Event>>, emptied: set<nat>, g: nat) {
    && queues.Keys == before.Keys
    && (forall h | h in queues :: before[h] != [] && queues[h] == if h < g then Ticked(before[h]) else before[h])
    && emptied == (set h | h in before && h < g && Lapses(before[h]) && |before[h]| == 1)
  }

  lemma TickedNone(before: map<nat, seq<Event>>)
    requires forall h | h in before :: before[h] != []
    ensures TickedBelow(before, before, {}, 0)
  {
  }

  lemma TickedNext(before: map<nat, seq<Event>>, queues: map<nat, seq<Event>>, emptied: set<nat>, g: nat)
    requires TickedBelow(before, queues, emptied, g)
    ensures g in queues <==> g in before
    ensures g in queues ==> queues[g] == before[g] && before[g] != []
    ensures g in queues ==>
              TickedBelow(before, queues[g := Ticked(before[g])],
                          if Lapses(before[g]) && |before[g]| == 1 then emptied + {g} else emptied, g + 1)
    ensures g !in queues ==> TickedBelow(before, queues, emptied, g + 1)
  {
  }

  lemma TickedAll(before: map<nat, seq<Event>>, queues: map<nat, seq<Event>>, emptied: set<nat>, n: nat)
    requires TickedBelow(before, queues, emptied, n) && forall g | g in before :: g < n
    ensures queues - emptied == TickQueues(before)
  {
  }

  // The braid of an event in flight lies in the mesh.
  lemma EventInMesh(cfg: Config, s: State, i: nat)
    requires Inv(cfg, s) && i < |s.lapsed|
    ensures EventAt(cfg, s, i) && MeshOK(cfg, s.owner) && InMesh(cfg.grid, s.lapsed[i].braid)
  {
    hide Held, GatePlan, OnTime, InMesh, NextUseEdges;
    InFlightActive(cfg, s, i);
    var e := s.lapsed[i];
    var g, q, owned := e.gate, QueueOf(s.queues, e.gate), Owned(s.owner, cfg.gates[e.gate].number);
    var v3, v5 :| Follows(cfg, g, Pending(Some(e), q), owned, ViaOf(s.crossed, g), v3, v5);
    var pend := Pending(Some(e), q);
    var k := |GateKinds(cfg, g)| - |pend|;
    assert OnPlan(pend[0], g, GateKinds(cfg, g)[k + 0], GatePlan(cfg, g, v3, v5)[k + 0]);
    PlanInMesh(cfg, g, k, v3, v5);
  }

  lemma RowOffsets(g: Grid, r: nat, c: nat)
    ensures g.NodeAt(r, c) == g.NodeAt(r, 0) + c && g.NodeAt(r, c + 1) == g.NodeAt(r, c) + 1
    ensures g.NodeAt(r, g.cols + 1) == g.NodeAt(r + 1, 0)
  {
  }

  // A link starting at node n is the one to the right or the one below.
  lemma LinksFromNode(g: Grid, n: nat, l: Link)
    requires g.IsLink(l) && l.a == n
    ensures (l == Edge(n, n + 1) && g.ColOf(n) != g.cols) || (l == Edge(n, n + g.cols + 1) && g.RowOf(n) != g.rows)
  {
  }

  lemma SweptNode(g: Grid, before: map<Resource, nat>, start: map<Resource, nat>, after: map<Resource, nat>,
                  number: nat, n: nat, v: nat)
    requires g.Valid() && SweptTo(g, before, start, number, n, v)
    requires NodeRes(n) in before && after.Keys == before.Keys
    requires forall r | r in start ::
               after[r] == if start[r] == number && (r == NodeRes(n) || (r == LinkRes(Edge(n, n + 1)) && g.ColOf(n) != g.cols))
                           then 0 else start[r]
    ensures SweptTo(g, before, after, number, n + 1, v)
  {
    hide Grid.IsLink, Grid.IsNode, Grid.ColOf, Grid.RowOf;
    forall r | r in before
      ensures after[r] == if before[r] == number && Visited(g, r, n + 1, v) then 0 else before[r]
    {
      assert g.IsResource(r);
      if r.LinkRes? && r.link.a == n { LinksFromNode(g, n, r.link); }
    }
  }

  lemma SweptBelow(g: Grid, before: map<Resource, nat>, start: map<Resource, nat>, after: map<Resource, nat>,
                   number: nat, n: nat, v: nat)
    requires g.Valid() && SweptTo(g, before, start, number, n, v)
    requires after.Keys == before.Keys
    requires forall r | r in start ::
               after[r] == if start[r] == number && r == LinkRes(Edge(v, v + g.cols + 1)) && g.RowOf(v) != g.rows
                           then 0 else start[r]
    ensures SweptTo(g, before, after, number, n, v + 1)
  {
  }

  // Nodes and horizontal links from nodes below n, and vertical links from nodes below v, have been visited.
  predicate Visited(g: Grid, r: Resource, n: nat, v: nat) {
    match r
    case NodeRes(k) => k < n
    case LinkRes(l) => if l.b == l.a + 1 then l.a < n else l.a < v
  }

  ghost predicate SweptTo(g: Grid, before: map<Resource, nat>, after: map<Resource, nat>, number: nat, n: nat, v: nat) {
    && after.Keys == before.Keys
    && (forall r :: r in before <==> g.IsResource(r))
    && forall r | r in before ::
         after[r] == if before[r] == number && Visited(g, r, n, v) then 0 else before[r]
  }

  // The resources visited at row r, column c exist, and a link to the right or below is told by its ends.
  lemma SweepPoint(g: Grid, r: nat, c: nat)
    requires g.Valid() && g.InMesh(r, c)
    ensures var n := g.NodeAt(r, c);
            && g.IsResource(NodeRes(n)) && g.RowOf(n) == r && g.ColOf(n) == c
            && (c != g.cols ==> g.IsResource(LinkRes(Edge(n, n + 1))))
            && (r != g.rows ==> g.IsResource(LinkRes(Edge(n, n + g.cols + 1))))
  {
    NodeCoordinates(g, r, c);
    if c != g.cols { NeighboursLinked(g, r, c, r, c + 1); }
    if r != g.rows {
      NodeBelow(g, r, c);
      NeighboursLinked(g, r, c, r + 1, c);
    }
  }

  lemma SweepComplete(g: Grid, before: map<Resource, nat>, after: map<Resource, nat>, number: nat)
    requires g.Valid() && SweptTo(g, before, after, number, g.NodeCount(), g.NodeCount())
    ensures after == Purged(before, number)
  {
  }
}
