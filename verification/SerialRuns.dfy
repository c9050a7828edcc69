/**
 Gate lists in which every gate shares a tile with the next one.  Their gates run one at a time, so nothing
 is ever blocked, and the main loop finishes, after a number of cycles that is known beforehand, exactly if no
 CNOT has a negative timer.
 */
module SerialRuns {
  import opened Collections
  import opened Events
  import opened Dag
  import opened CriticalPath
  import opened Scheduler
  import opened SchedulerInvariant
  import opened SchedulerSteps
  import opened SchedulerRuns
  import opened SchedulerCycles
  import opened SelfConflict

  ghost predicate Serial(gates: seq<Gate>) {
    forall i: nat, j: nat | j == i + 1 && j < |gates| :: Shares(gates, i, j)
  }

  // No event gets a negative timer: the distance is not 0, or there is no CNOT.
  ghost predicate NoStall(cfg: Config) {
    cfg.distance >= 1 || forall g: nat | g < |cfg.gates| :: cfg.gates[g].op != CNOT
  }

  // ----- How long it takes -------------------------------------------------------------------------------

  // An event whose timer is set to 0 still takes the next cycle.
  function TicksOf(timer: int): nat { if timer >= 1 then timer else 1 }

  // The cycles that the events of an operation from index k on take.
  function EventCycles(distance: nat, op: Op, k: nat): nat
    requires k <= |Kinds(op)|
    decreases |Kinds(op)| - k
  {
    if k == |Kinds(op)| then 0 else TicksOf(TimerOf(distance, Kinds(op)[k])) + EventCycles(distance, op, k + 1)
  }

  // The cycles that the gates from g on take, one after the other.
  function GateCycles(cfg: Config, g: nat): nat
    requires g <= |cfg.gates|
    decreases |cfg.gates| - g
  {
    if g == |cfg.gates| then 0 else EventCycles(cfg.distance, cfg.gates[g].op, 0) + GateCycles(cfg, g + 1)
  }

  function Cnots(gates: seq<Gate>): nat {
    if gates == [] then 0 else Cnots(gates[..|gates| - 1]) + (if gates[|gates| - 1].op == CNOT then 1 else 0)
  }

  lemma EventTimes(distance: nat)
    ensures var t := TicksOf(distance - 1);
            && (forall k: nat | k <= 4 :: EventCycles(distance, CNOT, k) == 5 + 2 * t - k)
            && EventCycles(distance, CNOT, 5) == 1 + t && EventCycles(distance, CNOT, 6) == t
            && EventCycles(distance, CNOT, 7) == 0
  {
    var t := TicksOf(distance - 1);
    assert EventCycles(distance, CNOT, 7) == 0;
    assert EventCycles(distance, CNOT, 6) == t;
    assert EventCycles(distance, CNOT, 5) == 1 + t;
    assert EventCycles(distance, CNOT, 4) == 1 + 2 * t;
    assert EventCycles(distance, CNOT, 3) == 2 + 2 * t;
    assert EventCycles(distance, CNOT, 2) == 3 + 2 * t;
    assert EventCycles(distance, CNOT, 1) == 4 + 2 * t;
  }

  lemma CyclesOfOne(distance: nat)
    ensures EventCycles(distance, H, 0) == 9 + distance
    ensures EventCycles(distance, CNOT, 0) == 5 + 2 * TicksOf(distance - 1)
  {
    assert EventCycles(distance, H, 1) == 8 + distance;
    EventTimes(distance);
  }

  // The cycles of a serial list are the latencies of its gates; at distance 1 each CNOT takes two more, because a timer
  // of 0 costs a cycle.
  lemma {:induction false} CyclesAreLatencies(cfg: Config, g: nat)
    requires g <= |cfg.gates| && NoStall(cfg)
    ensures GateCycles(cfg, 0) >= GateCycles(cfg, g)
    ensures GateCycles(cfg, 0) - GateCycles(cfg, g)
            == Sum(Latencies(cfg)[..g]) + if cfg.distance == 1 then 2 * Cnots(cfg.gates[..g]) else 0
  {
    hide EventCycles, Latencies, Sum, Cnots, NoStall;
    if g > 0 {
      CyclesAreLatencies(cfg, g - 1);
      CyclesOfGate(cfg, g - 1);
      OneMoreGate(Latencies(cfg), cfg.gates, g - 1);
    } else {
      NoGates(Latencies(cfg), cfg.gates);
    }
  }

  lemma NoGates(w: seq<nat>, gates: seq<Gate>)
    ensures Sum(w[..0]) == 0 && Cnots(gates[..0]) == 0
  {
  }

  lemma OneMoreGate(w: seq<nat>, gates: seq<Gate>, g: nat)
    requires g < |w| == |gates|
    ensures Sum(w[..g + 1]) == Sum(w[..g]) + w[g]
    ensures Cnots(gates[..g + 1]) == Cnots(gates[..g]) + if gates[g].op == CNOT then 1 else 0
  {
    assert w[..g + 1][..g] == w[..g] && gates[..g + 1][..g] == gates[..g];
  }

  lemma CyclesOfGate(cfg: Config, g: nat)
    requires g < |cfg.gates| && NoStall(cfg)
    ensures EventCycles(cfg.distance, cfg.gates[g].op, 0)
            == Latencies(cfg)[g] + if cfg.distance == 1 && cfg.gates[g].op == CNOT then 2 else 0
  {
    hide EventCycles;
    CyclesOfOne(cfg.distance);
  }

  // In a serial list everything is on the critical path.
  lemma {:induction false} SerialPath(cfg: Config, g: nat)
    requires Serial(cfg.gates) && g < |cfg.gates|
    ensures Ranked(NextUseEdges(cfg.gates), Latencies(cfg), Positions(cfg))
    ensures LongestTo(NextUseEdges(cfg.gates), Latencies(cfg), Positions(cfg), g) >= Sum(Latencies(cfg)[..g + 1])
  {
    hide LongestTo, NextUseEdges, Latencies;
    PositionsRank(cfg);
    var es, w, rank := NextUseEdges(cfg.gates), Latencies(cfg), Positions(cfg);
    assert w[..g + 1][..g] == w[..g];
    if g > 0 {
      SerialPath(cfg, g - 1);
      SerialEdge(cfg.gates, g - 1);
      EdgeExtends(es, w, rank, g - 1, g);
    } else {
      LongestAtLeastOwn(es, w, rank, 0);
    }
  }

  lemma LongestAtLeastOwn(es: Edges, w: seq<nat>, rank: seq<nat>, g: nat)
    requires Ranked(es, w, rank) && g < |w|
    ensures LongestTo(es, w, rank, g) >= w[g]
  {
  }

  lemma SerialEdge(gates: seq<Gate>, g: nat)
    requires Serial(gates) && g + 1 < |gates|
    ensures (g, g + 1) in NextUseEdges(gates)
  {
    assert Shares(gates, g, g + 1);
    var q :| q in gates[g].qid && q in gates[g + 1].qid;
    assert IsNextUse(gates, g, q, g + 1);
  }

  // A serial list takes its critical path, and two cycles more for each CNOT at distance 1.
  lemma SerialTime(cfg: Config)
    requires Serial(cfg.gates) && NoStall(cfg)
    ensures Ranked(NextUseEdges(cfg.gates), Latencies(cfg), Positions(cfg))
    ensures GateCycles(cfg, 0) == LongestOverall(NextUseEdges(cfg.gates), Latencies(cfg), Positions(cfg), |cfg.gates|)
                                  + if cfg.distance == 1 then 2 * Cnots(cfg.gates) else 0
  {
    hide LongestTo, LongestOverall, NextUseEdges, Latencies;
    PositionsRank(cfg);
    var es, w, rank, n := NextUseEdges(cfg.gates), Latencies(cfg), Positions(cfg), |cfg.gates|;
    EdgesAscend(cfg.gates);
    CriticalAtMostSerial(es, w, rank);
    CyclesAreLatencies(cfg, n);
    assert w[..n] == w && cfg.gates[..n] == cfg.gates;
    if n > 0 {
      SerialPath(cfg, n - 1);
      OverallBounds(es, w, rank, n, n - 1);
    }
  }

  // ----- Where the run stands after each cycle -----------------------------------------------------------------

  // All gates before g are done; g is ready (or there is none left), or it waits for its event k with timer t.
  datatype Place = Idle(g: nat) | At(g: nat, k: nat, t: int)

  ghost predicate Stands(cfg: Config, s: State, p: Place) {
    && cfg.Valid() && Inv(cfg, s) && s.lapsed == []
    && (forall i: nat :: i in s.doneAt <==> i < p.g)
    && match p {
         case Idle(g) =>
           g <= |cfg.gates| && s.queues == map[] && s.ready == if g < |cfg.gates| then [g] else []
         case At(g, k, t) =>
           && g < |cfg.gates| && k < |GateKinds(cfg, g)| && t >= 0 && s.ready == []
           && s.queues == map[g := QueueAt(cfg, g, k, t)]
           && FirstRoute(cfg, s, g, k)
       }
  }

  // A gate past its cnot3 did it on the first route.
  ghost predicate FirstRoute(cfg: Config, s: State, g: nat, k: nat)
    requires cfg.Valid() && g < |cfg.gates|
  {
    3 <= k < |GateKinds(cfg, g)| ==> ViaOf(s.crossed, g) == Some(GatePlan(cfg, g, false, false)[2])
  }

  predicate Proper(cfg: Config, p: Place) {
    p.g <= |cfg.gates| && (p.At? ==> p.g < |cfg.gates| && p.k < |GateKinds(cfg, p.g)| && p.t >= 0)
  }

  // The timer in the place is at most the event's own.
  predicate Timely(cfg: Config, p: Place)
    requires Proper(cfg, p)
  {
    p.At? ==> TicksOf(p.t) <= TicksOf(TimerOf(cfg.distance, GateKinds(cfg, p.g)[p.k]))
  }

  // The number of cycles from there to the end.
  function ToGo(cfg: Config, p: Place): nat
    requires Proper(cfg, p)
  {
    match p
    case Idle(g) => GateCycles(cfg, g)
    case At(g, k, t) => TicksOf(t) + EventCycles(cfg.distance, cfg.gates[g].op, k + 1) + GateCycles(cfg, g + 1)
  }

  lemma StandsFinished(cfg: Config, s: State, p: Place)
    requires Stands(cfg, s, p)
    ensures Proper(cfg, p)
    ensures Finished(s) <==> ToGo(cfg, p) == 0
  {
    hide GateInv, NextUseEdges, MeshOK, ListsOK;
    EdgesAscend(cfg.gates);
    if p.Idle? && p.g < |cfg.gates| { CyclesOfOne(cfg.distance); }
    if p == Idle(|cfg.gates|) { assert s.edges == {}; }
    if p.At? { assert p.g in s.queues; }
  }

  // ----- One cycle ---------------------------------------------------------------------------------------------

  lemma QueueStands(cfg: Config, s: State, g: nat)
    requires Stands(cfg, s, Idle(g)) && g < |cfg.gates|
    ensures Stands(cfg, QueueAll(cfg, s), At(g, 0, 1))
    ensures ToGo(cfg, At(g, 0, 1)) == ToGo(cfg, Idle(g)) && Timely(cfg, At(g, 0, 1))
  {
    hide Inv, GatePlan;
    QueueFirstKeepsInv(cfg, s);
    var s' := QueueFirst(cfg, s);
    assert s'.ready == [];
    assert QueueAll(cfg, s') == s';
  }

  lemma {:induction false} OneQueueLapses(queues: map<nat, seq<Event>>, g: nat, n: nat)
    requires queues.Keys == {g}
    ensures NewlyLapsed(queues, n) == if g < n && Lapses(queues[g]) then [queues[g][0].(timer := 0)] else []
  {
    if n > 0 { OneQueueLapses(queues, g, n - 1); }
  }

  // What a tick does to the queue of a gate that waits for its event k with timer t.
  lemma TickOfQueue(cfg: Config, g: nat, k: nat, t: int)
    requires cfg.Valid() && g < |cfg.gates| && k < |GateKinds(cfg, g)| && t >= 0
    ensures var q := QueueAt(cfg, g, k, t);
            if t >= 2 then !Lapses(q) && Ticked(q) == QueueAt(cfg, g, k, t - 1)
            else Lapses(q) && Ticked(q) == QueueAt(cfg, g, k + 1, -1) && [q[0].(timer := 0)] == QueueAt(cfg, g, k, 0)[..1]
  {
    hide GatePlan, Config.Valid;
    var q := QueueAt(cfg, g, k, t);
    assert q[1..] == QueueAt(cfg, g, k + 1, -1);
  }

  lemma TickWaits(cfg: Config, s: State, g: nat, k: nat, t: int)
    requires Stands(cfg, s, At(g, k, t)) && t >= 2
    ensures Stands(cfg, Tick(cfg, s), At(g, k, t - 1))
  {
    hide Inv, GatePlan, QueueAt, NewlyLapsed, TickQueues, Lapses, Ticked, GateKinds;
    TickKeepsInv(cfg, s);
    OneQueueLapses(s.queues, g, |cfg.gates|);
    TickOfQueue(cfg, g, k, t);
    TickOne(s.queues, g);
  }

  // A tick of the only queue there is.
  lemma TickOne(queues: map<nat, seq<Event>>, g: nat)
    requires queues.Keys == {g} && queues[g] != []
    ensures TickQueues(queues) == if Lapses(queues[g]) && |queues[g]| == 1 then map[] else map[g := Ticked(queues[g])]
  {
    hide Ticked, Lapses;
  }

  // The head event is in flight; the rest of the queue waits for it.
  ghost predicate Flies(cfg: Config, s: State, g: nat, k: nat) {
    && cfg.Valid() && Inv(cfg, s) && g < |cfg.gates| && k < |GateKinds(cfg, g)|
    && (forall i: nat :: i in s.doneAt <==> i < g) && s.ready == []
    && s.lapsed == QueueAt(cfg, g, k, 0)[..1]
    && s.queues == (if k + 1 == |GateKinds(cfg, g)| then map[] else map[g := QueueAt(cfg, g, k + 1, -1)])
    && FirstRoute(cfg, s, g, k)
  }

  lemma TickLapses(cfg: Config, s: State, g: nat, k: nat, t: int)
    requires Stands(cfg, s, At(g, k, t)) && t <= 1
    ensures Flies(cfg, Tick(cfg, s), g, k)
  {
    hide Inv, GatePlan, QueueAt, NewlyLapsed, TickQueues, Lapses, Ticked;
    TickKeepsInv(cfg, s);
    OneQueueLapses(s.queues, g, |cfg.gates|);
    TickOfQueue(cfg, g, k, t);
    TickOne(s.queues, g);
  }

  // The head of a queue, and the queue once its timer is set.
  lemma QueueHead(cfg: Config, g: nat, k: nat, t: int, u: int)
    requires cfg.Valid() && g < |cfg.gates| && k < |GateKinds(cfg, g)|
    ensures var q := QueueAt(cfg, g, k, t);
            && q[0].gate == g && q[0].kind == GateKinds(cfg, g)[k] && q[0].braid == GatePlan(cfg, g, false, false)[k]
            && q[0 := q[0].(timer := u)] == QueueAt(cfg, g, k, u)
  {
    hide GatePlan, Config.Valid;
  }

  // A gate that runs alone is never blocked.
  lemma AloneDoable(cfg: Config, s: State, g: nat, k: nat)
    requires Flies(cfg, s, g, k)
    ensures EventAt(cfg, s, 0) && Doable(cfg, s, 0)
  {
    hide Inv, GatePlan, Res, CnotPlan;
    BlockedByActiveGate(cfg, s, 0);
    var e := s.lapsed[0];
    if !Doable(cfg, s, 0) {
      var h: nat, r :| r in Res(e.braid) && Holds(cfg, s, h, r) && (h != e.gate || e.open);
      assert s.lapsed == [e] && InFlight(s.lapsed[1..], h) == None;
      NothingInTheWay(cfg, s, g, k);
    }
  }

  lemma NothingInTheWay(cfg: Config, s: State, g: nat, k: nat)
    requires Flies(cfg, s, g, k) && Opens(GateKinds(cfg, g)[k])
    ensures forall r | r in Res(s.lapsed[0].braid) :: r !in Owned(s.owner, cfg.gates[g].number)
  {
    hide GateInv, NextUseEdges, MeshOK, ListsOK, OnTime, Res, CnotPlan;
    var e, owned, via := s.lapsed[0], Owned(s.owner, cfg.gates[g].number), ViaOf(s.crossed, g);
    InFlightActive(cfg, s, 0);
    var q := QueueOf(s.queues, g);
    assert cfg.ValidGate(cfg.gates[g]);
    if cfg.gates[g].op == H {
      EmptyInMesh(cfg.grid);
    } else if k == 4 {
      NotCrossed(cfg, s, g);
    } else {
      var v3, v5 :| Follows(cfg, g, Pending(Some(e), q), owned, via, v3, v5);
      NothingBeforeCnot3(cfg, g, v3, v5);
    }
  }

  lemma NothingBeforeCnot3(cfg: Config, g: nat, v3: bool, v5: bool)
    requires cfg.Valid() && g < |cfg.gates| && cfg.gates[g].op == CNOT
    ensures Held(cfg, g, 0, v3, v5) == Held(cfg, g, 2, v3, v5) == {}
  {
    hide Res;
    var p, kinds := GatePlan(cfg, g, v3, v5), GateKinds(cfg, g);
    assert cfg.ValidGate(cfg.gates[g]);
    assert p[0] == p[1];
    assert HeldAfter(p, kinds, 1) == Res(p[0]);
  }

  lemma NotCrossed(cfg: Config, s: State, g: nat)
    requires Flies(cfg, s, g, 4) && cfg.gates[g].op == CNOT
    ensures forall r | r in Res(s.lapsed[0].braid) :: r !in Owned(s.owner, cfg.gates[g].number)
  {
    hide Inv, Res, CnotPlan;
    Cnot5SelfConflict(cfg, s, 0);
    var src, dest := cfg.gates[g].qid[0], cfg.gates[g].qid[1];
    assert s.crossed[g] == CnotPlan(cfg.grid, src, dest, false, false)[2];
    if !cfg.grid.AreAdjacent(src, dest) { SwitchedCnot3Differs(cfg.grid, src, dest, false); }
  }

  // ----- After the event -------------------------------------------------------------------------------------------

  lemma SingleMember(l: seq<nat>, x: nat, some: bool)
    requires Distinct(l) && forall h: nat :: h in l <==> some && h == x
    ensures l == if some then [x] else []
  {
    assert Elems(l) == if some then {x} else {};
    ElemsSize(l);
    assert |l| == 1 ==> l[0] in Elems(l);
  }

  // Completing a gate of a serial list makes exactly the next gate ready.
  lemma NextIsReady(cfg: Config, s: State, g: nat)
    requires Inv(cfg, s) && Serial(cfg.gates) && g < |cfg.gates| && forall i: nat :: i in s.doneAt <==> i < g
    ensures NewlyReady(s.edges, g, |cfg.gates|) == if g + 1 < |cfg.gates| then [g + 1] else []
  {
    hide GateInv, MeshOK, ListsOK, NextUseEdges, NewlyReady;
    var n, ready := |cfg.gates|, NewlyReady(s.edges, g, |cfg.gates|);
    NewlyReadyExact(s.edges, g, n);
    EdgesAscend(cfg.gates);
    forall h: nat ensures h in ready <==> g + 1 < n && h == g + 1 {
      if g + 1 < n { SerialEdge(cfg.gates, g); }
      if (g, h) in s.edges {
        InDegreeOne(s.edges, g, h);
        if h != g + 1 {
          SerialEdge(cfg.gates, h - 1);
          assert (h - 1, h) in s.edges;
        }
      }
    }
    SingleMember(ready, g + 1, g + 1 < n);
  }

  // The state after the event in flight succeeded, as far as it is not hidden in the invariant.
  lemma SucceedShape(cfg: Config, s: State, g: nat, k: nat)
    requires Flies(cfg, s, g, k)
    ensures EventAt(cfg, s, 0)
    ensures var s' := Succeed(cfg, s, 0);
            && s'.lapsed == []
            && s'.crossed == (if GateKinds(cfg, g)[k] == Cnot3 then s.crossed[g := GatePlan(cfg, g, false, false)[k]]
                              else s.crossed)
            && if k + 1 == |GateKinds(cfg, g)| then
                 s'.queues == map[] && s'.ready == NewlyReady(s.edges, g, |cfg.gates|) && s'.doneAt == s.doneAt[g := s.clk]
               else
                 && s'.ready == [] && s'.doneAt == s.doneAt
                 && s'.queues == map[g := QueueAt(cfg, g, k + 1, TimerOf(cfg.distance, GateKinds(cfg, g)[k + 1]))]
  {
    hide Inv, GatePlan, QueueAt, Done, NewlyReady, OutEdges, TimerOf, FirstRoute, Config.Valid, GateKinds;
    QueueHead(cfg, g, k, 0, 0);
    assert s.lapsed == [QueueAt(cfg, g, k, 0)[0]];
    if k + 1 < |GateKinds(cfg, g)| {
      QueueHead(cfg, g, k + 1, -1, TimerOf(cfg.distance, GateKinds(cfg, g)[k + 1]));
    }
  }

  lemma SucceedStands(cfg: Config, s: State, g: nat, k: nat)
    requires Flies(cfg, s, g, k) && Serial(cfg.gates) && NoStall(cfg)
    ensures EventAt(cfg, s, 0) && Doable(cfg, s, 0)
    ensures Stands(cfg, Succeed(cfg, s, 0),
                   if k + 1 == |GateKinds(cfg, g)| then Idle(g + 1)
                   else At(g, k + 1, TimerOf(cfg.distance, GateKinds(cfg, g)[k + 1])))
  {
    hide Inv, GatePlan, QueueAt, CanDo, Succeed, NewlyReady, TimerOf, FirstRoute;
    AloneDoable(cfg, s, g, k);
    SucceedKeepsInv(cfg, s, 0);
    SucceedShape(cfg, s, g, k);
    if k + 1 == |GateKinds(cfg, g)| {
      NextIsReady(cfg, s, g);
    } else {
      NoNegativeTimer(cfg, g, k + 1);
      RouteKept(cfg, s, Succeed(cfg, s, 0), g, k);
    }
  }

  lemma RouteKept(cfg: Config, s: State, s': State, g: nat, k: nat)
    requires cfg.Valid() && g < |cfg.gates| && k + 1 < |GateKinds(cfg, g)| && FirstRoute(cfg, s, g, k)
    requires if GateKinds(cfg, g)[k] == Cnot3 then s'.crossed == s.crossed[g := GatePlan(cfg, g, false, false)[k]]
             else s'.crossed == s.crossed
    ensures FirstRoute(cfg, s', g, k + 1)
  {
    hide GatePlan, Config.Valid;
  }

  lemma NoNegativeTimer(cfg: Config, g: nat, k: nat)
    requires g < |cfg.gates| && k < |GateKinds(cfg, g)| && NoStall(cfg)
    ensures TimerOf(cfg.distance, GateKinds(cfg, g)[k]) >= 0
  {
  }

  // Every cycle before the end brings the end one cycle nearer.
  lemma CycleMoves(cfg: Config, s: State, p: Place, s': State) returns (p': Place)
    requires Stands(cfg, s, p) && Serial(cfg.gates) && NoStall(cfg) && IsCycle(cfg, s, s') && !Finished(s)
    ensures Proper(cfg, p)
    ensures Stands(cfg, s', p') && Proper(cfg, p') && (Timely(cfg, p) ==> Timely(cfg, p'))
    ensures ToGo(cfg, p) == ToGo(cfg, p') + 1
  {
    hide Inv, Stands, Flies, QueueAll, HandleAll, Tick, ToGo, Succeed, TimerOf;
    StandsFinished(cfg, s, p);
    var s0 := QueueAll(cfg, s);
    var p0: Place;
    if p.Idle? {
      assert p.g < |cfg.gates| by { NotAtEnd(cfg, p); }
      QueueStands(cfg, s, p.g);
      p0 := At(p.g, 0, 1);
    } else {
      NothingToQueue(cfg, s, p);
      p0 := p;
    }
    var g, k, t := p0.g, p0.k, p0.t;
    var order :| multiset(order) == multiset(Advanced(cfg, s).lapsed) && s' == CycleWith(cfg, s, order);
    if t >= 2 {
      TickWaits(cfg, s0, g, k, t);
      p' := At(g, k, t - 1);
      NothingToHandle(cfg, Tick(cfg, s0), p', order);
    } else {
      TickLapses(cfg, s0, g, k, t);
      OneToHandle(cfg, Tick(cfg, s0), g, k, order);
      SucceedStands(cfg, Tick(cfg, s0), g, k);
      p' := if k + 1 == |GateKinds(cfg, g)| then Idle(g + 1)
            else At(g, k + 1, TimerOf(cfg.distance, GateKinds(cfg, g)[k + 1]));
    }
    StandsFinished(cfg, s', p');
    StandsFinished(cfg, s0, p0);
    OneCycleLess(cfg, p0, p');
  }

  lemma NotAtEnd(cfg: Config, p: Place)
    requires p.Idle? && Proper(cfg, p) && ToGo(cfg, p) > 0
    ensures p.g < |cfg.gates|
  {
  }

  lemma NothingToQueue(cfg: Config, s: State, p: Place)
    requires Stands(cfg, s, p) && p.At?
    ensures QueueAll(cfg, s) == s
  {
  }

  lemma NothingToHandle(cfg: Config, s: State, p: Place, order: seq<Event>)
    requires Inv(cfg, s) && Stands(cfg, s, p) && multiset(order) == multiset(s.lapsed)
    ensures s.(lapsed := order) == s
    ensures HandleAll(cfg, Pass(s, 0, false, false)).s == s
  {
    hide Inv;
    assert |multiset(order)| == |order|;
  }

  lemma OneToHandle(cfg: Config, s: State, g: nat, k: nat, order: seq<Event>)
    requires Inv(cfg, s) && Flies(cfg, s, g, k) && multiset(order) == multiset(s.lapsed)
    ensures EventAt(cfg, s, 0)
    ensures s.(lapsed := order) == s
    ensures HandleAll(cfg, Pass(s, 0, false, false)).s == Succeed(cfg, s, 0)
  {
    hide Inv, CanDo, Done, NewlyReady, GatePlan;
    AloneDoable(cfg, s, g, k);
    assert |multiset(order)| == |order| && order[0] in multiset(order);
    assert order == s.lapsed;
    var p := HandleOne(cfg, Pass(s, 0, false, false));
    assert p.s == Succeed(cfg, s, 0) && p.s.lapsed == [];
    assert HandleAll(cfg, p) == p;
  }

  lemma OneCycleLess(cfg: Config, p: Place, p': Place)
    requires p.At? && Proper(cfg, p) && Proper(cfg, p')
    requires p' == if p.t >= 2 then At(p.g, p.k, p.t - 1)
                   else if p.k + 1 == |GateKinds(cfg, p.g)| then Idle(p.g + 1)
                   else At(p.g, p.k + 1, TimerOf(cfg.distance, GateKinds(cfg, p.g)[p.k + 1]))
    ensures ToGo(cfg, p) == ToGo(cfg, p') + 1
  {
    hide TimerOf;
  }

  // ----- The whole run -----------------------------------------------------------------------------------------------

  lemma InitialStands(cfg: Config, s: State)
    requires cfg.Valid() && Serial(cfg.gates) && IsInitial(cfg, s)
    ensures Stands(cfg, s, Idle(0))
  {
    hide Inv, NextUseEdges, Sources;
    InitialInv(cfg, s.owner);
    var es, n := NextUseEdges(cfg.gates), |cfg.gates|;
    SourcesExact(es, n);
    EdgesAscend(cfg.gates);
    forall h: nat ensures h in Sources(es, n) <==> n > 0 && h == 0 {
      InDegreeZero(es, h);
      if 0 < h < n { SerialEdge(cfg.gates, h - 1); }
    }
    SingleMember(Sources(es, n), 0, n > 0);
  }

  lemma {:induction false} StandsAfter(cfg: Config, s: State, n: nat, s': State) returns (p: Place)
    requires cfg.Valid() && Serial(cfg.gates) && NoStall(cfg) && IsInitial(cfg, s) && Cycles(cfg, s, n, s')
    ensures Stands(cfg, s', p) && Proper(cfg, p) && Timely(cfg, p)
    ensures ToGo(cfg, p) + n == GateCycles(cfg, 0)
  {
    hide Inv, Stands, IsCycle, IsInitial, GateCycles;
    if n == 0 {
      InitialStands(cfg, s);
      p := Idle(0);
    } else {
      var m :| Cycles(cfg, s, n - 1, m) && !Finished(m) && IsCycle(cfg, m, s');
      var p0 := StandsAfter(cfg, s, n - 1, m);
      p := CycleMoves(cfg, m, p0, s');
    }
  }

  // A serial list finishes exactly if no CNOT has a negative timer, and then after a known number of cycles.
  lemma SerialFinishes(cfg: Config, s: State, n: nat, s': State)
    requires cfg.Valid() && Serial(cfg.gates) && IsInitial(cfg, s) && Cycles(cfg, s, n, s')
    ensures Finished(s') <==> NoStall(cfg) && n == GateCycles(cfg, 0)
    ensures NoStall(cfg) ==> n <= GateCycles(cfg, 0)
  {
    hide Inv, Stands, Cycles, LongestTo, LongestOverall, NextUseEdges;
    if NoStall(cfg) {
      var p := StandsAfter(cfg, s, n, s');
      StandsFinished(cfg, s', p);
    } else if Finished(s') {
      InitialInv(cfg, s.owner);
      CyclesKeepInv(cfg, s, n, s');
      FinishedState(cfg, s');
    }
  }

  // A list of one CNOT: at distance 0 it never finishes, otherwise after 5 + 2 * max(1, distance - 1) cycles.
  lemma OneCnotFinishes(cfg: Config, s: State, n: nat, s': State)
    requires cfg.Valid() && |cfg.gates| == 1 && cfg.gates[0].op == CNOT && IsInitial(cfg, s) && Cycles(cfg, s, n, s')
    ensures Finished(s') <==> cfg.distance >= 1 && n == 5 + 2 * TicksOf(cfg.distance - 1)
  {
    hide Cycles, EventCycles;
    SerialFinishes(cfg, s, n, s');
    CyclesOfOne(cfg.distance);
    assert GateCycles(cfg, 1) == 0;
  }

  // ----- When each event succeeds ------------------------------------------------------------------------------------

  lemma {:induction false} LaterGate(cfg: Config, g: nat, h: nat)
    requires g <= h <= |cfg.gates|
    ensures GateCycles(cfg, h) <= GateCycles(cfg, g)
    decreases h - g
  {
    if g < h { LaterGate(cfg, g + 1, h); }
  }

  lemma {:induction false} LaterEvent(distance: nat, op: Op, j: nat, k: nat)
    requires j < k <= |Kinds(op)|
    ensures EventCycles(distance, op, k) < EventCycles(distance, op, j)
    decreases k - j
  {
    if j + 1 < k { LaterEvent(distance, op, j + 1, k); }
  }

  // The cycles to go tell which gate runs, and which of its events is next.
  lemma PlaceOfCycle(cfg: Config, p: Place, g: nat, k: nat)
    requires Proper(cfg, p) && Timely(cfg, p) && g < |cfg.gates| && 1 <= k < |GateKinds(cfg, g)|
    requires var (op, rest) := (cfg.gates[g].op, GateCycles(cfg, g + 1));
             EventCycles(cfg.distance, op, k + 1) < ToGo(cfg, p) - rest <= EventCycles(cfg.distance, op, k)
    ensures p.At? && p.g == g && p.k == k
  {
    hide TimerOf, Kinds;
    var op := cfg.gates[g].op;
    LaterEvent(cfg.distance, op, 0, k);
    if p.g < g {
      LaterGate(cfg, if p.At? then p.g + 1 else p.g, g);
    } else if p.g > g {
      if p.At? && p.k > 0 { LaterEvent(cfg.distance, cfg.gates[p.g].op, 0, p.k); }
      LaterGate(cfg, g + 1, p.g);
    } else if p.At? && p.k < k {
      if p.k + 1 < k { LaterEvent(cfg.distance, op, p.k + 1, k); }
    } else if p.At? && p.k > k {
      if k + 1 < p.k { LaterEvent(cfg.distance, op, k + 1, p.k); }
    }
  }

  // After n cycles of a serial run the gate g is at its event k exactly while the cycles left are more than those
  // of its later events and gates and no more than those with event k: each event succeeds in the cycle given by
  // the timers of all before it.
  lemma SerialProgress(cfg: Config, s: State, n: nat, s': State, g: nat, k: nat)
    requires cfg.Valid() && Serial(cfg.gates) && NoStall(cfg) && IsInitial(cfg, s) && Cycles(cfg, s, n, s')
    requires g < |cfg.gates| && 1 <= k < |GateKinds(cfg, g)|
    requires var (op, left) := (cfg.gates[g].op, GateCycles(cfg, 0) - n - GateCycles(cfg, g + 1));
             EventCycles(cfg.distance, op, k + 1) < left <= EventCycles(cfg.distance, op, k)
    ensures (forall i: nat :: i in s'.doneAt <==> i < g) && Remaining(s', g) == |GateKinds(cfg, g)| - k
  {
    hide Inv, Cycles, IsInitial, GateCycles, EventCycles, ToGo, FirstRoute;
    var p := StandsAfter(cfg, s, n, s');
    PlaceOfCycle(cfg, p, g, k);
    assert s'.queues == map[g := QueueAt(cfg, g, k, p.t)];
    assert InFlight(s'.lapsed, g) == None;
  }

  // One CNOT alone: its first four events succeed in the first four cycles, cnot5 after the timer for the first route,
  // cnot6 in the very next cycle, so that route 2 is taken for one cycle only, and cnot7 after another timer.
  lemma OneCnotTimes(cfg: Config, s: State, n: nat, s': State)
    requires cfg.Valid() && |cfg.gates| == 1 && cfg.gates[0].op == CNOT && cfg.distance >= 1
    requires IsInitial(cfg, s) && Cycles(cfg, s, n, s')
    ensures var t := TicksOf(cfg.distance - 1);
            && n <= 5 + 2 * t && (Finished(s') <==> n == 5 + 2 * t)
            && (1 <= n < 5 + 2 * t ==>
                  Remaining(s', 0) == 7 - if n <= 4 then n else if n < 4 + t then 4 else if n == 4 + t then 5 else 6)
  {
    hide Cycles, EventCycles, Remaining;
    OneCnotFinishes(cfg, s, n, s');
    SerialFinishes(cfg, s, n, s');
    EventTimes(cfg.distance);
    var t := TicksOf(cfg.distance - 1);
    assert GateCycles(cfg, 1) == 0 && |GateKinds(cfg, 0)| == 7;
    if 1 <= n < 5 + 2 * t {
      var k := if n <= 4 then n else if n < 4 + t then 4 else if n == 4 + t then 5 else 6;
      SerialProgress(cfg, s, n, s', 0, k);
    }
  }
}
