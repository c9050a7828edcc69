/**
 The scheduler's invariant and its preservation by every step.
 */
module SchedulerInvariant {
  import opened Collections
  import opened Mesh
  import opened Routes
  import opened Events
  import opened Dag
  import opened Scheduler

  // ----- The invariant -----------------------------------------------------------------------

  // Sum of the timers of the first k events of an operation.
  function TimerSum(distance: nat, op: Op, k: nat): int
    requires k <= |Kinds(op)|
  {
    if k == 0 then 0 else TimerSum(distance, op, k - 1) + TimerOf(distance, Kinds(op)[k - 1])
  }

  // The resources taken and not yet released by the first k events of a program.
  ghost function HeldAfter(plan: seq<Braid>, kinds: seq<Kind>, k: nat): set<Resource>
    requires k <= |plan| == |kinds|
  {
    if k == 0 then {}
    else if Opens(kinds[k - 1]) then HeldAfter(plan, kinds, k - 1) + Res(plan[k - 1])
    else HeldAfter(plan, kinds, k - 1) - Res(plan[k - 1])
  }

  // The resources a gate holds while the event with index k is its next one.
  ghost function Held(cfg: Config, g: nat, k: nat, v3: bool, v5: bool): set<Resource>
    requires cfg.Valid() && g < |cfg.gates| && k <= |GateKinds(cfg, g)|
  {
    HeldAfter(GatePlan(cfg, g, v3, v5), GateKinds(cfg, g), k)
  }

  // The events a gate still has to do: the one in flight, then its queue.
  function Pending(fl: Option<Event>, q: seq<Event>): seq<Event> {
    if fl.Some? then [fl.value] + q else q
  }

  // The pending events are the tail of the gate's program, up to reroutes; the gate holds exactly what the
  // events before them leave it; and past its cnot3 the history tells on which route that was done.
  ghost predicate Follows(cfg: Config, g: nat, pend: seq<Event>, owned: set<Resource>, via: Option<Braid>, v3: bool, v5: bool)
    requires cfg.Valid() && g < |cfg.gates|
  {
    var kinds, plan := GateKinds(cfg, g), GatePlan(cfg, g, v3, v5);
    var k := |kinds| - |pend|;
    && 0 <= k < |kinds|
    && (forall j | 0 <= j < |pend| :: OnPlan(pend[j], g, kinds[k + j], plan[k + j]))
    && owned == Held(cfg, g, k, v3, v5)
    && (k >= 3 ==> via == Some(plan[2]))
  }

  predicate OnPlan(e: Event, g: nat, kind: Kind, b: Braid) {
    e.gate == g && e.kind == kind && e.open == Opens(kind) && e.braid == b
  }

  // Exactly one event of the gate runs: the one in flight, or else the head of the queue.
  ghost predicate TimersOK(cfg: Config, fl: Option<Event>, q: seq<Event>) {
    && (fl.None? ==> q != [] && (q[0].timer >= 0 || (cfg.distance == 0 && q[0].timer == -1)))
    && (forall j | (if fl.Some? then 0 else 1) <= j < |q| :: q[j].timer == -1)
  }

  // With distance 0 the timer of cnot5 is set to -1, so a CNOT never gets past it.
  ghost predicate StalledOK(cfg: Config, fl: Option<Event>, q: seq<Event>) {
    cfg.distance == 0 ==>
      && (fl.Some? ==> fl.value.kind !in {Cnot5, Cnot6, Cnot7})
      && (fl.None? && q != [] ==> q[0].kind !in {Cnot6, Cnot7} && (q[0].kind == Cnot5 ==> q[0].timer == -1))
  }

  // The gate cannot be ahead of its dependencies' completion plus the timers of its events so far.
  ghost predicate OnTime(cfg: Config, g: nat, fl: Option<Event>, q: seq<Event>, clk: nat, doneAt: map<nat, nat>)
    requires g < |cfg.gates| && |Pending(fl, q)| <= |GateKinds(cfg, g)| && Pending(fl, q) != []
  {
    var spent := TimerSum(cfg.distance, cfg.gates[g].op, |GateKinds(cfg, g)| - |Pending(fl, q)| + 1);
    var due := clk + if fl.Some? then 0 else q[0].timer;
    due >= spent && AfterPreds(cfg, g, doneAt, due - spent)
  }

  // All predecessors of g are complete, none later than t.
  ghost predicate AfterPreds(cfg: Config, g: nat, doneAt: map<nat, nat>, t: int) {
    forall e | e in NextUseEdges(cfg.gates) && e.1 == g :: e.0 in doneAt && doneAt[e.0] <= t
  }

  ghost predicate ActiveOK(cfg: Config, g: nat, fl: Option<Event>, q: seq<Event>, owned: set<Resource>, via: Option<Braid>,
                           clk: nat, doneAt: map<nat, nat>)
    requires cfg.Valid() && g < |cfg.gates|
  {
    && (exists v3, v5 :: Follows(cfg, g, Pending(fl, q), owned, via, v3, v5))
    && TimersOK(cfg, fl, q) && StalledOK(cfg, fl, q)
    && OnTime(cfg, g, fl, q, clk, doneAt)
  }

  ghost predicate DoneOK(cfg: Config, g: nat, clk: nat, doneAt: map<nat, nat>)
    requires g < |cfg.gates| && g in doneAt
  {
    && Latency(cfg.distance, cfg.gates[g].op) <= doneAt[g] <= clk
    && AfterPreds(cfg, g, doneAt, doneAt[g] - Latency(cfg.distance, cfg.gates[g].op))
    && (cfg.distance == 0 ==> cfg.gates[g].op != CNOT)
  }

  // One gate is exactly one of: done, blocked, ready, active; and only an active gate has events or holds resources.
  ghost predicate GateOK(cfg: Config, g: nat, blocked: bool, ready: bool, fl: Option<Event>, q: seq<Event>,
                         owned: set<Resource>, via: Option<Braid>, clk: nat, doneAt: map<nat, nat>)
    requires cfg.Valid() && g < |cfg.gates|
  {
    if g in doneAt || blocked || ready then
      && fl.None? && q == [] && owned == {}
      && (g in doneAt ==> !blocked && !ready && DoneOK(cfg, g, clk, doneAt))
      && (blocked ==> !ready)
    else ActiveOK(cfg, g, fl, q, owned, via, clk, doneAt)
  }

  ghost predicate GateInv(cfg: Config, s: State, g: nat)
    requires cfg.Valid() && g < |cfg.gates|
  {
    GateOK(cfg, g, Blocked(s.edges, g), g in s.ready, InFlight(s.lapsed, g), QueueOf(s.queues, g),
           Owned(s.owner, cfg.gates[g].number), ViaOf(s.crossed, g), s.clk, s.doneAt)
  }

  ghost predicate UniqueGates(l: seq<Event>) {
    forall i, j | 0 <= i < j < |l| :: l[i].gate != l[j].gate
  }

  ghost predicate GateNumber(cfg: Config, x: nat) {
    exists g: nat :: g < |cfg.gates| && cfg.gates[g].number == x
  }

  ghost predicate MeshOK(cfg: Config, owner: map<Resource, nat>) {
    && (forall r :: r in owner <==> cfg.grid.IsResource(r))
    && (forall r | r in owner :: owner[r] == 0 || GateNumber(cfg, owner[r]))
  }

  ghost predicate ListsOK(cfg: Config, s: State) {
    && Distinct(s.ready) && (forall g | g in s.ready :: g < |cfg.gates|)
    && UniqueGates(s.lapsed) && (forall i | 0 <= i < |s.lapsed| :: s.lapsed[i].gate < |cfg.gates|)
    && (forall g | g in s.queues :: g < |cfg.gates| && s.queues[g] != [])
    && (forall g | g in s.doneAt :: g < |cfg.gates|)
  }

  ghost predicate Inv(cfg: Config, s: State) {
    && cfg.Valid()
    && MeshOK(cfg, s.owner)
    && s.edges == (set e | e in NextUseEdges(cfg.gates) && e.0 !in s.doneAt)
    && ListsOK(cfg, s)
    && (forall g: nat | g < |cfg.gates| :: GateInv(cfg, s, g))
  }

  // ----- Facts about in-flight events --------------------------------------------------------

  lemma {:induction false} InFlightNone(l: seq<Event>, g: nat)
    ensures InFlight(l, g) == None <==> forall i | 0 <= i < |l| :: l[i].gate != g
  {
    if l != [] {
      InFlightNone(l[1..], g);
      assert forall i | 1 <= i < |l| :: l[i] == l[1..][i - 1];
    }
  }

  lemma {:induction false} InFlightIs(l: seq<Event>, i: nat)
    requires i < |l| && UniqueGates(l)
    ensures InFlight(l, l[i].gate) == Some(l[i])
  {
    if i > 0 {
      assert l[0].gate != l[i].gate;
      InFlightIs(l[1..], i - 1);
    }
  }

  // Which event of g is in flight depends only on which events there are.
  lemma InFlightSame(l: seq<Event>, m: seq<Event>, g: nat)
    requires UniqueGates(l) && UniqueGates(m)
    requires forall e: Event | e.gate == g :: e in l <==> e in m
    ensures InFlight(l, g) == InFlight(m, g)
  {
  }

  lemma RemoveKeepsUnique(l: seq<Event>, i: nat)
    requires i < |l| && UniqueGates(l)
    ensures UniqueGates(RemoveAt(l, i))
    ensures forall j | 0 <= j < |RemoveAt(l, i)| :: RemoveAt(l, i)[j] in l && RemoveAt(l, i)[j].gate != l[i].gate
  {
  }

  lemma InFlightRemove(l: seq<Event>, i: nat, h: nat)
    requires i < |l| && UniqueGates(l)
    ensures InFlight(RemoveAt(l, i), h) == if h == l[i].gate then None else InFlight(l, h)
  {
    RemoveKeepsUnique(l, i);
    var m := RemoveAt(l, i);
    if h == l[i].gate {
      InFlightNone(m, h);
    } else {
      forall e: Event | e.gate == h ensures e in l <==> e in m {
        assert l == l[..i] + [l[i]] + l[i + 1..];
      }
      InFlightSame(l, m, h);
    }
  }

  lemma InFlightUpdate(l: seq<Event>, i: nat, e: Event, h: nat)
    requires i < |l| && UniqueGates(l) && e.gate == l[i].gate
    ensures UniqueGates(l[i := e])
    ensures InFlight(l[i := e], h) == if h == e.gate then Some(e) else InFlight(l, h)
  {
    var m := l[i := e];
    if h == e.gate {
      InFlightIs(m, i);
    } else {
      forall x: Event | x.gate == h ensures x in l <==> x in m {
        if x in l { var j :| 0 <= j < |l| && l[j] == x; assert m[j] == x; }
        if x in m { var j :| 0 <= j < |m| && m[j] == x; assert l[j] == x; }
      }
      InFlightSame(l, m, h);
    }
  }

  // ----- Facts about the protocol -----------------------------------------------------------

  // A bound on what a CNOT holds before the event with index k, in terms of its braids, held node and held link.
  function HeldOf(bs: seq<Braid>, n: nat, l: Link, k: nat): set<Resource>
    requires |bs| == 7
  {
    if k == 1 then Res(bs[1])
    else if k == 3 then Res(bs[3]) + {NodeRes(n)}
    else if k == 4 then {NodeRes(n)}
    else if k == 5 then Res(bs[5]) + {LinkRes(l)}
    else if k == 6 then {LinkRes(l)}
    else {}
  }

  lemma ProtocolStep(g: Grid, bs: seq<Braid>, n: nat, l: Link, k: nat, owned: set<Resource>)
    requires ClosedProtocol(g, bs, n, l) && k < 7 && owned <= HeldOf(bs, n, l, k)
    ensures (if Opens(Kinds(CNOT)[k]) then owned + Res(bs[k]) else owned - Res(bs[k])) <= HeldOf(bs, n, l, k + 1)
  {
  }

  lemma {:induction false} ProtocolBound(g: Grid, bs: seq<Braid>, n: nat, l: Link, k: nat)
    requires |bs| == 7 && ClosedProtocol(g, bs, n, l) && k <= 7
    ensures HeldAfter(bs, Kinds(CNOT), k) <= HeldOf(bs, n, l, k)
  {
    hide ClosedProtocol, HeldOf;
    if k == 0 {
      assert HeldAfter(bs, Kinds(CNOT), 0) == {};
    } else {
      ProtocolBound(g, bs, n, l, k - 1);
      ProtocolStep(g, bs, n, l, k - 1, HeldAfter(bs, Kinds(CNOT), k - 1));
    }
  }

  // The braid of every event lies in the mesh.
  lemma PlanInMesh(cfg: Config, g: nat, k: nat, v3: bool, v5: bool)
    requires cfg.Valid() && g < |cfg.gates| && k < |GateKinds(cfg, g)|
    ensures InMesh(cfg.grid, GatePlan(cfg, g, v3, v5)[k])
  {
    hide CnotPlan, HeldNode, HeldLink, InMesh;
    var gate := cfg.gates[g];
    assert cfg.ValidGate(gate);
    if gate.op == CNOT {
      PlanIsClosedProtocol(cfg.grid, gate.qid[0], gate.qid[1], v3, v5);
    } else {
      EmptyInMesh(cfg.grid);
    }
  }

  // A gate that has done all its events holds nothing, on whichever routes it did them.
  lemma NothingHeldAtEnd(cfg: Config, g: nat, v3: bool, v5: bool)
    requires cfg.Valid() && g < |cfg.gates|
    ensures Held(cfg, g, |GateKinds(cfg, g)|, v3, v5) == {}
  {
    hide CnotPlan, HeldNode, HeldLink, ClosedProtocol;
    var gate := cfg.gates[g];
    assert cfg.ValidGate(gate);
    if gate.op == CNOT {
      var src, dest := gate.qid[0], gate.qid[1];
      PlanIsClosedProtocol(cfg.grid, src, dest, v3, v5);
      ProtocolBound(cfg.grid, CnotPlan(cfg.grid, src, dest, v3, v5), HeldNode(cfg.grid, src, dest),
                    HeldLink(cfg.grid, src, dest), 7);
    } else {
      EmptyInMesh(cfg.grid);
      assert Held(cfg, g, 0, v3, v5) == Held(cfg, g, 1, v3, v5) == {};
    }
  }

  lemma EmptyInMesh(g: Grid)
    ensures InMesh(g, Braid([], [])) && Res(Braid([], [])) == {}
  {
  }

  lemma LatencyIsTimerSum(distance: nat, op: Op)
    ensures TimerSum(distance, op, |Kinds(op)|) == Latency(distance, op)
  {
    assert TimerSum(distance, op, 1) == 1;
    if op == CNOT {
      assert TimerSum(distance, CNOT, 2) == 2;
      assert TimerSum(distance, CNOT, 3) == 3;
      assert TimerSum(distance, CNOT, 4) == 4;
      assert TimerSum(distance, CNOT, 5) == 3 + distance;
      assert TimerSum(distance, CNOT, 6) == 4 + distance;
    }
  }

  // ----- One gate, step by step ---------------------------------------------------------------

  lemma QueuedActive(cfg: Config, g: nat, via: Option<Braid>, clk: nat, doneAt: map<nat, nat>)
    requires cfg.Valid() && g < |cfg.gates| && AfterPreds(cfg, g, doneAt, clk)
    ensures ActiveOK(cfg, g, None, GateEvents(cfg, g), {}, via, clk, doneAt)
  {
    hide GatePlan, AfterPreds;
    var q := GateEvents(cfg, g);
    assert Follows(cfg, g, Pending(None, q), {}, via, false, false);
    assert TimerSum(cfg.distance, cfg.gates[g].op, 1) == 1;
  }

  lemma AfterPredsLater(cfg: Config, g: nat, doneAt: map<nat, nat>, t: int, t': int)
    requires AfterPreds(cfg, g, doneAt, t) && t <= t'
    ensures AfterPreds(cfg, g, doneAt, t')
  {
  }

  // Equal up to timer and attempts.
  predicate SameEvent(e: Event, f: Event) {
    e.gate == f.gate && e.kind == f.kind && e.open == f.open && e.braid == f.braid
  }

  lemma FollowsSame(cfg: Config, g: nat, pend: seq<Event>, pend': seq<Event>, owned: set<Resource>,
                    via: Option<Braid>, v3: bool, v5: bool)
    requires cfg.Valid() && g < |cfg.gates| && Follows(cfg, g, pend, owned, via, v3, v5)
    requires |pend'| == |pend| && forall j | 0 <= j < |pend| :: SameEvent(pend[j], pend'[j])
    ensures Follows(cfg, g, pend', owned, via, v3, v5)
    ensures 0 < |pend| <= |GateKinds(cfg, g)|
  {
    hide GatePlan, Held;
    var kinds, plan := GateKinds(cfg, g), GatePlan(cfg, g, v3, v5);
    var k := |kinds| - |pend|;
    forall j | 0 <= j < |pend'| ensures OnPlan(pend'[j], g, kinds[k + j], plan[k + j]) {
      assert OnPlan(pend[j], g, kinds[k + j], plan[k + j]) && SameEvent(pend[j], pend'[j]);
    }
  }

  // Waiting one tick, with nothing lapsing.
  lemma TickedActive(cfg: Config, g: nat, fl: Option<Event>, q: seq<Event>, owned: set<Resource>, via: Option<Braid>,
                     clk: nat, doneAt: map<nat, nat>)
    requires cfg.Valid() && g < |cfg.gates| && ActiveOK(cfg, g, fl, q, owned, via, clk, doneAt) && !Lapses(q)
    ensures ActiveOK(cfg, g, fl, Ticked(q), owned, via, clk + 1, doneAt)
  {
    hide GatePlan, AfterPreds, Follows, TimerSum;
    var v3, v5 :| Follows(cfg, g, Pending(fl, q), owned, via, v3, v5);
    var q' := Ticked(q);
    FollowsSame(cfg, g, Pending(fl, q), Pending(fl, q'), owned, via, v3, v5);
    assert OnTime(cfg, g, fl, q', clk + 1, doneAt) by {
      var spent := TimerSum(cfg.distance, cfg.gates[g].op, |GateKinds(cfg, g)| - |Pending(fl, q)| + 1);
      var due := clk + if fl.Some? then 0 else q[0].timer;
      AfterPredsLater(cfg, g, doneAt, due - spent, due + 1 - spent);
    }
  }

  // The head of the queue lapses at the tick.
  lemma LapsedActive(cfg: Config, g: nat, fl: Option<Event>, q: seq<Event>, owned: set<Resource>, via: Option<Braid>,
                     clk: nat, doneAt: map<nat, nat>)
    requires cfg.Valid() && g < |cfg.gates| && ActiveOK(cfg, g, fl, q, owned, via, clk, doneAt) && Lapses(q)
    ensures fl.None? && ActiveOK(cfg, g, Some(q[0].(timer := 0)), q[1..], owned, via, clk + 1, doneAt)
  {
    hide GatePlan, AfterPreds, Follows, TimerSum;
    assert fl.None?;
    var v3, v5 :| Follows(cfg, g, Pending(fl, q), owned, via, v3, v5);
    var e := q[0].(timer := 0);
    assert Pending(Some(e), q[1..]) == q[0 := e];
    FollowsSame(cfg, g, q, Pending(Some(e), q[1..]), owned, via, v3, v5);
    assert OnTime(cfg, g, Some(e), q[1..], clk + 1, doneAt) by {
      var spent := TimerSum(cfg.distance, cfg.gates[g].op, |GateKinds(cfg, g)| - |q| + 1);
      AfterPredsLater(cfg, g, doneAt, clk + q[0].timer - spent, clk + 1 - spent);
    }
  }

  // The event in flight succeeds and another one is queued behind it.
  lemma AdvancedActive(cfg: Config, g: nat, e: Event, q: seq<Event>, owned: set<Resource>, owned': set<Resource>,
                       via: Option<Braid>, via': Option<Braid>, clk: nat, doneAt: map<nat, nat>)
    requires cfg.Valid() && g < |cfg.gates| && ActiveOK(cfg, g, Some(e), q, owned, via, clk, doneAt) && q != []
    requires owned' == if e.open then owned + Res(e.braid) else owned - Res(e.braid)
    requires via' == if e.kind == Cnot3 then Some(e.braid) else via
    ensures ActiveOK(cfg, g, None, q[0 := q[0].(timer := TimerOf(cfg.distance, q[0].kind))], owned', via', clk, doneAt)
    ensures InMesh(cfg.grid, e.braid)
  {
    hide AfterPreds, InMesh, Res, Config.Valid, Follows;
    var v3, v5 :| Follows(cfg, g, Pending(Some(e), q), owned, via, v3, v5);
    var q' := q[0 := q[0].(timer := TimerOf(cfg.distance, q[0].kind))];
    AdvancedFollows(cfg, g, e, q, q', owned, owned', via, via', v3, v5);
    assert Follows(cfg, g, Pending(None, q'), owned', via', v3, v5);
    FirstTimers(cfg.distance, cfg.gates[g].op, |GateKinds(cfg, g)| - |q|);
  }

  lemma HeldNext(cfg: Config, g: nat, k: nat, v3: bool, v5: bool)
    requires cfg.Valid() && g < |cfg.gates| && k < |GateKinds(cfg, g)|
    ensures var b := Res(GatePlan(cfg, g, v3, v5)[k]);
            Held(cfg, g, k + 1, v3, v5)
            == if Opens(GateKinds(cfg, g)[k]) then Held(cfg, g, k, v3, v5) + b else Held(cfg, g, k, v3, v5) - b
  {
    hide GatePlan, Res, Config.Valid;
  }

  // Doing the first pending event takes the gate one event further along its program.
  lemma AdvancedFollows(cfg: Config, g: nat, e: Event, q: seq<Event>, q': seq<Event>, owned: set<Resource>,
                        owned': set<Resource>, via: Option<Braid>, via': Option<Braid>, v3: bool, v5: bool)
    requires cfg.Valid() && g < |cfg.gates| && Follows(cfg, g, [e] + q, owned, via, v3, v5) && q != []
    requires |q'| == |q| && forall j | 0 <= j < |q| :: SameEvent(q[j], q'[j])
    requires owned' == if e.open then owned + Res(e.braid) else owned - Res(e.braid)
    requires via' == if e.kind == Cnot3 then Some(e.braid) else via
    ensures Follows(cfg, g, q', owned', via', v3, v5) && InMesh(cfg.grid, e.braid)
    ensures |q| < |GateKinds(cfg, g)|
    ensures e.kind == GateKinds(cfg, g)[|GateKinds(cfg, g)| - |q| - 1]
    ensures q[0].kind == q'[0].kind == GateKinds(cfg, g)[|GateKinds(cfg, g)| - |q|]
  {
    hide GatePlan, InMesh, Res, Config.Valid, Held;
    var pend := [e] + q;
    var k := |GateKinds(cfg, g)| - |pend|;
    HeldNext(cfg, g, k, v3, v5);
    assert OnPlan(pend[0], g, GateKinds(cfg, g)[k + 0], GatePlan(cfg, g, v3, v5)[k + 0]);
    PlanInMesh(cfg, g, k, v3, v5);
    forall j | 0 <= j < |q'| ensures OnPlan(q'[j], g, GateKinds(cfg, g)[k + 1 + j], GatePlan(cfg, g, v3, v5)[k + 1 + j]) {
      assert OnPlan(pend[j + 1], g, GateKinds(cfg, g)[k + (j + 1)], GatePlan(cfg, g, v3, v5)[k + (j + 1)]);
      assert SameEvent(q[j], q'[j]);
    }
    assert OnPlan(q'[0], g, GateKinds(cfg, g)[k + 1 + 0], GatePlan(cfg, g, v3, v5)[k + 1 + 0]);
  }

  // Only cnot5 and cnot7 can have a negative timer, when the distance is 0.
  lemma FirstTimers(distance: nat, op: Op, k: nat)
    requires k < |Kinds(op)|
    ensures var t := TimerOf(distance, Kinds(op)[k]);
            t >= 0 || (distance == 0 && t == -1)
  {
  }

  // The event in flight succeeds and was the last one: nothing is held any more.
  lemma FinishedActive(cfg: Config, g: nat, e: Event, owned: set<Resource>, owned': set<Resource>, via: Option<Braid>,
                       clk: nat, doneAt: map<nat, nat>)
    requires cfg.Valid() && g < |cfg.gates| && g !in doneAt
    requires ActiveOK(cfg, g, Some(e), [], owned, via, clk, doneAt)
    requires owned' == if e.open then owned + Res(e.braid) else owned - Res(e.braid)
    ensures owned' == {} && InMesh(cfg.grid, e.braid)
    ensures DoneOK(cfg, g, clk, doneAt[g := clk])
  {
    hide GatePlan, InMesh, Res;
    var v3, v5 :| Follows(cfg, g, Pending(Some(e), []), owned, via, v3, v5);
    var pend, kinds := Pending(Some(e), []), GateKinds(cfg, g);
    var k := |kinds| - 1;
    assert OnPlan(pend[0], g, kinds[k + 0], GatePlan(cfg, g, v3, v5)[k + 0]);
    PlanInMesh(cfg, g, k, v3, v5);
    NothingHeldAtEnd(cfg, g, v3, v5);
    LatencyIsTimerSum(cfg.distance, cfg.gates[g].op);
    EdgesAscend(cfg.gates);
  }

  lemma EdgesAscend(gates: seq<Gate>)
    ensures forall e | e in NextUseEdges(gates) :: e.0 < e.1 < |gates|
  {
  }

  // A blocked cnot3 or cnot5 switches to the YX route together with the close event behind it.
  lemma SwitchedActive(cfg: Config, g: nat, e: Event, q: seq<Event>, owned: set<Resource>, via: Option<Braid>,
                       clk: nat, doneAt: map<nat, nat>)
    requires cfg.Valid() && g < |cfg.gates| && ActiveOK(cfg, g, Some(e), q, owned, via, clk, doneAt)
    requires e.kind == Cnot3 || e.kind == Cnot5
    ensures |cfg.gates[g].qid| == 2 && Routable(cfg.grid, cfg.gates[g].qid[0], cfg.gates[g].qid[1])
    ensures q != [] && q[0].braid.nodes != []
    ensures var src, dest := cfg.gates[g].qid[0], cfg.gates[g].qid[1];
            var (b, b') := Reroute(cfg.grid, src, dest, e.kind, q[0].braid);
            !cfg.grid.AreAdjacent(src, dest) ==>
              ActiveOK(cfg, g, Some(e.(braid := b)), q[0 := q[0].(braid := b')], owned, via, clk, doneAt)
  {
    hide CnotPlan, AfterPreds, Follows, Reroute, TimerSum, Grid.AreAdjacent, Grid.IsQubit, Config.Valid;
    var v3, v5 :| Follows(cfg, g, [e] + q, owned, via, v3, v5);
    SwitchableEvent(cfg, g, e, q, owned, via, v3, v5);
    var src, dest := cfg.gates[g].qid[0], cfg.gates[g].qid[1];
    if !cfg.grid.AreAdjacent(src, dest) {
      RerouteOfPlan(cfg.grid, src, dest, v3, v5);
      var (b, b') := Reroute(cfg.grid, src, dest, e.kind, q[0].braid);
      var w3, w5 := if e.kind == Cnot3 then true else v3, if e.kind == Cnot3 then v5 else true;
      var q' := q[0 := q[0].(braid := b')];
      SwitchedFollows(cfg, g, [e] + q, [e.(braid := b)] + q', owned, via, v3, v5, w3, w5);
      assert Follows(cfg, g, Pending(Some(e.(braid := b)), q'), owned, via, w3, w5);
    }
  }

  // A cnot3 or cnot5 in flight belongs to a CNOT and has its close event queued behind it.
  lemma SwitchableEvent(cfg: Config, g: nat, e: Event, q: seq<Event>, owned: set<Resource>, via: Option<Braid>, v3: bool, v5: bool)
    requires cfg.Valid() && g < |cfg.gates| && Follows(cfg, g, [e] + q, owned, via, v3, v5)
    requires e.kind == Cnot3 || e.kind == Cnot5
    ensures var gate := cfg.gates[g];
            var k := if e.kind == Cnot3 then 2 else 4;
            && gate.op == CNOT && |gate.qid| == 2 && Routable(cfg.grid, gate.qid[0], gate.qid[1])
            && |q| == 6 - k && q[0].braid.nodes != []
            && GatePlan(cfg, g, v3, v5) == CnotPlan(cfg.grid, gate.qid[0], gate.qid[1], v3, v5)
            && OnPlan(e, g, Kinds(CNOT)[k], GatePlan(cfg, g, v3, v5)[k])
            && OnPlan(q[0], g, Kinds(CNOT)[k + 1], GatePlan(cfg, g, v3, v5)[k + 1])
  {
    hide CnotPlan, Held, Grid.IsQubit;
    var pend, kinds, gate := [e] + q, GateKinds(cfg, g), cfg.gates[g];
    var k := |kinds| - |pend|;
    assert cfg.ValidGate(gate);
    assert OnPlan(pend[0], g, kinds[k + 0], GatePlan(cfg, g, v3, v5)[k + 0]);
    assert gate.op == CNOT && k == (if e.kind == Cnot3 then 2 else 4);
    assert OnPlan(pend[1], g, kinds[k + 1], GatePlan(cfg, g, v3, v5)[k + 1]);
    PlanEndsNonEmpty(cfg.grid, gate.qid[0], gate.qid[1], v3, v5);
  }

  // Changing the braids of the next two events to those of another plan keeps the gate on that plan.
  lemma SwitchedFollows(cfg: Config, g: nat, pend: seq<Event>, pend': seq<Event>, owned: set<Resource>,
                        via: Option<Braid>, v3: bool, v5: bool, w3: bool, w5: bool)
    requires cfg.Valid() && g < |cfg.gates| && cfg.gates[g].op == CNOT && Follows(cfg, g, pend, owned, via, v3, v5)
    requires |pend'| == |pend| && forall j | 2 <= j < |pend| :: pend'[j] == pend[j]
    requires var k := |GateKinds(cfg, g)| - |pend|;
             && ((k == 2 && w5 == v5) || (k == 4 && w3 == v3))
             && OnPlan(pend'[0], g, GateKinds(cfg, g)[k], GatePlan(cfg, g, w3, w5)[k])
             && OnPlan(pend'[1], g, GateKinds(cfg, g)[k + 1], GatePlan(cfg, g, w3, w5)[k + 1])
    ensures Follows(cfg, g, pend', owned, via, w3, w5)
  {
    hide GatePlan, Held, Config.Valid;
    var kinds := GateKinds(cfg, g);
    var k := |kinds| - |pend|;
    PlanRestAgrees(cfg, g, v3, v5, w3, w5, k);
    forall j | 0 <= j < |pend'| ensures OnPlan(pend'[j], g, kinds[k + j], GatePlan(cfg, g, w3, w5)[k + j]) {
      if j >= 2 {
        assert OnPlan(pend[j], g, kinds[k + j], GatePlan(cfg, g, v3, v5)[k + j]);
      }
    }
  }

  lemma PlanEndsNonEmpty(g: Grid, src: nat, dest: nat, v3: bool, v5: bool)
    requires Routable(g, src, dest)
    ensures CnotPlan(g, src, dest, v3, v5)[3].nodes != [] && CnotPlan(g, src, dest, v3, v5)[5].nodes != []
  {
  }

  // Switching at index k changes neither the later braids nor what may be held now.
  lemma PlanRestAgrees(cfg: Config, g: nat, v3: bool, v5: bool, w3: bool, w5: bool, k: nat)
    requires cfg.Valid() && g < |cfg.gates| && cfg.gates[g].op == CNOT
    requires (k == 2 && w5 == v5) || (k == 4 && w3 == v3)
    ensures forall j | k + 2 <= j < 7 :: GatePlan(cfg, g, v3, v5)[j] == GatePlan(cfg, g, w3, w5)[j]
    ensures Held(cfg, g, k, v3, v5) == Held(cfg, g, k, w3, w5)
    ensures k == 4 ==> GatePlan(cfg, g, v3, v5)[2] == GatePlan(cfg, g, w3, w5)[2]
  {
    hide CnotBraids, Reroute, HeldAfter;
    HeldPrefix(GatePlan(cfg, g, v3, v5), GatePlan(cfg, g, w3, w5), GateKinds(cfg, g), k);
  }

  // What is held depends only on the events done.
  lemma {:induction false} HeldPrefix(p: seq<Braid>, q: seq<Braid>, kinds: seq<Kind>, k: nat)
    requires k <= |p| == |q| == |kinds| && forall j | 0 <= j < k :: p[j] == q[j]
    ensures HeldAfter(p, kinds, k) == HeldAfter(q, kinds, k)
  {
    if k > 0 { HeldPrefix(p, q, kinds, k - 1); }
  }
}
