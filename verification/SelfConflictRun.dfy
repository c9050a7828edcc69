/**
 A run of two CNOTs side by side in which one of them comes to stand in its own way.
 */
module SelfConflictRun {
  import opened Collections
  import opened Mesh
  import opened Routes
  import opened Events
  import opened Dag
  import opened CriticalPath
  import opened Scheduler
  import opened SchedulerInvariant
  import opened SchedulerSteps
  import opened SchedulerRuns
  import opened SchedulerCycles
  import opened SelfConflict

  const SQUARE := Grid(2, 2)

  // The columns of a square of four tiles, each with a CNOT from its upper to its lower tile.  A blocked cnot3 or
  // cnot5 is switched at once.
  const COLUMNS := Config(SQUARE, [Gate(1, CNOT, [0, 2]), Gate(2, CNOT, [1, 3])], 2, 0, 100)

  // ----- The braids --------------------------------------------------------------------------------------

  lemma LeftShapes()
    ensures SQUARE.FindDiagonal(0, 1) == 3 && SQUARE.FindNearest(2, 3) == 3 && SQUARE.FindVertical(0, 1) == 4
    ensures SQUARE.FindDiagonal(2, 3) == 7
    ensures SShape(SQUARE, 0, 1) == Braid([3], [Link(1, 4), Link(0, 3)])
    ensures SShape(SQUARE, 2, 3) == Braid([7], [Link(3, 6), Link(4, 7)])
    ensures ShortL(SQUARE, 2, 7) == Braid([6, 3], [Link(6, 7), Link(3, 6)])
    ensures SShape(SQUARE, 0, 4) == Braid([0], [Link(1, 4), Link(0, 3)])
  {
  }

  lemma MiddleRow()
    ensures SQUARE.RowOf(3) == SQUARE.RowOf(4) == 1 && SQUARE.ColOf(3) == 0 && SQUARE.ColOf(4) == 1 && SQUARE.NodeAt(1, 1) == 4
  {
  }

  lemma NoWalk(n: nat, yx: bool)
    ensures DorNodes(SQUARE, n, n, yx) == []
  {
    hide Grid.RowOf, Grid.ColOf;
  }

  lemma OneStepRight(yx: bool)
    ensures DorNodes(SQUARE, 3, 4, yx) == [4]
  {
    MiddleRow();
    hide Grid.RowOf, Grid.ColOf, Grid.NodeAt;
    assert ColWalk(SQUARE, 1, 1, 1) == [] && Toward(0, 1) == 1;
    assert ColWalk(SQUARE, 1, 0, 1) == [4];
    assert RowWalk(SQUARE, 1, 0, 1) == RowWalk(SQUARE, 1, 1, 1) == [];
    hide RowWalk, ColWalk;
  }

  lemma LeftPaths(yx: bool)
    ensures Dor(SQUARE, 3, 3, yx) == Braid([], []) && Dor(SQUARE, 3, 4, yx) == Braid([4], [Link(3, 4)])
  {
    NoWalk(3, yx);
    OneStepRight(yx);
    hide DorNodes;
    assert LinksAlong(4, []) == [] && [4][1..] == [];
    assert LinksAlong(3, [4]) == [Link(3, 4)];
  }

  lemma LeftRoutes(yx: bool)
    ensures CnotRoutes(SQUARE, 0, 2, 1, yx)
            == (Braid([3, 7], [Link(1, 4), Link(0, 3), Link(3, 6), Link(4, 7)]),
                Braid([6, 3, 4, 0], [Link(6, 7), Link(3, 6), Link(3, 4), Link(1, 4), Link(0, 3)]))
  {
    hide SShape, ShortL, Dor, Grid.FindDiagonal, Grid.FindNearest, Grid.FindVertical, Grid.FindHorizontal, Grid.AreAdjacent;
    LeftCorners();
    LeftShapes();
    LeftPaths(yx);
    var r := CnotRoutes(SQUARE, 0, 2, 1, yx);
    assert r.0 == Merge(Merge(SShape(SQUARE, 0, 1), Dor(SQUARE, 3, 3, yx)), SShape(SQUARE, 2, 3));
    assert r.1 == Merge(Merge(ShortL(SQUARE, 2, 7), Dor(SQUARE, 3, 4, yx)), SShape(SQUARE, 0, 4));
    hide CnotRoutes;
    assert r.0.nodes == [3, 7] && r.0.links == [Link(1, 4), Link(0, 3), Link(3, 6), Link(4, 7)];
    assert r.1.nodes == [6, 3, 4, 0];
    assert r.1.links == [Link(6, 7), Link(3, 6), Link(3, 4), Link(1, 4), Link(0, 3)];
  }

  // The braids of the left gate's first five events, and of cnot3 and cnot4 once switched.
  lemma LeftBraids()
    ensures Routable(SQUARE, 0, 2) && !SQUARE.AreAdjacent(0, 2)
    ensures var p := CnotPlan(SQUARE, 0, 2, false, false);
            && p[0] == p[1] == Braid([0, 1], [Link(0, 1)])
            && p[2] == Braid([3, 7, 1], [Link(1, 4), Link(0, 3), Link(3, 6), Link(4, 7)])
    ensures var p := CnotPlan(SQUARE, 0, 2, true, false);
            && p[2] == Braid([3, 7], [Link(1, 4), Link(0, 3), Link(3, 6), Link(4, 7)])
            && p[3] == Braid([3, 1], [Link(1, 4), Link(0, 3), Link(3, 6), Link(4, 7)])
  {
    hide CnotRoutes, Ancillas, Grid.AreAdjacent, Grid.IsQubit;
    LeftCorners();
    LeftRoutes(false);
    LeftRoutes(true);
  }

  lemma LeftCorners()
    ensures Routable(SQUARE, 0, 2) && !SQUARE.AreAdjacent(0, 2) && Ancillas(SQUARE, 0, 2) == (1, 0)
  {
  }

  lemma RightCorners()
    ensures Routable(SQUARE, 1, 3) && !SQUARE.AreAdjacent(1, 3) && Ancillas(SQUARE, 1, 3) == (2, 1)
    ensures SQUARE.FindDiagonal(1, 2) == 4 && SQUARE.FindNearest(3, 4) == 4 && SQUARE.FindDiagonal(3, 4) == 8
  {
  }

  lemma RightRoute()
    ensures CnotRoutes(SQUARE, 1, 3, 2, false).0.nodes == [4, 8]
  {
    hide *;
    NoWalk(4, false);
    RightCorners();
    RouteCorners(SQUARE, 1, 3);
  }

  // The right gate's ancillas, and the nodes of its cnot3.
  lemma RightBraids()
    ensures Routable(SQUARE, 1, 3) && !SQUARE.AreAdjacent(1, 3)
    ensures var p := CnotPlan(SQUARE, 1, 3, false, false);
            && p[0] == p[1] == Braid([1, 2], [Link(1, 2)])
            && p[2].nodes == [4, 8, 2]
  {
    hide CnotRoutes, Ancillas, Grid.AreAdjacent, Grid.IsQubit;
    RightCorners();
    RightRoute();
  }

  // ----- What a state shows --------------------------------------------------------------------------------

  // The queues of the two gates, the lapsed events, and what each gate holds.
  datatype View = View(q: seq<seq<Event>>, lapsed: seq<Event>, held: seq<set<Resource>>)

  ghost predicate Shows(s: State, v: View) {
    && |v.q| == |v.held| == 2 && v.q[0] != [] && v.q[1] != []
    && s.ready == [] && s.edges == {} && s.queues == map[0 := v.q[0], 1 := v.q[1]] && s.lapsed == v.lapsed
    && Marked(s.owner, v.held)
  }

  // Every resource bears the number of the gate that holds it.
  ghost predicate Marked(owner: map<Resource, nat>, held: seq<set<Resource>>)
    requires |held| == 2
  {
    forall r | r in owner :: owner[r] == if r in held[0] then 1 else if r in held[1] then 2 else 0
  }

  ghost predicate Reached(s: State, v: View) {
    COLUMNS.Valid() && Inv(COLUMNS, s) && Shows(s, v)
  }

  lemma ColumnsValid()
    ensures COLUMNS.Valid() && NextUseEdges(COLUMNS.gates) == {}
  {
    forall g | 0 <= g < 2 ensures COLUMNS.ValidGate(COLUMNS.gates[g]) {}
    assert forall q :: !(q in COLUMNS.gates[0].qid && q in COLUMNS.gates[1].qid);
  }

  function Rest(g: nat, k: nat, t: int): (q: seq<Event>)
    requires COLUMNS.Valid() && g < 2 && k <= 7
    ensures |q| == 7 - k
  {
    QueueAt(COLUMNS, g, k, t)
  }

  // The empty mesh, with both gates ready.
  ghost function StartState(): State {
    Initial(COLUMNS, map r | r in FreeMesh() :: 0, {})
  }

  lemma Start()
    ensures COLUMNS.Valid() && IsInitial(COLUMNS, StartState()) && Inv(COLUMNS, StartState()) && !Finished(StartState())
    ensures Reached(QueueAll(COLUMNS, StartState()), View([Rest(0, 0, 1), Rest(1, 0, 1)], [], [{}, {}]))
  {
    hide QueueAt, Inv, NextUseEdges;
    ColumnsValid();
    var s0 := StartState();
    assert InDegree({}, 0) == 0 && InDegree({}, 1) == 0;
    assert Sources({}, 1) == [0] && Sources({}, 2) == [0, 1];
    InitialInv(COLUMNS, s0.owner);
    QueueFirstKeepsInv(COLUMNS, s0);
    var s1 := QueueFirst(COLUMNS, s0);
    assert s1.ready == [1];
    QueueFirstKeepsInv(COLUMNS, s1);
    var s2 := QueueFirst(COLUMNS, s1);
    assert s2.ready == [];
    assert QueueAll(COLUMNS, s0) == QueueAll(COLUMNS, s1) == QueueAll(COLUMNS, s2) == s2;
  }

  // The nodes and links of the square.
  ghost function FreeMesh(): (m: set<Resource>)
    ensures forall r :: r in m <==> SQUARE.IsResource(r)
  {
    var nodes := set n: nat | n < 9 :: NodeRes(n);
    var links := set a: nat, b: nat | a < 9 && b < 9 && SQUARE.IsLink(Link(a, b)) :: LinkRes(Link(a, b));
    assert forall l | SQUARE.IsLink(l) :: l == Link(l.a, l.b) && LinkRes(l) in links;
    nodes + links
  }

  // ----- One step ------------------------------------------------------------------------------------------

  function LapsedOf(q: seq<Event>): seq<Event> { if Lapses(q) then [q[0].(timer := 0)] else [] }

  // Where a pass over the lapsed events starts.
  ghost function PassFrom(s: State): Pass
    requires Inv(COLUMNS, s)
  {
    Pass(Advanced(COLUMNS, s), 0, false, false)
  }

  lemma TickShows(t: State, v: View, v': View)
    requires COLUMNS.Valid() && Shows(t, v) && |v.q[0]| > 1 && |v.q[1]| > 1
    requires v'.q == [Ticked(v.q[0]), Ticked(v.q[1])] && v'.held == v.held
    requires v'.lapsed == v.lapsed + LapsedOf(v.q[0]) + LapsedOf(v.q[1])
    ensures Shows(Tick(COLUMNS, t), v')
  {
    assert Ticked(v.q[0]) != [] && Ticked(v.q[1]) != [];
    hide Config.Valid, Marked, NewlyLapsed, TickQueues, Lapses, Ticked, LapsedOf;
    assert t.queues[0] == v.q[0] && t.queues[1] == v.q[1] && |COLUMNS.gates| == 2;
    TwoLapsed(t.queues);
    TwoTicked(t.queues);
    assert t.lapsed + NewlyLapsed(t.queues, 2) == v.lapsed + LapsedOf(v.q[0]) + LapsedOf(v.q[1]);
  }

  lemma TwoLapsed(queues: map<nat, seq<Event>>)
    requires queues.Keys == {0, 1}
    ensures NewlyLapsed(queues, 2) == LapsedOf(queues[0]) + LapsedOf(queues[1])
  {
    assert NewlyLapsed(queues, 1) == LapsedOf(queues[0]);
  }

  lemma TwoTicked(queues: map<nat, seq<Event>>)
    requires queues.Keys == {0, 1} && |queues[0]| > 1 && |queues[1]| > 1
    ensures TickQueues(queues) == map[0 := Ticked(queues[0]), 1 := Ticked(queues[1])]
  {
    hide Ticked, Lapses;
  }

  lemma TickView(s: State, v: View, v': View)
    requires Inv(COLUMNS, s) && Reached(QueueAll(COLUMNS, s), v) && |v.q| == 2 && |v.q[0]| > 1 && |v.q[1]| > 1
    requires v'.q == [Ticked(v.q[0]), Ticked(v.q[1])] && v'.held == v.held
    requires v'.lapsed == v.lapsed + LapsedOf(v.q[0]) + LapsedOf(v.q[1])
    ensures Reached(Advanced(COLUMNS, s), v') && Advanced(COLUMNS, s).crossed == QueueAll(COLUMNS, s).crossed
  {
    hide Inv, QueueAll, Ticked, LapsedOf, NewlyLapsed, TickQueues, Config.Valid;
    TickShows(QueueAll(COLUMNS, s), v, v');
  }

  // Nothing is ready: the cycle starts with the tick.
  lemma NothingReady(s: State, v: View)
    requires Reached(s, v)
    ensures QueueAll(COLUMNS, s) == s && !Finished(s)
  {
    hide Inv;
    assert 0 in s.queues;
  }

  // Handling the rest of the pass p comes to the same as handling the rest of p'.
  ghost predicate Handles(p: Pass, p': Pass) {
    PassOK(COLUMNS, p) && PassOK(COLUMNS, p') && HandleAll(COLUMNS, p) == HandleAll(COLUMNS, p')
  }

  // A pass that has handled everything ends the cycle.
  lemma EndCycle(n: nat, s: State, p: Pass)
    requires Inv(COLUMNS, s) && !Finished(s) && Cycles(COLUMNS, StartState(), n, s)
    requires Handles(PassFrom(s), p) && p.i == |p.s.lapsed|
    ensures Cycles(COLUMNS, StartState(), n + 1, p.s)
  {
    hide Inv, Advanced, Cycles;
    var order := Advanced(COLUMNS, s).lapsed;
    assert Advanced(COLUMNS, s).(lapsed := order) == Advanced(COLUMNS, s);
    assert p.s == CycleWith(COLUMNS, s, order);
    OneMoreCycle(COLUMNS, StartState(), n, s, p.s);
  }

  // Nothing that the event at position i names is in its way.
  ghost predicate Clear(v: View, i: nat) {
    && i < |v.lapsed| && v.lapsed[i].gate < 2 && |v.held| == 2
    && Res(v.lapsed[i].braid) !! v.held[1 - v.lapsed[i].gate]
    && (v.lapsed[i].open ==> Res(v.lapsed[i].braid) !! v.held[v.lapsed[i].gate])
  }

  lemma MarkedAfterDo(owner: map<Resource, nat>, held: seq<set<Resource>>, e: Event, held': seq<set<Resource>>)
    requires |held| == |held'| == 2 && Marked(owner, held) && held[0] !! held[1] && e.gate < 2
    requires Res(e.braid) !! held[1 - e.gate] && (e.open ==> Res(e.braid) !! held[e.gate])
    requires held'[1 - e.gate] == held[1 - e.gate]
    requires held'[e.gate] == if e.open then held[e.gate] + Res(e.braid) else held[e.gate] - Res(e.braid)
    ensures CanDo(owner, e, e.gate + 1) && Marked(Done(owner, e, e.gate + 1), held')
  {
    hide Res;
  }

  lemma DoShows(s: State, v: View, i: nat, v': View)
    requires COLUMNS.Valid() && Shows(s, v) && v.held[0] !! v.held[1] && Clear(v, i)
    requires |v'.q| == |v'.held| == 2 && v'.lapsed == RemoveAt(v.lapsed, i)
    requires var g := v.lapsed[i].gate;
             v'.q[1 - g] == v.q[1 - g] && v'.held[1 - g] == v.held[1 - g]
    requires var q := v.q[v.lapsed[i].gate];
             v'.q[v.lapsed[i].gate] == q[0 := q[0].(timer := TimerOf(2, q[0].kind))]
    requires var e := v.lapsed[i];
             v'.held[e.gate] == if e.open then v.held[e.gate] + Res(e.braid) else v.held[e.gate] - Res(e.braid)
    ensures EventAt(COLUMNS, s, i) && Doable(COLUMNS, s, i) && Shows(Succeed(COLUMNS, s, i), v') && s.lapsed == v.lapsed
    ensures var e := v.lapsed[i];
            Succeed(COLUMNS, s, i).crossed == if e.kind == Cnot3 then s.crossed[e.gate := e.braid] else s.crossed
  {
    hide Res, CanDo, Done, Marked, NewlyReady, OutEdges, TimerOf, Config.Valid;
    MarkedAfterDo(s.owner, v.held, v.lapsed[i], v'.held);
  }

  lemma DoView(p: Pass, v: View, v': View) returns (p': Pass)
    requires Reached(p.s, v) && |v.held| == |v.q| == 2 && v.held[0] !! v.held[1] && Clear(v, p.i)
    requires v.q[v.lapsed[p.i].gate] != []
    requires |v'.q| == |v'.held| == 2 && v'.lapsed == RemoveAt(v.lapsed, p.i)
    requires var g := v.lapsed[p.i].gate;
             v'.q[1 - g] == v.q[1 - g] && v'.held[1 - g] == v.held[1 - g]
    requires var q := v.q[v.lapsed[p.i].gate];
             v'.q[v.lapsed[p.i].gate] == q[0 := q[0].(timer := TimerOf(2, q[0].kind))]
    requires var e := v.lapsed[p.i];
             v'.held[e.gate] == if e.open then v.held[e.gate] + Res(e.braid) else v.held[e.gate] - Res(e.braid)
    ensures Handles(p, p') && p' == p.(s := p'.s) && Reached(p'.s, v')
    ensures var e := v.lapsed[p.i];
            p'.s.crossed == if e.kind == Cnot3 then p.s.crossed[e.gate := e.braid] else p.s.crossed
  {
    hide Inv, Res, CanDo, Done, Marked, Succeed, Shows, TimerOf, Config.Valid;
    DoShows(p.s, v, p.i, v');
    p' := HandleOne(COLUMNS, p);
    assert p'.s == Succeed(COLUMNS, p.s, p.i);
  }

  // The event names a resource that the other gate holds.
  ghost predicate InTheWay(v: View, i: nat, r: Resource) {
    && |v.held| == 2 && i < |v.lapsed| && v.lapsed[i].gate < 2 && v.held[0] !! v.held[1]
    && r in Res(v.lapsed[i].braid) && SQUARE.IsResource(r) && r in v.held[1 - v.lapsed[i].gate]
  }

  lemma NotDoable(s: State, v: View, i: nat, r: Resource)
    requires Reached(s, v) && InTheWay(v, i, r)
    ensures EventAt(COLUMNS, s, i) && !Doable(COLUMNS, s, i)
  {
    hide GateInv, NextUseEdges, ListsOK, Res;
    assert r in s.owner;
  }

  // A blocked cnot1 waits.
  lemma WaitView(p: Pass, v: View, r: Resource, v': View) returns (p': Pass)
    requires Reached(p.s, v) && InTheWay(v, p.i, r) && v.lapsed[p.i].kind == Cnot1 && v.lapsed[p.i].attempts < 100
    requires v'.q == v.q && v'.held == v.held
    requires v'.lapsed == v.lapsed[p.i := v.lapsed[p.i].(attempts := v.lapsed[p.i].attempts + 1)]
    ensures Handles(p, p') && p' == p.(s := p'.s, i := p.i + 1) && Reached(p'.s, v') && p'.s.crossed == p.s.crossed
  {
    hide Inv, Res, CanDo;
    NotDoable(p.s, v, p.i, r);
    p' := HandleOne(COLUMNS, p);
    assert p'.s == Wait(p.s, p.i);
  }

  // The left gate's blocked cnot3 is switched.
  lemma SwitchView(p: Pass, v: View, r: Resource, v': View) returns (p': Pass)
    requires Reached(p.s, v) && InTheWay(v, p.i, r) && !p.switched
    requires v.lapsed[p.i].gate == 0 && v.lapsed[p.i].kind == Cnot3 && v.lapsed[p.i].attempts == 0
    requires Routable(SQUARE, 0, 2) && |v.q| == 2 && v.q[0] != []
    requires v.q[0][0].braid == CnotPlan(SQUARE, 0, 2, false, false)[3]
    requires var plan := CnotPlan(SQUARE, 0, 2, true, false);
             && v'.lapsed == v.lapsed[p.i := v.lapsed[p.i].(attempts := 1, braid := plan[2])] && v'.held == v.held
             && v'.q == v.q[0 := v.q[0][0 := v.q[0][0].(braid := plan[3])]]
    ensures Handles(p, p') && p' == p.(s := p'.s, i := p.i + 1, switched := true) && Reached(p'.s, v')
    ensures p'.s.crossed == p.s.crossed
  {
    hide Inv, Res, CanDo, Reroute, CnotPlan;
    NotDoable(p.s, v, p.i, r);
    LeftBraids();
    RerouteOfPlan(SQUARE, 0, 2, false, false);
    p' := HandleOne(COLUMNS, p);
    WaitKeepsInv(COLUMNS, p.s, p.i);
    var s1 := Wait(p.s, p.i);
    SwitchRouteKeepsInv(COLUMNS, s1, p.i);
    assert p'.s == SwitchRoute(COLUMNS, s1, p.i);
  }

  lemma LapsedShown(s: State, v: View)
    requires Reached(s, v)
    ensures s.lapsed == v.lapsed
  {
  }

  // ----- The run -------------------------------------------------------------------------------------------

  function Ev(g: nat, k: nat): Event
    requires COLUMNS.Valid() && g < 2 && k < 7
  {
    Rest(g, k, 0)[0]
  }

  lemma TickRest(g: nat, k: nat, t: int)
    requires COLUMNS.Valid() && g < 2 && k < 7 && -1 <= t <= 1
    ensures t >= 0 ==> Ticked(Rest(g, k, t)) == Rest(g, k + 1, -1) && LapsedOf(Rest(g, k, t)) == [Ev(g, k)]
    ensures t == -1 ==> Ticked(Rest(g, k, t)) == Rest(g, k, t) && LapsedOf(Rest(g, k, t)) == []
  {
    hide GatePlan, Config.Valid;
    assert Rest(g, k, t)[1..] == Rest(g, k + 1, -1);
  }

  lemma StartRest(g: nat, k: nat)
    requires COLUMNS.Valid() && g < 2 && k < 7
    ensures var q := Rest(g, k, -1);
            q[0 := q[0].(timer := TimerOf(2, q[0].kind))] == Rest(g, k, 1)
  {
    hide GatePlan, Config.Valid;
  }

  lemma EventOf(g: nat, k: nat)
    requires COLUMNS.Valid() && g < 2 && k < 7
    ensures Routable(SQUARE, g, g + 2)
    ensures var e := Ev(g, k);
            && e.gate == g && e.kind == Kinds(CNOT)[k] && e.open == Opens(e.kind) && e.attempts == 0
            && e.braid == CnotPlan(SQUARE, g, g + 2, false, false)[k]
  {
    hide CnotPlan;
    assert COLUMNS.ValidGate(COLUMNS.gates[g]);
  }

  ghost function LeftHeld(k: nat, switched: bool): set<Resource>
    requires k < 7 && Routable(SQUARE, 0, 2)
  {
    Res(CnotPlan(SQUARE, 0, 2, switched, false)[k])
  }

  ghost function RightHeld(k: nat): set<Resource>
    requires k < 7 && Routable(SQUARE, 1, 3)
  {
    Res(CnotPlan(SQUARE, 1, 3, false, false)[k])
  }

  // Both gates want the node between their upper tiles for their ancillas, and so does the left gate's first cnot3;
  // its switched cnot3 does not, and leaves node 7 behind, which the right gate's cnot3 does not name.
  lemma WhatIsShared()
    ensures Routable(SQUARE, 0, 2) && Routable(SQUARE, 1, 3)
    ensures LeftHeld(0, false) == LeftHeld(1, false) && RightHeld(0) == RightHeld(1)
    ensures NodeRes(1) in LeftHeld(0, false) && NodeRes(1) in RightHeld(0) && NodeRes(1) in LeftHeld(2, false)
    ensures LeftHeld(2, true) !! RightHeld(0)
    ensures LeftHeld(2, true) - LeftHeld(3, true) <= {NodeRes(7)} && NodeRes(7) !in RightHeld(2)
  {
    hide CnotPlan;
    LeftBraids();
    RightBraids();
  }

  // The left gate takes the node first.
  lemma FirstCycle() returns (s: State, v: View)
    ensures COLUMNS.Valid() && Routable(SQUARE, 0, 2) && Reached(s, v) && Cycles(COLUMNS, StartState(), 1, s)
    ensures v == View([Rest(0, 1, 1), Rest(1, 1, -1)], [Ev(1, 0).(attempts := 1)], [LeftHeld(0, false), {}])
  {
    hide Inv, Shows, QueueAt, Res, CnotPlan, Ev, Rest, QueueAll, HandleAll, Advanced, Cycles, StartState;
    Start();
    NoCycle(COLUMNS, StartState());
    WhatIsShared();
    TickRest(0, 0, 1);
    TickRest(1, 0, 1);
    EventOf(0, 0);
    EventOf(1, 0);
    StartRest(0, 1);
    var v0 := View([Rest(0, 0, 1), Rest(1, 0, 1)], [], [{}, {}]);
    var v1 := View([Rest(0, 1, -1), Rest(1, 1, -1)], [Ev(0, 0), Ev(1, 0)], [{}, {}]);
    var v2 := View([Rest(0, 1, 1), Rest(1, 1, -1)], [Ev(1, 0)], [LeftHeld(0, false), {}]);
    v := v2.(lapsed := [Ev(1, 0).(attempts := 1)]);
    TickView(StartState(), v0, v1);
    var p := DoView(PassFrom(StartState()), v1, v2);
    p := WaitView(p, v2, NodeRes(1), v);
    LapsedShown(p.s, v);
    EndCycle(0, StartState(), p);
    s := p.s;
  }

  // It keeps the right gate waiting until its cnot2.
  lemma SecondCycle() returns (s: State, v: View)
    ensures COLUMNS.Valid() && Reached(s, v) && Cycles(COLUMNS, StartState(), 2, s)
    ensures v == View([Rest(0, 2, 1), Rest(1, 1, -1)], [Ev(1, 0).(attempts := 2)], [{}, {}])
  {
    hide Inv, Shows, QueueAt, Res, CnotPlan, Ev, Rest, QueueAll, HandleAll, Advanced, Cycles, StartState;
    var t, v0 := FirstCycle();
    NothingReady(t, v0);
    WhatIsShared();
    TickRest(0, 1, 1);
    TickRest(1, 1, -1);
    EventOf(0, 1);
    EventOf(1, 0);
    StartRest(0, 2);
    var a := Ev(1, 0);
    var v1 := View([Rest(0, 2, -1), Rest(1, 1, -1)], [a.(attempts := 1), Ev(0, 1)], [LeftHeld(0, false), {}]);
    var v2 := v1.(lapsed := [a.(attempts := 2), Ev(0, 1)]);
    v := View([Rest(0, 2, 1), Rest(1, 1, -1)], [a.(attempts := 2)], [{}, {}]);
    TickView(t, v0, v1);
    var p := WaitView(PassFrom(t), v1, NodeRes(1), v2);
    p := DoView(p, v2, v);
    LapsedShown(p.s, v);
    EndCycle(1, t, p);
    s := p.s;
  }

  // The queue of the left gate once its cnot3 is switched.
  ghost function Switched(t: int): seq<Event>
    requires COLUMNS.Valid() && Routable(SQUARE, 0, 2)
  {
    var q := Rest(0, 3, t);
    q[0 := q[0].(braid := CnotPlan(SQUARE, 0, 2, true, false)[3])]
  }

  // The right gate takes the node; the left gate's cnot3 is blocked and switched.
  lemma ThirdCycle() returns (s: State, v: View)
    ensures COLUMNS.Valid() && Routable(SQUARE, 0, 2) && Routable(SQUARE, 1, 3) && Reached(s, v)
    ensures Cycles(COLUMNS, StartState(), 3, s)
    ensures v == View([Switched(-1), Rest(1, 1, 1)],
                      [Ev(0, 2).(attempts := 1, braid := CnotPlan(SQUARE, 0, 2, true, false)[2])], [{}, RightHeld(0)])
  {
    hide Inv, Shows, QueueAt, Res, CnotPlan, Ev, Rest, QueueAll, HandleAll, Advanced, Cycles, StartState;
    var t, v0 := SecondCycle();
    NothingReady(t, v0);
    WhatIsShared();
    TickRest(0, 2, 1);
    TickRest(1, 1, -1);
    EventOf(0, 2);
    EventOf(1, 0);
    StartRest(1, 1);
    HeadOfRest(0, 3, -1);
    EventOf(0, 3);
    LeftBraids();
    var a, b := Ev(1, 0).(attempts := 2), Ev(0, 2);
    var v1 := View([Rest(0, 3, -1), Rest(1, 1, -1)], [a, b], [{}, {}]);
    var v2 := View([Rest(0, 3, -1), Rest(1, 1, 1)], [b], [{}, RightHeld(0)]);
    v := View([Switched(-1), Rest(1, 1, 1)], [b.(attempts := 1, braid := CnotPlan(SQUARE, 0, 2, true, false)[2])],
              [{}, RightHeld(0)]);
    TickView(t, v0, v1);
    var p := DoView(PassFrom(t), v1, v2);
    p := SwitchView(p, v2, NodeRes(1), v);
    LapsedShown(p.s, v);
    EndCycle(2, t, p);
    s := p.s;
  }

  lemma HeadOfRest(g: nat, k: nat, t: int)
    requires COLUMNS.Valid() && g < 2 && k < 7
    ensures Rest(g, k, t)[0] == Ev(g, k).(timer := t)
  {
  }

  // The switched cnot3 goes through, and the right gate gives the node back.
  lemma FourthCycle() returns (s: State, v: View)
    ensures COLUMNS.Valid() && Routable(SQUARE, 0, 2) && Reached(s, v) && Cycles(COLUMNS, StartState(), 4, s)
    ensures v == View([Switched(1), Rest(1, 2, 1)], [], [LeftHeld(2, true), {}])
    ensures 0 in s.crossed && s.crossed[0] == CnotPlan(SQUARE, 0, 2, true, false)[2]
  {
    hide Inv, Shows, QueueAt, Res, CnotPlan, Ev, Rest, QueueAll, HandleAll, Advanced, Cycles, StartState;
    var t, v0 := ThirdCycle();
    NothingReady(t, v0);
    WhatIsShared();
    TickRest(1, 1, 1);
    EventOf(0, 2);
    EventOf(0, 3);
    EventOf(1, 1);
    StartRest(1, 2);
    SwitchedTimers();
    var b := v0.lapsed[0];
    var v1 := View([Switched(-1), Rest(1, 2, -1)], [b, Ev(1, 1)], [{}, RightHeld(0)]);
    var v2 := View([Switched(1), Rest(1, 2, -1)], [Ev(1, 1)], [LeftHeld(2, true), RightHeld(0)]);
    v := View([Switched(1), Rest(1, 2, 1)], [], [LeftHeld(2, true), {}]);
    TickView(t, v0, v1);
    var p := DoView(PassFrom(t), v1, v2);
    p := DoView(p, v2, v);
    LapsedShown(p.s, v);
    EndCycle(3, t, p);
    s := p.s;
  }

  lemma SwitchedTimers()
    requires COLUMNS.Valid() && Routable(SQUARE, 0, 2)
    ensures Ticked(Switched(-1)) == Switched(-1) && LapsedOf(Switched(-1)) == []
    ensures var q := Switched(-1); q[0 := q[0].(timer := TimerOf(2, q[0].kind))] == Switched(1)
    ensures Ticked(Switched(1)) == Rest(0, 4, -1)
    ensures LapsedOf(Switched(1)) == [Ev(0, 3).(braid := CnotPlan(SQUARE, 0, 2, true, false)[3])]
  {
    hide CnotPlan, Rest, Ev;
    HeadOfRest(0, 3, -1);
    HeadOfRest(0, 3, 1);
    EventOf(0, 3);
    TickRest(0, 3, 1);
    StartRest(0, 3);
    assert Switched(1)[1..] == Rest(0, 3, 1)[1..];
  }

  // Its cnot4 leaves node 7 behind; the right gate's cnot3 does not mind.
  lemma FifthCycle() returns (s: State, v: View)
    ensures COLUMNS.Valid() && Routable(SQUARE, 0, 2) && Routable(SQUARE, 1, 3) && Reached(s, v)
    ensures Cycles(COLUMNS, StartState(), 5, s)
    ensures v == View([Rest(0, 4, 1), Rest(1, 3, 1)], [], [LeftHeld(2, true) - LeftHeld(3, true), RightHeld(2)])
    ensures 0 in s.crossed && s.crossed[0] == CnotPlan(SQUARE, 0, 2, true, false)[2]
  {
    hide Inv, Shows, QueueAt, Res, CnotPlan, Ev, Rest, QueueAll, HandleAll, Advanced, Cycles, StartState;
    var t, v0 := FourthCycle();
    NothingReady(t, v0);
    WhatIsShared();
    TickRest(1, 2, 1);
    EventOf(0, 3);
    EventOf(1, 2);
    StartRest(0, 4);
    StartRest(1, 3);
    SwitchedTimers();
    var b := Ev(0, 3).(braid := CnotPlan(SQUARE, 0, 2, true, false)[3]);
    var left := LeftHeld(2, true) - LeftHeld(3, true);
    var v1 := View([Rest(0, 4, -1), Rest(1, 3, -1)], [b, Ev(1, 2)], [LeftHeld(2, true), {}]);
    var v2 := View([Rest(0, 4, 1), Rest(1, 3, -1)], [Ev(1, 2)], [left, {}]);
    v := View([Rest(0, 4, 1), Rest(1, 3, 1)], [], [left, RightHeld(2)]);
    TickView(t, v0, v1);
    var p := DoView(PassFrom(t), v1, v2);
    p := DoView(p, v2, v);
    LapsedShown(p.s, v);
    EndCycle(4, t, p);
    s := p.s;
  }

  // After five cycles of the main loop, the clock advances and brings the left gate's cnot5, which names the node its
  // own gate still holds.
  lemma SelfConflictHappens() returns (s0: State, s: State)
    ensures COLUMNS.Valid() && IsInitial(COLUMNS, s0) && Cycles(COLUMNS, s0, 5, s) && Inv(COLUMNS, s)
    ensures var t := Advanced(COLUMNS, s);
            EventAt(COLUMNS, t, 0) && t.lapsed[0].kind == Cnot5 && ConflictsWithSelf(COLUMNS, t, 0)
  {
    hide Inv, QueueAt, Res, CnotPlan, Ev, Rest, QueueAll, Advanced, Cycles, StartState, Marked, LeftHeld, RightHeld;
    Start();
    var v0;
    s, v0 := FifthCycle();
    s0 := StartState();
    NothingReady(s, v0);
    TickRest(0, 4, 1);
    TickRest(1, 3, 1);
    EventOf(0, 4);
    LeftBraids();
    TickView(s, v0, View([Rest(0, 5, -1), Rest(1, 4, -1)], [Ev(0, 4), Ev(1, 3)], v0.held));
    Cnot5SelfConflict(COLUMNS, Advanced(COLUMNS, s), 0);
  }
}
