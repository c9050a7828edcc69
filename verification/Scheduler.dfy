/**
 The braid scheduler as a state machine: what one pass of each of its loops does to the mesh owners,
 the dependency graph, the ready gates, the event queues, the lapsed events and the clock.
 */
module Scheduler {
  import opened Collections
  import opened Mesh
  import opened Routes
  import opened Events
  import opened Dag
  import opened CriticalPath

  // doneAt and crossed are history variables: the clock value at which each finished gate completed, and the
  // braid with which each gate's latest cnot3 was done.
  datatype State = State(
    owner: map<Resource, nat>,
    edges: Edges,
    ready: seq<nat>,
    queues: map<nat, seq<Event>>,
    lapsed: seq<Event>,
    clk: nat,
    doneAt: map<nat, nat>,
    crossed: map<nat, Braid>)

  // ----- Programs of gates ---------------------------------------------------------------

  function GateKinds(cfg: Config, g: nat): seq<Kind>
    requires g < |cfg.gates|
  {
    Kinds(cfg.gates[g].op)
  }

  // The braids of gate g's events, after the reroutes v3 (cnot3/cnot4) and v5 (cnot5/cnot6).
  function GatePlan(cfg: Config, g: nat, v3: bool, v5: bool): (bs: seq<Braid>)
    requires cfg.Valid() && g < |cfg.gates|
    ensures |bs| == |GateKinds(cfg, g)|
  {
    var gate := cfg.gates[g];
    assert cfg.ValidGate(gate);
    match gate.op
    case CNOT => CnotPlan(cfg.grid, gate.qid[0], gate.qid[1], v3, v5)
    case H => [Braid([], []), Braid([], [])]
  }

  // The events of gate g from index k on, on their first routes, with the timer of the first set to t.
  function QueueAt(cfg: Config, g: nat, k: nat, t: int): (q: seq<Event>)
    requires cfg.Valid() && g < |cfg.gates| && k <= |GateKinds(cfg, g)|
    ensures |q| == |GateKinds(cfg, g)| - k
  {
    var plan, kinds := GatePlan(cfg, g, false, false), GateKinds(cfg, g);
    seq(|kinds| - k, j requires 0 <= j < |kinds| - k =>
      Event(plan[k + j], Opens(kinds[k + j]), g, kinds[k + j], if j == 0 then t else -1, 0))
  }

  // The event queue of a gate that has just become ready.
  function GateEvents(cfg: Config, g: nat): (es: seq<Event>)
    requires cfg.Valid() && g < |cfg.gates|
    ensures |es| == |GateKinds(cfg, g)|
  {
    QueueAt(cfg, g, 0, 1)
  }

  // The gate_latencies table: the timers of all events of the operation.
  function Latency(distance: nat, op: Op): nat {
    match op
    case CNOT => 2 * distance + 3
    case H => 9 + distance
  }

  function Latencies(cfg: Config): (w: seq<nat>)
    ensures |w| == |cfg.gates|
  {
    seq(|cfg.gates|, g requires 0 <= g < |cfg.gates| => Latency(cfg.distance, cfg.gates[g].op))
  }

  // ----- Mesh updates --------------------------------------------------------------------

  // An event can be done unless it opens something that is taken, or closes something another gate holds.
  predicate CanDo(owner: map<Resource, nat>, e: Event, number: nat) {
    forall r | r in Res(e.braid) && r in owner :: owner[r] == 0 || (!e.open && owner[r] == number)
  }

  function Done(owner: map<Resource, nat>, e: Event, number: nat): map<Resource, nat> {
    map r | r in owner :: if r in Res(e.braid) then (if e.open then number else 0) else owner[r]
  }

  function Purged(owner: map<Resource, nat>, number: nat): map<Resource, nat> {
    map r | r in owner :: if owner[r] == number then 0 else owner[r]
  }

  // ----- Queueing and the clock ------------------------------------------------------------

  function Initial(cfg: Config, owner: map<Resource, nat>, edges: Edges): State {
    State(owner, edges, Sources(edges, |cfg.gates|), map[], [], 0, map[], map[])
  }

  // The gates below n that nothing leads to, in order.
  function Sources(edges: Edges, n: nat): seq<nat> {
    if n == 0 then [] else
    Sources(edges, n - 1) + (if InDegree(edges, n - 1) == 0 then [n - 1] else [])
  }

  // Queue the events of the first ready gate.
  function QueueFirst(cfg: Config, s: State): State
    requires cfg.Valid() && s.ready != [] && s.ready[0] < |cfg.gates|
  {
    var g := s.ready[0];
    s.(queues := s.queues[g := GateEvents(cfg, g)], ready := s.ready[1..])
  }

  // The head of the queue runs and reaches zero at the next clock tick.
  predicate Lapses(q: seq<Event>) {
    q != [] && 0 <= q[0].timer <= 1
  }

  function Ticked(q: seq<Event>): seq<Event> {
    if q == [] || q[0].timer < 0 then q
    else if Lapses(q) then q[1..]
    else q[0 := q[0].(timer := q[0].timer - 1)]
  }

  // The events of gates below n that lapse at the next tick, in gate order.
  function NewlyLapsed(queues: map<nat, seq<Event>>, n: nat): seq<Event> {
    if n == 0 then [] else
    NewlyLapsed(queues, n - 1)
    + (if n - 1 in queues && Lapses(queues[n - 1]) then [queues[n - 1][0].(timer := 0)] else [])
  }

  function TickQueues(queues: map<nat, seq<Event>>): map<nat, seq<Event>> {
    map g | g in queues && !(Lapses(queues[g]) && |queues[g]| == 1) :: Ticked(queues[g])
  }

  // One clock tick: every running head event counts down; lapsed events leave their queue.
  function Tick(cfg: Config, s: State): State {
    s.(clk := s.clk + 1,
       queues := TickQueues(s.queues),
       lapsed := s.lapsed + NewlyLapsed(s.queues, |cfg.gates|))
  }

  // ----- Doing one lapsed event --------------------------------------------------------------

  // The successors of g below n that have no other open dependency, in order.
  function NewlyReady(edges: Edges, g: nat, n: nat): seq<nat> {
    if n == 0 then [] else
    NewlyReady(edges, g, n - 1)
    + (if (g, n - 1) in edges && InDegree(edges, n - 1) == 1 then [n - 1] else [])
  }

  // The event at position i succeeds: its gate completes, or the timer of its next event is started.
  function Succeed(cfg: Config, s: State, i: nat): State
    requires i < |s.lapsed| && s.lapsed[i].gate < |cfg.gates|
  {
    var e := s.lapsed[i];
    var g := e.gate;
    var s1 := s.(owner := Done(s.owner, e, cfg.gates[g].number), lapsed := RemoveAt(s.lapsed, i),
                  crossed := if e.kind == Cnot3 then s.crossed[g := e.braid] else s.crossed);
    if g !in s.queues || s.queues[g] == [] then
      s1.(queues := s.queues - {g},
          ready := s.ready + NewlyReady(s.edges, g, |cfg.gates|),
          edges := s.edges - OutEdges(s.edges, g),
          doneAt := s.doneAt[g := s.clk])
    else
      var q := s.queues[g];
      s1.(queues := s.queues[g := q[0 := q[0].(timer := TimerOf(cfg.distance, q[0].kind))]])
  }

  // The event at position i is blocked: count the attempt and leave it where it is.
  function Wait(s: State, i: nat): State
    requires i < |s.lapsed|
  {
    s.(lapsed := s.lapsed[i := s.lapsed[i].(attempts := s.lapsed[i].attempts + 1)])
  }

  // Switch a blocked cnot3 or cnot5, and the close event queued after it, to the YX route.
  // Tiles that share a side have no other route.
  function SwitchRoute(cfg: Config, s: State, i: nat): State
    requires Switchable(cfg, s, i)
  {
    var e := s.lapsed[i];
    var g := e.gate;
    var src, dest := cfg.gates[g].qid[0], cfg.gates[g].qid[1];
    if cfg.grid.AreAdjacent(src, dest) then s else
    var q := s.queues[g];
    var (b, b') := Reroute(cfg.grid, src, dest, e.kind, q[0].braid);
    s.(lapsed := s.lapsed[i := e.(braid := b)], queues := s.queues[g := q[0 := q[0].(braid := b')]])
  }

  ghost predicate Switchable(cfg: Config, s: State, i: nat) {
    && i < |s.lapsed|
    && (s.lapsed[i].kind == Cnot3 || s.lapsed[i].kind == Cnot5)
    && var g := s.lapsed[i].gate;
    && g < |cfg.gates| && |cfg.gates[g].qid| == 2
    && Routable(cfg.grid, cfg.gates[g].qid[0], cfg.gates[g].qid[1])
    && g in s.queues && s.queues[g] != [] && s.queues[g][0].braid.nodes != []
  }

  // Drop the gate of the event at position i and make it ready again.
  function Drop(cfg: Config, s: State, i: nat): State
    requires i < |s.lapsed| && s.lapsed[i].gate < |cfg.gates|
  {
    var g := s.lapsed[i].gate;
    s.(owner := Purged(s.owner, cfg.gates[g].number),
       ready := s.ready + [g],
       queues := s.queues - {g},
       lapsed := RemoveAt(s.lapsed, i))
  }

  // ----- Observations --------------------------------------------------------------------------

  function InFlight(lapsed: seq<Event>, g: nat): Option<Event> {
    if lapsed == [] then None
    else if lapsed[0].gate == g then Some(lapsed[0])
    else InFlight(lapsed[1..], g)
  }

  function QueueOf(queues: map<nat, seq<Event>>, g: nat): seq<Event> {
    if g in queues then queues[g] else []
  }

  function ViaOf(crossed: map<nat, Braid>, g: nat): Option<Braid> {
    if g in crossed then Some(crossed[g]) else None
  }

  function Owned(owner: map<Resource, nat>, number: nat): set<Resource> {
    set r | r in owner && owner[r] == number
  }

  predicate Blocked(edges: Edges, g: nat) {
    exists e :: e in edges && e.1 == g
  }

  // The main loop's exit condition.
  predicate Finished(s: State) {
    s.queues == map[] && s.lapsed == [] && s.edges == {} && s.ready == []
  }
}
