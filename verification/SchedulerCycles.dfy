/**
 Whole clock cycles of the scheduler: the loops over ready gates and lapsed events as functions of the state, and
 the main loop as a sequence of cycles.
 */
module SchedulerCycles {
  import opened Events
  import opened Scheduler
  import opened SchedulerInvariant
  import opened SchedulerSteps
  import opened SchedulerRuns

  // ----- What the loops compute ---------------------------------------------------------------------

  // Queue the events of all ready gates.
  function QueueAll(cfg: Config, s: State): (r: State)
    requires Inv(cfg, s)
    ensures Inv(cfg, r) && r.ready == []
    decreases |s.ready|
  {
    if s.ready == [] then s else
    QueueFirstKeepsInv(cfg, s);
    QueueAll(cfg, QueueFirst(cfg, s))
  }

  // A pass over the lapsed events: the position reached, and whether this pass already switched a route
  // or dropped a gate (each at most once per clock cycle).
  datatype Pass = Pass(s: State, i: nat, switched: bool, dropped: bool)

  ghost predicate PassOK(cfg: Config, p: Pass) { Inv(cfg, p.s) && p.i <= |p.s.lapsed| }

  // A blocked event is switched if it has been blocked often enough and it is the first to be switched in this pass.
  predicate Switches(cfg: Config, p: Pass, e: Event) {
    e.attempts > cfg.yxThreshold && !p.switched && (e.kind == Cnot3 || e.kind == Cnot5)
  }

  // The event at the current position fails: count the attempt, perhaps switch its route.
  function Fail(cfg: Config, p: Pass): (s: State)
    requires PassOK(cfg, p) && p.i < |p.s.lapsed|
    ensures Inv(cfg, s) && |s.lapsed| == |p.s.lapsed| && s.lapsed[p.i].gate == p.s.lapsed[p.i].gate
    ensures s.lapsed[p.i].attempts == p.s.lapsed[p.i].attempts + 1
  {
    hide Inv;
    WaitKeepsInv(cfg, p.s, p.i);
    var s1 := Wait(p.s, p.i);
    if Switches(cfg, p, s1.lapsed[p.i]) then
      SwitchRouteKeepsInv(cfg, s1, p.i);
      SwitchRoute(cfg, s1, p.i)
    else s1
  }

  // One iteration of the loop over lapsed events.
  function HandleOne(cfg: Config, p: Pass): (r: Pass)
    requires PassOK(cfg, p) && p.i < |p.s.lapsed|
    ensures PassOK(cfg, r) && |r.s.lapsed| - r.i < |p.s.lapsed| - p.i
    ensures p.switched ==> r.switched
    ensures p.dropped ==> r.dropped
  {
    InFlightActive(cfg, p.s, p.i);
    hide Inv;
    if Doable(cfg, p.s, p.i) then
      SucceedKeepsInv(cfg, p.s, p.i);
      p.(s := Succeed(cfg, p.s, p.i))
    else
      var s := Fail(cfg, p);
      var switched := p.switched || Switches(cfg, p, Wait(p.s, p.i).lapsed[p.i]);
      if s.lapsed[p.i].attempts > cfg.dropThreshold && !p.dropped then
        DropKeepsInv(cfg, s, p.i);
        Pass(Drop(cfg, s, p.i), p.i, switched, true)
      else Pass(s, p.i + 1, switched, p.dropped)
  }

  function HandleAll(cfg: Config, p: Pass): (r: Pass)
    requires PassOK(cfg, p)
    ensures PassOK(cfg, r)
    decreases |p.s.lapsed| - p.i
  {
    if p.i >= |p.s.lapsed| then p else HandleAll(cfg, HandleOne(cfg, p))
  }

  // A clock cycle: queue the ready gates, advance the clock, put the lapsed events in some order, handle them.
  ghost function Advanced(cfg: Config, s: State): (r: State)
    requires Inv(cfg, s)
    ensures Inv(cfg, r)
  {
    TickKeepsInv(cfg, QueueAll(cfg, s));
    Tick(cfg, QueueAll(cfg, s))
  }

  ghost function CycleWith(cfg: Config, s: State, order: seq<Event>): (r: State)
    requires Inv(cfg, s) && multiset(order) == multiset(Advanced(cfg, s).lapsed)
    ensures Inv(cfg, r)
  {
    ReorderKeepsInv(cfg, Advanced(cfg, s), order);
    HandleAll(cfg, Pass(Advanced(cfg, s).(lapsed := order), 0, false, false)).s
  }

  ghost predicate IsCycle(cfg: Config, s: State, s': State) {
    Inv(cfg, s) && exists order :: multiset(order) == multiset(Advanced(cfg, s).lapsed) && s' == CycleWith(cfg, s, order)
  }

  // n cycles, none of which starts when the loop's exit condition holds.
  ghost predicate Cycles(cfg: Config, s: State, n: nat, s': State) {
    if n == 0 then s' == s
    else exists m :: Cycles(cfg, s, n - 1, m) && !Finished(m) && IsCycle(cfg, m, s')
  }

  lemma NoCycle(cfg: Config, s: State)
    ensures Cycles(cfg, s, 0, s)
  {
  }

  lemma OneMoreCycle(cfg: Config, s: State, n: nat, m: State, s': State)
    requires Cycles(cfg, s, n, m) && !Finished(m) && IsCycle(cfg, m, s')
    ensures Cycles(cfg, s, n + 1, s')
  {
  }

  lemma {:induction false} CyclesKeepInv(cfg: Config, s: State, n: nat, s': State)
    requires Inv(cfg, s) && Cycles(cfg, s, n, s')
    ensures Inv(cfg, s')
  {
    hide Inv;
    if n > 0 {
      var m :| Cycles(cfg, s, n - 1, m) && !Finished(m) && IsCycle(cfg, m, s');
      var order :| multiset(order) == multiset(Advanced(cfg, m).lapsed) && s' == CycleWith(cfg, m, order);
    }
  }
}
