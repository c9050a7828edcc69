/**
 When a gate stands in its own way: the node left behind by a rerouted cnot3.
 */
module SelfConflict {
  import opened Collections
  import opened Mesh
  import opened Events
  import opened Dag
  import opened Scheduler
  import opened SchedulerInvariant
  import opened SchedulerSteps
  import opened SchedulerRuns

  // Some resource of the event's braid is held by the event's own gate.
  ghost predicate ConflictsWithSelf(cfg: Config, s: State, i: nat)
    requires EventAt(cfg, s, i)
  {
    exists r :: r in Res(s.lapsed[i].braid) && r in Owned(s.owner, cfg.gates[s.lapsed[i].gate].number)
  }

  // A cnot5 in flight conflicts with its own gate exactly if the gate did its cnot3 on the YX route, its tiles are
  // two tiles that share no side, and cnot5 itself has not been switched.
  lemma Cnot5SelfConflict(cfg: Config, s: State, i: nat)
    requires Inv(cfg, s) && i < |s.lapsed| && s.lapsed[i].kind == Cnot5
    ensures EventAt(cfg, s, i)
    ensures var g := s.lapsed[i].gate;
            && |cfg.gates[g].qid| == 2 && g in s.crossed
            && var src, dest := cfg.gates[g].qid[0], cfg.gates[g].qid[1];
            && Routable(cfg.grid, src, dest)
            && (ConflictsWithSelf(cfg, s, i) <==>
                  && src != dest && !cfg.grid.AreAdjacent(src, dest)
                  && s.crossed[g] == CnotPlan(cfg.grid, src, dest, true, false)[2]
                  && s.lapsed[i].braid == CnotPlan(cfg.grid, src, dest, false, false)[4])
  {
    hide CnotPlan, HeldNode, Res, OnTime, NextUseEdges, ListsOK, MeshOK, Grid.AreAdjacent, Grid.IsQubit;
    InFlightActive(cfg, s, i);
    var e := s.lapsed[i];
    var g, q := e.gate, QueueOf(s.queues, e.gate);
    var gate, owned, via := cfg.gates[g], Owned(s.owner, cfg.gates[g].number), ViaOf(s.crossed, g);
    var v3, v5 :| Follows(cfg, g, Pending(Some(e), q), owned, via, v3, v5);
    SwitchableEvent(cfg, g, e, q, owned, via, v3, v5);
    var src, dest := gate.qid[0], gate.qid[1];
    HeldBeforeCnot5(cfg, g, v3, v5);
    FirstPairLeaves(cfg.grid, src, dest, v3, v5);
    PairsAreIndependent(cfg.grid, src, dest, v3, v5);
    if !cfg.grid.AreAdjacent(src, dest) {
      SwitchedCnot3Differs(cfg.grid, src, dest, false);
      SwitchedCnot5AvoidsHeldNode(cfg.grid, src, dest, false);
    }
  }

  // Between cnot4 and cnot5 a CNOT holds what cnot3 took and cnot4 did not release.
  lemma HeldBeforeCnot5(cfg: Config, g: nat, v3: bool, v5: bool)
    requires cfg.Valid() && g < |cfg.gates| && cfg.gates[g].op == CNOT
    ensures var p := GatePlan(cfg, g, v3, v5);
            Held(cfg, g, 4, v3, v5) == Res(p[2]) - Res(p[3])
  {
    var p, kinds := GatePlan(cfg, g, v3, v5), GateKinds(cfg, g);
    assert cfg.ValidGate(cfg.gates[g]);
    assert p[0] == p[1];
    hide Res, GatePlan, Config.Valid;
    assert HeldAfter(p, kinds, 1) == Res(p[0]);
    assert HeldAfter(p, kinds, 2) == {};
    assert HeldAfter(p, kinds, 3) == Res(p[2]);
  }

  lemma PairsAreIndependent(g: Grid, src: nat, dest: nat, v3: bool, v5: bool)
    requires Routable(g, src, dest)
    ensures CnotPlan(g, src, dest, v3, v5)[2] == CnotPlan(g, src, dest, v3, false)[2]
    ensures CnotPlan(g, src, dest, v3, v5)[4] == CnotPlan(g, src, dest, false, v5)[4]
  {
    hide CnotBraids, Reroute;
  }
}
