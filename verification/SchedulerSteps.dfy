/**
 Every step of the scheduler keeps its invariant.
 */
module SchedulerSteps {
  import opened Collections
  import opened Mesh
  import opened Routes
  import opened Events
  import opened Dag
  import opened CriticalPath
  import opened Scheduler
  import opened SchedulerInvariant

  // ----- Ownership under mesh updates ---------------------------------------------------------

  // A successful event changes only what its own gate owns, by exactly its braid.
  lemma OwnedAfterDone(cfg: Config, owner: map<Resource, nat>, e: Event, g: nat)
    requires cfg.Valid() && g < |cfg.gates| && MeshOK(cfg, owner) && InMesh(cfg.grid, e.braid)
    requires CanDo(owner, e, cfg.gates[g].number)
    ensures MeshOK(cfg, Done(owner, e, cfg.gates[g].number))
    ensures var number := cfg.gates[g].number;
            var owned := Owned(owner, number);
            Owned(Done(owner, e, number), number) == if e.open then owned + Res(e.braid) else owned - Res(e.braid)
    ensures forall h: nat | h < |cfg.gates| && h != g ::
              Owned(Done(owner, e, cfg.gates[g].number), cfg.gates[h].number) == Owned(owner, cfg.gates[h].number)
  {
    var number := cfg.gates[g].number;
    var owner' := Done(owner, e, number);
    assert cfg.ValidGate(cfg.gates[g]);
    assert GateNumber(cfg, number);
    forall r | r in Res(e.braid) ensures r in owner { assert cfg.grid.IsResource(r); }
    forall h: nat | h < |cfg.gates| && h != g
      ensures Owned(owner', cfg.gates[h].number) == Owned(owner, cfg.gates[h].number)
    {
      assert cfg.ValidGate(cfg.gates[h]);
      assert cfg.gates[h].number != number;
    }
  }

  // Purging a gate frees exactly what it owns.
  lemma OwnedAfterPurge(cfg: Config, owner: map<Resource, nat>, g: nat)
    requires cfg.Valid() && g < |cfg.gates| && MeshOK(cfg, owner)
    ensures MeshOK(cfg, Purged(owner, cfg.gates[g].number))
    ensures Owned(Purged(owner, cfg.gates[g].number), cfg.gates[g].number) == {}
    ensures forall h: nat | h < |cfg.gates| && h != g ::
              Owned(Purged(owner, cfg.gates[g].number), cfg.gates[h].number) == Owned(owner, cfg.gates[h].number)
  {
    assert cfg.ValidGate(cfg.gates[g]);
    forall h: nat | h < |cfg.gates| && h != g
      ensures Owned(Purged(owner, cfg.gates[g].number), cfg.gates[h].number) == Owned(owner, cfg.gates[h].number)
    {
      assert cfg.ValidGate(cfg.gates[h]);
    }
  }

  // ----- Consequences of the invariant ----------------------------------------------------------

  lemma UnblockedPredsDone(cfg: Config, s: State, g: nat)
    requires Inv(cfg, s) && g < |cfg.gates| && !Blocked(s.edges, g)
    ensures AfterPreds(cfg, g, s.doneAt, s.clk)
  {
    hide ActiveOK;
    EdgesAscend(cfg.gates);
    forall e | e in NextUseEdges(cfg.gates) && e.1 == g ensures e.0 in s.doneAt && s.doneAt[e.0] <= s.clk {
      assert e !in s.edges;
      assert GateInv(cfg, s, e.0);
    }
  }

  // The gate of an event in flight is active.
  lemma InFlightActive(cfg: Config, s: State, i: nat)
    requires Inv(cfg, s) && i < |s.lapsed|
    ensures var g := s.lapsed[i].gate;
            && g < |cfg.gates| && g !in s.doneAt && !Blocked(s.edges, g) && g !in s.ready
            && InFlight(s.lapsed, g) == Some(s.lapsed[i])
            && ActiveOK(cfg, g, Some(s.lapsed[i]), QueueOf(s.queues, g), Owned(s.owner, cfg.gates[g].number),
                        ViaOf(s.crossed, g), s.clk, s.doneAt)
  {
    hide ActiveOK;
    InFlightIs(s.lapsed, i);
    assert GateInv(cfg, s, s.lapsed[i].gate);
  }

  lemma FrameGate(cfg: Config, s: State, s': State, h: nat)
    requires cfg.Valid() && h < |cfg.gates| && GateInv(cfg, s, h)
    requires Blocked(s'.edges, h) == Blocked(s.edges, h)
    requires (h in s'.ready) == (h in s.ready)
    requires InFlight(s'.lapsed, h) == InFlight(s.lapsed, h)
    requires QueueOf(s'.queues, h) == QueueOf(s.queues, h)
    requires Owned(s'.owner, cfg.gates[h].number) == Owned(s.owner, cfg.gates[h].number)
    requires ViaOf(s'.crossed, h) == ViaOf(s.crossed, h) && s'.clk == s.clk && s'.doneAt == s.doneAt
    ensures GateInv(cfg, s', h)
  {
  }

  // ----- The steps -------------------------------------------------------------------------------

  lemma QueueFirstKeepsInv(cfg: Config, s: State)
    requires Inv(cfg, s) && s.ready != []
    ensures s.ready[0] < |cfg.gates| && Inv(cfg, QueueFirst(cfg, s))
  {
    hide ActiveOK, GateEvents, DoneOK;
    var g := s.ready[0];
    assert g in s.ready;
    var s' := QueueFirst(cfg, s);
    assert s.ready == [g] + s'.ready;
    assert g !in s'.ready;
    assert GateEvents(cfg, g) != [];
    assert Distinct(s'.ready);
    forall h: nat | h < |cfg.gates| ensures GateInv(cfg, s', h) {
      assert GateInv(cfg, s, h);
      if h == g {
        UnblockedPredsDone(cfg, s, g);
        QueuedActive(cfg, g, ViaOf(s.crossed, g), s.clk, s.doneAt);
      } else {
        FrameGate(cfg, s, s', h);
      }
    }
    assert forall h: nat | h in s'.ready :: h in s.ready;
    assert ListsOK(cfg, s');
  }

  lemma WaitKeepsInv(cfg: Config, s: State, i: nat)
    requires Inv(cfg, s) && i < |s.lapsed|
    ensures Inv(cfg, Wait(s, i))
  {
    hide ActiveOK, DoneOK;
    var s' := Wait(s, i);
    var e := s.lapsed[i];
    var e' := e.(attempts := e.attempts + 1);
    InFlightActive(cfg, s, i);
    forall h: nat | h < |cfg.gates| ensures GateInv(cfg, s', h) {
      assert GateInv(cfg, s, h);
      InFlightUpdate(s.lapsed, i, e', h);
      if h == e.gate {
        RetriedActive(cfg, h, e, e', QueueOf(s.queues, h), Owned(s.owner, cfg.gates[h].number), ViaOf(s.crossed, h),
                      s.clk, s.doneAt);
      } else {
        FrameGate(cfg, s, s', h);
      }
    }
    InFlightUpdate(s.lapsed, i, e', 0);
  }

  lemma RetriedActive(cfg: Config, g: nat, e: Event, e': Event, q: seq<Event>, owned: set<Resource>,
                      via: Option<Braid>, clk: nat, doneAt: map<nat, nat>)
    requires cfg.Valid() && g < |cfg.gates| && ActiveOK(cfg, g, Some(e), q, owned, via, clk, doneAt) && SameEvent(e, e')
    ensures ActiveOK(cfg, g, Some(e'), q, owned, via, clk, doneAt)
  {
    hide Follows, AfterPreds, TimerSum;
    var v3, v5 :| Follows(cfg, g, Pending(Some(e), q), owned, via, v3, v5);
    FollowsSame(cfg, g, Pending(Some(e), q), Pending(Some(e'), q), owned, via, v3, v5);
  }

  lemma SwitchRouteKeepsInv(cfg: Config, s: State, i: nat)
    requires Inv(cfg, s) && i < |s.lapsed| && (s.lapsed[i].kind == Cnot3 || s.lapsed[i].kind == Cnot5)
    ensures Switchable(cfg, s, i) && Inv(cfg, SwitchRoute(cfg, s, i))
  {
    hide ActiveOK, DoneOK, Reroute;
    var e := s.lapsed[i];
    var g := e.gate;
    InFlightActive(cfg, s, i);
    SwitchedActive(cfg, g, e, QueueOf(s.queues, g), Owned(s.owner, cfg.gates[g].number), ViaOf(s.crossed, g), s.clk, s.doneAt);
    var s' := SwitchRoute(cfg, s, i);
    if s' != s {
      var e' := s'.lapsed[i];
      assert s'.lapsed == s.lapsed[i := e'];
      forall h: nat | h < |cfg.gates| ensures GateInv(cfg, s', h) {
        assert GateInv(cfg, s, h);
        InFlightUpdate(s.lapsed, i, e', h);
        if h != g {
          FrameGate(cfg, s, s', h);
        }
      }
      InFlightUpdate(s.lapsed, i, e', 0);
    }
  }

  lemma DropKeepsInv(cfg: Config, s: State, i: nat)
    requires Inv(cfg, s) && i < |s.lapsed|
    ensures s.lapsed[i].gate < |cfg.gates| && Inv(cfg, Drop(cfg, s, i))
  {
    hide ActiveOK, DoneOK;
    var g := s.lapsed[i].gate;
    InFlightActive(cfg, s, i);
    OwnedAfterPurge(cfg, s.owner, g);
    RemoveKeepsUnique(s.lapsed, i);
    var s' := Drop(cfg, s, i);
    forall h: nat | h < |cfg.gates| ensures GateInv(cfg, s', h) {
      assert GateInv(cfg, s, h);
      InFlightRemove(s.lapsed, i, h);
      if h != g {
        FrameGate(cfg, s, s', h);
      }
    }
  }

  lemma AdvanceKeepsInv(cfg: Config, s: State, i: nat)
    requires Inv(cfg, s) && i < |s.lapsed|
    requires CanDo(s.owner, s.lapsed[i], cfg.gates[s.lapsed[i].gate].number)
    requires s.lapsed[i].gate in s.queues
    ensures Inv(cfg, Succeed(cfg, s, i))
  {
    hide ActiveOK, DoneOK, TimerOf, Res, CanDo, Done, MeshOK, Owned;
    var e := s.lapsed[i];
    var g := e.gate;
    InFlightActive(cfg, s, i);
    var owned := Owned(s.owner, cfg.gates[g].number);
    var owned' := if e.open then owned + Res(e.braid) else owned - Res(e.braid);
    var via' := if e.kind == Cnot3 then Some(e.braid) else ViaOf(s.crossed, g);
    AdvancedActive(cfg, g, e, QueueOf(s.queues, g), owned, owned', ViaOf(s.crossed, g), via', s.clk, s.doneAt);
    OwnedAfterDone(cfg, s.owner, e, g);
    RemoveKeepsUnique(s.lapsed, i);
    var s' := Succeed(cfg, s, i);
    forall h: nat | h < |cfg.gates| ensures GateInv(cfg, s', h) {
      assert GateInv(cfg, s, h);
      InFlightRemove(s.lapsed, i, h);
      if h != g {
        FrameGate(cfg, s, s', h);
      }
    }
  }

  // ----- Completion ------------------------------------------------------------------------------

  lemma {:induction false} NewlyReadyExact(es: Edges, g: nat, n: nat)
    ensures forall h: nat :: h in NewlyReady(es, g, n) <==> h < n && (g, h) in es && InDegree(es, h) == 1
    ensures Distinct(NewlyReady(es, g, n))
  {
    if n > 0 { NewlyReadyExact(es, g, n - 1); }
  }

  // Taking g off the graph unblocks exactly the successors whose last open dependency it was.
  lemma UnblockedByCompletion(cfg: Config, s: State, g: nat, h: nat)
    requires Inv(cfg, s) && g < |cfg.gates| && h < |cfg.gates|
    ensures Blocked(s.edges - OutEdges(s.edges, g), h)
            <==> Blocked(s.edges, h) && h !in NewlyReady(s.edges, g, |cfg.gates|)
  {
    NewlyReadyExact(s.edges, g, |cfg.gates|);
    var rest := s.edges - OutEdges(s.edges, g);
    if (g, h) in s.edges {
      InDegreeOne(s.edges, g, h);
      if Blocked(s.edges, h) && h !in NewlyReady(s.edges, g, |cfg.gates|) {
        var e :| e in s.edges && e.1 == h && e.0 != g;
        assert e in rest;
      }
    } else if Blocked(s.edges, h) {
      var e :| e in s.edges && e.1 == h;
      assert e.0 != g;
      assert e in rest;
    }
  }

  // A gate other than g does not notice g's completion, unless it waited for it.
  lemma OtherGateAfterCompletion(cfg: Config, s: State, g: nat, h: nat, blocked: bool, ready: bool)
    requires Inv(cfg, s) && g < |cfg.gates| && h < |cfg.gates| && g != h && g !in s.doneAt && !Blocked(s.edges, g)
    requires blocked == (Blocked(s.edges, h) && h !in NewlyReady(s.edges, g, |cfg.gates|))
    requires ready == (h in s.ready || h in NewlyReady(s.edges, g, |cfg.gates|))
    ensures GateOK(cfg, h, blocked, ready, InFlight(s.lapsed, h), QueueOf(s.queues, h),
                   Owned(s.owner, cfg.gates[h].number), ViaOf(s.crossed, h), s.clk, s.doneAt[g := s.clk])
  {
    hide Follows, TimersOK, StalledOK, TimerSum, NextUseEdges;
    assert GateInv(cfg, s, h);
    NewlyReadyExact(s.edges, g, |cfg.gates|);
    if h in NewlyReady(s.edges, g, |cfg.gates|) {
      assert (g, h) in s.edges;
      assert Blocked(s.edges, h);
    }
  }

  lemma CompleteKeepsInv(cfg: Config, s: State, i: nat)
    requires Inv(cfg, s) && i < |s.lapsed|
    requires CanDo(s.owner, s.lapsed[i], cfg.gates[s.lapsed[i].gate].number)
    requires s.lapsed[i].gate !in s.queues
    ensures Inv(cfg, Succeed(cfg, s, i))
  {
    hide ActiveOK, DoneOK, NextUseEdges, Res, CanDo, Done, NewlyReady, OutEdges, MeshOK, Owned;
    var e := s.lapsed[i];
    var g := e.gate;
    InFlightActive(cfg, s, i);
    var owned := Owned(s.owner, cfg.gates[g].number);
    var owned' := if e.open then owned + Res(e.braid) else owned - Res(e.braid);
    FinishedActive(cfg, g, e, owned, owned', ViaOf(s.crossed, g), s.clk, s.doneAt);
    OwnedAfterDone(cfg, s.owner, e, g);
    RemoveKeepsUnique(s.lapsed, i);
    NewlyReadyExact(s.edges, g, |cfg.gates|);
    var s' := Succeed(cfg, s, i);
    EdgesAscend(cfg.gates);
    forall h: nat | h < |cfg.gates| ensures GateInv(cfg, s', h) {
      InFlightRemove(s.lapsed, i, h);
      UnblockedByCompletion(cfg, s, g, h);
      if h != g {
        OtherGateAfterCompletion(cfg, s, g, h, Blocked(s'.edges, h), h in s'.ready);
      }
    }
    CompletionLists(cfg, s, i);
  }

  // A completed gate's successors join the ready list once, and its edges leave the graph.
  lemma CompletionLists(cfg: Config, s: State, i: nat)
    requires Inv(cfg, s) && i < |s.lapsed| && s.lapsed[i].gate !in s.queues
    ensures var s' := Succeed(cfg, s, i);
            ListsOK(cfg, s') && s'.edges == (set e | e in NextUseEdges(cfg.gates) && e.0 !in s'.doneAt)
  {
    hide ActiveOK, DoneOK, NextUseEdges;
    var g := s.lapsed[i].gate;
    RemoveKeepsUnique(s.lapsed, i);
    NewlyReadyExact(s.edges, g, |cfg.gates|);
    var s', added := Succeed(cfg, s, i), NewlyReady(s.edges, g, |cfg.gates|);
    forall h: nat | h in added ensures h !in s.ready {
      assert (g, h) in s.edges;
      assert Blocked(s.edges, h);
      assert GateInv(cfg, s, h);
    }
    assert s'.ready == s.ready + added;
    forall x, y | 0 <= x < y < |s'.ready| ensures s'.ready[x] != s'.ready[y] {
      if x < |s.ready| <= y {
        assert s'.ready[y] == added[y - |s.ready|];
        assert s'.ready[y] in added && s'.ready[x] in s.ready;
      }
    }
  }

  lemma SucceedKeepsInv(cfg: Config, s: State, i: nat)
    requires Inv(cfg, s) && i < |s.lapsed|
    requires CanDo(s.owner, s.lapsed[i], cfg.gates[s.lapsed[i].gate].number)
    ensures Inv(cfg, Succeed(cfg, s, i))
  {
    if s.lapsed[i].gate in s.queues {
      AdvanceKeepsInv(cfg, s, i);
    } else {
      CompleteKeepsInv(cfg, s, i);
    }
  }

  // ----- The clock ---------------------------------------------------------------------------------

  lemma {:induction false} NewlyLapsedExact(queues: map<nat, seq<Event>>, n: nat)
    requires forall g | g in queues && queues[g] != [] :: queues[g][0].gate == g
    ensures UniqueGates(NewlyLapsed(queues, n))
    ensures forall j | 0 <= j < |NewlyLapsed(queues, n)| ::
              var g := NewlyLapsed(queues, n)[j].gate;
              g < n && g in queues && Lapses(queues[g]) && NewlyLapsed(queues, n)[j] == queues[g][0].(timer := 0)
    ensures forall g: nat | g < n && g in queues && Lapses(queues[g]) ::
              queues[g][0].(timer := 0) in NewlyLapsed(queues, n)
  {
    if n > 0 { NewlyLapsedExact(queues, n - 1); }
  }

  // The head of a queue belongs to its gate, and lapses only if nothing of that gate is in flight.
  lemma QueueHeads(cfg: Config, s: State, g: nat)
    requires Inv(cfg, s) && g in s.queues
    ensures s.queues[g] != [] && s.queues[g][0].gate == g
    ensures ActiveOK(cfg, g, InFlight(s.lapsed, g), s.queues[g], Owned(s.owner, cfg.gates[g].number), ViaOf(s.crossed, g),
                     s.clk, s.doneAt)
    ensures Lapses(s.queues[g]) ==> InFlight(s.lapsed, g) == None
  {
    hide GatePlan, Held, OnTime;
    assert GateInv(cfg, s, g);
    var fl, q := InFlight(s.lapsed, g), s.queues[g];
    var v3, v5 :| Follows(cfg, g, Pending(fl, q), Owned(s.owner, cfg.gates[g].number), ViaOf(s.crossed, g), v3, v5);
    var pend := Pending(fl, q);
    var j := |pend| - |q|;
    assert pend[j] == q[0];
    var k := |GateKinds(cfg, g)| - |pend|;
    assert OnPlan(pend[j], g, GateKinds(cfg, g)[k + j], GatePlan(cfg, g, v3, v5)[k + j]);
  }

  lemma InFlightAppend(l: seq<Event>, m: seq<Event>, g: nat)
    requires UniqueGates(l) && UniqueGates(m)
    requires forall i, j | 0 <= i < |l| && 0 <= j < |m| :: l[i].gate != m[j].gate
    ensures UniqueGates(l + m)
    ensures InFlight(l + m, g) == if InFlight(l, g).Some? then InFlight(l, g) else InFlight(m, g)
  {
    var lm := l + m;
    InFlightNone(l, g);
    InFlightNone(m, g);
    InFlightNone(lm, g);
    if i :| 0 <= i < |l| && l[i].gate == g {
      InFlightIs(l, i);
      assert lm[i] == l[i];
      InFlightIs(lm, i);
    } else if j :| 0 <= j < |m| && m[j].gate == g {
      InFlightIs(m, j);
      assert lm[|l| + j] == m[j];
      InFlightIs(lm, |l| + j);
    } else {
      assert forall x | 0 <= x < |lm| :: lm[x].gate != g;
    }
  }

  // What lapses at the tick is in flight afterwards, besides what already was.
  lemma TickInFlight(cfg: Config, s: State, g: nat)
    requires Inv(cfg, s)
    ensures UniqueGates(Tick(cfg, s).lapsed)
    ensures forall i | 0 <= i < |Tick(cfg, s).lapsed| :: Tick(cfg, s).lapsed[i].gate < |cfg.gates|
    ensures InFlight(Tick(cfg, s).lapsed, g)
            == if g in s.queues && Lapses(s.queues[g]) then Some(s.queues[g][0].(timer := 0)) else InFlight(s.lapsed, g)
  {
    hide GateInv, ActiveOK;
    forall h | h in s.queues ensures s.queues[h] != [] && s.queues[h][0].gate == h { QueueHeads(cfg, s, h); }
    var added := NewlyLapsed(s.queues, |cfg.gates|);
    NewlyLapsedExact(s.queues, |cfg.gates|);
    forall i, j | 0 <= i < |s.lapsed| && 0 <= j < |added| ensures s.lapsed[i].gate != added[j].gate {
      QueueHeads(cfg, s, added[j].gate);
      InFlightIs(s.lapsed, i);
    }
    InFlightAppend(s.lapsed, added, g);
    InFlightNone(added, g);
    if g in s.queues && Lapses(s.queues[g]) {
      QueueHeads(cfg, s, g);
      var e := s.queues[g][0].(timer := 0);
      assert e in added;
      var j :| 0 <= j < |added| && added[j] == e;
      InFlightIs(added, j);
    }
  }

  lemma TickedGate(cfg: Config, s: State, g: nat)
    requires Inv(cfg, s) && g < |cfg.gates|
    ensures GateInv(cfg, Tick(cfg, s), g)
  {
    hide ActiveOK, AfterPreds;
    assert GateInv(cfg, s, g);
    TickInFlight(cfg, s, g);
    var s' := Tick(cfg, s);
    var fl, q, owned := InFlight(s.lapsed, g), QueueOf(s.queues, g), Owned(s.owner, cfg.gates[g].number);
    assert QueueOf(s'.queues, g) == if Lapses(q) then q[1..] else Ticked(q);
    if !(g in s.doneAt || Blocked(s.edges, g) || g in s.ready) {
      if Lapses(q) {
        LapsedActive(cfg, g, fl, q, owned, ViaOf(s.crossed, g), s.clk, s.doneAt);
      } else {
        TickedActive(cfg, g, fl, q, owned, ViaOf(s.crossed, g), s.clk, s.doneAt);
      }
    }
  }

  lemma TickKeepsInv(cfg: Config, s: State)
    requires Inv(cfg, s)
    ensures Inv(cfg, Tick(cfg, s))
  {
    hide GateInv;
    forall g: nat | g < |cfg.gates| ensures GateInv(cfg, Tick(cfg, s), g) { TickedGate(cfg, s, g); }
    TickInFlight(cfg, s, 0);
  }

  // ----- Reordering and the initial state --------------------------------------------------------------

  // Whatever order a sort puts the lapsed events in, the invariant holds.
  lemma ReorderKeepsInv(cfg: Config, s: State, order: seq<Event>)
    requires Inv(cfg, s) && multiset(order) == multiset(s.lapsed)
    ensures Inv(cfg, s.(lapsed := order))
  {
    hide GateOK;
    UniqueUnderReorder(s.lapsed, order);
    assert forall e: Event :: e in order <==> e in multiset(order);
    assert forall e: Event :: e in s.lapsed <==> e in multiset(s.lapsed);
    forall i | 0 <= i < |order| ensures order[i].gate < |cfg.gates| { assert order[i] in s.lapsed; }
    forall g: nat | g < |cfg.gates| ensures GateInv(cfg, s.(lapsed := order), g) {
      assert GateInv(cfg, s, g);
      InFlightSame(order, s.lapsed, g);
    }
  }

  lemma UniqueUnderReorder(l: seq<Event>, m: seq<Event>)
    requires UniqueGates(l) && multiset(l) == multiset(m)
    ensures UniqueGates(m)
  {
    forall i, j | 0 <= i < j < |m| ensures m[i].gate != m[j].gate {
      if m[i].gate == m[j].gate {
        assert m[i] in multiset(m) && m[j] in multiset(m);
        assert m[i] in l && m[j] in l;
        var x :| 0 <= x < |l| && l[x] == m[i];
        var y :| 0 <= y < |l| && l[y] == m[j];
        assert x == y;
        TwiceIn(m, i, j);
        OnceIn(l, x);
      }
    }
  }

  lemma TwiceIn(m: seq<Event>, i: nat, j: nat)
    requires i < j < |m| && m[i] == m[j]
    ensures multiset(m)[m[i]] >= 2
  {
    assert m == m[..i] + [m[i]] + m[i + 1..j] + [m[j]] + m[j + 1..];
  }

  lemma OnceIn(l: seq<Event>, x: nat)
    requires x < |l| && UniqueGates(l)
    ensures multiset(l)[l[x]] == 1
  {
    assert l == l[..x] + [l[x]] + l[x + 1..];
    assert l[x] !in l[..x] && l[x] !in l[x + 1..];
  }

  lemma {:induction false} SourcesExact(es: Edges, n: nat)
    ensures forall h: nat :: h in Sources(es, n) <==> h < n && InDegree(es, h) == 0
    ensures Distinct(Sources(es, n))
  {
    if n > 0 { SourcesExact(es, n - 1); }
  }

  lemma InitialInv(cfg: Config, owner: map<Resource, nat>)
    requires cfg.Valid() && (forall r :: r in owner <==> cfg.grid.IsResource(r)) && forall r | r in owner :: owner[r] == 0
    ensures Inv(cfg, Initial(cfg, owner, NextUseEdges(cfg.gates)))
  {
    var es := NextUseEdges(cfg.gates);
    var s := Initial(cfg, owner, es);
    SourcesExact(es, |cfg.gates|);
    forall g: nat | g < |cfg.gates| ensures GateInv(cfg, s, g) {
      InDegreeZero(es, g);
      assert cfg.ValidGate(cfg.gates[g]);
      assert Owned(owner, cfg.gates[g].number) == {};
    }
  }
}
