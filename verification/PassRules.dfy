/**
 One pass over the lapsed events: every event is tried once, in order; what happens to a blocked one depends on how
 often it was blocked and on what the pass has done before.
 */
module PassRules {
  import opened Events
  import opened Scheduler
  import opened SchedulerInvariant
  import opened SchedulerSteps
  import opened SchedulerRuns
  import opened SchedulerCycles

  // What a pass does with one lapsed event.
  datatype Outcome = Succeeds | Fails(switched: bool, dropped: bool)

  // After one more failure the event has been blocked often enough to switch its route, or to drop its gate.
  predicate SwitchDue(cfg: Config, e: Event) { e.attempts + 1 > cfg.yxThreshold && (e.kind == Cnot3 || e.kind == Cnot5) }

  predicate DropDue(cfg: Config, e: Event) { e.attempts + 1 > cfg.dropThreshold }

  ghost predicate FailedBefore(events: seq<Event>, outcomes: seq<Outcome>, k: nat, due: Event -> bool)
    requires k <= |events| == |outcomes|
  {
    exists j :: 0 <= j < k && outcomes[j].Fails? && due(events[j])
  }

  // The first failing event that is due is switched, and the first that is due is dropped; no other is.
  // `switched` and `dropped` tell whether this happened before.
  ghost predicate FollowsRules(cfg: Config, events: seq<Event>, outcomes: seq<Outcome>, switched: bool, dropped: bool) {
    && |outcomes| == |events|
    && forall k | 0 <= k < |events| && outcomes[k].Fails? ::
         && (outcomes[k].switched <==>
               SwitchDue(cfg, events[k]) && !switched && !FailedBefore(events, outcomes, k, e => SwitchDue(cfg, e)))
         && (outcomes[k].dropped <==>
               DropDue(cfg, events[k]) && !dropped && !FailedBefore(events, outcomes, k, e => DropDue(cfg, e)))
  }

  // The steps for one event at position i, and the position after them.
  function RoundSteps(o: Outcome, i: nat): seq<Step> {
    match o
    case Succeeds => [DoStep(i)]
    case Fails(switched, dropped) =>
      [RetryStep(i)] + (if switched then [SwitchStep(i)] else []) + (if dropped then [DropStep(i)] else [])
  }

  function PositionAfter(o: Outcome, i: nat): nat { if o.Fails? && !o.dropped then i + 1 else i }

  function PassSteps(outcomes: seq<Outcome>, i: nat): seq<Step> {
    if outcomes == [] then [] else
    RoundSteps(outcomes[0], i) + PassSteps(outcomes[1..], PositionAfter(outcomes[0], i))
  }

  // The event waits, with one more attempt; only a switch changes its braid.
  predicate Waits(e: Event, e': Event, switched: bool) {
    e' == e.(attempts := e.attempts + 1, braid := e'.braid) && (!switched ==> e'.braid == e.braid)
  }

  // The events that stay are those that failed and were not dropped, in order.
  ghost predicate Stays(events: seq<Event>, outcomes: seq<Outcome>, l: seq<Event>)
    requires |outcomes| == |events|
  {
    if outcomes == [] then l == []
    else if outcomes[0].Fails? && !outcomes[0].dropped then
      l != [] && Waits(events[0], l[0], outcomes[0].switched) && Stays(events[1..], outcomes[1..], l[1..])
    else Stays(events[1..], outcomes[1..], l)
  }

  // ----- The outcomes of a pass ------------------------------------------------------------------------------

  ghost function OutcomeOf(cfg: Config, p: Pass): Outcome
    requires PassOK(cfg, p) && p.i < |p.s.lapsed|
  {
    InFlightActive(cfg, p.s, p.i);
    if Doable(cfg, p.s, p.i) then Succeeds
    else Fails(SwitchDue(cfg, p.s.lapsed[p.i]) && !p.switched, DropDue(cfg, p.s.lapsed[p.i]) && !p.dropped)
  }

  ghost function Outcomes(cfg: Config, p: Pass): seq<Outcome>
    requires PassOK(cfg, p)
    decreases |p.s.lapsed| - p.i
  {
    if p.i == |p.s.lapsed| then [] else [OutcomeOf(cfg, p)] + Outcomes(cfg, HandleOne(cfg, p))
  }

  // What one iteration does to the list, the position and the two flags.
  lemma OneRound(cfg: Config, p: Pass)
    requires PassOK(cfg, p) && p.i < |p.s.lapsed|
    ensures var o, r, e := OutcomeOf(cfg, p), HandleOne(cfg, p), p.s.lapsed[p.i];
            && r.i == PositionAfter(o, p.i) && r.i <= |r.s.lapsed| && p.i <= |r.s.lapsed|
            && r.s.lapsed[..p.i] == p.s.lapsed[..p.i]
            && r.s.lapsed[r.i..] == p.s.lapsed[p.i + 1..]
            && (r.i == p.i + 1 ==> Waits(e, r.s.lapsed[p.i], o.switched))
            && (r.switched <==> p.switched || (o.Fails? && SwitchDue(cfg, e)))
            && (r.dropped <==> p.dropped || (o.Fails? && DropDue(cfg, e)))
  {
    InFlightActive(cfg, p.s, p.i);
    hide Inv, CanDo, Done, NewlyReady, Reroute;
    if !Doable(cfg, p.s, p.i) {
      WaitKeepsInv(cfg, p.s, p.i);
      SwitchedList(cfg, p);
    }
  }

  lemma SwitchedList(cfg: Config, p: Pass)
    requires PassOK(cfg, p) && p.i < |p.s.lapsed|
    ensures var s := Fail(cfg, p);
            && |s.lapsed| == |p.s.lapsed| && s.lapsed[..p.i] == p.s.lapsed[..p.i] && s.lapsed[p.i + 1..] == p.s.lapsed[p.i + 1..]
            && Waits(p.s.lapsed[p.i], s.lapsed[p.i], Switches(cfg, p, Wait(p.s, p.i).lapsed[p.i]))
  {
    hide Inv, Reroute;
  }

  // A pass follows the rules, whatever state it starts in, and keeps exactly the events that wait.
  lemma {:induction false} PassFollowsRules(cfg: Config, p: Pass)
    requires PassOK(cfg, p)
    ensures var events, l := p.s.lapsed[p.i..], HandleAll(cfg, p).s.lapsed;
            && FollowsRules(cfg, events, Outcomes(cfg, p), p.switched, p.dropped)
            && p.i <= |l| && l[..p.i] == p.s.lapsed[..p.i] && Stays(events, Outcomes(cfg, p), l[p.i..])
    decreases |p.s.lapsed| - p.i
  {
    hide Inv, HandleOne, FollowsRules, Waits, OutcomeOf;
    if p.i == |p.s.lapsed| {
      assert p.s.lapsed[p.i..] == [];
      NoEvents(cfg, p.switched, p.dropped);
    } else {
      OneRound(cfg, p);
      OneOutcome(cfg, p);
      var r := HandleOne(cfg, p);
      PassFollowsRules(cfg, r);
      var events, l := p.s.lapsed[p.i..], HandleAll(cfg, p).s.lapsed;
      assert events == [p.s.lapsed[p.i]] + r.s.lapsed[r.i..];
      FirstRule(cfg, events, OutcomeOf(cfg, p), Outcomes(cfg, r), p.switched, p.dropped);
      assert l[..p.i] == l[..r.i][..p.i];
      if r.i == p.i + 1 {
        assert l[..r.i][p.i] == l[p.i] == r.s.lapsed[p.i];
        assert l[p.i..][1..] == l[r.i..];
      }
    }
  }

  lemma NoEvents(cfg: Config, switched: bool, dropped: bool)
    ensures FollowsRules(cfg, [], [], switched, dropped)
  {
  }

  lemma OneOutcome(cfg: Config, p: Pass)
    requires PassOK(cfg, p) && p.i < |p.s.lapsed|
    ensures var o, e := OutcomeOf(cfg, p), p.s.lapsed[p.i];
            o.Fails? ==> o == Fails(SwitchDue(cfg, e) && !p.switched, DropDue(cfg, e) && !p.dropped)
  {
  }

  // The rules for a list from those for its first event and for the rest.
  lemma FirstRule(cfg: Config, events: seq<Event>, o: Outcome, rest: seq<Outcome>, switched: bool, dropped: bool)
    requires events != []
    requires o.Fails? ==> o == Fails(SwitchDue(cfg, events[0]) && !switched, DropDue(cfg, events[0]) && !dropped)
    requires FollowsRules(cfg, events[1..], rest, switched || (o.Fails? && SwitchDue(cfg, events[0])),
                          dropped || (o.Fails? && DropDue(cfg, events[0])))
    ensures FollowsRules(cfg, events, [o] + rest, switched, dropped)
  {
    hide SwitchDue, DropDue;
    var outcomes := [o] + rest;
    forall k | 0 < k < |events| && outcomes[k].Fails?
      ensures FailedBefore(events, outcomes, k, e => SwitchDue(cfg, e))
              <==> (o.Fails? && SwitchDue(cfg, events[0])) || FailedBefore(events[1..], rest, k - 1, e => SwitchDue(cfg, e))
      ensures FailedBefore(events, outcomes, k, e => DropDue(cfg, e))
              <==> (o.Fails? && DropDue(cfg, events[0])) || FailedBefore(events[1..], rest, k - 1, e => DropDue(cfg, e))
      ensures outcomes[k] == rest[k - 1] && events[k] == events[1..][k - 1]
    {
      FailedFirst(events, o, rest, k, e => SwitchDue(cfg, e));
      FailedFirst(events, o, rest, k, e => DropDue(cfg, e));
    }
  }

  lemma FailedFirst(events: seq<Event>, o: Outcome, rest: seq<Outcome>, k: nat, due: Event -> bool)
    requires 0 < k < |events| == |rest| + 1
    ensures FailedBefore(events, [o] + rest, k, due)
            <==> (o.Fails? && due(events[0])) || FailedBefore(events[1..], rest, k - 1, due)
  {
    var outcomes := [o] + rest;
    if j :| 0 <= j < k && outcomes[j].Fails? && due(events[j]) {
      if j > 0 { assert rest[j - 1] == outcomes[j] && events[1..][j - 1] == events[j]; }
    }
    if j :| 0 <= j < k - 1 && rest[j].Fails? && due(events[1..][j]) {
      assert rest[j] == outcomes[j + 1] && events[1..][j] == events[j + 1];
    }
    if o.Fails? && due(events[0]) { assert outcomes[0] == o; }
  }

  // A pass drops a gate if and only if some event fails that is due, and then exactly the first such event's gate;
  // likewise for switching a route.
  lemma DropsFirstDue(cfg: Config, events: seq<Event>, outcomes: seq<Outcome>, k: nat)
    requires FollowsRules(cfg, events, outcomes, false, false) && k < |events|
    ensures outcomes[k].Fails? && outcomes[k].dropped <==>
            && outcomes[k].Fails? && DropDue(cfg, events[k])
            && forall j | 0 <= j < k && outcomes[j].Fails? :: !DropDue(cfg, events[j])
    ensures outcomes[k].Fails? && outcomes[k].switched <==>
            && outcomes[k].Fails? && SwitchDue(cfg, events[k])
            && forall j | 0 <= j < k && outcomes[j].Fails? :: !SwitchDue(cfg, events[j])
  {
  }

  // ----- The steps of a pass -----------------------------------------------------------------------------------

  // The states lie along the steps.
  ghost predicate Leads(cfg: Config, s: State, steps: seq<Step>, s': State)
    requires cfg.Valid()
    decreases |steps|
  {
    if steps == [] then s' == s else exists m :: Next(cfg, s, steps[0], m) && Leads(cfg, m, steps[1..], s')
  }

  lemma {:induction false} LeadsAppend(cfg: Config, s: State, x: seq<Step>, m: State, y: seq<Step>, s': State)
    requires cfg.Valid() && Leads(cfg, s, x, m) && Leads(cfg, m, y, s')
    ensures Leads(cfg, s, x + y, s')
    decreases |x|
  {
    hide Next;
    if x == [] {
      assert x + y == y;
    } else {
      var n :| Next(cfg, s, x[0], n) && Leads(cfg, n, x[1..], m);
      LeadsAppend(cfg, n, x[1..], m, y, s');
      assert (x + y)[1..] == x[1..] + y;
    }
  }

  lemma OneLeads(cfg: Config, s: State, step: Step, s': State)
    requires cfg.Valid() && Next(cfg, s, step, s')
    ensures Leads(cfg, s, [step], s')
  {
    hide Next;
    assert [step][1..] == [];
    assert Leads(cfg, s', [step][1..], s');
  }

  // A failing event is retried, and perhaps switched.
  lemma FailSteps(cfg: Config, p: Pass)
    requires PassOK(cfg, p) && p.i < |p.s.lapsed|
    requires EventAt(cfg, p.s, p.i) && !Doable(cfg, p.s, p.i)
    ensures cfg.Valid() && Next(cfg, p.s, RetryStep(p.i), Wait(p.s, p.i))
    ensures if SwitchDue(cfg, p.s.lapsed[p.i]) && !p.switched then Next(cfg, Wait(p.s, p.i), SwitchStep(p.i), Fail(cfg, p))
            else Fail(cfg, p) == Wait(p.s, p.i)
  {
    WaitKeepsInv(cfg, p.s, p.i);
    var s1 := Wait(p.s, p.i);
    if SwitchDue(cfg, p.s.lapsed[p.i]) { SwitchRouteKeepsInv(cfg, s1, p.i); }
    hide Inv, CanDo, SwitchRoute;
  }

  // Then perhaps its gate is dropped.
  lemma DropSteps(cfg: Config, p: Pass)
    requires PassOK(cfg, p) && p.i < |p.s.lapsed|
    requires EventAt(cfg, p.s, p.i) && !Doable(cfg, p.s, p.i)
    ensures cfg.Valid()
    ensures if DropDue(cfg, p.s.lapsed[p.i]) && !p.dropped then Next(cfg, Fail(cfg, p), DropStep(p.i), HandleOne(cfg, p).s)
            else HandleOne(cfg, p).s == Fail(cfg, p)
  {
    InFlightActive(cfg, Fail(cfg, p), p.i);
    hide GateInv, MeshOK, ListsOK, CanDo, Fail, Drop;
  }

  lemma RoundLeads(cfg: Config, p: Pass)
    requires PassOK(cfg, p) && p.i < |p.s.lapsed|
    ensures cfg.Valid() && Leads(cfg, p.s, RoundSteps(OutcomeOf(cfg, p), p.i), HandleOne(cfg, p).s)
  {
    InFlightActive(cfg, p.s, p.i);
    var s, i, e, r := p.s, p.i, p.s.lapsed[p.i], HandleOne(cfg, p);
    if Doable(cfg, s, i) {
      assert r.s == Succeed(cfg, s, i);
      NextDo(cfg, s, i);
      hide Inv, Leads, Next;
      OneLeads(cfg, s, DoStep(i), r.s);
    } else {
      hide Inv, Leads, Next, Fail, HandleOne, Wait, CanDo, SwitchDue, DropDue;
      var s1, s2 := Wait(s, i), Fail(cfg, p);
      FailSteps(cfg, p);
      DropSteps(cfg, p);
      OneLeads(cfg, s, RetryStep(i), s1);
      var steps := [RetryStep(i)];
      if SwitchDue(cfg, e) && !p.switched {
        OneLeads(cfg, s1, SwitchStep(i), s2);
        LeadsAppend(cfg, s, steps, s1, [SwitchStep(i)], s2);
        steps := steps + [SwitchStep(i)];
      }
      if DropDue(cfg, e) && !p.dropped {
        OneLeads(cfg, s2, DropStep(i), r.s);
        LeadsAppend(cfg, s, steps, s2, [DropStep(i)], r.s);
        steps := steps + [DropStep(i)];
      }
      assert RoundSteps(OutcomeOf(cfg, p), i) == steps;
    }
  }

  // The steps that belong to the outcomes lead from the start of the pass to its end.
  lemma {:induction false} PassLeads(cfg: Config, p: Pass)
    requires PassOK(cfg, p)
    ensures cfg.Valid() && Leads(cfg, p.s, PassSteps(Outcomes(cfg, p), p.i), HandleAll(cfg, p).s)
    decreases |p.s.lapsed| - p.i
  {
    hide Inv, HandleOne, OutcomeOf, RoundSteps;
    assert cfg.Valid() by { ValidConfig(cfg, p.s); }
    if p.i < |p.s.lapsed| {
      var r := HandleOne(cfg, p);
      OneRound(cfg, p);
      RoundLeads(cfg, p);
      PassLeads(cfg, r);
      NextOutcomes(cfg, p);
      LeadsAppend(cfg, p.s, RoundSteps(OutcomeOf(cfg, p), p.i), r.s, PassSteps(Outcomes(cfg, r), r.i), HandleAll(cfg, r).s);
    }
  }

  lemma ValidConfig(cfg: Config, s: State)
    requires Inv(cfg, s)
    ensures cfg.Valid()
  {
  }

  lemma NextOutcomes(cfg: Config, p: Pass)
    requires PassOK(cfg, p) && p.i < |p.s.lapsed|
    ensures var r := HandleOne(cfg, p);
            PassSteps(Outcomes(cfg, p), p.i) == RoundSteps(OutcomeOf(cfg, p), p.i) + PassSteps(Outcomes(cfg, r), r.i)
  {
    hide Inv, HandleOne, OutcomeOf, RoundSteps;
    OneRound(cfg, p);
    assert Outcomes(cfg, p)[1..] == Outcomes(cfg, HandleOne(cfg, p));
  }

  lemma OutcomeIs(cfg: Config, p: Pass)
    requires PassOK(cfg, p) && p.i < |p.s.lapsed|
    ensures EventAt(cfg, p.s, p.i)
    ensures var e := p.s.lapsed[p.i];
            OutcomeOf(cfg, p) == if Doable(cfg, p.s, p.i) then Succeeds
                                 else Fails(SwitchDue(cfg, e) && !p.switched, DropDue(cfg, e) && !p.dropped)
  {
    InFlightActive(cfg, p.s, p.i);
  }

  lemma NoStepsLeft(cfg: Config, p: Pass)
    requires PassOK(cfg, p) && p.i == |p.s.lapsed|
    ensures PassSteps(Outcomes(cfg, p), p.i) == []
  {
  }
}
