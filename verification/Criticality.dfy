/**
 The three completion times the simulator reports before it runs: serial, critical and per-gate criticality.
 */
module Criticality {
  import opened Events
  import opened Dag
  import opened CriticalPath
  import opened Scheduler
  import opened SchedulerInvariant
  import opened SchedulerRuns

  // Positions from the end witness that the reversed graph is acyclic.
  function ReversePositions(cfg: Config): seq<nat> { seq(|cfg.gates|, i requires 0 <= i < |cfg.gates| => |cfg.gates| - 1 - i) }

  lemma ReversePositionsRank(cfg: Config)
    ensures Ranked(Reversed(NextUseEdges(cfg.gates)), Latencies(cfg), ReversePositions(cfg))
  {
  }

  // The length of the critical path of the dependency graph.
  method CriticalClk(cfg: Config, edges: Edges) returns (clk: nat)
    requires edges == NextUseEdges(cfg.gates)
    ensures Ranked(edges, Latencies(cfg), Positions(cfg))
    ensures clk == LongestOverall(edges, Latencies(cfg), Positions(cfg), |cfg.gates|)
    ensures forall p | VertexPath(edges, Latencies(cfg), p) :: Weight(Latencies(cfg), p) <= clk
    ensures cfg.gates != [] ==> exists p :: VertexPath(edges, Latencies(cfg), p) && Weight(Latencies(cfg), p) == clk
  {
    hide NextUseEdges, LongestOverall, LongestTo;
    PositionsRank(cfg);
    var cps;
    cps, clk := LongestPaths(edges, Latencies(cfg), Positions(cfg));
    OverallIsHeaviestPath(edges, Latencies(cfg), Positions(cfg));
  }

  // The criticality of every gate: the heaviest path from it to a gate nothing depends on.
  method AssignCriticality(cfg: Config, edges: Edges) returns (crit: map<nat, nat>)
    requires edges == NextUseEdges(cfg.gates)
    ensures forall g: nat :: g in crit <==> g < |cfg.gates|
    ensures forall g, p | g in crit && VertexPath(edges, Latencies(cfg), p) && p[0] == g ::
              Weight(Latencies(cfg), p) <= crit[g]
    ensures forall g | g in crit ::
              exists p :: VertexPath(edges, Latencies(cfg), p) && p[0] == g && Weight(Latencies(cfg), p) == crit[g]
  {
    hide NextUseEdges, LongestOverall, LongestTo;
    ReversePositionsRank(cfg);
    var w := Latencies(cfg);
    ghost var rank := ReversePositions(cfg);
    var back: Edges := set e | e in edges :: (e.1, e.0);
    assert back == Reversed(edges);
    var best;
    crit, best := LongestPaths(back, w, rank);
    forall g, p | g in crit && VertexPath(edges, w, p) && p[0] == g ensures Weight(w, p) <= crit[g] {
      BackwardsIsPath(edges, w, p);
      WeightBackwards(w, p);
      PathAtMostLongest(back, w, rank, Backwards(p));
    }
    forall g | g in crit ensures exists p :: VertexPath(edges, w, p) && p[0] == g && Weight(w, p) == crit[g] {
      var q := LongestIsPath(back, w, rank, g);
      BackwardsIsPath(back, w, q);
      WeightBackwards(w, q);
      assert Reversed(back) == edges by { ReversedTwice(edges); }
    }
  }

  lemma ReversedTwice(es: Edges)
    ensures Reversed(Reversed(es)) == es
  {
  }

  // The largest criticality is the critical path length, and that is at most the serial completion time,
  // the sum of all latencies.
  lemma CriticalTimesAgree(cfg: Config)
    ensures Ranked(NextUseEdges(cfg.gates), Latencies(cfg), Positions(cfg))
    ensures Ranked(Reversed(NextUseEdges(cfg.gates)), Latencies(cfg), ReversePositions(cfg))
    ensures LongestOverall(Reversed(NextUseEdges(cfg.gates)), Latencies(cfg), ReversePositions(cfg), |cfg.gates|)
            == LongestOverall(NextUseEdges(cfg.gates), Latencies(cfg), Positions(cfg), |cfg.gates|)
            <= Sum(Latencies(cfg))
  {
    hide NextUseEdges, LongestOverall;
    PositionsRank(cfg);
    ReversePositionsRank(cfg);
    CriticalityMaxIsCriticalPath(NextUseEdges(cfg.gates), Latencies(cfg), Positions(cfg), ReversePositions(cfg));
    EdgesAscend(cfg.gates);
    CriticalAtMostSerial(NextUseEdges(cfg.gates), Latencies(cfg), Positions(cfg));
  }
}
