/**
 Longest weighted paths in an acyclic graph, and the level-by-level worklist that computes them.
 Vertices are 0..|w|-1, w gives their weights; `rank` witnesses that the graph is acyclic.
 */
module CriticalPath {
  import opened Dag

  ghost predicate Ranked(es: Edges, w: seq<nat>, rank: seq<nat>) {
    && |rank| == |w|
    && forall e | e in es :: e.0 < |w| && e.1 < |w| && rank[e.0] < rank[e.1]
  }

  function Max(x: nat, y: nat): nat { if x <= y then y else x }

  // The largest weight of a path that ends in g.
  ghost function LongestTo(es: Edges, w: seq<nat>, rank: seq<nat>, g: nat): nat
    requires Ranked(es, w, rank) && g < |w|
    decreases rank[g], |w| + 1
  {
    w[g] + LongestBefore(es, w, rank, g, |w|)
  }

  // The largest LongestTo among the predecessors of g below i; 0 when there are none.
  ghost function LongestBefore(es: Edges, w: seq<nat>, rank: seq<nat>, g: nat, i: nat): nat
    requires Ranked(es, w, rank) && g < |w| && i <= |w|
    decreases rank[g], i
  {
    if i == 0 then 0
    else if (i - 1, g) in es then
      Max(LongestBefore(es, w, rank, g, i - 1), LongestTo(es, w, rank, i - 1))
    else LongestBefore(es, w, rank, g, i - 1)
  }

  // The largest LongestTo among the first i vertices.
  ghost function LongestOverall(es: Edges, w: seq<nat>, rank: seq<nat>, i: nat): nat
    requires Ranked(es, w, rank) && i <= |w|
  {
    if i == 0 then 0 else Max(LongestOverall(es, w, rank, i - 1), LongestTo(es, w, rank, i - 1))
  }

  ghost predicate InRange(w: seq<nat>, p: seq<nat>) { forall i | 0 <= i < |p| :: p[i] < |w| }

  ghost function Weight(w: seq<nat>, p: seq<nat>): nat
    requires InRange(w, p)
  {
    if p == [] then 0 else w[p[0]] + Weight(w, p[1..])
  }

  function Sum(w: seq<nat>): nat {
    if w == [] then 0 else w[|w| - 1] + Sum(w[..|w| - 1])
  }

  // A path over vertices of the graph.
  ghost predicate VertexPath(es: Edges, w: seq<nat>, p: seq<nat>) {
    IsPath(es, p) && InRange(w, p)
  }

  // ----- What LongestTo means ------------------------------------------------------------

  lemma {:induction false} BeforeBounds(es: Edges, w: seq<nat>, rank: seq<nat>, g: nat, i: nat, p: nat)
    requires Ranked(es, w, rank) && g < |w| && p < i <= |w| && (p, g) in es
    ensures LongestBefore(es, w, rank, g, i) >= LongestTo(es, w, rank, p)
    decreases i
  {
    if p < i - 1 { BeforeBounds(es, w, rank, g, i - 1, p); }
  }

  lemma {:induction false} BeforeAttained(es: Edges, w: seq<nat>, rank: seq<nat>, g: nat, i: nat) returns (p: nat)
    requires Ranked(es, w, rank) && g < |w| && i <= |w|
    requires LongestBefore(es, w, rank, g, i) > 0
    ensures (p, g) in es && p < |w| && LongestBefore(es, w, rank, g, i) == LongestTo(es, w, rank, p)
    decreases i
  {
    if (i - 1, g) in es && LongestTo(es, w, rank, i - 1) == LongestBefore(es, w, rank, g, i) {
      p := i - 1;
    } else {
      p := BeforeAttained(es, w, rank, g, i - 1);
    }
  }

  lemma EdgeExtends(es: Edges, w: seq<nat>, rank: seq<nat>, p: nat, g: nat)
    requires Ranked(es, w, rank) && (p, g) in es
    ensures LongestTo(es, w, rank, g) >= LongestTo(es, w, rank, p) + w[g]
  {
    BeforeBounds(es, w, rank, g, |w|, p);
  }

  // LongestTo(g) is the least value that dominates w[g] and every predecessor plus w[g].
  lemma LongestToIsLeast(es: Edges, w: seq<nat>, rank: seq<nat>, g: nat, v: nat)
    requires Ranked(es, w, rank) && g < |w| && v >= w[g]
    requires forall p | (p, g) in es :: v >= LongestTo(es, w, rank, p) + w[g]
    ensures v >= LongestTo(es, w, rank, g)
  {
    if LongestBefore(es, w, rank, g, |w|) > 0 {
      var p := BeforeAttained(es, w, rank, g, |w|);
    }
  }

  lemma {:induction false} WeightAppend(w: seq<nat>, p: seq<nat>, g: nat)
    requires g < |w| && InRange(w, p)
    ensures Weight(w, p + [g]) == Weight(w, p) + w[g]
  {
    if p == [] {
      assert [] + [g] == [g];
    } else {
      assert (p + [g])[1..] == p[1..] + [g];
      WeightAppend(w, p[1..], g);
    }
  }

  // No path that ends in g weighs more than LongestTo(g).
  lemma {:induction false} PathAtMostLongest(es: Edges, w: seq<nat>, rank: seq<nat>, p: seq<nat>)
    requires Ranked(es, w, rank) && VertexPath(es, w, p)
    ensures Weight(w, p) <= LongestTo(es, w, rank, p[|p| - 1])
    decreases |p|
  {
    var n := |p| - 1;
    var q := p[..n];
    assert p == q + [p[n]];
    WeightAppend(w, q, p[n]);
    if n > 0 {
      assert forall i | 0 <= i < |q| - 1 :: (q[i], q[i + 1]) == (p[i], p[i + 1]);
      PathAtMostLongest(es, w, rank, q);
      assert (p[n - 1], p[n]) in es;
      EdgeExtends(es, w, rank, p[n - 1], p[n]);
    }
  }

  // Some path that ends in g weighs exactly LongestTo(g).
  lemma {:induction false} LongestIsPath(es: Edges, w: seq<nat>, rank: seq<nat>, g: nat) returns (p: seq<nat>)
    requires Ranked(es, w, rank) && g < |w|
    ensures VertexPath(es, w, p) && p[|p| - 1] == g && Weight(w, p) == LongestTo(es, w, rank, g)
    decreases rank[g]
  {
    if LongestBefore(es, w, rank, g, |w|) == 0 {
      p := [g];
    } else {
      var h := BeforeAttained(es, w, rank, g, |w|);
      var q := LongestIsPath(es, w, rank, h);
      p := q + [g];
      WeightAppend(w, q, g);
      forall i | 0 <= i < |p| - 1 ensures (p[i], p[i + 1]) in es {
        if i < |q| - 1 { assert (q[i], q[i + 1]) in es; }
      }
    }
  }

  lemma {:induction false} OverallBounds(es: Edges, w: seq<nat>, rank: seq<nat>, i: nat, g: nat)
    requires Ranked(es, w, rank) && g < i <= |w|
    ensures LongestTo(es, w, rank, g) <= LongestOverall(es, w, rank, i)
    decreases i
  {
    if g < i - 1 { OverallBounds(es, w, rank, i - 1, g); }
  }

  lemma {:induction false} OverallIsLeast(es: Edges, w: seq<nat>, rank: seq<nat>, i: nat, v: nat)
    requires Ranked(es, w, rank) && i <= |w|
    requires forall g | 0 <= g < i :: LongestTo(es, w, rank, g) <= v
    ensures LongestOverall(es, w, rank, i) <= v
    decreases i
  {
    if i > 0 { OverallIsLeast(es, w, rank, i - 1, v); }
  }

  // The overall maximum is a bound on every path and is the weight of one, unless the graph is empty.
  lemma OverallIsHeaviestPath(es: Edges, w: seq<nat>, rank: seq<nat>)
    requires Ranked(es, w, rank)
    ensures forall p | VertexPath(es, w, p) :: Weight(w, p) <= LongestOverall(es, w, rank, |w|)
    ensures w != [] ==> exists p :: VertexPath(es, w, p) && Weight(w, p) == LongestOverall(es, w, rank, |w|)
  {
    forall p | VertexPath(es, w, p) ensures Weight(w, p) <= LongestOverall(es, w, rank, |w|) {
      PathAtMostLongest(es, w, rank, p);
      OverallBounds(es, w, rank, |w|, p[|p| - 1]);
    }
    if w != [] {
      var g := HeaviestEnd(es, w, rank, |w|);
      var p := LongestIsPath(es, w, rank, g);
    }
  }

  lemma {:induction false} HeaviestEnd(es: Edges, w: seq<nat>, rank: seq<nat>, i: nat) returns (g: nat)
    requires Ranked(es, w, rank) && 0 < i <= |w|
    ensures g < |w| && LongestTo(es, w, rank, g) == LongestOverall(es, w, rank, i)
    decreases i
  {
    if i == 1 || LongestTo(es, w, rank, i - 1) >= LongestOverall(es, w, rank, i - 1) {
      g := i - 1;
    } else {
      g := HeaviestEnd(es, w, rank, i - 1);
    }
  }

  // ----- Forward and reverse longest paths agree on the maximum -----------------------------

  ghost function Reversed(es: Edges): Edges { set e | e in es :: (e.1, e.0) }

  function Backwards(p: seq<nat>): (r: seq<nat>)
    ensures |r| == |p| && forall i | 0 <= i < |p| :: r[i] == p[|p| - 1 - i]
  {
    if p == [] then [] else Backwards(p[1..]) + [p[0]]
  }

  lemma {:induction false} WeightBackwards(w: seq<nat>, p: seq<nat>)
    requires InRange(w, p)
    ensures InRange(w, Backwards(p))
    ensures Weight(w, Backwards(p)) == Weight(w, p)
  {
    if p != [] {
      WeightBackwards(w, p[1..]);
      WeightAppend(w, Backwards(p[1..]), p[0]);
    }
  }

  lemma BackwardsIsPath(es: Edges, w: seq<nat>, p: seq<nat>)
    requires VertexPath(es, w, p)
    ensures VertexPath(Reversed(es), w, Backwards(p))
  {
  }

  // A gate's criticality is its longest path to a sink; the largest criticality is the critical path length.
  lemma CriticalityMaxIsCriticalPath(es: Edges, w: seq<nat>, rank: seq<nat>, rank': seq<nat>)
    requires Ranked(es, w, rank) && Ranked(Reversed(es), w, rank')
    ensures LongestOverall(Reversed(es), w, rank', |w|) == LongestOverall(es, w, rank, |w|)
  {
    HeavierReversed(es, w, rank, rank');
    assert Reversed(Reversed(es)) == es by {
      forall e | e in es ensures e in Reversed(Reversed(es)) { assert (e.1, e.0) in Reversed(es); }
    }
    HeavierReversed(Reversed(es), w, rank', rank);
  }

  lemma HeavierReversed(es: Edges, w: seq<nat>, rank: seq<nat>, rank': seq<nat>)
    requires Ranked(es, w, rank) && Ranked(Reversed(es), w, rank')
    ensures LongestOverall(es, w, rank, |w|) <= LongestOverall(Reversed(es), w, rank', |w|)
  {
    if w != [] {
      OverallIsHeaviestPath(es, w, rank);
      OverallIsHeaviestPath(Reversed(es), w, rank');
      var p :| VertexPath(es, w, p) && Weight(w, p) == LongestOverall(es, w, rank, |w|);
      BackwardsIsPath(es, w, p);
      WeightBackwards(w, p);
    }
  }

  // When edges only go to later vertices, no path outweighs running every vertex one after the other.
  lemma {:induction false} LongestAtMostSerial(es: Edges, w: seq<nat>, rank: seq<nat>, g: nat)
    requires Ranked(es, w, rank) && g < |w| && forall e | e in es :: e.0 < e.1
    ensures LongestTo(es, w, rank, g) <= Sum(w[..g + 1])
    decreases g
  {
    assert w[..g + 1][..g] == w[..g];
    if LongestBefore(es, w, rank, g, |w|) > 0 {
      var p := BeforeAttained(es, w, rank, g, |w|);
      LongestAtMostSerial(es, w, rank, p);
      SumMonotone(w, p + 1, g);
    }
  }

  lemma {:induction false} SumMonotone(w: seq<nat>, i: nat, j: nat)
    requires i <= j <= |w|
    ensures Sum(w[..i]) <= Sum(w[..j])
    decreases j
  {
    if i < j {
      assert w[..j][..j - 1] == w[..j - 1];
      SumMonotone(w, i, j - 1);
    }
  }

  lemma CriticalAtMostSerial(es: Edges, w: seq<nat>, rank: seq<nat>)
    requires Ranked(es, w, rank) && forall e | e in es :: e.0 < e.1
    ensures LongestOverall(es, w, rank, |w|) <= Sum(w)
  {
    forall g | 0 <= g < |w| ensures LongestTo(es, w, rank, g) <= Sum(w) {
      LongestAtMostSerial(es, w, rank, g);
      SumMonotone(w, g + 1, |w|);
      assert w[..|w|] == w;
    }
    OverallIsLeast(es, w, rank, |w|, Sum(w));
  }

  // ----- The worklist ---------------------------------------------------------------------

  function InEdges(es: Edges, h: nat): Edges { set e | e in es && e.1 == h }

  function InDegree(es: Edges, h: nat): nat { |InEdges(es, h)| }

  function OutEdges(es: Edges, g: nat): Edges { set e | e in es && e.0 == g }

  lemma InDegreeZero(es: Edges, h: nat)
    ensures InDegree(es, h) == 0 <==> forall e | e in es :: e.1 != h
  {
    if InDegree(es, h) == 0 {
      forall e | e in es ensures e.1 != h { assert e !in InEdges(es, h); }
    } else {
      var e :| e in InEdges(es, h);
    }
  }

  lemma InDegreeOne(es: Edges, g: nat, h: nat)
    requires (g, h) in es
    ensures InDegree(es, h) == 1 <==> forall e | e in es && e.1 == h :: e.0 == g
  {
    var s := InEdges(es, h);
    assert (g, h) in s;
    if forall e | e in es && e.1 == h :: e.0 == g {
      assert s == {(g, h)};
    } else {
      var e :| e in es && e.1 == h && e.0 != g;
      assert {(g, h), e} <= s;
      CardinalityMonotone({(g, h), e}, s);
    }
  }

  lemma CardinalityMonotone<T>(a: set<T>, b: set<T>)
    requires a <= b
    ensures |a| <= |b|
  {
    assert b == a + (b - a);
  }

  // After the vertices in `seen` were taken off the graph: what remains of it, and what the table holds.
  ghost predicate Progress(es0: Edges, w: seq<nat>, rank: seq<nat>, seen: set<nat>, es: Edges,
                           cps: map<nat, nat>, best: nat)
    requires Ranked(es0, w, rank)
  {
    && (forall g | g in seen :: g < |w|)
    && es == (set e | e in es0 && e.0 !in seen)
    && (forall e | e in es :: e.1 !in seen)
    && Sound(es0, w, rank, cps, best)
    && (forall e | e in es0 && e.0 in seen :: Covers(es0, w, rank, cps, e))
  }

  // No entry of the table exceeds the longest path to its vertex, and `best` is the largest entry.
  ghost predicate Sound(es0: Edges, w: seq<nat>, rank: seq<nat>, cps: map<nat, nat>, best: nat)
    requires Ranked(es0, w, rank)
  {
    && (forall h | h in cps :: h < |w| && w[h] <= cps[h] <= LongestTo(es0, w, rank, h) && cps[h] <= best)
    && (forall h: nat | h < |w| && (forall e | e in es0 :: e.1 != h) :: h in cps)
    && best <= LongestOverall(es0, w, rank, |w|)
  }

  ghost predicate Covers(es0: Edges, w: seq<nat>, rank: seq<nat>, cps: map<nat, nat>, e: (nat, nat))
    requires Ranked(es0, w, rank) && e in es0
  {
    e.1 in cps && cps[e.1] >= LongestTo(es0, w, rank, e.0) + w[e.1]
  }

  ghost predicate IsVertex(w: seq<nat>, g: nat) { g < |w| }

  // Vertices not yet taken that nothing remaining leads to.
  ghost predicate IsSource(w: seq<nat>, seen: set<nat>, es: Edges, h: nat) {
    h < |w| && h !in seen && forall e | e in es :: e.1 != h
  }

  ghost predicate ListsSources(w: seq<nat>, seen: set<nat>, es: Edges, list: seq<nat>) {
    && (forall i, j | 0 <= i < j < |list| :: list[i] != list[j])
    && (forall h: nat :: h in list <==> IsSource(w, seen, es, h))
  }

  // A source's table entry is final.
  lemma SourceIsExact(es0: Edges, w: seq<nat>, rank: seq<nat>, seen: set<nat>, es: Edges,
                      cps: map<nat, nat>, best: nat, h: nat)
    requires Ranked(es0, w, rank) && Progress(es0, w, rank, seen, es, cps, best)
    requires h < |w| && forall e | e in es :: e.1 != h
    ensures h in cps && cps[h] == LongestTo(es0, w, rank, h)
  {
    forall e | e in es0 && e.1 == h ensures Covers(es0, w, rank, cps, e) { assert e !in es; }
    if exists e :: e in es0 && e.1 == h {
      var e :| e in es0 && e.1 == h;
      assert Covers(es0, w, rank, cps, e);
    }
    forall p | (p, h) in es0 ensures cps[h] >= LongestTo(es0, w, rank, p) + w[h] {
      assert Covers(es0, w, rank, cps, (p, h));
    }
    LongestToIsLeast(es0, w, rank, h, cps[h]);
  }

  // While edges remain there is a source, because the graph is acyclic.
  lemma {:induction false} SourceExists(es0: Edges, w: seq<nat>, rank: seq<nat>, seen: set<nat>, es: Edges, a: nat)
    returns (h: nat)
    requires Ranked(es0, w, rank) && es == (set e | e in es0 && e.0 !in seen)
    requires a < |w| && a !in seen
    ensures IsSource(w, seen, es, h)
    decreases rank[a]
  {
    if e :| e in es && e.1 == a {
      h := SourceExists(es0, w, rank, seen, es, e.0);
    } else {
      h := a;
    }
  }

  ghost predicate Raised(cps: map<nat, nat>, cps': map<nat, nat>) {
    forall h | h in cps :: h in cps' && cps[h] <= cps'[h]
  }

  lemma CoversRaised(es0: Edges, w: seq<nat>, rank: seq<nat>, cps: map<nat, nat>, cps': map<nat, nat>, e: (nat, nat))
    requires Ranked(es0, w, rank) && e in es0 && Covers(es0, w, rank, cps, e) && Raised(cps, cps')
    ensures Covers(es0, w, rank, cps', e)
  {
  }

  // The table update for one successor h of the vertex g.
  method RaiseEntry(es0: Edges, w: seq<nat>, ghost rank: seq<nat>, cps: map<nat, nat>, best: nat, g: nat, h: nat)
    returns (cps': map<nat, nat>, best': nat)
    requires Ranked(es0, w, rank) && Sound(es0, w, rank, cps, best) && (g, h) in es0
    requires g in cps && cps[g] == LongestTo(es0, w, rank, g)
    ensures Sound(es0, w, rank, cps', best') && Raised(cps, cps') && Covers(es0, w, rank, cps', (g, h))
    ensures g in cps' && cps'[g] == cps[g]
  {
    EdgeExtends(es0, w, rank, g, h);
    OverallBounds(es0, w, rank, |w|, h);
    var via := cps[g] + w[h];
    cps' := cps[h := if h in cps then Max(cps[h], via) else via];
    best' := if cps'[h] > best then cps'[h] else best;
  }

  // Take vertex g off the graph: raise the entries of its successors and collect those that become sources.
  method Relax(es0: Edges, w: seq<nat>, ghost rank: seq<nat>, ghost seen: set<nat>, es: Edges,
               cps: map<nat, nat>, best: nat, g: nat)
    returns (es': Edges, cps': map<nat, nat>, best': nat, newly: seq<nat>)
    requires Ranked(es0, w, rank) && Progress(es0, w, rank, seen, es, cps, best) && IsSource(w, seen, es, g)
    ensures Progress(es0, w, rank, seen + {g}, es', cps', best')
    ensures es' == es - OutEdges(es, g)
    ensures forall i, j | 0 <= i < j < |newly| :: newly[i] != newly[j]
    ensures forall h: nat :: h in newly <==> (g, h) in es && forall e | e in es' :: e.1 != h
  {
    hide LongestTo, LongestOverall, Sound, Raised;
    SourceIsExact(es0, w, rank, seen, es, cps, best, g);
    cps', best', newly := cps, best, [];
    RaisedSelf(cps);
    var h := 0;
    while h < |w|
      invariant h <= |w|
      invariant g in cps' && cps'[g] == LongestTo(es0, w, rank, g)
      invariant Sound(es0, w, rank, cps', best') && Raised(cps, cps')
      invariant forall e | e in es && e.0 == g && e.1 < h :: Covers(es0, w, rank, cps', e)
      invariant forall i, j | 0 <= i < j < |newly| :: newly[i] != newly[j]
      invariant forall k: nat :: k in newly <==> k < h && (g, k) in es && InDegree(es, k) == 1
    {
      if (g, h) in es {
        ghost var before := cps';
        cps', best' := RaiseEntry(es0, w, rank, cps', best', g, h);
        RaisedTransitive(cps, before, cps');
        forall e | e in es && e.0 == g && e.1 < h ensures Covers(es0, w, rank, cps', e) {
          CoversRaised(es0, w, rank, before, cps', e);
        }
        if InDegree(es, h) == 1 { newly := newly + [h]; }
      }
      h := h + 1;
    }
    es' := es - OutEdges(es, g);
    forall k: nat ensures k in newly <==> (g, k) in es && forall e | e in es' :: e.1 != k {
      NewSource(es0, w, rank, es, g, k);
    }
    forall e | e in es0 && e.0 in seen + {g} ensures Covers(es0, w, rank, cps', e) {
      if e.0 in seen { CoversRaised(es0, w, rank, cps, cps', e); }
    }
    assert InDegree(es', g) == 0 && OutEdges(es', g) == {} by { InDegreeZero(es', g); }
  }

  lemma RaisedSelf(cps: map<nat, nat>)
    ensures Raised(cps, cps)
  {
  }

  lemma RaisedTransitive(x: map<nat, nat>, y: map<nat, nat>, z: map<nat, nat>)
    requires Raised(x, y) && Raised(y, z)
    ensures Raised(x, z)
  {
  }

  // A successor of g becomes a source exactly when g held its last incoming edge.
  lemma NewSource(es0: Edges, w: seq<nat>, rank: seq<nat>, es: Edges, g: nat, k: nat)
    requires Ranked(es0, w, rank) && es <= es0
    ensures k < |w| && (g, k) in es && InDegree(es, k) == 1
            <==> (g, k) in es && forall e | e in es - OutEdges(es, g) :: e.1 != k
  {
    if (g, k) in es {
      InDegreeOne(es, g, k);
      assert (g, k) in es0;
    }
  }

  // The level-by-level worklist: the table ends with the longest path to every vertex, and the
  // running maximum with the weight of the heaviest path of the graph.
  method LongestPaths(es0: Edges, w: seq<nat>, ghost rank: seq<nat>) returns (cps: map<nat, nat>, best: nat)
    requires Ranked(es0, w, rank)
    ensures forall g: nat :: g in cps <==> g < |w|
    ensures forall g | g in cps :: cps[g] == LongestTo(es0, w, rank, g)
    ensures best == LongestOverall(es0, w, rank, |w|)
  {
    var es := es0;
    ghost var seen: set<nat> := {};
    var current: seq<nat>;
    cps, best, current := StartingLevel(es0, w, rank);
    ghost var all := set g: nat | g < |w| && IsVertex(w, g);
    while es != {} || current != []
      invariant Progress(es0, w, rank, seen, es, cps, best)
      invariant ListsSources(w, seen, es, current)
      decreases all - seen
    {
      assert current != [] by {
        if es != {} {
          var e :| e in es;
          var h := SourceExists(es0, w, rank, seen, es, e.0);
          assert h in current;
        }
      }
      ghost var seen0 := seen;
      es, cps, best, current, seen := Level(es0, w, rank, seen, es, cps, best, current);
      assert forall g | g in seen0 :: g in all;
      assert seen > seen0;
    }
    forall g: nat | g < |w| ensures g in cps && cps[g] == LongestTo(es0, w, rank, g) {
      SourceIsExact(es0, w, rank, seen, es, cps, best, g);
    }
    OverallIsLeast(es0, w, rank, |w|, best);
  }

  method StartingLevel(es0: Edges, w: seq<nat>, ghost rank: seq<nat>)
    returns (cps: map<nat, nat>, best: nat, current: seq<nat>)
    requires Ranked(es0, w, rank)
    ensures Progress(es0, w, rank, {}, es0, cps, best)
    ensures ListsSources(w, {}, es0, current)
  {
    cps, best, current := map[], 0, [];
    var g := 0;
    while g < |w|
      invariant g <= |w|
      invariant forall i, j | 0 <= i < j < |current| :: current[i] != current[j]
      invariant forall h: nat :: h in current <==> h < g && InDegree(es0, h) == 0
      invariant forall h: nat :: h in cps <==> h < g && InDegree(es0, h) == 0
      invariant forall h | h in cps :: w[h] == cps[h] <= LongestTo(es0, w, rank, h) && cps[h] <= best
      invariant best <= LongestOverall(es0, w, rank, |w|)
    {
      if InDegree(es0, g) == 0 {
        current := current + [g];
        cps := cps[g := w[g]];
        OverallBounds(es0, w, rank, |w|, g);
        if cps[g] > best { best := cps[g]; }
      }
      g := g + 1;
    }
    forall h: nat { InDegreeZero(es0, h); }
  }

  // One pass over the current level.
  method Level(es0: Edges, w: seq<nat>, ghost rank: seq<nat>, ghost seen0: set<nat>, es0': Edges,
               cps0: map<nat, nat>, best0: nat, current: seq<nat>)
    returns (es: Edges, cps: map<nat, nat>, best: nat, next: seq<nat>, ghost seen: set<nat>)
    requires Ranked(es0, w, rank) && Progress(es0, w, rank, seen0, es0', cps0, best0)
    requires ListsSources(w, seen0, es0', current) && current != []
    ensures Progress(es0, w, rank, seen, es, cps, best)
    ensures ListsSources(w, seen, es, next)
    ensures seen0 < seen
  {
    hide LongestTo, LongestOverall, Sound, Covers, Ranked;
    es, cps, best, next, seen := es0', cps0, best0, [], seen0;
    var i := 0;
    while i < |current|
      invariant i <= |current|
      invariant Progress(es0, w, rank, seen, es, cps, best)
      invariant ListsSources(w, seen, es, current[i..] + next)
      invariant seen0 <= seen && (i > 0 ==> current[0] in seen)
    {
      var g := current[i];
      ghost var list := current[i..] + next;
      assert list[0] == g;
      assert g in list;
      ghost var seen1, es1 := seen, es;
      var newly;
      es, cps, best, newly := Relax(es0, w, rank, seen, es, cps, best, g);
      seen := seen + {g};
      next := next + newly;
      SourcesAfterTaking(es0, w, rank, seen1, es1, g, es, list, newly);
      assert current[i + 1..] + next == list[1..] + newly;
      i := i + 1;
    }
    assert current[0] !in seen0 by { assert current[0] in current; }
    assert current[i..] + next == next;
  }

  lemma SourcesAfterTaking(es0: Edges, w: seq<nat>, rank: seq<nat>, seen: set<nat>, es: Edges, g: nat, es': Edges,
                           list: seq<nat>, newly: seq<nat>)
    requires Ranked(es0, w, rank) && es == (set e | e in es0 && e.0 !in seen)
    requires forall e | e in es :: e.1 !in seen
    requires ListsSources(w, seen, es, list) && list != [] && list[0] == g
    requires es' == es - OutEdges(es, g)
    requires forall i, j | 0 <= i < j < |newly| :: newly[i] != newly[j]
    requires forall h: nat :: h in newly <==> (g, h) in es && forall e | e in es' :: e.1 != h
    ensures ListsSources(w, seen + {g}, es', list[1..] + newly)
  {
    var r := list[1..] + newly;
    forall h: nat ensures h in r <==> IsSource(w, seen + {g}, es', h) {
      assert h in list <==> h == g || h in list[1..] by { assert list == [g] + list[1..]; }
      if IsSource(w, seen + {g}, es', h) && !IsSource(w, seen, es, h) {
        var e :| e in es && e.1 == h;
        assert e.0 == g;
      }
      if h in newly { assert (g, h) in es0; }
    }
    forall i, j | 0 <= i < j < |r| ensures r[i] != r[j] {
      if i < |list| - 1 <= j {
        assert list[i + 1] in list;
        assert r[j] == newly[j - |list| + 1];
        assert r[j] in newly;
      }
    }
  }
}
