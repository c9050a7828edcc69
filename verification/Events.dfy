/**
 Gates and the open/close event programs they run on the mesh.
 */
module Events {
  import opened Mesh
  import opened Routes

  datatype Op = CNOT | H

  // A gate of the list to be simulated: its number (used as owner mark on the mesh), operation and tiles.
  datatype Gate = Gate(number: nat, op: Op, qid: seq<nat>)

  datatype Kind = Cnot1 | Cnot2 | Cnot3 | Cnot4 | Cnot5 | Cnot6 | Cnot7 | H1 | H2

  // timer: -1 predecessor not finished, 0 lapsed, above 0 counting down.
  datatype Event = Event(braid: Braid, open: bool, gate: nat, kind: Kind, timer: int, attempts: nat)

  // The mesh, the gate list, the code distance and the two retry thresholds.
  datatype Config = Config(grid: Grid, gates: seq<Gate>, distance: nat, yxThreshold: nat, dropThreshold: nat) {
    ghost predicate Valid() {
      && grid.Valid()
      && (forall g | 0 <= g < |gates| :: ValidGate(gates[g]))
      && (forall g, h | 0 <= g < h < |gates| :: gates[g].number != gates[h].number)
    }

    ghost predicate ValidGate(g: Gate) {
      && g.number > 0
      && |g.qid| == (match g.op case CNOT => 2 case H => 1)
      && (forall q | q in g.qid :: grid.IsQubit(q))
    }
  }

  // The event_timers table.
  function TimerOf(distance: nat, k: Kind): int {
    match k
    case Cnot5 => distance - 1
    case Cnot7 => distance - 1
    case H2 => 8 + distance
    case _ => 1
  }

  function Last<T(0)>(s: seq<T>): T
    requires s != []
  {
    s[|s| - 1]
  }

  function DropLast<T>(s: seq<T>): seq<T>
    requires s != []
  {
    s[..|s| - 1]
  }

  // The nodes and links of a braid as one set of mesh resources.
  function Res(b: Braid): set<Resource> {
    (set n | n in b.nodes :: NodeRes(n)) + (set l | l in b.links :: LinkRes(l))
  }

  function Kinds(op: Op): seq<Kind> {
    match op
    case CNOT => [Cnot1, Cnot2, Cnot3, Cnot4, Cnot5, Cnot6, Cnot7]
    case H => [H1, H2]
  }

  // cnot1, cnot3, cnot5 and h1 open their braid; the others close it.
  predicate Opens(k: Kind) { k in {Cnot1, Cnot3, Cnot5, H1} }

  // ----- The seven braids of a CNOT --------------------------------------------------

  // Routes are never empty, so their ends can be taken.
  ghost predicate Routable(g: Grid, src: nat, dest: nat) {
    g.Valid() && g.IsQubit(src) && g.IsQubit(dest)
  }

  // The last node of route 1: it is pushed on route 2 and released with it.
  function HeldNode(g: Grid, src: nat, dest: nat): nat
    requires Routable(g, src, dest)
  {
    CnotRoutesInMesh(g, src, dest, false);
    Last(CnotRoutes(g, src, dest, Ancillas(g, src, dest).0, false).0.nodes)
  }

  // The last link of route 2: it stays open until the final event.
  function HeldLink(g: Grid, src: nat, dest: nat): Link
    requires Routable(g, src, dest)
  {
    CnotRoutesInMesh(g, src, dest, false);
    Last(CnotRoutes(g, src, dest, Ancillas(g, src, dest).0, false).1.links)
  }

  // The braids the events of a CNOT are created with.
  function CnotBraids(g: Grid, src: nat, dest: nat): (bs: seq<Braid>)
    requires Routable(g, src, dest)
    ensures |bs| == 7
  {
    CnotRoutesInMesh(g, src, dest, false);
    var (a1, a2) := Ancillas(g, src, dest);
    var (r1, r2) := CnotRoutes(g, src, dest, a1, false);
    var anc := Braid([a2, a1], [Edge(a1, a2)]);
    var route1 := Braid(r1.nodes + [a1], r1.links);
    var route2 := Braid(r2.nodes + [Last(r1.nodes)], r2.links);
    [anc, anc, route1, route1, route2,
     Braid(route2.nodes, DropLast(r2.links)),
     Braid(anc.nodes, [Last(r2.links)])]
  }

  // Rerouting a blocked cnot3 or cnot5: the new braid of that event and of the close event that
  // follows it in the queue, whose current braid is `next`.
  function Reroute(g: Grid, src: nat, dest: nat, k: Kind, next: Braid): (r: (Braid, Braid))
    requires Routable(g, src, dest) && (k == Cnot3 || k == Cnot5) && next.nodes != []
  {
    CnotRoutesInMesh(g, src, dest, true);
    var a1 := Ancillas(g, src, dest).0;
    var (r1, r2) := CnotRoutes(g, src, dest, a1, true);
    if k == Cnot3 then (r1, Braid(DropLast(r1.nodes) + [a1], r1.links))
    else (Braid(DropLast(r2.nodes), r2.links),
          Braid(DropLast(r2.nodes) + [Last(next.nodes)], DropLast(r2.links)))
  }

  // The braids of a CNOT after any reroutes: v3 tells whether cnot3/cnot4 were rerouted, v5 whether
  // cnot5/cnot6 were.  Tiles that share a side are never rerouted.
  function CnotPlan(g: Grid, src: nat, dest: nat, v3: bool, v5: bool): (bs: seq<Braid>)
    requires Routable(g, src, dest)
    ensures |bs| == 7
  {
    CnotRoutesInMesh(g, src, dest, false);
    var bs := CnotBraids(g, src, dest);
    var swap3 := v3 && !g.AreAdjacent(src, dest);
    var swap5 := v5 && !g.AreAdjacent(src, dest);
    var p3 := if swap3 then Reroute(g, src, dest, Cnot3, bs[3]) else (bs[2], bs[3]);
    var p5 := if swap5 then Reroute(g, src, dest, Cnot5, bs[5]) else (bs[4], bs[5]);
    [bs[0], bs[1], p3.0, p3.1, p5.0, p5.1, bs[6]]
  }

  // cnot3/cnot4: the close releases all that the open takes, but for the held node n.
  ghost predicate FirstPair(g: Grid, o: Braid, c: Braid, n: nat) {
    InMesh(g, o) && InMesh(g, c) && Res(o) <= Res(c) + {NodeRes(n)}
  }

  // cnot5/cnot6: the close releases all that the open takes, but for the held link l, and also the held node n.
  ghost predicate SecondPair(g: Grid, o: Braid, c: Braid, n: nat, l: Link) {
    && InMesh(g, o) && InMesh(g, c) && Res(o) <= Res(c) + {LinkRes(l)}
    && NodeRes(n) in Res(c) && c.nodes != [] && Last(c.nodes) == n
  }

  // What makes the seven braids a closed protocol: whatever an open event takes, later close events release.
  ghost predicate ClosedProtocol(g: Grid, bs: seq<Braid>, n: nat, l: Link) {
    && |bs| == 7
    && InMesh(g, bs[0]) && InMesh(g, bs[1]) && InMesh(g, bs[6])
    && Res(bs[0]) <= Res(bs[1])
    && FirstPair(g, bs[2], bs[3], n)
    && SecondPair(g, bs[4], bs[5], n, l)
    && LinkRes(l) in Res(bs[6])
  }

  // Both routing orders end route 1 in the same node and route 2 in the same link.
  lemma RouteEndsAgree(g: Grid, src: nat, dest: nat)
    requires Routable(g, src, dest)
    ensures var (r1, r2) := CnotRoutes(g, src, dest, Ancillas(g, src, dest).0, true);
            r1.nodes != [] && r2.links != [] && r2.nodes != []
            && Last(r1.nodes) == HeldNode(g, src, dest) && Last(r2.links) == HeldLink(g, src, dest)
  {
    CnotRoutesInMesh(g, src, dest, false);
    CnotRoutesInMesh(g, src, dest, true);
  }

  lemma LastAndRest<T(0)>(s: seq<T>)
    requires s != []
    ensures forall x :: x in s <==> x in DropLast(s) || x == Last(s)
  {
  }

  lemma PairsOfRoutes(g: Grid, r1: Braid, r2: Braid, a1: nat)
    requires InMesh(g, r1) && InMesh(g, r2) && g.IsNode(a1)
    requires r1.nodes != [] && r2.nodes != [] && r2.links != []
    ensures var n, l := Last(r1.nodes), Last(r2.links);
            && FirstPair(g, Braid(r1.nodes + [a1], r1.links), Braid(r1.nodes + [a1], r1.links), n)
            && FirstPair(g, r1, Braid(DropLast(r1.nodes) + [a1], r1.links), n)
            && SecondPair(g, Braid(r2.nodes + [n], r2.links), Braid(r2.nodes + [n], DropLast(r2.links)), n, l)
            && SecondPair(g, Braid(DropLast(r2.nodes), r2.links),
                          Braid(DropLast(r2.nodes) + [n], DropLast(r2.links)), n, l)
  {
  }

  lemma BaseProtocol(g: Grid, src: nat, dest: nat)
    requires Routable(g, src, dest)
    ensures ClosedProtocol(g, CnotBraids(g, src, dest), HeldNode(g, src, dest), HeldLink(g, src, dest))
  {
    hide CnotRoutes, Ancillas, FirstPair, SecondPair, Grid.IsNode, Grid.IsLink;
    CnotRoutesInMesh(g, src, dest, false);
    AncillasAreCorners(g, src, dest);
    var (r1, r2) := CnotRoutes(g, src, dest, Ancillas(g, src, dest).0, false);
    PairsOfRoutes(g, r1, r2, Ancillas(g, src, dest).0);
    LastAndRest(r2.links);
    assert Last(r2.links) in CnotBraids(g, src, dest)[6].links;
  }

  // The rerouted cnot3/cnot4 and cnot5/cnot6 pairs, whatever close event with the held node last they replace.
  lemma ReroutedPairs(g: Grid, src: nat, dest: nat, next: Braid)
    requires Routable(g, src, dest) && next.nodes != []
    ensures var r3 := Reroute(g, src, dest, Cnot3, next);
            FirstPair(g, r3.0, r3.1, HeldNode(g, src, dest))
    ensures Last(next.nodes) == HeldNode(g, src, dest) ==>
              var r5 := Reroute(g, src, dest, Cnot5, next);
              SecondPair(g, r5.0, r5.1, HeldNode(g, src, dest), HeldLink(g, src, dest))
  {
    RouteEndsAgree(g, src, dest);
    CnotRoutesInMesh(g, src, dest, true);
    AncillasAreCorners(g, src, dest);
    var (r1, r2) := CnotRoutes(g, src, dest, Ancillas(g, src, dest).0, true);
    PairsOfRoutes(g, r1, r2, Ancillas(g, src, dest).0);
  }

  // Every combination of reroutes leaves a closed protocol with the same held node and link.
  lemma PlanIsClosedProtocol(g: Grid, src: nat, dest: nat, v3: bool, v5: bool)
    requires Routable(g, src, dest)
    ensures ClosedProtocol(g, CnotPlan(g, src, dest, v3, v5), HeldNode(g, src, dest), HeldLink(g, src, dest))
  {
    BaseProtocol(g, src, dest);
    var bs := CnotBraids(g, src, dest);
    ReroutedPairs(g, src, dest, bs[3]);
    ReroutedPairs(g, src, dest, bs[5]);
  }

  // Rerouting again, or after the other pair was rerouted, gives the same braids.
  lemma RerouteOfPlan(g: Grid, src: nat, dest: nat, v3: bool, v5: bool)
    requires Routable(g, src, dest) && !g.AreAdjacent(src, dest)
    ensures var p := CnotPlan(g, src, dest, v3, v5);
            && p[3].nodes != [] && p[5].nodes != []
            && Reroute(g, src, dest, Cnot3, p[3]) == (CnotPlan(g, src, dest, true, v5)[2], CnotPlan(g, src, dest, true, v5)[3])
            && Reroute(g, src, dest, Cnot5, p[5]) == (CnotPlan(g, src, dest, v3, true)[4], CnotPlan(g, src, dest, v3, true)[5])
  {
    BaseProtocol(g, src, dest);
    PlanIsClosedProtocol(g, src, dest, v3, v5);
  }

  lemma CornerRows(g: Grid, q: nat)
    requires g.Valid() && g.IsQubit(q)
    ensures g.RowOf(g.TopLeft(q)) == g.RowOf(g.TopRight(q)) == g.TileRow(q)
    ensures g.RowOf(g.BottomLeft(q)) == g.RowOf(g.BottomRight(q)) == g.TileRow(q) + 1
  {
    TileCorners(g, q);
    var r, c := g.TileRow(q), g.TileCol(q);
    NodeCoordinates(g, r, c);
    NodeCoordinates(g, r, c + 1);
    NodeCoordinates(g, r + 1, c);
    NodeCoordinates(g, r + 1, c + 1);
  }

  // The far side of the target tile lies beyond every row between the target's near corner and the source.
  lemma HeldNodeOffRoute(g: Grid, src: nat, dest: nat, n: nat)
    requires Routable(g, src, dest) && !g.AreAdjacent(src, dest)
    requires var a1 := Ancillas(g, src, dest).0;
             var near := g.FindNearest(dest, g.FindDiagonal(src, a1));
             n in DorNodes(g, near, g.FindVertical(src, a1), true)
    ensures var near := g.FindNearest(dest, g.FindDiagonal(src, Ancillas(g, src, dest).0));
            n != g.FindDiagonal(dest, near)
  {
    hide DorNodes;
    var a1 := Ancillas(g, src, dest).0;
    AncillasAreCorners(g, src, dest);
    CornerMoves(g, src, a1);
    var diag, vert := g.FindDiagonal(src, a1), g.FindVertical(src, a1);
    var near := g.FindNearest(dest, diag);
    NearestIsClosestCorner(g, dest, diag);
    CornerMoves(g, dest, near);
    CornerRows(g, src);
    CornerRows(g, dest);
    DorRows(g, near, vert, true, n);
  }

  // The cnot5 a gate starts with names the node it may still hold; the switched one does not.
  lemma SwitchedCnot5AvoidsHeldNode(g: Grid, src: nat, dest: nat, v3: bool)
    requires Routable(g, src, dest) && !g.AreAdjacent(src, dest)
    ensures NodeRes(HeldNode(g, src, dest)) in Res(CnotPlan(g, src, dest, v3, false)[4])
    ensures NodeRes(HeldNode(g, src, dest)) !in Res(CnotPlan(g, src, dest, v3, true)[4])
  {
    hide Grid.IsNode, Grid.IsLink, DorNodes, LinksAlong, Ancillas, Grid.FindNearest;
    CnotRoutesInMesh(g, src, dest, false);
    CnotRoutesInMesh(g, src, dest, true);
    var a1 := Ancillas(g, src, dest).0;
    AncillasAreCorners(g, src, dest);
    CornerMoves(g, src, a1);
    var diag, vert := g.FindDiagonal(src, a1), g.FindVertical(src, a1);
    var near := g.FindNearest(dest, diag);
    NearestIsClosestCorner(g, dest, diag);
    CornerMoves(g, dest, near);
    var held := HeldNode(g, src, dest);
    assert held == g.FindDiagonal(dest, near);
    CornerMoves(g, dest, held);
    var xy := CnotPlan(g, src, dest, v3, false)[4];
    assert xy.nodes[|xy.nodes| - 1] == held;
    var yx := CnotPlan(g, src, dest, v3, true)[4];
    var dor := DorNodes(g, near, vert, true);
    assert yx.nodes == ShortL(g, dest, held).nodes + dor;
    forall n | n in yx.nodes ensures n != held {
      if n in dor { HeldNodeOffRoute(g, src, dest, n); }
    }
  }

  // The corners that the routes of two tiles that share no side are built from: the first ancilla, the corner
  // opposite to it, the near corner of the target, and the corner opposite to that.
  lemma RouteCorners(g: Grid, src: nat, dest: nat)
    requires Routable(g, src, dest) && !g.AreAdjacent(src, dest)
    ensures var a1 := Ancillas(g, src, dest).0;
            var diag := g.FindDiagonal(src, a1);
            var near := g.FindNearest(dest, diag);
            && g.IsNode(diag) && g.IsNode(near)
            && HeldNode(g, src, dest) == g.FindDiagonal(dest, near)
            && forall yx :: CnotRoutes(g, src, dest, a1, yx).0.nodes
                            == [diag] + DorNodes(g, diag, near, yx) + [HeldNode(g, src, dest)]
  {
    hide Grid.IsNode, Grid.IsLink, DorNodes, LinksAlong, Ancillas, Grid.FindNearest, Grid.FindDiagonal;
    var a1 := Ancillas(g, src, dest).0;
    AncillasAreCorners(g, src, dest);
    CornerMoves(g, src, a1);
    NearestIsClosestCorner(g, dest, g.FindDiagonal(src, a1));
    CornerMoves(g, dest, g.FindNearest(dest, g.FindDiagonal(src, a1)));
  }

  // Route 1 reaches the held node with its last step only.
  lemma HeldNodeIsLastOfRoute(g: Grid, src: nat, dest: nat, yx: bool, n: nat)
    requires Routable(g, src, dest) && !g.AreAdjacent(src, dest)
    requires var diag := g.FindDiagonal(src, Ancillas(g, src, dest).0);
             n == diag || (g.IsNode(diag) && g.IsNode(g.FindNearest(dest, diag))
                           && n in DorNodes(g, diag, g.FindNearest(dest, diag), yx))
    ensures n != HeldNode(g, src, dest)
  {
    hide DorNodes, HeldNode;
    RouteCorners(g, src, dest);
    var a1 := Ancillas(g, src, dest).0;
    AncillasAreCorners(g, src, dest);
    CornerMoves(g, src, a1);
    var diag := g.FindDiagonal(src, a1);
    var near := g.FindNearest(dest, diag);
    NearestIsClosestCorner(g, dest, diag);
    CornerRows(g, src);
    CornerRows(g, dest);
    if n != diag { DorRows(g, diag, near, yx, n); }
  }

  lemma CornerCols(g: Grid, q: nat)
    requires g.Valid() && g.IsQubit(q)
    ensures g.ColOf(g.TopLeft(q)) == g.ColOf(g.BottomLeft(q)) == g.TileCol(q)
    ensures g.ColOf(g.TopRight(q)) == g.ColOf(g.BottomRight(q)) == g.TileCol(q) + 1
  {
    TileCorners(g, q);
    var r, c := g.TileRow(q), g.TileCol(q);
    NodeCoordinates(g, r, c);
    NodeCoordinates(g, r, c + 1);
    NodeCoordinates(g, r + 1, c);
    NodeCoordinates(g, r + 1, c + 1);
  }

  // The held node is the first ancilla only if source and target are one tile.
  lemma HeldNodeIsAncilla(g: Grid, src: nat, dest: nat)
    requires Routable(g, src, dest) && !g.AreAdjacent(src, dest)
    ensures HeldNode(g, src, dest) == Ancillas(g, src, dest).0 <==> src == dest
  {
    hide HeldNode, Grid.RowOf, Grid.ColOf, Grid.TileRow, Grid.TileCol, Grid.TopLeft, Grid.TopRight, Grid.BottomLeft,
      Grid.BottomRight, Grid.IsQubit, DorNodes, CnotRoutes;
    RouteCorners(g, src, dest);
    CornerRows(g, src);
    CornerRows(g, dest);
    CornerCols(g, src);
    CornerCols(g, dest);
    SameTile(g, src, dest);
  }

  lemma SameTile(g: Grid, q: nat, r: nat)
    requires g.Valid()
    ensures q == r <==> g.TileRow(q) == g.TileRow(r) && g.TileCol(q) == g.TileCol(r)
  {
    assert q == g.TileRow(q) * g.cols + g.TileCol(q);
    assert r == g.TileRow(r) * g.cols + g.TileCol(r);
  }

  // cnot4 releases all that cnot3 took, except that the switched pair leaves the held node behind,
  // unless source and target are one tile.
  lemma FirstPairLeaves(g: Grid, src: nat, dest: nat, v3: bool, v5: bool)
    requires Routable(g, src, dest)
    ensures var p := CnotPlan(g, src, dest, v3, v5);
            Res(p[2]) - Res(p[3])
            == if v3 && !g.AreAdjacent(src, dest) && src != dest then {NodeRes(HeldNode(g, src, dest))} else {}
  {
    hide CnotRoutes, Ancillas, HeldNode, Grid.AreAdjacent, Grid.IsQubit, DorNodes;
    CnotRoutesInMesh(g, src, dest, true);
    var a1 := Ancillas(g, src, dest).0;
    var r1 := CnotRoutes(g, src, dest, a1, true).0;
    if v3 && !g.AreAdjacent(src, dest) {
      var held := HeldNode(g, src, dest);
      var diag := g.FindDiagonal(src, a1);
      var near := g.FindNearest(dest, diag);
      RouteCorners(g, src, dest);
      HeldNodeIsAncilla(g, src, dest);
      assert DropLast(r1.nodes) == [diag] + DorNodes(g, diag, near, true);
      forall n | n in DropLast(r1.nodes) ensures n != held { HeldNodeIsLastOfRoute(g, src, dest, true, n); }
      LeftBehind(r1, a1, held);
    }
  }

  lemma LeftBehind(r1: Braid, a1: nat, held: nat)
    requires r1.nodes != [] && Last(r1.nodes) == held && held !in DropLast(r1.nodes)
    ensures Res(r1) - Res(Braid(DropLast(r1.nodes) + [a1], r1.links)) == if held != a1 then {NodeRes(held)} else {}
  {
    LastAndRest(r1.nodes);
    var c := Braid(DropLast(r1.nodes) + [a1], r1.links);
    forall x ensures x in Res(r1) - Res(c) <==> held != a1 && x == NodeRes(held) {
      assert held in r1.nodes;
    }
  }

  // The switched cnot3 is told from the first one: it does not name the first ancilla once more.
  lemma SwitchedCnot3Differs(g: Grid, src: nat, dest: nat, v5: bool)
    requires Routable(g, src, dest) && !g.AreAdjacent(src, dest)
    ensures CnotPlan(g, src, dest, true, v5)[2] != CnotPlan(g, src, dest, false, v5)[2]
  {
    hide CnotRoutes, Ancillas, HeldNode, Grid.IsQubit, DorNodes, Grid.FindDiagonal, Grid.FindNearest;
    RouteCorners(g, src, dest);
    var a1 := Ancillas(g, src, dest).0;
    var diag := g.FindDiagonal(src, a1);
    var near := g.FindNearest(dest, diag);
    DorEndsAtDest(g, diag, near, true);
    DorEndsAtDest(g, diag, near, false);
    assert |CnotPlan(g, src, dest, true, v5)[2].nodes| + 1 == |CnotPlan(g, src, dest, false, v5)[2].nodes|;
  }

  // ----- What the events name -------------------------------------------------------------------------------------

  // A walk that visits neither end of a link does not take it; nor does one that misses one end.
  lemma {:induction false} NotAlong(start: nat, nodes: seq<nat>, x: nat, l: Link)
    requires x != start && x !in nodes && (l.a == x || l.b == x)
    ensures l !in LinksAlong(start, nodes)
    decreases |nodes|
  {
    if nodes != [] { NotAlong(nodes[0], nodes[1..], x, l); }
  }

  // The held link is one side of the source.  Route 2 takes it once, with its last step, unless both tiles are one.
  lemma HeldLinkOnce(g: Grid, src: nat, dest: nat, yx: bool)
    requires Routable(g, src, dest)
    ensures var r2 := CnotRoutes(g, src, dest, Ancillas(g, src, dest).0, yx).1;
            && r2.links != [] && Last(r2.links) == HeldLink(g, src, dest)
            && (HeldLink(g, src, dest) in DropLast(r2.links) <==> src == dest)
  {
    hide Grid.IsQubit, Grid.IsLink, Grid.IsNode;
    if g.AreAdjacent(src, dest) {
      AdjacentHeldLink(g, src, dest, yx);
    } else {
      DistantHeldLink(g, src, dest, yx);
    }
  }

  lemma AdjacentHeldLink(g: Grid, src: nat, dest: nat, yx: bool)
    requires Routable(g, src, dest) && g.AreAdjacent(src, dest)
    ensures var r2 := CnotRoutes(g, src, dest, Ancillas(g, src, dest).0, yx).1;
            && r2.links != [] && Last(r2.links) == HeldLink(g, src, dest)
            && HeldLink(g, src, dest) !in DropLast(r2.links) && src != dest
  {
    CornersApart(g, src);
    CornersApart(g, dest);
    SharedSide(g, src, dest);
    hide Grid.TopLeft, Grid.TopRight, Grid.BottomLeft, Grid.BottomRight, Grid.TileRow, Grid.TileCol, Grid.IsQubit;
  }

  lemma DistantHeldLink(g: Grid, src: nat, dest: nat, yx: bool)
    requires Routable(g, src, dest) && !g.AreAdjacent(src, dest)
    ensures var r2 := CnotRoutes(g, src, dest, Ancillas(g, src, dest).0, yx).1;
            && r2.links != [] && Last(r2.links) == HeldLink(g, src, dest)
            && (HeldLink(g, src, dest) in DropLast(r2.links) <==> src == dest)
  {
    DistantRoutes(g, src, dest, yx);
    DistantRoutes(g, src, dest, false);
    var a1 := Ancillas(g, src, dest).0;
    var diag, vert, end := g.FindDiagonal(src, a1), g.FindVertical(src, a1), g.FindHorizontal(src, a1);
    var near := g.FindNearest(dest, diag);
    var far := g.FindDiagonal(dest, near);
    LinksOfRoute2(g, src, dest, yx);
    AncillasAreCorners(g, src, dest);
    CornerMoves(g, src, a1);
    NearestIsClosestCorner(g, dest, diag);
    CornerMoves(g, dest, near);
    var walk := DorNodes(g, near, vert, yx);
    EndOffWalk(g, src, dest, yx);
    NotAlong(near, walk, end, Edge(end, diag));
    SidesApart(g, src, dest);
  }

  // Route 2's links, the last one apart.
  lemma LinksOfRoute2(g: Grid, src: nat, dest: nat, yx: bool)
    requires Routable(g, src, dest) && !g.AreAdjacent(src, dest)
    ensures var a1 := Ancillas(g, src, dest).0;
            var diag, vert := g.FindDiagonal(src, a1), g.FindVertical(src, a1);
            var near := g.FindNearest(dest, diag);
            var far := g.FindDiagonal(dest, near);
            var links := CnotRoutes(g, src, dest, a1, yx).1.links;
            && links != [] && g.IsCorner(src, a1)
            && forall l :: l in DropLast(links) <==>
                 l == Edge(far, g.FindHorizontal(dest, far)) || l == Edge(g.FindHorizontal(dest, far), g.FindDiagonal(dest, far))
                 || l in LinksAlong(near, DorNodes(g, near, vert, yx)) || l == Edge(vert, g.FindVertical(src, vert))
  {
    AncillasAreCorners(g, src, dest);
    hide Grid.AreAdjacent, Grid.IsQubit, Ancillas, Grid.FindDiagonal, Grid.FindNearest, Grid.FindVertical, Grid.FindHorizontal,
      DorNodes, LinksAlong, Grid.IsCorner;
    var a1 := Ancillas(g, src, dest).0;
    var diag, vert := g.FindDiagonal(src, a1), g.FindVertical(src, a1);
    var near := g.FindNearest(dest, diag);
    var far := g.FindDiagonal(dest, near);
    var x, y := ShortL(g, dest, far).links, Dor(g, near, vert, yx).links;
    var z := SShape(g, src, vert).links;
    var links := CnotRoutes(g, src, dest, a1, yx).1.links;
    assert links == x + y + z;
    assert DropLast(links) == x + y + [z[0]];
  }

  // The source's corner on the ancilla's row, the end of the held link, lies on the far side of all that route 2 walks.
  lemma EndOffWalk(g: Grid, src: nat, dest: nat, yx: bool)
    requires Routable(g, src, dest) && !g.AreAdjacent(src, dest)
    ensures var a1 := Ancillas(g, src, dest).0;
            var near, end := g.FindNearest(dest, g.FindDiagonal(src, a1)), g.FindHorizontal(src, a1);
            end != near && end !in DorNodes(g, near, g.FindVertical(src, a1), yx)
  {
    hide DorNodes, Grid.IsQubit;
    var a1 := Ancillas(g, src, dest).0;
    AncillasAreCorners(g, src, dest);
    CornerMoves(g, src, a1);
    var diag, vert, end := g.FindDiagonal(src, a1), g.FindVertical(src, a1), g.FindHorizontal(src, a1);
    var near := g.FindNearest(dest, diag);
    NearestIsClosestCorner(g, dest, diag);
    CornerMoves(g, dest, near);
    CornerRows(g, src);
    CornerRows(g, dest);
    CornersApart(g, src);
    CornersApart(g, dest);
    hide Grid.TopLeft, Grid.TopRight, Grid.BottomLeft, Grid.BottomRight, Grid.TileRow, Grid.TileCol, Grid.RowOf, Grid.ColOf,
      Grid.IsNode, Grid.IsLink;
    if end in DorNodes(g, near, vert, yx) { DorRows(g, near, vert, yx, end); }
  }

  // The held link is no side of the target that route 2 goes around, unless both tiles are one.
  lemma SidesApart(g: Grid, src: nat, dest: nat)
    requires Routable(g, src, dest) && !g.AreAdjacent(src, dest)
    ensures var a1 := Ancillas(g, src, dest).0;
            var diag := g.FindDiagonal(src, a1);
            var held := Edge(g.FindHorizontal(src, a1), diag);
            var far := g.FindDiagonal(dest, g.FindNearest(dest, diag));
            && held != Edge(far, g.FindHorizontal(dest, far))
            && (held == Edge(g.FindHorizontal(dest, far), g.FindDiagonal(dest, far)) <==> src == dest)
            && held != Edge(g.FindVertical(src, a1), g.FindVertical(src, g.FindVertical(src, a1)))
  {
    CornersApart(g, src);
    CornersApart(g, dest);
    CornerRows(g, src);
    CornerRows(g, dest);
    CornerCols(g, src);
    CornerCols(g, dest);
    SameTile(g, src, dest);
    hide Grid.TopLeft, Grid.TopRight, Grid.BottomLeft, Grid.BottomRight, Grid.TileRow, Grid.TileCol, Grid.RowOf, Grid.ColOf,
      Grid.IsQubit;
  }

  // What the events of a CNOT take and leave.  cnot1 takes the two ancilla corners and the side between them, which
  // cnot2 gives back.  cnot3 takes route 1, and the first ancilla unless it was switched; what cnot4 leaves of it is
  // said above.  cnot5 takes route 2 and the held node; if it was switched, neither that node nor the route's last one.
  // cnot6 leaves of what cnot5 took exactly the held link, if the tiles are two; cnot7 gives it back.
  lemma EventsName(g: Grid, src: nat, dest: nat, v3: bool, v5: bool)
    requires Routable(g, src, dest)
    ensures var (a1, a2) := Ancillas(g, src, dest);
            var y3, y5 := v3 && !g.AreAdjacent(src, dest), v5 && !g.AreAdjacent(src, dest);
            var r1, r2 := CnotRoutes(g, src, dest, a1, y3).0, CnotRoutes(g, src, dest, a1, y5).1;
            var p, held := CnotPlan(g, src, dest, v3, v5), HeldNode(g, src, dest);
            && Res(p[0]) == Res(p[1]) == {NodeRes(a1), NodeRes(a2), LinkRes(Edge(a1, a2))}
            && Res(p[2]) == Res(r1) + (if y3 then {} else {NodeRes(a1)})
            && r2.nodes != [] && Res(p[4]) == (if y5 then Res(Braid(DropLast(r2.nodes), r2.links)) else Res(r2) + {NodeRes(held)})
            && NodeRes(held) in Res(p[5])
            && Res(p[4]) - Res(p[5]) == (if src == dest then {} else {LinkRes(HeldLink(g, src, dest))})
            && Res(p[6]) == Res(p[0]) - {LinkRes(Edge(a1, a2))} + {LinkRes(HeldLink(g, src, dest))}
  {
    hide CnotRoutes, CnotPlan, Ancillas, Grid.AreAdjacent, Grid.IsQubit, HeldNode, HeldLink, Res, Last, DropLast;
    var a1 := Ancillas(g, src, dest).0;
    var y3, y5 := v3 && !g.AreAdjacent(src, dest), v5 && !g.AreAdjacent(src, dest);
    PlanBraids(g, src, dest, v3, v5);
    HeldLinkOnce(g, src, dest, y5);
    var r1, r2 := CnotRoutes(g, src, dest, a1, y3).0, CnotRoutes(g, src, dest, a1, y5).1;
    var held := HeldNode(g, src, dest);
    AncillaRes(Ancillas(g, src, dest).1, a1, Edge(a1, Ancillas(g, src, dest).1), HeldLink(g, src, dest));
    WithNode(r1, a1);
    WithNode(r2, held);
    if y5 {
      WithoutLastLink(DropLast(r2.nodes), r2.links, held);
    } else {
      WithoutLastLink(r2.nodes + [held], r2.links, held);
    }
  }

  // A close event names nothing that its open event does not name, but for the ancilla or the held node, which its gate
  // may hold from before.
  lemma ClosesNoMore(g: Grid, src: nat, dest: nat, v3: bool, v5: bool)
    requires Routable(g, src, dest)
    ensures var p, a1, held := CnotPlan(g, src, dest, v3, v5), Ancillas(g, src, dest).0, HeldNode(g, src, dest);
            && NodeRes(a1) in Res(p[3]) && Res(p[3]) <= Res(p[2]) + {NodeRes(a1)}
            && NodeRes(held) in Res(p[5]) && Res(p[5]) <= Res(p[4]) + {NodeRes(held)}
  {
    hide CnotRoutes, CnotPlan, Ancillas, Grid.AreAdjacent, Grid.IsQubit, HeldNode, HeldLink;
    PlanBraids(g, src, dest, v3, v5);
    var p, a1, held := CnotPlan(g, src, dest, v3, v5), Ancillas(g, src, dest).0, HeldNode(g, src, dest);
    assert a1 in p[3].nodes && held in p[5].nodes;
    assert forall n | n in p[3].nodes :: n in p[2].nodes || n == a1;
    assert forall n | n in p[5].nodes :: n in p[4].nodes || n == held;
  }

  // The braids of the plan in terms of the two routes.
  lemma PlanBraids(g: Grid, src: nat, dest: nat, v3: bool, v5: bool)
    requires Routable(g, src, dest)
    ensures var (a1, a2) := Ancillas(g, src, dest);
            var y3, y5 := v3 && !g.AreAdjacent(src, dest), v5 && !g.AreAdjacent(src, dest);
            var r1, r2 := CnotRoutes(g, src, dest, a1, y3).0, CnotRoutes(g, src, dest, a1, y5).1;
            var p, held := CnotPlan(g, src, dest, v3, v5), HeldNode(g, src, dest);
            && r1.nodes != [] && r2.nodes != [] && r2.links != []
            && p[0] == p[1] == Braid([a2, a1], [Edge(a1, a2)])
            && p[2] == (if y3 then r1 else Braid(r1.nodes + [a1], r1.links))
            && p[3] == (if y3 then Braid(DropLast(r1.nodes) + [a1], r1.links) else p[2])
            && p[4] == Braid(if y5 then DropLast(r2.nodes) else r2.nodes + [held], r2.links)
            && p[5] == Braid(if y5 then DropLast(r2.nodes) + [held] else r2.nodes + [held], DropLast(r2.links))
            && p[6] == Braid([a2, a1], [HeldLink(g, src, dest)])
  {
    RouteEndsAgree(g, src, dest);
    BraidsOfPlan(g, src, dest);
    BraidsOfReroute(g, src, dest, CnotBraids(g, src, dest)[3], CnotBraids(g, src, dest)[5]);
    hide CnotBraids, Reroute, CnotRoutes, Ancillas, Grid.AreAdjacent, Grid.IsQubit, InMesh, HeldNode, HeldLink, DropLast, Last;
  }

  lemma BraidsOfPlan(g: Grid, src: nat, dest: nat)
    requires Routable(g, src, dest)
    ensures var (a1, a2) := Ancillas(g, src, dest);
            var (r1, r2) := CnotRoutes(g, src, dest, a1, false);
            var b, held := CnotBraids(g, src, dest), HeldNode(g, src, dest);
            && r1.nodes != [] && r2.nodes != [] && r2.links != []
            && b[0] == b[1] == Braid([a2, a1], [Edge(a1, a2)]) && b[2] == b[3] == Braid(r1.nodes + [a1], r1.links)
            && b[4] == Braid(r2.nodes + [held], r2.links) && b[5] == Braid(r2.nodes + [held], DropLast(r2.links))
            && b[6] == Braid([a2, a1], [HeldLink(g, src, dest)])
  {
    CnotRoutesInMesh(g, src, dest, false);
    hide CnotRoutes, Ancillas, Grid.IsQubit, InMesh, DropLast, Last;
  }

  lemma BraidsOfReroute(g: Grid, src: nat, dest: nat, next3: Braid, next5: Braid)
    requires Routable(g, src, dest) && next3.nodes != [] && next5.nodes != []
    ensures var a1 := Ancillas(g, src, dest).0;
            var (r1, r2) := CnotRoutes(g, src, dest, a1, true);
            && r1.nodes != [] && r2.nodes != [] && r2.links != []
            && Reroute(g, src, dest, Cnot3, next3) == (r1, Braid(DropLast(r1.nodes) + [a1], r1.links))
            && Reroute(g, src, dest, Cnot5, next5)
               == (Braid(DropLast(r2.nodes), r2.links),
                   Braid(DropLast(r2.nodes) + [Last(next5.nodes)], DropLast(r2.links)))
  {
    CnotRoutesInMesh(g, src, dest, true);
    hide CnotRoutes, Ancillas, Grid.IsQubit, InMesh, DropLast, Last;
  }

  lemma AncillaRes(a2: nat, a1: nat, side: Link, l: Link)
    ensures Res(Braid([a2, a1], [side])) == {NodeRes(a1), NodeRes(a2), LinkRes(side)}
    ensures Res(Braid([a2, a1], [l])) == {NodeRes(a1), NodeRes(a2), LinkRes(l)}
  {
  }

  lemma WithNode(b: Braid, n: nat)
    ensures Res(Braid(b.nodes + [n], b.links)) == Res(b) + {NodeRes(n)}
  {
  }

  lemma WithoutLastLink(nodes: seq<nat>, links: seq<Link>, held: nat)
    requires links != []
    ensures Res(Braid(nodes, links)) - Res(Braid(nodes, DropLast(links)))
            == if Last(links) in DropLast(links) then {} else {LinkRes(Last(links))}
    ensures Res(Braid(nodes, links)) - Res(Braid(nodes + [held], DropLast(links)))
            == if Last(links) in DropLast(links) then {} else {LinkRes(Last(links))}
    ensures NodeRes(held) in Res(Braid(nodes + [held], DropLast(links)))
    ensures held in nodes ==> NodeRes(held) in Res(Braid(nodes, DropLast(links)))
  {
    LastAndRest(links);
    assert held in nodes + [held];
  }

  // ----- The switched routes turn elsewhere -----------------------------------------------------------------------

  // A dimension-ordered walk that has to turn does so where its first axis is done, and not at the other corner.
  lemma TurnOfWalk(g: Grid, x: nat, y: nat, yx: bool)
    requires g.IsNode(x) && g.IsNode(y) && g.RowOf(x) != g.RowOf(y) && g.ColOf(x) != g.ColOf(y)
    ensures var turn := if yx then g.NodeAt(g.RowOf(x), g.ColOf(y)) else g.NodeAt(g.RowOf(y), g.ColOf(x));
            var other := if yx then g.NodeAt(g.RowOf(y), g.ColOf(x)) else g.NodeAt(g.RowOf(x), g.ColOf(y));
            turn in DorNodes(g, x, y, yx) && other !in DorNodes(g, x, y, yx) && g.IsNode(turn) && g.IsNode(other)
  {
    var n := if yx then Gap(g.ColOf(x), g.ColOf(y)) else Gap(g.RowOf(x), g.RowOf(y));
    CoordinatesOfNode(g, x);
    CoordinatesOfNode(g, y);
    DorAt(g, x, y, yx, n - 1);
    var other := if yx then g.NodeAt(g.RowOf(y), g.ColOf(x)) else g.NodeAt(g.RowOf(x), g.ColOf(y));
    NodeCoordinates(g, g.RowOf(y), g.ColOf(x));
    NodeCoordinates(g, g.RowOf(x), g.ColOf(y));
    hide DorNodes;
    forall i: nat | i < g.Manhattan(x, y) ensures DorNodes(g, x, y, yx)[i] != other {
      DorAt(g, x, y, yx, i);
      var (r, c) := DorPos(g, x, y, yx, i);
      NodeCoordinates(g, r, c);
    }
  }

  // Where route 1 has to turn between the source's corner and the target's, the first cnot3 turns in the target's row
  // and the switched one in the source's; neither names the other's turn.
  lemma SwitchedCnot3Turns(g: Grid, src: nat, dest: nat, v3: bool, v5: bool)
    requires Routable(g, src, dest) && !g.AreAdjacent(src, dest)
    ensures var diag := g.FindDiagonal(src, Ancillas(g, src, dest).0);
            var near := g.FindNearest(dest, diag);
            var a, b := g.NodeAt(g.RowOf(near), g.ColOf(diag)), g.NodeAt(g.RowOf(diag), g.ColOf(near));
            g.RowOf(diag) != g.RowOf(near) && g.ColOf(diag) != g.ColOf(near) ==>
              && (NodeRes(a) in Res(CnotPlan(g, src, dest, v3, v5)[2]) <==> !v3)
              && (NodeRes(b) in Res(CnotPlan(g, src, dest, v3, v5)[2]) <==> v3)
  {
    hide Grid.IsQubit, DorNodes, HeldNode, CnotRoutes, CnotPlan, Ancillas, Grid.FindDiagonal, Grid.FindNearest,
      Grid.FindHorizontal, Grid.FindVertical, Grid.AreAdjacent, Grid.NodeAt, Grid.RowOf, Grid.ColOf, Grid.IsNode, Grid.IsCorner,
      Grid.IsLink, Grid.Manhattan, Res;
    var a1 := Ancillas(g, src, dest).0;
    var diag := g.FindDiagonal(src, a1);
    var near := g.FindNearest(dest, diag);
    RouteCorners(g, src, dest);
    AncillasAreCorners(g, src, dest);
    CornerMoves(g, src, a1);
    NearestIsClosestCorner(g, dest, diag);
    CornerMoves(g, dest, near);
    MovedRowsAndCols(g, src, a1);
    MovedRowsAndCols(g, dest, near);
    if g.RowOf(diag) != g.RowOf(near) && g.ColOf(diag) != g.ColOf(near) {
      TurnOfWalk(g, diag, near, v3);
      PlanBraids(g, src, dest, v3, v5);
      RowsOfNodes(g, diag, near);
      var a, b := g.NodeAt(g.RowOf(near), g.ColOf(diag)), g.NodeAt(g.RowOf(diag), g.ColOf(near));
      var turn, other := if v3 then b else a, if v3 then a else b;
      var p := CnotPlan(g, src, dest, v3, v5)[2];
      TurnNamed(p, [diag], DorNodes(g, diag, near, v3), if v3 then [HeldNode(g, src, dest)] else [HeldNode(g, src, dest), a1], turn, other);
    }
  }

  lemma TurnNamed(b: Braid, before: seq<nat>, walk: seq<nat>, after: seq<nat>, turn: nat, other: nat)
    requires b.nodes == before + walk + after && turn in walk
    requires other !in before && other !in walk && other !in after
    ensures NodeRes(turn) in Res(b) && NodeRes(other) !in Res(b)
  {
    assert turn in b.nodes && other !in b.nodes;
  }

  lemma RowsOfNodes(g: Grid, x: nat, y: nat)
    requires g.IsNode(x) && g.IsNode(y)
    ensures var a, b := g.NodeAt(g.RowOf(y), g.ColOf(x)), g.NodeAt(g.RowOf(x), g.ColOf(y));
            && g.RowOf(a) == g.RowOf(y) && g.ColOf(a) == g.ColOf(x) && g.RowOf(b) == g.RowOf(x) && g.ColOf(b) == g.ColOf(y)
  {
    CoordinatesOfNode(g, x);
    CoordinatesOfNode(g, y);
    NodeCoordinates(g, g.RowOf(y), g.ColOf(x));
    NodeCoordinates(g, g.RowOf(x), g.ColOf(y));
  }

  // The opposite corner is in another row and another column.
  lemma MovedRowsAndCols(g: Grid, q: nat, n: nat)
    requires g.Valid() && g.IsQubit(q) && g.IsCorner(q, n)
    ensures g.RowOf(g.FindDiagonal(q, n)) != g.RowOf(n) && g.ColOf(g.FindDiagonal(q, n)) != g.ColOf(n)
    ensures g.RowOf(g.FindVertical(q, n)) == g.RowOf(g.FindDiagonal(q, n)) && g.ColOf(g.FindVertical(q, n)) == g.ColOf(n)
    ensures g.RowOf(g.FindHorizontal(q, n)) == g.RowOf(n) && g.ColOf(g.FindHorizontal(q, n)) == g.ColOf(g.FindDiagonal(q, n))
  {
    CornersApart(g, q);
    CornerRows(g, q);
    CornerCols(g, q);
    hide Grid.TopLeft, Grid.TopRight, Grid.BottomLeft, Grid.BottomRight, Grid.TileRow, Grid.TileCol, Grid.RowOf, Grid.ColOf;
  }

  // The same for route 2, back from the target's corner to the source's.
  lemma SwitchedCnot5Turns(g: Grid, src: nat, dest: nat, v3: bool, v5: bool)
    requires Routable(g, src, dest) && !g.AreAdjacent(src, dest)
    ensures var a1 := Ancillas(g, src, dest).0;
            var near, vert := g.FindNearest(dest, g.FindDiagonal(src, a1)), g.FindVertical(src, a1);
            var a, b := g.NodeAt(g.RowOf(vert), g.ColOf(near)), g.NodeAt(g.RowOf(near), g.ColOf(vert));
            g.RowOf(near) != g.RowOf(vert) && g.ColOf(near) != g.ColOf(vert) ==>
              && (NodeRes(a) in Res(CnotPlan(g, src, dest, v3, v5)[4]) <==> !v5)
              && (NodeRes(b) in Res(CnotPlan(g, src, dest, v3, v5)[4]) <==> v5)
  {
    hide Grid.IsQubit, DorNodes, HeldNode, CnotRoutes, CnotPlan, Ancillas, Grid.FindDiagonal, Grid.FindNearest,
      Grid.FindHorizontal, Grid.FindVertical, Grid.AreAdjacent, Grid.NodeAt, Grid.RowOf, Grid.ColOf, Grid.IsNode, Grid.IsCorner,
      Grid.IsLink, Grid.Manhattan, Res;
    var a1 := Ancillas(g, src, dest).0;
    var diag, vert := g.FindDiagonal(src, a1), g.FindVertical(src, a1);
    var near := g.FindNearest(dest, diag);
    var far := g.FindDiagonal(dest, near);
    if g.RowOf(near) != g.RowOf(vert) && g.ColOf(near) != g.ColOf(vert) {
      DistantRoutes(g, src, dest, v5);
      PlanBraids(g, src, dest, v3, v5);
      OffTheTurns(g, src, dest);
      TurnOfWalk(g, near, vert, v5);
      var a, b := g.NodeAt(g.RowOf(vert), g.ColOf(near)), g.NodeAt(g.RowOf(near), g.ColOf(vert));
      var turn, other := if v5 then b else a, if v5 then a else b;
      var p, held, end := CnotPlan(g, src, dest, v3, v5)[4], HeldNode(g, src, dest), g.FindHorizontal(src, a1);
      TurnNamed(p, [g.FindHorizontal(dest, far), near], DorNodes(g, near, vert, v5), if v5 then [] else [end, held], turn, other);
    }
  }

  // Neither turn of route 2 is one of its other nodes outside the walk.
  lemma OffTheTurns(g: Grid, src: nat, dest: nat)
    requires Routable(g, src, dest) && !g.AreAdjacent(src, dest)
    requires var a1 := Ancillas(g, src, dest).0;
             var near, vert := g.FindNearest(dest, g.FindDiagonal(src, a1)), g.FindVertical(src, a1);
             g.RowOf(near) != g.RowOf(vert) && g.ColOf(near) != g.ColOf(vert)
    ensures var a1 := Ancillas(g, src, dest).0;
            var near, vert := g.FindNearest(dest, g.FindDiagonal(src, a1)), g.FindVertical(src, a1);
            var a, b := g.NodeAt(g.RowOf(vert), g.ColOf(near)), g.NodeAt(g.RowOf(near), g.ColOf(vert));
            var ends := {g.FindHorizontal(dest, g.FindDiagonal(dest, near)), near, g.FindHorizontal(src, a1), HeldNode(g, src, dest)};
            && g.IsNode(near) && g.IsNode(vert) && a !in ends && b !in ends
  {
    hide Grid.IsQubit, HeldNode, Ancillas, Grid.FindDiagonal, Grid.FindNearest, Grid.FindHorizontal, Grid.FindVertical,
      Grid.AreAdjacent, Grid.NodeAt, Grid.RowOf, Grid.ColOf, Grid.IsNode, Grid.IsCorner, Grid.IsLink, Grid.Manhattan;
    var a1 := Ancillas(g, src, dest).0;
    var diag, vert := g.FindDiagonal(src, a1), g.FindVertical(src, a1);
    var near := g.FindNearest(dest, diag);
    var far := g.FindDiagonal(dest, near);
    RouteCorners(g, src, dest);
    AncillasAreCorners(g, src, dest);
    CornerMoves(g, src, a1);
    NearestIsClosestCorner(g, dest, diag);
    CornerMoves(g, dest, near);
    MovedRowsAndCols(g, src, a1);
    MovedRowsAndCols(g, dest, near);
    MovedRowsAndCols(g, dest, far);
    FarRows(g, src, dest);
    RowsOfNodes(g, near, vert);
  }

  // The target's far row is not the row in which route 2 ends.
  lemma FarRows(g: Grid, src: nat, dest: nat)
    requires Routable(g, src, dest) && !g.AreAdjacent(src, dest)
    ensures var a1 := Ancillas(g, src, dest).0;
            var near, vert := g.FindNearest(dest, g.FindDiagonal(src, a1)), g.FindVertical(src, a1);
            g.RowOf(near) != g.RowOf(vert) ==> g.RowOf(g.FindDiagonal(dest, near)) != g.RowOf(vert)
  {
    CornersApart(g, src);
    CornersApart(g, dest);
    CornerRows(g, src);
    CornerRows(g, dest);
    hide Grid.TopLeft, Grid.TopRight, Grid.BottomLeft, Grid.BottomRight, Grid.TileRow, Grid.TileCol, Grid.RowOf, Grid.ColOf,
      Grid.IsQubit;
  }
}
