/**
 Braid routes: which nodes and links a two-qubit gate engages, by dimension-ordered routing.
 */
module Routes {
  import opened Collections
  import opened Mesh

  // Engaged nodes and links, in the order the source collects them.
  datatype Braid = Braid(nodes: seq<nat>, links: seq<Link>)

  function Merge(x: Braid, y: Braid): Braid {
    Braid(x.nodes + y.nodes, x.links + y.links)
  }

  ghost predicate InMesh(g: Grid, b: Braid) {
    && (forall n | n in b.nodes :: g.IsNode(n))
    && (forall l | l in b.links :: g.IsLink(l))
  }

  // ----- Dimension-ordered routing ------------------------------------------------

  // One step from x towards y.
  function Toward(x: nat, y: nat): nat
    requires x != y
  {
    if x < y then x + 1 else x - 1
  }

  // Nodes visited when moving along a column from `row` to `destRow`, the start excluded.
  function RowWalk(g: Grid, row: nat, col: nat, destRow: nat): (p: seq<nat>)
    ensures |p| == Gap(row, destRow)
    decreases Gap(row, destRow)
  {
    if row == destRow then [] else
    [g.NodeAt(Toward(row, destRow), col)] + RowWalk(g, Toward(row, destRow), col, destRow)
  }

  // Nodes visited when moving along a row from `col` to `destCol`, the start excluded.
  function ColWalk(g: Grid, row: nat, col: nat, destCol: nat): (p: seq<nat>)
    ensures |p| == Gap(col, destCol)
    decreases Gap(col, destCol)
  {
    if col == destCol then [] else
    [g.NodeAt(row, Toward(col, destCol))] + ColWalk(g, row, Toward(col, destCol), destCol)
  }

  // The links between consecutive nodes of a walk that starts at `start`.
  function LinksAlong(start: nat, nodes: seq<nat>): (ls: seq<Link>)
    ensures |ls| == |nodes|
    decreases |nodes|
  {
    if nodes == [] then [] else [Edge(start, nodes[0])] + LinksAlong(nodes[0], nodes[1..])
  }

  function DorNodes(g: Grid, src: nat, dest: nat, yx: bool): seq<nat> {
    var sr, sc, dr, dc := g.RowOf(src), g.ColOf(src), g.RowOf(dest), g.ColOf(dest);
    if yx then ColWalk(g, sr, sc, dc) + RowWalk(g, sr, dc, dr)
    else RowWalk(g, sr, sc, dr) + ColWalk(g, dr, sc, dc)
  }

  function Dor(g: Grid, src: nat, dest: nat, yx: bool): Braid {
    var nodes := DorNodes(g, src, dest, yx);
    Braid(nodes, LinksAlong(src, nodes))
  }

  // A walk over mesh links: every node is a mesh neighbour of the one before it.
  ghost predicate IsWalk(g: Grid, start: nat, nodes: seq<nat>)
    decreases |nodes|
  {
    nodes != [] ==>
      g.IsNode(nodes[0]) && g.IsLink(Edge(start, nodes[0])) && IsWalk(g, nodes[0], nodes[1..])
  }

  function EndOf(start: nat, nodes: seq<nat>): nat {
    if nodes == [] then start else nodes[|nodes| - 1]
  }

  // The node before position i of a walk that starts at `start`.
  function Before(start: nat, nodes: seq<nat>, i: nat): nat
    requires i < |nodes|
  {
    if i == 0 then start else nodes[i - 1]
  }

  lemma {:induction false} LinksAlongAppend(start: nat, p: seq<nat>, n: nat)
    ensures LinksAlong(start, p + [n]) == LinksAlong(start, p) + [Edge(EndOf(start, p), n)]
    decreases |p|
  {
    if p != [] {
      assert (p + [n])[1..] == p[1..] + [n];
      LinksAlongAppend(p[0], p[1..], n);
    }
  }

  lemma {:induction false} RowWalkAt(g: Grid, row: nat, col: nat, destRow: nat, i: nat)
    requires i < Gap(row, destRow)
    ensures RowWalk(g, row, col, destRow)[i] == g.NodeAt(if row < destRow then row + i + 1 else row - i - 1, col)
    decreases i
  {
    if i > 0 { RowWalkAt(g, Toward(row, destRow), col, destRow, i - 1); }
  }

  lemma {:induction false} ColWalkAt(g: Grid, row: nat, col: nat, destCol: nat, i: nat)
    requires i < Gap(col, destCol)
    ensures ColWalk(g, row, col, destCol)[i] == g.NodeAt(row, if col < destCol then col + i + 1 else col - i - 1)
    decreases i
  {
    if i > 0 { ColWalkAt(g, row, Toward(col, destCol), destCol, i - 1); }
  }

  // The nodes of a dimension-ordered walk, by position: (row, column) after i + 1 steps.
  function DorPos(g: Grid, src: nat, dest: nat, yx: bool, i: nat): (nat, nat)
    requires i < g.Manhattan(src, dest)
  {
    var sr, sc, dr, dc := g.RowOf(src), g.ColOf(src), g.RowOf(dest), g.ColOf(dest);
    if yx then
      if i < Gap(sc, dc) then (sr, if sc < dc then sc + i + 1 else sc - i - 1)
      else var k := i - Gap(sc, dc); (if sr < dr then sr + k + 1 else sr - k - 1, dc)
    else
      if i < Gap(sr, dr) then (if sr < dr then sr + i + 1 else sr - i - 1, sc)
      else var k := i - Gap(sr, dr); (dr, if sc < dc then sc + k + 1 else sc - k - 1)
  }

  lemma DorAt(g: Grid, src: nat, dest: nat, yx: bool, i: nat)
    requires g.IsNode(src) && g.IsNode(dest) && i < g.Manhattan(src, dest)
    ensures |DorNodes(g, src, dest, yx)| == g.Manhattan(src, dest)
    ensures var (r, c) := DorPos(g, src, dest, yx, i);
            g.InMesh(r, c) && DorNodes(g, src, dest, yx)[i] == g.NodeAt(r, c)
  {
    CoordinatesOfNode(g, src);
    CoordinatesOfNode(g, dest);
    var sr, sc, dr, dc := g.RowOf(src), g.ColOf(src), g.RowOf(dest), g.ColOf(dest);
    if yx {
      if i < Gap(sc, dc) { ColWalkAt(g, sr, sc, dc, i); } else { RowWalkAt(g, sr, dc, dr, i - Gap(sc, dc)); }
    } else {
      if i < Gap(sr, dr) { RowWalkAt(g, sr, sc, dr, i); } else { ColWalkAt(g, dr, sc, dc, i - Gap(sr, dr)); }
    }
  }

  // A walk is built one neighbour at a time.
  lemma {:induction false} WalkFromSteps(g: Grid, start: nat, p: seq<nat>)
    requires forall i | 0 <= i < |p| :: g.IsNode(p[i])
    requires forall i | 0 <= i < |p| :: g.IsLink(Edge(Before(start, p, i), p[i]))
    ensures IsWalk(g, start, p)
    ensures forall l | l in LinksAlong(start, p) :: g.IsLink(l)
    decreases |p|
  {
    if p != [] {
      assert Before(start, p, 0) == start;
      var q := p[1..];
      forall i | 0 <= i < |q| ensures g.IsLink(Edge(Before(p[0], q, i), q[i])) {
        assert q[i] == p[i + 1] && Before(p[0], q, i) == Before(start, p, i + 1);
      }
      WalkFromSteps(g, p[0], q);
    }
  }

  // Consecutive positions of a dimension-ordered walk are one step apart.
  lemma DorPosStep(g: Grid, src: nat, dest: nat, yx: bool, i: nat)
    requires g.IsNode(src) && g.IsNode(dest) && i < g.Manhattan(src, dest)
    ensures var (r, c) := DorPos(g, src, dest, yx, i);
            var (r', c') := if i == 0 then (g.RowOf(src), g.ColOf(src)) else DorPos(g, src, dest, yx, i - 1);
            Gap(r', r) + Gap(c', c) == 1
  {
  }

  lemma DorStep(g: Grid, src: nat, dest: nat, yx: bool, i: nat)
    requires g.IsNode(src) && g.IsNode(dest) && i < g.Manhattan(src, dest)
    ensures |DorNodes(g, src, dest, yx)| == g.Manhattan(src, dest)
    ensures var p := DorNodes(g, src, dest, yx);
            g.IsNode(p[i]) && g.IsLink(Edge(Before(src, p, i), p[i]))
  {
    hide Grid.IsNode, Grid.IsLink, Grid.RowOf, Grid.ColOf, Grid.NodeAt, Grid.Manhattan, DorNodes, DorPos;
    DorAt(g, src, dest, yx, i);
    DorPosStep(g, src, dest, yx, i);
    CoordinatesOfNode(g, src);
    var (r, c) := DorPos(g, src, dest, yx, i);
    NodeCoordinates(g, r, c);
    if i == 0 {
      NeighboursLinked(g, g.RowOf(src), g.ColOf(src), r, c);
    } else {
      DorAt(g, src, dest, yx, i - 1);
      var (r', c') := DorPos(g, src, dest, yx, i - 1);
      NeighboursLinked(g, r', c', r, c);
    }
  }

  lemma DorDistinct(g: Grid, src: nat, dest: nat, yx: bool, i: nat, j: nat)
    requires g.IsNode(src) && g.IsNode(dest) && i < j < g.Manhattan(src, dest)
    ensures |DorNodes(g, src, dest, yx)| == g.Manhattan(src, dest)
    ensures DorNodes(g, src, dest, yx)[i] != DorNodes(g, src, dest, yx)[j]
  {
    DorAt(g, src, dest, yx, i);
    DorAt(g, src, dest, yx, j);
    var (r, c) := DorPos(g, src, dest, yx, i);
    var (r', c') := DorPos(g, src, dest, yx, j);
    NodeCoordinates(g, r, c);
    NodeCoordinates(g, r', c');
  }

  lemma DorNotAtSource(g: Grid, src: nat, dest: nat, yx: bool, j: nat)
    requires g.IsNode(src) && g.IsNode(dest) && j < g.Manhattan(src, dest)
    ensures |DorNodes(g, src, dest, yx)| == g.Manhattan(src, dest)
    ensures DorNodes(g, src, dest, yx)[j] != src
  {
    DorAt(g, src, dest, yx, j);
    var (r, c) := DorPos(g, src, dest, yx, j);
    NodeCoordinates(g, r, c);
  }

  lemma DorEndsAtDest(g: Grid, src: nat, dest: nat, yx: bool)
    requires g.IsNode(src) && g.IsNode(dest)
    ensures |DorNodes(g, src, dest, yx)| == g.Manhattan(src, dest)
    ensures EndOf(src, DorNodes(g, src, dest, yx)) == dest
  {
    CoordinatesOfNode(g, src);
    CoordinatesOfNode(g, dest);
    if g.Manhattan(src, dest) > 0 { DorAt(g, src, dest, yx, g.Manhattan(src, dest) - 1); }
  }

  // Dimension-ordered routing, in either order, gives a simple mesh path from src to dest that has
  // exactly Manhattan-distance many nodes and links; src itself is not among the nodes.
  lemma DorIsSimplePath(g: Grid, src: nat, dest: nat, yx: bool)
    requires g.IsNode(src) && g.IsNode(dest)
    ensures var b := Dor(g, src, dest, yx);
            && |b.nodes| == |b.links| == g.Manhattan(src, dest)
            && IsWalk(g, src, b.nodes) && EndOf(src, b.nodes) == dest
            && Distinct([src] + b.nodes)
            && InMesh(g, b)
  {
    hide DorNodes, Grid.IsNode, Grid.IsLink, Grid.Manhattan;
    var p, m := DorNodes(g, src, dest, yx), g.Manhattan(src, dest);
    DorEndsAtDest(g, src, dest, yx);
    forall i | 0 <= i < m ensures g.IsNode(p[i]) && g.IsLink(Edge(Before(src, p, i), p[i])) {
      DorStep(g, src, dest, yx, i);
    }
    WalkFromSteps(g, src, p);
    forall i, j | 0 <= i < j < m ensures p[i] != p[j] { DorDistinct(g, src, dest, yx, i, j); }
    forall j | 0 <= j < m ensures p[j] != src { DorNotAtSource(g, src, dest, yx, j); }
  }

  // A dimension-ordered route stays between the rows of its two ends.
  lemma DorRows(g: Grid, src: nat, dest: nat, yx: bool, n: nat)
    requires g.IsNode(src) && g.IsNode(dest) && n in DorNodes(g, src, dest, yx)
    ensures g.RowOf(src) <= g.RowOf(n) <= g.RowOf(dest) || g.RowOf(dest) <= g.RowOf(n) <= g.RowOf(src)
  {
    DorEndsAtDest(g, src, dest, yx);
    var i :| 0 <= i < |DorNodes(g, src, dest, yx)| && DorNodes(g, src, dest, yx)[i] == n;
    DorAt(g, src, dest, yx, i);
    var (r, c) := DorPos(g, src, dest, yx, i);
    NodeCoordinates(g, r, c);
  }

  // No walk over mesh links between the same two nodes is shorter.
  lemma {:induction false} WalkAtLeastManhattan(g: Grid, src: nat, p: seq<nat>)
    requires g.IsNode(src) && IsWalk(g, src, p)
    ensures |p| >= g.Manhattan(src, EndOf(src, p))
    decreases |p|
  {
    hide Grid.IsNode, Grid.IsLink, Grid.RowOf, Grid.ColOf;
    if p != [] {
      LinkEndsAreNeighbours(g, Edge(src, p[0]));
      WalkAtLeastManhattan(g, p[0], p[1..]);
      assert EndOf(src, p) == EndOf(p[0], p[1..]);
    }
  }

  // The source's routing loops: extend a braid along one axis until it matches the destination.
  method AlongColumn(g: Grid, src: nat, b0: Braid, row0: nat, col: nat, destRow: nat) returns (b: Braid)
    requires b0.links == LinksAlong(src, b0.nodes)
    ensures b.nodes == b0.nodes + RowWalk(g, row0, col, destRow)
    ensures b.links == LinksAlong(src, b.nodes)
  {
    b := b0;
    var row, node := row0, EndOf(src, b0.nodes);
    while row != destRow
      invariant b.nodes + RowWalk(g, row, col, destRow) == b0.nodes + RowWalk(g, row0, col, destRow)
      invariant b.links == LinksAlong(src, b.nodes) && node == EndOf(src, b.nodes)
      decreases Gap(row, destRow)
    {
      row := Toward(row, destRow);
      var next := g.NodeAt(row, col);
      LinksAlongAppend(src, b.nodes, next);
      b := Braid(b.nodes + [next], b.links + [Edge(node, next)]);
      node := next;
    }
  }

  method AlongRow(g: Grid, src: nat, b0: Braid, row: nat, col0: nat, destCol: nat) returns (b: Braid)
    requires b0.links == LinksAlong(src, b0.nodes)
    ensures b.nodes == b0.nodes + ColWalk(g, row, col0, destCol)
    ensures b.links == LinksAlong(src, b.nodes)
  {
    b := b0;
    var col, node := col0, EndOf(src, b0.nodes);
    while col != destCol
      invariant b.nodes + ColWalk(g, row, col, destCol) == b0.nodes + ColWalk(g, row, col0, destCol)
      invariant b.links == LinksAlong(src, b.nodes) && node == EndOf(src, b.nodes)
      decreases Gap(col, destCol)
    {
      col := Toward(col, destCol);
      var next := g.NodeAt(row, col);
      LinksAlongAppend(src, b.nodes, next);
      b := Braid(b.nodes + [next], b.links + [Edge(node, next)]);
      node := next;
    }
  }

  // Dimension-ordered routing: rows first (XY) or columns first (YX).
  method BraidDor(g: Grid, src: nat, dest: nat, yx: bool) returns (b: Braid)
    ensures b == Dor(g, src, dest, yx)
  {
    var row, col := g.RowOf(src), g.ColOf(src);
    var destRow, destCol := g.RowOf(dest), g.ColOf(dest);
    b := Braid([], []);
    if yx {
      b := AlongRow(g, src, b, row, col, destCol);
      assert b.nodes == ColWalk(g, row, col, destCol);
      b := AlongColumn(g, src, b, row, destCol, destRow);
      assert b.nodes == DorNodes(g, src, dest, yx);
    } else {
      b := AlongColumn(g, src, b, row, col, destRow);
      assert b.nodes == RowWalk(g, row, col, destRow);
      b := AlongRow(g, src, b, destRow, col, destCol);
      assert b.nodes == DorNodes(g, src, dest, yx);
    }
  }

  // ----- Routes of a CNOT -----------------------------------------------------------

  // An 'L' around tile q from corner n: first the horizontal side, then the vertical one.
  function ShortL(g: Grid, q: nat, n: nat): Braid
    requires g.cols >= 1
  {
    var n2, n3 := g.FindHorizontal(q, n), g.FindDiagonal(q, n);
    Braid([n2, n3], [Edge(n, n2), Edge(n2, n3)])
  }

  // An 'S' through tile q from corner n: the diagonal node and the two vertical sides.
  function SShape(g: Grid, q: nat, n: nat): Braid
    requires g.cols >= 1
  {
    var n2 := g.FindDiagonal(q, n);
    Braid([n2], [Edge(n, g.FindVertical(q, n)), Edge(n2, g.FindHorizontal(q, n))])
  }

  function Ancillas(g: Grid, src: nat, dest: nat): (nat, nat)
    requires g.cols >= 1
  {
    if g.AreAdjacent(src, dest) then
      if src < dest then (g.TopLeft(src), g.BottomLeft(src))
      else (g.TopRight(src), g.BottomRight(src))
    else if g.TileRow(src) < g.TileRow(dest) then (g.TopRight(src), g.TopLeft(src))
    else (g.BottomLeft(src), g.BottomRight(src))
  }

  // The two routes of a CNOT, from the first ancilla corner.
  function CnotRoutes(g: Grid, src: nat, dest: nat, anc1: nat, yx: bool): (Braid, Braid)
    requires g.cols >= 1
  {
    if g.AreAdjacent(src, dest) then
      var middleTop := g.FindHorizontal(src, anc1);
      var middleBottom := g.FindDiagonal(src, anc1);
      var destBottom := g.FindHorizontal(dest, middleBottom);
      var l1 := Edge(anc1, g.FindVertical(src, anc1));
      var l2 := Edge(middleTop, middleBottom);
      var l3 := Edge(destBottom, g.FindVertical(dest, destBottom));
      var l4 := Edge(destBottom, middleBottom);
      (Braid([destBottom], [l1, l2, l3]),
       Braid([middleBottom, g.FindVertical(src, anc1)], [l4, l2, l1]))
    else
      var diag := g.FindDiagonal(src, anc1);
      var near := g.FindNearest(dest, diag);
      var vert := g.FindVertical(src, anc1);
      (Merge(Merge(SShape(g, src, anc1), Dor(g, diag, near, yx)), SShape(g, dest, near)),
       Merge(Merge(ShortL(g, dest, g.FindDiagonal(dest, near)), Dor(g, near, vert, yx)), SShape(g, src, vert)))
  }

  lemma MergeInMesh(g: Grid, x: Braid, y: Braid)
    requires InMesh(g, x) && InMesh(g, y)
    ensures InMesh(g, Merge(x, y))
  {
  }

  lemma ShapesInMesh(g: Grid, q: nat, n: nat)
    requires g.Valid() && g.IsQubit(q) && g.IsCorner(q, n)
    ensures InMesh(g, SShape(g, q, n)) && InMesh(g, ShortL(g, q, n))
  {
    CornerMoves(g, q, n);
    CornerMoves(g, q, g.FindHorizontal(q, n));
  }

  lemma AncillasAreCorners(g: Grid, src: nat, dest: nat)
    requires g.Valid() && g.IsQubit(src) && g.IsQubit(dest)
    ensures var (a1, a2) := Ancillas(g, src, dest);
            && g.IsCorner(src, a1) && g.IsCorner(src, a2)
            && g.IsNode(a1) && g.IsNode(a2) && g.IsLink(Edge(a1, a2))
            && a2 == (if g.AreAdjacent(src, dest) then g.FindVertical(src, a1) else g.FindHorizontal(src, a1))
  {
    hide Grid.IsNode, Grid.IsLink, Grid.AreAdjacent;
    var (a1, a2) := Ancillas(g, src, dest);
    CornerMoves(g, src, a1);
    CornerMoves(g, src, a2);
  }

  // Tiles that share a side share its two corners: the far side of the source is the near side of the target.
  lemma AdjacentTilesShareCorners(g: Grid, src: nat, dest: nat)
    requires g.Valid() && g.IsQubit(src) && g.IsQubit(dest) && g.AreAdjacent(src, dest)
    ensures var a1 := Ancillas(g, src, dest).0;
            g.IsCorner(dest, g.FindHorizontal(src, a1)) && g.IsCorner(dest, g.FindDiagonal(src, a1))
    ensures src < dest <==> g.TileCol(src) < g.TileCol(dest)
  {
    TileCorners(g, src);
    TileCorners(g, dest);
    var w := g.cols;
    assert src == (src / w) * w + src % w;
    assert dest == (dest / w) * w + dest % w;
    CornerMoves(g, src, Ancillas(g, src, dest).0);
  }

  lemma AdjacentRoutesInMesh(g: Grid, src: nat, dest: nat, yx: bool)
    requires g.Valid() && g.IsQubit(src) && g.IsQubit(dest) && g.AreAdjacent(src, dest)
    ensures var (r1, r2) := CnotRoutes(g, src, dest, Ancillas(g, src, dest).0, yx);
            InMesh(g, r1) && InMesh(g, r2) && r1.nodes != [] && r2.nodes != [] && r1.links != [] && r2.links != []
  {
    var a1 := Ancillas(g, src, dest).0;
    AncillasAreCorners(g, src, dest);
    AdjacentTilesShareCorners(g, src, dest);
    CornerMoves(g, src, a1);
    CornerMoves(g, src, g.FindHorizontal(src, a1));
    CornerMoves(g, dest, g.FindDiagonal(src, a1));
    CornerMoves(g, dest, g.FindHorizontal(dest, g.FindDiagonal(src, a1)));
  }

  lemma DistantRoutesInMesh(g: Grid, src: nat, dest: nat, yx: bool)
    requires g.Valid() && g.IsQubit(src) && g.IsQubit(dest) && !g.AreAdjacent(src, dest)
    ensures var (r1, r2) := CnotRoutes(g, src, dest, Ancillas(g, src, dest).0, yx);
            InMesh(g, r1) && InMesh(g, r2) && r1.nodes != [] && r2.nodes != [] && r1.links != [] && r2.links != []
  {
    var a1 := Ancillas(g, src, dest).0;
    AncillasAreCorners(g, src, dest);
    CornerMoves(g, src, a1);
    var diag, vert := g.FindDiagonal(src, a1), g.FindVertical(src, a1);
    NearestIsClosestCorner(g, dest, diag);
    var near := g.FindNearest(dest, diag);
    CornerMoves(g, dest, near);
    ShapesInMesh(g, src, a1);
    ShapesInMesh(g, src, vert);
    ShapesInMesh(g, dest, near);
    ShapesInMesh(g, dest, g.FindDiagonal(dest, near));
    DorIsSimplePath(g, diag, near, yx);
    DorIsSimplePath(g, near, vert, yx);
    MergeInMesh(g, SShape(g, src, a1), Dor(g, diag, near, yx));
    MergeInMesh(g, Merge(SShape(g, src, a1), Dor(g, diag, near, yx)), SShape(g, dest, near));
    var l := ShortL(g, dest, g.FindDiagonal(dest, near));
    MergeInMesh(g, l, Dor(g, near, vert, yx));
    MergeInMesh(g, Merge(l, Dor(g, near, vert, yx)), SShape(g, src, vert));
  }

  // Whatever the two tiles and the routing order, every node of both CNOT routes is in range and
  // every link they name is a link of the mesh.
  lemma CnotRoutesInMesh(g: Grid, src: nat, dest: nat, yx: bool)
    requires g.Valid() && g.IsQubit(src) && g.IsQubit(dest)
    ensures var (r1, r2) := CnotRoutes(g, src, dest, Ancillas(g, src, dest).0, yx);
            InMesh(g, r1) && InMesh(g, r2) && r1.nodes != [] && r2.nodes != [] && r1.links != [] && r2.links != []
  {
    if g.AreAdjacent(src, dest) {
      AdjacentRoutesInMesh(g, src, dest, yx);
    } else {
      DistantRoutesInMesh(g, src, dest, yx);
    }
  }

  // ----- Which links the routes take ---------------------------------------------------------------------------

  // The left and the right side of tile q.
  function VerticalSides(g: Grid, q: nat): set<Link>
    requires g.cols >= 1
  {
    {Edge(g.TopLeft(q), g.BottomLeft(q)), Edge(g.TopRight(q), g.BottomRight(q))}
  }

  // The top or the bottom side of tile q, whichever has the corner n, and the left or right side that has not.
  function FarSides(g: Grid, q: nat, n: nat): set<Link>
    requires g.cols >= 1
  {
    {Edge(n, g.FindHorizontal(q, n)), Edge(g.FindHorizontal(q, n), g.FindDiagonal(q, n))}
  }

  // The corners of a tile are four nodes, and each is joined to its neighbours as the moves say.
  lemma CornersApart(g: Grid, q: nat)
    requires g.Valid()
    ensures g.TopLeft(q) < g.TopRight(q) < g.BottomLeft(q) < g.BottomRight(q)
  {
  }

  // The 'S' names the corner opposite to n and both vertical sides.
  lemma SShapeSides(g: Grid, q: nat, n: nat)
    requires g.Valid() && g.IsCorner(q, n)
    ensures SShape(g, q, n).nodes == [g.FindDiagonal(q, n)]
    ensures Elems(SShape(g, q, n).links) == VerticalSides(g, q)
  {
    CornersApart(g, q);
    hide Grid.TopLeft, Grid.TopRight, Grid.BottomLeft, Grid.BottomRight;
  }

  // For tiles that share a side, route 1 takes the vertical sides of both tiles and ends in the far bottom corner;
  // route 2 takes the source's vertical sides and the target's bottom side, and the source's bottom corners.
  lemma AdjacentRoutes(g: Grid, src: nat, dest: nat, yx: bool)
    requires g.Valid() && g.IsQubit(src) && g.IsQubit(dest) && g.AreAdjacent(src, dest)
    ensures var (r1, r2) := CnotRoutes(g, src, dest, Ancillas(g, src, dest).0, yx);
            && Elems(r1.links) == VerticalSides(g, src) + VerticalSides(g, dest) && |r1.links| == 3
            && Elems(r2.links) == VerticalSides(g, src) + {Edge(g.BottomLeft(dest), g.BottomRight(dest))} && |r2.links| == 3
            && r1.nodes == [if src < dest then g.BottomRight(dest) else g.BottomLeft(dest)]
            && r2.nodes == (if src < dest then [g.BottomRight(src), g.BottomLeft(src)] else [g.BottomLeft(src), g.BottomRight(src)])
  {
    CornersApart(g, src);
    CornersApart(g, dest);
    SharedSide(g, src, dest);
    hide Grid.TopLeft, Grid.TopRight, Grid.BottomLeft, Grid.BottomRight, Grid.TileRow, Grid.TileCol, Grid.IsQubit;
  }

  // The right side of the left tile is the left side of the right tile.
  lemma SharedSide(g: Grid, src: nat, dest: nat)
    requires g.Valid() && g.AreAdjacent(src, dest)
    ensures if src < dest then g.TopRight(src) == g.TopLeft(dest) && g.BottomRight(src) == g.BottomLeft(dest)
            else g.TopRight(dest) == g.TopLeft(src) && g.BottomRight(dest) == g.BottomLeft(src)
  {
    assert src == g.TileRow(src) * g.cols + g.TileCol(src);
    assert dest == g.TileRow(dest) * g.cols + g.TileCol(dest);
  }

  // For other tiles, route 1 takes the vertical sides of both tiles and what lies on the way between the source's corner
  // opposite to the first ancilla and the target's nearest corner; route 2 goes around the target's far sides, back from
  // that corner to the source's other corner on the ancilla's column, and takes the source's vertical sides.
  lemma DistantRoutes(g: Grid, src: nat, dest: nat, yx: bool)
    requires g.Valid() && g.IsQubit(src) && g.IsQubit(dest) && !g.AreAdjacent(src, dest)
    ensures var a1 := Ancillas(g, src, dest).0;
            var diag, vert := g.FindDiagonal(src, a1), g.FindVertical(src, a1);
            var near := g.FindNearest(dest, diag);
            var far := g.FindDiagonal(dest, near);
            var (r1, r2) := CnotRoutes(g, src, dest, a1, yx);
            && g.IsCorner(src, a1) && g.IsCorner(dest, near)
            && r1.nodes == [diag] + DorNodes(g, diag, near, yx) + [far]
            && Elems(r1.links)
               == VerticalSides(g, src) + Elems(LinksAlong(diag, DorNodes(g, diag, near, yx))) + VerticalSides(g, dest)
            && r2.nodes == [g.FindHorizontal(dest, far), near] + DorNodes(g, near, vert, yx) + [g.FindHorizontal(src, a1)]
            && Elems(r2.links)
               == FarSides(g, dest, far) + Elems(LinksAlong(near, DorNodes(g, near, vert, yx))) + VerticalSides(g, src)
            && r2.links != [] && r2.links[|r2.links| - 1] == Edge(g.FindHorizontal(src, a1), diag)
  {
    DistantShapes(g, src, dest);
    hide SShape, Grid.IsCorner, Grid.IsNode, Grid.IsLink, Grid.FindNearest, VerticalSides, DorNodes, LinksAlong, Ancillas,
         Grid.FindVertical, Grid.FindHorizontal, Grid.FindDiagonal, Edge, Elems;
    var a1 := Ancillas(g, src, dest).0;
    var diag, vert := g.FindDiagonal(src, a1), g.FindVertical(src, a1);
    var near := g.FindNearest(dest, diag);
    var far := g.FindDiagonal(dest, near);
    ElemsAppend3(SShape(g, src, a1).links, Dor(g, diag, near, yx).links, SShape(g, dest, near).links);
    ElemsAppend3(ShortL(g, dest, far).links, Dor(g, near, vert, yx).links, SShape(g, src, vert).links);
    ShortLSides(g, dest, far);
  }

  // The 'S' shapes at both ends of the routes.
  lemma DistantShapes(g: Grid, src: nat, dest: nat)
    requires g.Valid() && g.IsQubit(src) && g.IsQubit(dest)
    ensures var a1 := Ancillas(g, src, dest).0;
            var diag, vert := g.FindDiagonal(src, a1), g.FindVertical(src, a1);
            var near := g.FindNearest(dest, diag);
            var (s, t, d) := (SShape(g, src, a1), SShape(g, src, vert), SShape(g, dest, near));
            && g.IsCorner(src, a1) && g.IsCorner(dest, near) && s.nodes == [diag] && d.nodes == [g.FindDiagonal(dest, near)]
            && t.nodes == [g.FindHorizontal(src, a1)]
            && Elems(s.links) == Elems(t.links) == VerticalSides(g, src) && Elems(d.links) == VerticalSides(g, dest)
            && |t.links| == 2 && t.links[1] == Edge(g.FindHorizontal(src, a1), diag)
  {
    hide SShape, Grid.IsNode, Grid.IsLink, VerticalSides, Edge, Elems;
    AncillasAreCorners(g, src, dest);
    var a1 := Ancillas(g, src, dest).0;
    CornerMoves(g, src, a1);
    var diag, vert := g.FindDiagonal(src, a1), g.FindVertical(src, a1);
    NearestIsClosestCorner(g, dest, diag);
    SShapeSides(g, src, a1);
    SShapeSides(g, src, vert);
    SShapeSides(g, dest, g.FindNearest(dest, diag));
    TwoLinks(g, src, vert);
    OppositeCorner(g, src, a1);
  }

  lemma ShortLSides(g: Grid, q: nat, n: nat)
    requires g.cols >= 1
    ensures ShortL(g, q, n).nodes == [g.FindHorizontal(q, n), g.FindDiagonal(q, n)]
    ensures Elems(ShortL(g, q, n).links) == FarSides(g, q, n)
  {
  }

  lemma ElemsAppend3(x: seq<Link>, y: seq<Link>, z: seq<Link>)
    ensures Elems(x + y + z) == Elems(x) + Elems(y) + Elems(z)
  {
  }

  lemma TwoLinks(g: Grid, q: nat, n: nat)
    requires g.cols >= 1
    ensures |SShape(g, q, n).links| == 2 && SShape(g, q, n).links[1] == Edge(g.FindDiagonal(q, n), g.FindHorizontal(q, n))
  {
  }

  lemma OppositeCorner(g: Grid, q: nat, n: nat)
    requires g.Valid() && g.IsCorner(q, n)
    ensures g.FindDiagonal(q, g.FindVertical(q, n)) == g.FindHorizontal(q, n)
    ensures g.FindHorizontal(q, g.FindVertical(q, n)) == g.FindDiagonal(q, n)
  {
    CornersApart(g, q);
    hide Grid.TopLeft, Grid.TopRight, Grid.BottomLeft, Grid.BottomRight;
  }
}
