/**
 The router mesh of the braid simulator.  Logical qubits (tiles) form a grid of
 `rows` by `cols`; the routers sit on the tile corners, so the node grid is one
 larger in both directions.  Nodes are numbered row by row.
 */
module Mesh {
  import opened Arithmetic

  // An undirected mesh link, kept with its smaller end first.
  datatype Link = Link(a: nat, b: nat)

  // Everything that can have an owner: a router node or a link.
  datatype Resource = NodeRes(node: nat) | LinkRes(link: Link)

  // The link that an edge lookup between `x` and `y` refers to.
  function Edge(x: nat, y: nat): Link {
    if x <= y then Link(x, y) else Link(y, x)
  }

  // Distance between two coordinates on one axis.
  function Gap(x: nat, y: nat): nat {
    if x <= y then y - x else x - y
  }

  datatype Grid = Grid(rows: nat, cols: nat) {

    ghost predicate Valid() { rows >= 1 && cols >= 1 }

    function NodeCount(): nat { (rows + 1) * (cols + 1) }

    function NodeAt(row: nat, col: nat): nat { row * (cols + 1) + col }

    function RowOf(node: nat): nat { node / (cols + 1) }

    function ColOf(node: nat): nat { node % (cols + 1) }

    predicate InMesh(row: nat, col: nat) { row <= rows && col <= cols }

    predicate IsNode(node: nat) { node < NodeCount() }

    predicate IsLink(l: Link) {
      && IsNode(l.a) && IsNode(l.b)
      && (|| (l.b == l.a + 1 && ColOf(l.a) != cols)
          || (l.b == l.a + cols + 1 && RowOf(l.a) != rows))
    }

    predicate IsResource(r: Resource) {
      match r
      case NodeRes(n) => IsNode(n)
      case LinkRes(l) => IsLink(l)
    }

    predicate IsQubit(q: nat) { q < rows * cols }

    function TileRow(q: nat): nat requires cols >= 1 { q / cols }

    function TileCol(q: nat): nat requires cols >= 1 { q % cols }

    // The four corners of tile q.
    function TopLeft(q: nat): nat requires cols >= 1 { q + q / cols }
    function TopRight(q: nat): nat requires cols >= 1 { q + q / cols + 1 }
    function BottomLeft(q: nat): nat requires cols >= 1 { q + q / cols + cols + 1 }
    function BottomRight(q: nat): nat requires cols >= 1 { q + q / cols + cols + 2 }

    predicate IsCorner(q: nat, node: nat)
      requires cols >= 1
    {
      node == TopLeft(q) || node == TopRight(q) || node == BottomLeft(q) || node == BottomRight(q)
    }

    function FindDiagonal(q: nat, node: nat): nat
      requires cols >= 1
    {
      if node == TopLeft(q) then BottomRight(q)
      else if node == TopRight(q) then BottomLeft(q)
      else if node == BottomLeft(q) then TopRight(q)
      else if node == BottomRight(q) then TopLeft(q)
      else 0
    }

    function FindVertical(q: nat, node: nat): nat
      requires cols >= 1
    {
      if node == TopLeft(q) then BottomLeft(q)
      else if node == TopRight(q) then BottomRight(q)
      else if node == BottomLeft(q) then TopLeft(q)
      else if node == BottomRight(q) then TopRight(q)
      else 0
    }

    function FindHorizontal(q: nat, node: nat): nat
      requires cols >= 1
    {
      if node == TopLeft(q) then TopRight(q)
      else if node == TopRight(q) then TopLeft(q)
      else if node == BottomLeft(q) then BottomRight(q)
      else if node == BottomRight(q) then BottomLeft(q)
      else 0
    }

    // The corner of tile q that the router at `src` heads for.
    function FindNearest(q: nat, src: nat): nat
      requires cols >= 1
    {
      if RowOf(src) <= TileRow(q) && ColOf(src) <= TileCol(q) then TopLeft(q)
      else if RowOf(src) <= TileRow(q) && ColOf(src) > TileCol(q) then TopRight(q)
      else if RowOf(src) > TileRow(q) && ColOf(src) <= TileCol(q) then BottomLeft(q)
      else BottomRight(q)
    }

    // Two tiles of one row that share a side.
    predicate AreAdjacent(src: nat, dest: nat)
      requires cols >= 1
    {
      TileRow(src) == TileRow(dest) && Gap(TileCol(src), TileCol(dest)) == 1
    }

    // Hops between two nodes when only mesh links are used.
    function Manhattan(x: nat, y: nat): nat {
      Gap(RowOf(x), RowOf(y)) + Gap(ColOf(x), ColOf(y))
    }
  }

  lemma NodeCoordinates(g: Grid, row: nat, col: nat)
    requires g.InMesh(row, col)
    ensures g.IsNode(g.NodeAt(row, col))
    ensures g.RowOf(g.NodeAt(row, col)) == row && g.ColOf(g.NodeAt(row, col)) == col
  {
    DivModUnique(row, col, g.cols + 1);
    assert row * (g.cols + 1) <= g.rows * (g.cols + 1);
    assert g.NodeCount() == g.rows * (g.cols + 1) + (g.cols + 1);
  }

  lemma CoordinatesOfNode(g: Grid, node: nat)
    requires g.IsNode(node)
    ensures g.InMesh(g.RowOf(node), g.ColOf(node))
    ensures node == g.NodeAt(g.RowOf(node), g.ColOf(node))
  {
  }

  // Nodes one step apart on exactly one axis are joined by a mesh link.
  lemma NeighboursLinked(g: Grid, r: nat, c: nat, r': nat, c': nat)
    requires g.InMesh(r, c) && g.InMesh(r', c')
    requires Gap(r, r') + Gap(c, c') == 1
    ensures g.IsLink(Edge(g.NodeAt(r, c), g.NodeAt(r', c')))
  {
    hide Grid.NodeAt, Grid.IsNode, Grid.RowOf, Grid.ColOf;
    NodeCoordinates(g, r, c);
    NodeCoordinates(g, r', c');
    NodeRight(g, r, if c <= c' then c else c');
    NodeBelow(g, if r <= r' then r else r', c);
  }

  // The converse: a mesh link joins nodes one step apart.
  lemma LinkEndsAreNeighbours(g: Grid, l: Link)
    requires g.IsLink(l)
    ensures Gap(g.RowOf(l.a), g.RowOf(l.b)) + Gap(g.ColOf(l.a), g.ColOf(l.b)) == 1
  {
    hide Grid.NodeAt, Grid.IsNode, Grid.RowOf, Grid.ColOf;
    CoordinatesOfNode(g, l.a);
    var r, c := g.RowOf(l.a), g.ColOf(l.a);
    if l.b == l.a + 1 && c != g.cols {
      NodeRight(g, r, c);
      NodeCoordinates(g, r, c + 1);
    } else {
      NodeBelow(g, r, c);
      NodeCoordinates(g, r + 1, c);
    }
  }

  lemma NodeRight(g: Grid, row: nat, col: nat)
    ensures g.NodeAt(row, col + 1) == g.NodeAt(row, col) + 1
  {
  }

  lemma NodeBelow(g: Grid, row: nat, col: nat)
    ensures g.NodeAt(row + 1, col) == g.NodeAt(row, col) + g.cols + 1
  {
  }

  // Tile q sits at (row, col) of the tile grid and its corners at the four nodes around it.
  lemma TileCorners(g: Grid, q: nat)
    requires g.Valid() && g.IsQubit(q)
    ensures g.TileRow(q) < g.rows && g.TileCol(q) < g.cols
    ensures var r, c := g.TileRow(q), g.TileCol(q);
            && g.TopLeft(q) == g.NodeAt(r, c)
            && g.TopRight(q) == g.NodeAt(r, c + 1)
            && g.BottomLeft(q) == g.NodeAt(r + 1, c)
            && g.BottomRight(q) == g.NodeAt(r + 1, c + 1)
  {
    var r, c := q / g.cols, q % g.cols;
    assert q == r * g.cols + c;
    MulStep(r, g.rows, g.cols);
    MulStep(g.rows, r, g.cols);
    assert r * (g.cols + 1) == r * g.cols + r;
    assert (r + 1) * (g.cols + 1) == r * g.cols + r + g.cols + 1;
  }

  // Horizontal, vertical and diagonal moves stay on the corners of the tile; the first two follow mesh links,
  // the diagonal is one of each, in either order, and every move undoes itself.
  lemma CornerMoves(g: Grid, q: nat, n: nat)
    requires g.Valid() && g.IsQubit(q) && g.IsCorner(q, n)
    ensures g.IsNode(n)
    ensures var h, v, d := g.FindHorizontal(q, n), g.FindVertical(q, n), g.FindDiagonal(q, n);
            && g.IsCorner(q, h) && g.IsCorner(q, v) && g.IsCorner(q, d)
            && g.IsNode(h) && g.IsNode(v) && g.IsNode(d)
            && g.IsLink(Edge(n, h)) && g.IsLink(Edge(n, v))
            && d == g.FindVertical(q, h) && d == g.FindHorizontal(q, v)
            && g.FindHorizontal(q, h) == n && g.FindVertical(q, v) == n && g.FindDiagonal(q, d) == n
            && n != h && n != v && n != d && h != v && h != d && v != d
  {
    hide Grid.NodeAt, Grid.IsNode, Grid.IsLink, Grid.RowOf, Grid.ColOf;
    TileCorners(g, q);
    var r, c := g.TileRow(q), g.TileCol(q);
    NodeCoordinates(g, r, c);
    NodeCoordinates(g, r, c + 1);
    NodeCoordinates(g, r + 1, c);
    NodeCoordinates(g, r + 1, c + 1);
    NeighboursLinked(g, r, c, r, c + 1);
    NeighboursLinked(g, r, c, r + 1, c);
    NeighboursLinked(g, r, c + 1, r + 1, c + 1);
    NeighboursLinked(g, r + 1, c, r + 1, c + 1);
  }

  // FindNearest returns a corner of the tile, and no corner of the tile is closer.
  lemma NearestIsClosestCorner(g: Grid, q: nat, src: nat)
    requires g.Valid() && g.IsQubit(q)
    ensures g.IsCorner(q, g.FindNearest(q, src))
    ensures forall n | g.IsCorner(q, n) :: g.Manhattan(src, g.FindNearest(q, src)) <= g.Manhattan(src, n)
  {
    TileCorners(g, q);
    var r, c := g.TileRow(q), g.TileCol(q);
    NodeCoordinates(g, r, c);
    NodeCoordinates(g, r, c + 1);
    NodeCoordinates(g, r + 1, c);
    NodeCoordinates(g, r + 1, c + 1);
  }

  // The links the source adds for node i: north, south, east and west, where there is a neighbour.
  function LinksOfNode(g: Grid, i: nat): (ls: set<Link>)
    requires g.IsNode(i)
  {
    CoordinatesOfNode(g, i);
    MulStep(0, g.RowOf(i), g.cols + 1);
    var row, col := g.RowOf(i), g.ColOf(i);
    (if row != 0 then {Edge(i, i - g.cols - 1)} else {})
    + (if row != g.rows then {Edge(i, i + g.cols + 1)} else {})
    + (if col != g.cols then {Edge(i, i + 1)} else {})
    + (if col != 0 then {Edge(i, i - 1)} else {})
  }

  lemma LinksOfNodeAreLinks(g: Grid, i: nat, l: Link)
    requires g.IsNode(i) && l in LinksOfNode(g, i)
    ensures g.IsLink(l) && (l.a == i || l.b == i)
  {
    CoordinatesOfNode(g, i);
    var row, col := g.RowOf(i), g.ColOf(i);
    if row != 0 && l == Edge(i, i - g.cols - 1) {
      NodeBelow(g, row - 1, col);
      NeighboursLinked(g, row, col, row - 1, col);
    } else if row != g.rows && l == Edge(i, i + g.cols + 1) {
      NodeBelow(g, row, col);
      NeighboursLinked(g, row, col, row + 1, col);
    } else if col != g.cols && l == Edge(i, i + 1) {
      NeighboursLinked(g, row, col, row, col + 1);
    } else {
      NeighboursLinked(g, row, col, row, col - 1);
    }
  }

  lemma LinkInLinksOfNode(g: Grid, l: Link)
    requires g.IsLink(l)
    ensures l in LinksOfNode(g, l.a)
  {
  }

  // The owners of a freshly built mesh.  The source adds each node and then, for every node, the
  // links to its neighbours; re-adding an existing link changes nothing.
  method BuildMesh(g: Grid) returns (owner: map<Resource, nat>)
    ensures forall r :: r in owner <==> g.IsResource(r)
    ensures forall r :: r in owner ==> owner[r] == 0
  {
    hide LinksOfNode, Grid.NodeCount, Grid.IsLink;
    owner := map[];
    var n := g.NodeCount();
    for i := 0 to n
      invariant forall r :: r in owner <==> r.NodeRes? && r.node < i
      invariant forall r :: r in owner ==> owner[r] == 0
    {
      owner := owner[NodeRes(i) := 0];
    }
    for i := 0 to n
      invariant forall r :: r in owner ==> g.IsResource(r) && owner[r] == 0
      invariant forall m: nat :: m < n ==> NodeRes(m) in owner
      invariant forall l :: g.IsLink(l) && l.a < i ==> LinkRes(l) in owner
    {
      forall l | l in LinksOfNode(g, i) ensures g.IsLink(l) { LinksOfNodeAreLinks(g, i, l); }
      forall l | g.IsLink(l) && l.a == i ensures l in LinksOfNode(g, i) { LinkInLinksOfNode(g, l); }
      owner := owner + map l | l in LinksOfNode(g, i) :: LinkRes(l) := 0;
    }
    forall l | g.IsLink(l) ensures l.a < n { LinkInRange(g, l); }
  }

  lemma LinkInRange(g: Grid, l: Link)
    requires g.IsLink(l)
    ensures l.a < g.NodeCount()
  {
  }
}
