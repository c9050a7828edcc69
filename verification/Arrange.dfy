/**
 Placement of qubits on a rectangle by recursive bisection, with the graph partitioner as an oracle, and the
 relabelling of qubits by their place.
 */
module Arrange {
  import opened Collections
  import Arithmetic

  datatype Point = Point(x: int, y: int)

  // Interaction weights between nodes, and the partitioner's answer (true: second part) for a list of nodes.
  datatype Oracle = Oracle(weight: (nat, nat) -> nat, metis: seq<nat> -> seq<bool>)

  // The partitioner writes one line per node.
  ghost predicate OneLinePerNode(o: Oracle) { forall nodes: seq<nat> :: |o.metis(nodes)| == |nodes| }

  // ----- Partitioning ---------------------------------------------------------------------------------

  // The nodes whose label is `part`, in order.
  function Labelled(nodes: seq<nat>, labels: seq<bool>, part: bool): seq<nat>
    requires |labels| == |nodes|
  {
    if nodes == [] then [] else
    var n := |nodes| - 1;
    Labelled(nodes[..n], labels[..n], part) + (if labels[n] == part then [nodes[n]] else [])
  }

  // Move elements from the end of one list to the end of the other, until the first has k.
  function Balance(a: seq<nat>, b: seq<nat>, k: nat): (seq<nat>, seq<nat>)
    requires k <= |a| + |b|
    decreases if |a| > k then |a| - k else k - |a|
  {
    if |a| > k then Balance(a[..|a| - 1], b + [a[|a| - 1]], k)
    else if |a| < k then Balance(a + [b[|b| - 1]], b[..|b| - 1], k)
    else (a, b)
  }

  function Partition(nodes: seq<nat>, k: nat, labels: seq<bool>): (seq<nat>, seq<nat>)
    requires |labels| == |nodes| && k <= |nodes|
  {
    LabelledSizes(nodes, labels);
    Balance(Labelled(nodes, labels, false), Labelled(nodes, labels, true), k)
  }

  lemma {:induction false} LabelledSizes(nodes: seq<nat>, labels: seq<bool>)
    requires |labels| == |nodes|
    ensures |Labelled(nodes, labels, false)| + |Labelled(nodes, labels, true)| == |nodes|
    ensures multiset(Labelled(nodes, labels, false)) + multiset(Labelled(nodes, labels, true)) == multiset(nodes)
  {
    hide Labelled;
    if nodes == [] {
      NothingLabelled(nodes, labels);
    } else {
      var n := |nodes| - 1;
      LabelledSizes(nodes[..n], labels[..n]);
      LabelLast(nodes, labels, false);
      LabelLast(nodes, labels, true);
      LastApart(nodes);
      AppendEither(Labelled(nodes[..n], labels[..n], false), Labelled(nodes[..n], labels[..n], true), nodes[..n],
                   Labelled(nodes, labels, false), Labelled(nodes, labels, true), nodes, nodes[n]);
    }
  }

  lemma NothingLabelled(nodes: seq<nat>, labels: seq<bool>)
    requires |labels| == |nodes| == 0
    ensures Labelled(nodes, labels, false) == Labelled(nodes, labels, true) == nodes
  {
  }

  lemma LastApart(s: seq<nat>)
    requires s != []
    ensures s == s[..|s| - 1] + [s[|s| - 1]]
  {
  }

  lemma {:induction false} LabelLast(nodes: seq<nat>, labels: seq<bool>, part: bool)
    requires |labels| == |nodes| > 0
    ensures var n := |nodes| - 1;
            var x := Labelled(nodes[..n], labels[..n], part);
            Labelled(nodes, labels, part) == if labels[n] == part then x + [nodes[n]] else x
  {
  }

  // Appending an element to either of two lists appends it to their union.
  lemma AppendEither(x: seq<nat>, y: seq<nat>, s: seq<nat>, x': seq<nat>, y': seq<nat>, s': seq<nat>, last: nat)
    requires |x| + |y| == |s| && multiset(x) + multiset(y) == multiset(s)
    requires s' == s + [last] && ((x' == x + [last] && y' == y) || (x' == x && y' == y + [last]))
    ensures |x'| + |y'| == |s'| && multiset(x') + multiset(y') == multiset(s')
  {
    AppendMultiset(x, last);
    AppendMultiset(y, last);
    AppendMultiset(s, last);
  }

  lemma AppendMultiset(s: seq<nat>, x: nat)
    ensures multiset(s + [x]) == multiset(s) + multiset{x}
  {
  }

  lemma {:induction false} BalanceKeeps(a: seq<nat>, b: seq<nat>, k: nat)
    requires k <= |a| + |b|
    ensures var r := Balance(a, b, k);
            |r.0| == k && |r.1| == |a| + |b| - k && multiset(r.0) + multiset(r.1) == multiset(a) + multiset(b)
    decreases if |a| > k then |a| - k else k - |a|
  {
    if |a| > k {
      assert a == a[..|a| - 1] + [a[|a| - 1]];
      BalanceKeeps(a[..|a| - 1], b + [a[|a| - 1]], k);
    } else if |a| < k {
      assert b == b[..|b| - 1] + [b[|b| - 1]];
      BalanceKeeps(a + [b[|b| - 1]], b[..|b| - 1], k);
    }
  }

  lemma {:induction false} DistinctCounts(s: seq<nat>)
    ensures Distinct(s) <==> forall x :: multiset(s)[x] <= 1
  {
    if s != [] {
      var n := |s| - 1;
      var t := s[..n];
      assert s == t + [s[n]];
      DistinctCounts(t);
      if Distinct(s) {
        assert s[n] !in t;
      } else if Distinct(t) {
        var i, j :| 0 <= i < j < |s| && s[i] == s[j];
        assert j == n && s[n] in t;
        assert multiset(s)[s[n]] >= 2;
      } else {
        var x :| multiset(t)[x] > 1;
        assert multiset(s)[x] > 1;
      }
    }
  }

  // Whatever the labels, partition returns two lists of the asked sizes that together list the nodes once each.
  lemma PartitionExact(nodes: seq<nat>, k: nat, labels: seq<bool>)
    requires Distinct(nodes) && |labels| == |nodes| && k <= |nodes|
    ensures var (a, b) := Partition(nodes, k, labels);
            && |a| == k && |b| == |nodes| - k && Distinct(a) && Distinct(b)
            && Elems(a) + Elems(b) == Elems(nodes) && Elems(a) !! Elems(b)
  {
    LabelledSizes(nodes, labels);
    BalanceKeeps(Labelled(nodes, labels, false), Labelled(nodes, labels, true), k);
    var (a, b) := Partition(nodes, k, labels);
    DistinctUnion(nodes, a, b);
  }

  function Backwards(s: seq<nat>): (r: seq<nat>)
    ensures |r| == |s| && forall i | 0 <= i < |s| :: r[i] == s[|s| - 1 - i]
  {
    seq(|s|, i requires 0 <= i < |s| => s[|s| - 1 - i])
  }

  // What balancing moves is the end of the longer list, last element first.
  lemma {:induction false} BalanceShrinks(a: seq<nat>, b: seq<nat>, k: nat)
    requires k <= |a|
    ensures Balance(a, b, k) == (a[..k], b + Backwards(a[k..]))
    decreases |a|
  {
    if |a| > k {
      var n := |a| - 1;
      BalanceShrinks(a[..n], b + [a[n]], k);
      var rest := Backwards(a[..n][k..]);
      assert a[..n][..k] == a[..k];
      assert Backwards(a[k..]) == [a[n]] + rest;
      assert (b + [a[n]]) + rest == b + ([a[n]] + rest);
    } else {
      assert a[..k] == a && b + Backwards(a[k..]) == b;
    }
  }

  lemma {:induction false} BalanceGrows(a: seq<nat>, b: seq<nat>, k: nat)
    requires |a| <= k <= |a| + |b|
    ensures var m := |a| + |b| - k; Balance(a, b, k) == (a + Backwards(b[m..]), b[..m])
    decreases |b|
  {
    var m := |a| + |b| - k;
    if |a| < k {
      var n := |b| - 1;
      BalanceGrows(a + [b[n]], b[..n], k);
      var rest := Backwards(b[..n][m..]);
      assert b[..n][..m] == b[..m];
      assert Backwards(b[m..]) == [b[n]] + rest;
      assert (a + [b[n]]) + rest == a + ([b[n]] + rest);
    } else {
      assert b[..m] == b && a + Backwards(b[m..]) == a;
    }
  }

  ghost predicate HasLabel(nodes: seq<nat>, labels: seq<bool>, part: bool, x: nat)
    requires |labels| == |nodes|
  {
    exists i :: 0 <= i < |nodes| && nodes[i] == x && labels[i] == part
  }

  // The values of pos rise along s.
  ghost predicate Rises(pos: nat -> int, s: seq<nat>) { forall i, j | 0 <= i < j < |s| :: pos(s[i]) < pos(s[j]) }

  // A part holds exactly the nodes of its label, in their order: whatever rises along the nodes rises along it.
  lemma {:induction false} LabelledExact(nodes: seq<nat>, labels: seq<bool>, part: bool, pos: nat -> int)
    requires |labels| == |nodes|
    ensures forall x :: x in Labelled(nodes, labels, part) <==> HasLabel(nodes, labels, part, x)
    ensures Rises(pos, nodes) ==> Rises(pos, Labelled(nodes, labels, part))
  {
    if nodes != [] {
      var n := |nodes| - 1;
      var s, l := nodes[..n], labels[..n];
      LabelledExact(s, l, part, pos);
      LabelLast(nodes, labels, part);
      var p, q := Labelled(nodes, labels, part), Labelled(s, l, part);
      hide Labelled;
      forall x ensures HasLabel(nodes, labels, part, x) <==> HasLabel(s, l, part, x) || (x == nodes[n] && labels[n] == part) {
        if HasLabel(s, l, part, x) {
          var i :| 0 <= i < n && s[i] == x && l[i] == part;
          assert nodes[i] == x && labels[i] == part;
        }
        if HasLabel(nodes, labels, part, x) {
          var i :| 0 <= i < |nodes| && nodes[i] == x && labels[i] == part;
          assert i < n ==> s[i] == x && l[i] == part;
        }
      }
      if Rises(pos, nodes) && p == q + [nodes[n]] {
        forall i | 0 <= i < |q| ensures pos(q[i]) < pos(nodes[n]) {
          assert q[i] in q;
          var c :| 0 <= c < n && s[c] == q[i] && l[c] == part;
          assert nodes[c] == q[i];
        }
      }
    }
  }

  // The partitioner is followed as far as the sizes allow: nodes change sides only from the part that is too large,
  // its last ones, and no more of them than must.
  lemma PartitionFollowsLabels(nodes: seq<nat>, k: nat, labels: seq<bool>)
    requires Distinct(nodes) && |labels| == |nodes| && k <= |nodes|
    ensures var (p0, p1) := (Labelled(nodes, labels, false), Labelled(nodes, labels, true));
            var (a, b) := Partition(nodes, k, labels);
            && (|p0| == k ==> a == p0 && b == p1)
            && (|p0| >= k ==> a == p0[..k] && p1 <= b && |Elems(p0) - Elems(a)| == |p0| - k)
            && (|p0| <= k ==> p0 <= a && b <= p1 && |Elems(a) - Elems(p0)| == k - |p0|)
  {
    var (p0, p1) := (Labelled(nodes, labels, false), Labelled(nodes, labels, true));
    var (a, b) := Partition(nodes, k, labels);
    LabelledSizes(nodes, labels);
    if |p0| >= k { BalanceShrinks(p0, p1, k); }
    if |p0| <= k { BalanceGrows(p0, p1, k); }
    PartitionExact(nodes, k, labels);
    DistinctUnion(nodes, p0, p1);
    hide Partition, Balance, Labelled, Backwards;
    if |p0| >= k {
      PrefixSize(a, p0);
      assert b == p1 + Backwards(p0[k..]);
    }
    if |p0| <= k {
      assert a[..|p0|] == p0;
      PrefixSize(p0, a);
    }
    if |p0| == k { assert p0[..k] == p0 && p1[..|nodes| - k] == p1; }
  }

  // A list without duplicates has as many elements beyond a prefix as it is longer.
  lemma PrefixSize(s: seq<nat>, t: seq<nat>)
    requires s <= t && Distinct(t)
    ensures |Elems(t) - Elems(s)| == |t| - |s|
  {
    ElemsSize(t);
    ElemsSize(s);
    assert Elems(s) <= Elems(t) by { forall x | x in s ensures x in t {} }
    assert Elems(t) == (Elems(t) - Elems(s)) + Elems(s);
  }

  lemma DistinctUnion(nodes: seq<nat>, a: seq<nat>, b: seq<nat>)
    requires Distinct(nodes) && multiset(a) + multiset(b) == multiset(nodes)
    ensures Distinct(a) && Distinct(b) && Elems(a) + Elems(b) == Elems(nodes) && Elems(a) !! Elems(b)
  {
    var ms := multiset(a) + multiset(b);
    DistinctCounts(nodes);
    assert forall x :: ms[x] <= 1;
    assert forall x :: multiset(a)[x] <= ms[x] && multiset(b)[x] <= ms[x];
    DistinctCounts(a);
    DistinctCounts(b);
    forall x ensures x in Elems(nodes) <==> x in Elems(a) || x in Elems(b) {
      assert x in nodes <==> x in ms;
      assert x in a <==> x in multiset(a);
      assert x in b <==> x in multiset(b);
    }
    forall x | x in Elems(a) ensures x !in Elems(b) {
      assert x in multiset(a) && ms[x] <= 1;
      assert x in b <==> x in multiset(b);
    }
  }

  // The source's two loops over the lists.
  method BalanceLists(a0: seq<nat>, b0: seq<nat>, k: nat) returns (a: seq<nat>, b: seq<nat>)
    requires k <= |a0| + |b0|
    ensures (a, b) == Balance(a0, b0, k)
  {
    a, b := a0, b0;
    while |a| > k
      invariant |a| + |b| == |a0| + |b0| && Balance(a, b, k) == Balance(a0, b0, k)
    {
      var last := a[|a| - 1];
      a, b := a[..|a| - 1], b + [last];
    }
    while k > |a|
      invariant |a| <= k && |a| + |b| == |a0| + |b0| && Balance(a, b, k) == Balance(a0, b0, k)
    {
      var last := b[|b| - 1];
      a, b := a + [last], b[..|b| - 1];
    }
  }

  // Read the partitioner's labels line by line, then even out the sizes.
  method PartitionNodes(nodes: seq<nat>, k: nat, labels: seq<bool>) returns (a: seq<nat>, b: seq<nat>)
    requires |labels| == |nodes| && k <= |nodes|
    ensures (a, b) == Partition(nodes, k, labels)
  {
    a, b := [], [];
    var i := 0;
    while i < |nodes|
      invariant i <= |nodes|
      invariant a == Labelled(nodes[..i], labels[..i], false) && b == Labelled(nodes[..i], labels[..i], true)
    {
      assert nodes[..i + 1][..i] == nodes[..i] && labels[..i + 1][..i] == labels[..i];
      if !labels[i] { a := a + [nodes[i]]; } else { b := b + [nodes[i]]; }
      i := i + 1;
    }
    assert nodes[..i] == nodes && labels[..i] == labels;
    LabelledSizes(nodes, labels);
    a, b := BalanceLists(a, b, k);
  }

  // ----- Rectangles -------------------------------------------------------------------------------------

  function Width(tl: Point, br: Point): int { br.x - tl.x + 1 }
  function Height(tl: Point, br: Point): int { br.y - tl.y + 1 }
  function Area(tl: Point, br: Point): int { Width(tl, br) * Height(tl, br) }

  predicate Inside(p: Point, tl: Point, br: Point) { tl.x <= p.x <= br.x && tl.y <= p.y <= br.y }

  // A rectangle, possibly empty, with room for n nodes.
  ghost predicate Fits(n: nat, tl: Point, br: Point) {
    Width(tl, br) >= 0 && Height(tl, br) >= 0 && n <= Area(tl, br)
  }

  // Number of interacting pairs: ordered pairs, halved.
  function CountEdges(o: Oracle, nodes: seq<nat>): nat { PairsUpTo(o, nodes, |nodes|) / 2 }

  function PairsUpTo(o: Oracle, nodes: seq<nat>, i: nat): nat
    requires i <= |nodes|
  {
    if i == 0 then 0 else PairsUpTo(o, nodes, i - 1) + PairsOf(o, nodes, nodes[i - 1], |nodes|)
  }

  function PairsOf(o: Oracle, nodes: seq<nat>, n: nat, j: nat): nat
    requires j <= |nodes|
  {
    if j == 0 then 0 else PairsOf(o, nodes, n, j - 1) + (if o.weight(n, nodes[j - 1]) != 0 then 1 else 0)
  }

  ghost predicate Interacts(o: Oracle, nodes: seq<nat>, x: nat, y: nat) { x in nodes && y in nodes && o.weight(x, y) != 0 }

  // With symmetric weights and no node interacting with itself, no edge is counted exactly if no two nodes interact.
  lemma NoEdges(o: Oracle, nodes: seq<nat>)
    requires forall x, y :: o.weight(x, y) == o.weight(y, x)
    requires forall x :: o.weight(x, x) == 0
    ensures CountEdges(o, nodes) == 0 <==> forall x, y :: !Interacts(o, nodes, x, y)
  {
    var n := |nodes|;
    if x, y :| Interacts(o, nodes, x, y) {
      var i :| 0 <= i < n && nodes[i] == x;
      var j :| 0 <= j < n && nodes[j] == y;
      assert i != j;
      PairsGrow(o, nodes, if i < j then i else j, if i < j then j else i);
    } else {
      NoPairs(o, nodes, n);
    }
  }

  lemma {:induction false} NoPairs(o: Oracle, nodes: seq<nat>, i: nat)
    requires i <= |nodes| && forall x, y :: !Interacts(o, nodes, x, y)
    ensures PairsUpTo(o, nodes, i) == 0
  {
    if i > 0 {
      NoPairs(o, nodes, i - 1);
      NoPairsOf(o, nodes, nodes[i - 1], |nodes|);
    }
  }

  lemma {:induction false} NoPairsOf(o: Oracle, nodes: seq<nat>, n: nat, j: nat)
    requires j <= |nodes| && n in nodes && forall x, y :: !Interacts(o, nodes, x, y)
    ensures PairsOf(o, nodes, n, j) == 0
  {
    if j > 0 {
      NoPairsOf(o, nodes, n, j - 1);
      assert !Interacts(o, nodes, n, nodes[j - 1]);
    }
  }

  // Two nodes that interact count twice.
  lemma PairsGrow(o: Oracle, nodes: seq<nat>, i: nat, j: nat)
    requires i < j < |nodes| && o.weight(nodes[i], nodes[j]) != 0 && o.weight(nodes[j], nodes[i]) != 0
    ensures PairsUpTo(o, nodes, |nodes|) >= 2
  {
    PairsOfGrow(o, nodes, nodes[i], j, |nodes|);
    PairsOfGrow(o, nodes, nodes[j], i, |nodes|);
    PairsUpToGrow(o, nodes, i + 1, j);
    PairsUpToGrow(o, nodes, j + 1, |nodes|);
  }

  lemma {:induction false} PairsUpToGrow(o: Oracle, nodes: seq<nat>, i: nat, k: nat)
    requires i <= k <= |nodes|
    ensures PairsUpTo(o, nodes, i) <= PairsUpTo(o, nodes, k)
    decreases k
  {
    if i < k { PairsUpToGrow(o, nodes, i, k - 1); }
  }

  lemma {:induction false} PairsOfGrow(o: Oracle, nodes: seq<nat>, n: nat, j: nat, k: nat)
    requires j < k <= |nodes| && o.weight(n, nodes[j]) != 0
    ensures PairsOf(o, nodes, n, k) >= 1
    decreases k
  {
    if j < k - 1 { PairsOfGrow(o, nodes, n, j, k - 1); }
  }

  // The first i nodes, placed column by column, h to a column.
  function Fill(nodes: seq<nat>, tl: Point, h: int, i: nat): map<nat, Point>
    requires i <= |nodes| && (i > 0 ==> h > 0)
  {
    if i == 0 then map[] else
    Fill(nodes, tl, h, i - 1)[nodes[i - 1] := Cell(tl, h, i - 1)]
  }

  // The j-th cell, column by column.
  function Cell(tl: Point, h: int, j: nat): Point
    requires h > 0
  {
    Point(tl.x + j / h, tl.y + j % h)
  }

  // The recursive placement.  None stands for the failed assertion that the rectangle starts at the origin.
  function GetLocations(o: Oracle, nodes: seq<nat>, tl: Point, br: Point): Option<map<nat, Point>>
    requires OneLinePerNode(o) && Distinct(nodes) && Fits(|nodes|, tl, br)
    decreases |nodes|, if |nodes| < Area(tl, br) then 1 else 0
  {
    var n := |nodes|;
    if n == 1 then Some(map[nodes[0] := tl])
    else if n == 2 then Some(map[nodes[0] := tl][nodes[1] := br])
    else if CountEdges(o, nodes) == 0 then
      FillFits(n, tl, br);
      Some(Fill(nodes, tl, Height(tl, br), n))
    else if n < Area(tl, br) then
      if tl != Point(0, 0) then None else
      var w := br.x + 1;
      FirstCallFits(n, br);
      var k := w * (n / w);
      if k == n then GetLocations(o, nodes, tl, Point(br.x, n / w - 1)) else
      PartitionExact(nodes, k, o.metis(nodes));
      var (a, b) := Partition(nodes, k, o.metis(nodes));
      Join(GetLocations(o, a, tl, Point(br.x, n / w - 1)),
           GetLocations(o, b, Point(0, n / w), Point(n % w - 1, n / w)))
    else
      SplitFits(n, tl, br);
      var (cut, br1, tl2) := Bisect(tl, br);
      PartitionExact(nodes, cut, o.metis(nodes));
      var (a, b) := Partition(nodes, cut, o.metis(nodes));
      Join(GetLocations(o, a, tl, br1), GetLocations(o, b, tl2, br))
  }

  function Join(x: Option<map<nat, Point>>, y: Option<map<nat, Point>>): Option<map<nat, Point>> {
    if x.Some? && y.Some? then Some(x.value + y.value) else None
  }

  // Floor division by two.
  function Half(x: int): int { x / 2 }

  // Cut a full rectangle across its longer side: the first part's size and corner, the second part's corner.
  function Bisect(tl: Point, br: Point): (int, Point, Point) {
    if br.x - tl.x > br.y - tl.y then
      var half := tl.x + Half(br.x - tl.x - 1);
      ((half - tl.x + 1) * Height(tl, br), Point(half, br.y), Point(half + 1, tl.y))
    else
      var half := tl.y + Half(br.y - tl.y - 1);
      (Width(tl, br) * (half - tl.y + 1), Point(br.x, half), Point(tl.x, half + 1))
  }

  // ----- Areas -------------------------------------------------------------------------------------------

  lemma PositiveProduct(x: int, y: int)
    requires x >= 0 && y >= 0 && x * y > 0
    ensures x > 0 && y > 0
  {
  }

  lemma FillFits(n: nat, tl: Point, br: Point)
    requires Fits(n, tl, br)
    ensures n > 0 ==> Height(tl, br) > 0 && Width(tl, br) > 0
  {
  }

  lemma MulLess(a: int, b: int, w: int)
    requires w > 0
    ensures a * w < b * w <==> a < b
  {
  }

  // On the first call the full rows and the rest row fit exactly, and lie in the rectangle.
  lemma FirstCallFits(n: nat, br: Point)
    requires Fits(n, Point(0, 0), br) && 0 < n < Area(Point(0, 0), br)
    ensures var w := br.x + 1;
            && w > 0 && 0 <= n / w <= br.y && 0 <= n % w < w
            && n == w * (n / w) + n % w
            && Area(Point(0, 0), Point(br.x, n / w - 1)) == w * (n / w)
            && Area(Point(0, n / w), Point(n % w - 1, n / w)) == n % w
            && Fits(w * (n / w), Point(0, 0), Point(br.x, n / w - 1)) && Fits(n % w, Point(0, n / w), Point(n % w - 1, n / w))
  {
    hide Area;
    var w, h := br.x + 1, br.y + 1;
    AreaIs(Point(0, 0), br, w, h);
    PositiveProduct(w, h);
    QuotientBelow(n, w, h);
    AreaIs(Point(0, 0), Point(br.x, n / w - 1), w, n / w);
    AreaIs(Point(0, n / w), Point(n % w - 1, n / w), n % w, 1);
  }

  lemma AreaIs(tl: Point, br: Point, w: int, h: int)
    requires Width(tl, br) == w && Height(tl, br) == h
    ensures Area(tl, br) == w * h
  {
  }

  lemma QuotientBelow(n: nat, w: nat, h: nat)
    requires w > 0 && n < w * h
    ensures n == w * (n / w) + n % w && n / w < h && n % w < w
  {
    Commute(w, h);
    Commute(w, n / w);
    Arithmetic.MulStep(h, n / w, w);
  }

  // Cutting a full rectangle of at least three cells gives two full rectangles, both smaller.
  lemma SplitFits(n: nat, tl: Point, br: Point)
    requires Fits(n, tl, br) && n == Area(tl, br) && n >= 3
    ensures var (cut, br1, tl2) := Bisect(tl, br);
            && 0 < cut < n && Width(tl, br1) > 0 && Height(tl, br1) > 0 && Width(tl2, br) > 0 && Height(tl2, br) > 0
            && Area(tl, br1) == cut && Area(tl2, br) == n - cut
  {
    var w, h := Width(tl, br), Height(tl, br);
    PositiveProduct(w, h);
    if br.x - tl.x > br.y - tl.y {
      CutSide(w, h, Half(w - 2) + 1);
    } else {
      LongSide(w, h);
      CutSide(h, w, Half(h - 2) + 1);
      assert w * (Half(h - 2) + 1) == (Half(h - 2) + 1) * w;
      assert w * (h - (Half(h - 2) + 1)) == (h - (Half(h - 2) + 1)) * w;
      assert w * h == h * w;
    }
  }

  lemma LongSide(w: int, h: int)
    requires 0 < w <= h && w * h >= 3
    ensures h >= 2
  {
  }

  // Cutting a side of length w at k cuts the area.
  lemma CutSide(w: int, h: int, k: int)
    requires h > 0 && 0 < k < w
    ensures 0 < k * h < w * h && (w - k) * h == w * h - k * h
  {
  }

  // ----- Correctness of the placement ------------------------------------------------------------------------

  // Every node has its own cell of the rectangle; if there are as many nodes as cells, every cell is used.
  ghost predicate Placed(nodes: seq<nat>, tl: Point, br: Point, m: map<nat, Point>) {
    && m.Keys == Elems(nodes)
    && (forall n | n in m :: Inside(m[n], tl, br))
    && (forall n, n' | n in m && n' in m && n != n' :: m[n] != m[n'])
    && (|nodes| == Area(tl, br) ==> forall p | Inside(p, tl, br) :: p in m.Values)
  }

  lemma {:induction false} FillAt(nodes: seq<nat>, tl: Point, h: int, i: nat)
    requires i <= |nodes| && (i > 0 ==> h > 0) && Distinct(nodes)
    ensures Fill(nodes, tl, h, i).Keys == Elems(nodes[..i])
    ensures forall j | 0 <= j < i :: nodes[j] in Fill(nodes, tl, h, i)
              && Fill(nodes, tl, h, i)[nodes[j]] == Cell(tl, h, j)
  {
    hide Cell, Fill;
    if i == 0 {
      NothingFilled(nodes, tl, h);
    } else {
      FillAt(nodes, tl, h, i - 1);
      FillLast(nodes, tl, h, i);
      assert nodes[..i] == nodes[..i - 1] + [nodes[i - 1]];
    }
  }

  lemma NothingFilled(nodes: seq<nat>, tl: Point, h: int)
    ensures Fill(nodes, tl, h, 0) == map[]
  {
  }

  lemma FillLast(nodes: seq<nat>, tl: Point, h: int, i: nat)
    requires 0 < i <= |nodes| && h > 0
    ensures Fill(nodes, tl, h, i) == Fill(nodes, tl, h, i - 1)[nodes[i - 1] := Cell(tl, h, i - 1)]
  {
  }

  lemma CellOf(j: int, h: int, w: int)
    requires 0 <= j < w * h && h > 0
    ensures 0 <= j / h < w && 0 <= j % h < h
  {
  }

  lemma CellIndex(q: int, r: int, h: int, w: int)
    requires 0 <= q < w && 0 <= r < h
    ensures 0 <= q * h + r < w * h && (q * h + r) / h == q && (q * h + r) % h == r
  {
    Arithmetic.DivModUnique(q, r, h);
    Arithmetic.MulStep(q, w, h);
    MulLess(-1, q, h);
  }

  lemma FillPlaces(nodes: seq<nat>, tl: Point, br: Point)
    requires Distinct(nodes) && Fits(|nodes|, tl, br) && |nodes| > 0
    ensures Height(tl, br) > 0 && Placed(nodes, tl, br, Fill(nodes, tl, Height(tl, br), |nodes|))
  {
    assert Columns(0, Height(tl, br)) == 0 && Columns(Width(tl, br), Height(tl, br)) == Area(tl, br);
    FillFits(|nodes|, tl, br);
    hide Fill, Columns, Area, Cell, Inside;
    var h, n := Height(tl, br), |nodes|;
    var m := Fill(nodes, tl, h, n);
    FillAt(nodes, tl, h, n);
    assert nodes[..n] == nodes;
    forall x | x in m ensures Inside(m[x], tl, br) {
      var j :| 0 <= j < n && nodes[j] == x;
      CellInside(j, n, tl, br);
    }
    forall x, y | x in m && y in m && x != y ensures m[x] != m[y] {
      var i :| 0 <= i < n && nodes[i] == x;
      var j :| 0 <= j < n && nodes[j] == y;
      SameCell(i, j, tl, h);
    }
    if n == Area(tl, br) {
      forall p | Inside(p, tl, br) ensures p in m.Values { FillReaches(nodes, tl, br, m, p); }
    }
  }

  lemma CellInside(j: nat, n: nat, tl: Point, br: Point)
    requires j < n && Fits(n, tl, br) && Height(tl, br) > 0
    ensures Inside(Cell(tl, Height(tl, br), j), tl, br)
  {
    CellOf(j, Height(tl, br), Width(tl, br));
  }

  lemma SameCell(i: nat, j: nat, tl: Point, h: int)
    requires h > 0
    ensures Cell(tl, h, i) == Cell(tl, h, j) ==> i == j
  {
    assert i == (i / h) * h + i % h && j == (j / h) * h + j % h;
  }

  lemma FillReaches(nodes: seq<nat>, tl: Point, br: Point, m: map<nat, Point>, p: Point)
    requires Inside(p, tl, br) && |nodes| == Area(tl, br) && Height(tl, br) > 0
    requires forall j | 0 <= j < |nodes| ::
               nodes[j] in m && m[nodes[j]] == Cell(tl, Height(tl, br), j)
    ensures p in m.Values
  {
    var w, h := Width(tl, br), Height(tl, br);
    var j := (p.x - tl.x) * h + (p.y - tl.y);
    CellIndex(p.x - tl.x, p.y - tl.y, h, w);
    assert nodes[j] in m && m[nodes[j]] == p;
  }

  lemma FillNext(nodes: seq<nat>, tl: Point, h: int, i: nat, x: int, y: int)
    requires i < |nodes| && x >= tl.x && 0 <= y - tl.y < h && i == Columns(x - tl.x, h) + (y - tl.y)
    ensures Fill(nodes, tl, h, i + 1) == Fill(nodes, tl, h, i)[nodes[i] := Point(x, y)]
  {
    Arithmetic.DivModUnique(x - tl.x, y - tl.y, h);
  }

  // The nested loops that place nodes without interactions.
  method FillColumns(nodes: seq<nat>, tl: Point, br: Point) returns (m: map<nat, Point>)
    requires Fits(|nodes|, tl, br)
    ensures nodes != [] ==> Height(tl, br) > 0
    ensures m == Fill(nodes, tl, Height(tl, br), |nodes|)
  {
    assert Fill(nodes, tl, 0, 0) == Fill(nodes, tl, Height(tl, br), 0) == map[];
    assert Columns(0, Height(tl, br)) == 0 && Columns(Width(tl, br), Height(tl, br)) == Area(tl, br);
    FillFits(|nodes|, tl, br);
    hide Fill, Columns, Area;
    var h, n := Height(tl, br), |nodes|;
    m := map[];
    var i, x := 0, tl.x;
    ghost var full := 0;
    while x <= br.x
      invariant tl.x <= x <= br.x + 1 && 0 <= i <= n
      invariant full == Columns(x - tl.x, h) && (i == n || i == full)
      invariant m == Fill(nodes, tl, h, i)
    {
      var y := tl.y;
      while y <= br.y
        invariant tl.y <= y <= br.y + 1 && 0 <= i <= n
        invariant i == n || i == full + (y - tl.y)
        invariant m == Fill(nodes, tl, h, i)
      {
        if i < n {
          FillNext(nodes, tl, h, i, x, y);
          m := m[nodes[i] := Point(x, y)];
          i := i + 1;
        }
        y := y + 1;
      }
      NextColumn(x - tl.x, h);
      full := full + h;
      x := x + 1;
    }
  }

  // The number of cells in k columns of height h.
  ghost function Columns(k: int, h: int): int { k * h }

  lemma NextColumn(k: int, h: int)
    ensures Columns(k + 1, h) == Columns(k, h) + h
  {
  }

  // Two placements on disjoint parts of a rectangle make one; if both are full and cover it, so is the whole.
  lemma JoinPlaces(nodes: seq<nat>, a: seq<nat>, b: seq<nat>, tl: Point, br: Point,
                   tl1: Point, br1: Point, tl2: Point, br2: Point, x: map<nat, Point>, y: map<nat, Point>)
    requires Elems(a) + Elems(b) == Elems(nodes) && Elems(a) !! Elems(b)
    requires Placed(a, tl1, br1, x) && Placed(b, tl2, br2, y)
    requires forall p :: Inside(p, tl1, br1) || Inside(p, tl2, br2) ==> Inside(p, tl, br)
    requires forall p :: !(Inside(p, tl1, br1) && Inside(p, tl2, br2))
    requires |nodes| == Area(tl, br) ==>
               && |a| == Area(tl1, br1) && |b| == Area(tl2, br2)
               && forall p | Inside(p, tl, br) :: Inside(p, tl1, br1) || Inside(p, tl2, br2)
    ensures Placed(nodes, tl, br, x + y)
  {
  }

  // A full rectangle is placed completely, whatever the partitioner answers; the assertion is not reached.
  lemma {:induction false} FullRectanglePlaced(o: Oracle, nodes: seq<nat>, tl: Point, br: Point)
    requires OneLinePerNode(o) && Distinct(nodes) && Fits(|nodes|, tl, br) && |nodes| == Area(tl, br)
    ensures var r := GetLocations(o, nodes, tl, br);
            r.Some? && Placed(nodes, tl, br, r.value)
    decreases |nodes|
  {
    hide CountEdges, Partition, Placed, Bisect;
    var n := |nodes|;
    if n == 0 {
      NothingPlaced(nodes, tl, br);
      PairsOfNothing(o, nodes);
    } else if n <= 2 {
      FewPlaced(nodes, tl, br);
    } else if CountEdges(o, nodes) == 0 {
      FillPlaces(nodes, tl, br);
    } else {
      SplitFits(n, tl, br);
      var (cut, br1, tl2) := Bisect(tl, br);
      PartitionExact(nodes, cut, o.metis(nodes));
      var (a, b) := Partition(nodes, cut, o.metis(nodes));
      FullRectanglePlaced(o, a, tl, br1);
      FullRectanglePlaced(o, b, tl2, br);
      BisectCovers(tl, br, n);
      JoinPlaces(nodes, a, b, tl, br, tl, br1, tl2, br,
                 GetLocations(o, a, tl, br1).value, GetLocations(o, b, tl2, br).value);
    }
  }

  // Each part of the nodes is placed in its own part of the rectangle.
  lemma PartsKeepApart(o: Oracle, nodes: seq<nat>, tl: Point, br: Point)
    requires OneLinePerNode(o) && Distinct(nodes) && Fits(|nodes|, tl, br) && |nodes| == Area(tl, br)
    requires |nodes| > 2 && CountEdges(o, nodes) != 0
    ensures var (cut, br1, tl2) := Bisect(tl, br);
            var r := GetLocations(o, nodes, tl, br);
            && cut <= |nodes| && r.Some?
            && var (a, b) := Partition(nodes, cut, o.metis(nodes));
            && (forall x | x in a :: x in r.value && Inside(r.value[x], tl, br1))
            && (forall x | x in b :: x in r.value && Inside(r.value[x], tl2, br))
  {
    var n := |nodes|;
    SplitFits(n, tl, br);
    var (cut, br1, tl2) := Bisect(tl, br);
    PartitionExact(nodes, cut, o.metis(nodes));
    var (a, b) := Partition(nodes, cut, o.metis(nodes));
    FullRectanglePlaced(o, a, tl, br1);
    FullRectanglePlaced(o, b, tl2, br);
    hide CountEdges, Partition, Bisect, Inside, Distinct, Area;
    var x, y := GetLocations(o, a, tl, br1).value, GetLocations(o, b, tl2, br).value;
    assert GetLocations(o, nodes, tl, br) == Some(x + y);
    forall p | p in a ensures p in x + y && (x + y)[p] == x[p] { assert p in Elems(a) && p !in Elems(b); }
    forall p | p in b ensures p in x + y && (x + y)[p] == y[p] { assert p in Elems(b); }
  }

  // The longer side (the height of a square) is halved, the first part no larger than the second; the parts meet.
  lemma BisectHalves(tl: Point, br: Point)
    requires Width(tl, br) > 0 && Height(tl, br) > 0 && Area(tl, br) > 2
    ensures var (cut, br1, tl2) := Bisect(tl, br);
            var (w, h, w1, h1) := (Width(tl, br), Height(tl, br), Width(tl, br1), Height(tl, br1));
            && w1 <= Width(tl2, br) <= w1 + 1 && h1 <= Height(tl2, br) <= h1 + 1 && cut == w1 * h1
            && (if w > h then h1 == h && w1 + Width(tl2, br) == w && tl2 == Point(br1.x + 1, tl.y)
                else w1 == w && h1 + Height(tl2, br) == h && tl2 == Point(tl.x, br1.y + 1))
  {
  }

  lemma PairsOfNothing(o: Oracle, nodes: seq<nat>)
    requires nodes == []
    ensures CountEdges(o, nodes) == 0
  {
  }

  lemma NothingPlaced(nodes: seq<nat>, tl: Point, br: Point)
    requires nodes == [] && Fits(0, tl, br)
    ensures Placed(nodes, tl, br, map[])
  {
  }

  lemma FewPlaced(nodes: seq<nat>, tl: Point, br: Point)
    requires Distinct(nodes) && 1 <= |nodes| <= 2 && Fits(|nodes|, tl, br)
    ensures Placed(nodes, tl, br, if |nodes| == 1 then map[nodes[0] := tl] else map[nodes[0] := tl][nodes[1] := br])
  {
    var w, h := Width(tl, br), Height(tl, br);
    PositiveProduct(w, h);
    var m := if |nodes| == 1 then map[nodes[0] := tl] else map[nodes[0] := tl][nodes[1] := br];
    assert m[nodes[0]] == tl;
    if |nodes| == 2 { assert m[nodes[1]] == br; }
    if |nodes| == w * h {
      SmallArea(w, h);
      forall p | Inside(p, tl, br) ensures p in m.Values { assert p == tl || p == br; }
    }
  }

  lemma SmallArea(w: int, h: int)
    requires w > 0 && h > 0 && w * h <= 2
    ensures w == 1 || h == 1
    ensures w <= 2 && h <= 2
  {
  }

  lemma BisectCovers(tl: Point, br: Point, n: nat)
    requires Fits(n, tl, br) && n == Area(tl, br) && n >= 3
    ensures var (cut, br1, tl2) := Bisect(tl, br);
            && (forall p :: Inside(p, tl, br1) || Inside(p, tl2, br) <==> Inside(p, tl, br))
            && (forall p :: !(Inside(p, tl, br1) && Inside(p, tl2, br)))
  {
  }

  // The base cases of the recursion.
  lemma BaseLocations(o: Oracle, nodes: seq<nat>, tl: Point, br: Point)
    requires OneLinePerNode(o) && Distinct(nodes) && Fits(|nodes|, tl, br)
    ensures |nodes| == 1 ==> GetLocations(o, nodes, tl, br) == Some(map[nodes[0] := tl])
    ensures |nodes| == 2 ==> GetLocations(o, nodes, tl, br) == Some(map[nodes[0] := tl][nodes[1] := br])
    ensures |nodes| > 0 ==> Height(tl, br) > 0
    ensures (|nodes| == 0 || |nodes| >= 3) && CountEdges(o, nodes) == 0 ==>
              GetLocations(o, nodes, tl, br) == Some(Fill(nodes, tl, Height(tl, br), |nodes|))
  {
    hide CountEdges, Partition, Bisect, Fill, Area, Fits;
    FillFits(|nodes|, tl, br);
  }

  // From main: a rectangle at the origin with room for all nodes.  For any partitioner answer the assertion
  // holds and every node gets its own cell.
  lemma FirstCallPlaced(o: Oracle, nodes: seq<nat>, br: Point)
    requires OneLinePerNode(o) && Distinct(nodes) && Fits(|nodes|, Point(0, 0), br)
    ensures var r := GetLocations(o, nodes, Point(0, 0), br);
            r.Some? && Placed(nodes, Point(0, 0), br, r.value)
  {
    assert |nodes| <= Area(Point(0, 0), br);
    hide CountEdges, Partition, Placed, GetLocations, Area, Fits, Fill;
    var n, tl := |nodes|, Point(0, 0);
    BaseLocations(o, nodes, tl, br);
    if n == Area(tl, br) {
      FullRectanglePlaced(o, nodes, tl, br);
    } else if n == 0 {
      NothingPlaced(nodes, tl, br);
      PairsOfNothing(o, nodes);
      NothingFilled(nodes, tl, Height(tl, br));
    } else if n <= 2 {
      FewPlaced(nodes, tl, br);
    } else if CountEdges(o, nodes) == 0 {
      FillPlaces(nodes, tl, br);
    } else {
      RowsLocated(o, nodes, br);
    }
  }

  lemma RowsLocated(o: Oracle, nodes: seq<nat>, br: Point)
    requires OneLinePerNode(o) && Distinct(nodes) && Fits(|nodes|, Point(0, 0), br)
    requires 3 <= |nodes| < Area(Point(0, 0), br) && CountEdges(o, nodes) != 0
    ensures var r := GetLocations(o, nodes, Point(0, 0), br);
            r.Some? && Placed(nodes, Point(0, 0), br, r.value)
  {
    hide CountEdges, Partition, Placed, GetLocations, Area, Fits, Fill;
    var n, tl, w := |nodes|, Point(0, 0), br.x + 1;
    FirstCallFits(n, br);
    var q, rest := n / w, n % w;
    var k := w * q;
    var br1, tl2, br2 := Point(br.x, q - 1), Point(0, q), Point(rest - 1, q);
    RowsSplit(o, nodes, br, k, br1, tl2, br2);
    if k == n {
      FullRectanglePlaced(o, nodes, tl, br1);
      LargerRectangle(nodes, tl, br1, br, GetLocations(o, nodes, tl, br1).value);
    } else {
      PartitionExact(nodes, k, o.metis(nodes));
      var (a, b) := Partition(nodes, k, o.metis(nodes));
      FullRectanglePlaced(o, a, tl, br1);
      FullRectanglePlaced(o, b, tl2, br2);
      JoinPlaces(nodes, a, b, tl, br, tl, br1, tl2, br2,
                 GetLocations(o, a, tl, br1).value, GetLocations(o, b, tl2, br2).value);
    }
  }

  lemma LargerRectangle(nodes: seq<nat>, tl: Point, br1: Point, br: Point, m: map<nat, Point>)
    requires Placed(nodes, tl, br1, m) && br1.x <= br.x && br1.y <= br.y && |nodes| < Area(tl, br)
    ensures Placed(nodes, tl, br, m)
  {
  }

  // ----- Relabelling --------------------------------------------------------------------------------------

  // Row by row, left to right.
  predicate Earlier(p: Point, q: Point) { p.y < q.y || (p.y == q.y && p.x < q.x) }

  // The nodes placed before q, in row-major order.
  ghost predicate ListsUpTo(order: seq<nat>, m: map<nat, Point>, q: Point) {
    && (forall n | n in order :: n in m)
    && (forall n | n in m :: n in order <==> Earlier(m[n], q))
    && (forall i, j | 0 <= i < j < |order| :: order[i] in m && order[j] in m && Earlier(m[order[i]], m[order[j]]))
  }

  lemma ListsNext(order: seq<nat>, m: map<nat, Point>, q: Point, n: nat)
    requires ListsUpTo(order, m, q) && n in m && m[n] == q
    requires forall a, b | a in m && b in m && a != b :: m[a] != m[b]
    ensures ListsUpTo(order + [n], m, Point(q.x + 1, q.y))
  {
  }

  // Scan the rectangle row by row and list the nodes found.
  method RowMajor(nodes: seq<nat>, m: map<nat, Point>, br: Point) returns (order: seq<nat>)
    requires Placed(nodes, Point(0, 0), br, m) && br.x >= -1 && br.y >= -1
    ensures Elems(order) == m.Keys
    ensures forall i, j | 0 <= i < j < |order| :: order[i] in m && order[j] in m && Earlier(m[order[i]], m[order[j]])
  {
    var at: map<Point, nat> := map p | p in m.Values :: var n :| n in m && m[n] == p; n;
    order := [];
    var y := 0;
    while y <= br.y
      invariant 0 <= y <= br.y + 1
      invariant ListsUpTo(order, m, Point(0, y))
    {
      var x := 0;
      while x <= br.x
        invariant 0 <= x <= br.x + 1
        invariant ListsUpTo(order, m, Point(x, y))
      {
        if Point(x, y) in at {
          ListsNext(order, m, Point(x, y), at[Point(x, y)]);
          order := order + [at[Point(x, y)]];
        } else {
          assert forall n | n in m :: m[n] != Point(x, y);
        }
        x := x + 1;
      }
      y := y + 1;
    }
    assert forall n | n in m :: Inside(m[n], Point(0, 0), br);
  }

  // Number the listed nodes from 0 on.
  method Renumber(order: seq<nat>) returns (d: map<nat, nat>)
    requires Distinct(order)
    ensures d.Keys == Elems(order)
    ensures forall i | 0 <= i < |order| :: order[i] in d && d[order[i]] == i
  {
    d := map[];
    var i := 0;
    while i < |order|
      invariant i <= |order|
      invariant d.Keys == Elems(order[..i])
      invariant forall j | 0 <= j < i :: order[j] in d && d[order[j]] == j
    {
      assert order[..i + 1] == order[..i] + [order[i]];
      d := d[order[i] := i];
      i := i + 1;
    }
    assert order[..i] == order;
  }

  // The side of the smallest square with room for n nodes.
  function SquareSize(n: nat): (s: nat)
    ensures n <= s * s && (n > 0 ==> (s - 1) * (s - 1) < n)
  {
    SquareFrom(n, 0)
  }

  function SquareFrom(n: nat, s: nat): (r: nat)
    requires s == 0 || (s - 1) * (s - 1) < n
    ensures n <= r * r && (n > 0 ==> (r - 1) * (r - 1) < n)
    decreases n - s
  {
    if s * s >= n then s
    else
      assert s <= s * s;
      SquareFrom(n, s + 1)
  }

  function Numbers(n: nat): seq<nat> { seq(n, i => i) }

  // The width of the simulator's grid for n qubits: one column of the square is left out if the others suffice.
  function SimulatorCols(n: nat): int {
    var side: int := SquareSize(n);
    if side * (side - 1) < n then side else side - 1
  }

  // The place is the one that the simulator gives tile `number` on a grid of the given width.
  predicate IsTile(p: Point, number: nat, width: int) { width > 0 && p == Point(number % width, number / width) }

  // The whole layout step for a module of `count` qubits: the new labels are a permutation of the old ones
  // that numbers the qubits by their place, row by row; no two qubits share a place.  The labels are the tiles of the
  // square, or those of the simulator's grid, exactly under the conditions given.
  method Layout(o: Oracle, count: nat) returns (d: map<nat, nat>, places: map<nat, Point>)
    requires OneLinePerNode(o)
    ensures d.Keys == places.Keys == Elems(Numbers(count))
    ensures forall v | v in d.Values :: v < count
    ensures forall a, b | a in d && b in d && a != b :: d[a] != d[b] && places[a] != places[b]
    ensures forall a, b | a in d && b in d :: d[a] < d[b] <==> Earlier(places[a], places[b])
    ensures forall a | a in places :: Inside(places[a], Point(0, 0), Point(SquareSize(count) - 1, SquareSize(count) - 1))
    ensures (forall a | a in d :: IsTile(places[a], d[a], SquareSize(count))) <==> NoGaps(o, count)
    ensures (forall a | a in d :: IsTile(places[a], d[a], SimulatorCols(count))) <==> KeepsTiles(o, count)
    ensures count == 5 && CountEdges(o, Numbers(5)) != 0 ==>
              exists a :: a in d && d[a] == 2 && places[a] == Point(2, 0) && !IsTile(places[a], 2, SimulatorCols(5))
  {
    hide GetLocations, Fits, SquareSize, SimulatorCols, NoGaps, KeepsTiles, Compact, CellNumber, CountEdges, IsTile;
    var nodes := Numbers(count);
    var side: int := SquareSize(count);
    var br := Point(side - 1, side - 1);
    SquareFits(count);
    FirstCallPlaced(o, nodes, br);
    places := GetLocations(o, nodes, Point(0, 0), br).value;
    var order := RowMajor(nodes, places, br);
    forall i, j | 0 <= i < j < |order| ensures order[i] != order[j] { assert Earlier(places[order[i]], places[order[j]]); }
    d := Renumber(order);
    OrderIsRank(order, places, d);
    SameSize(nodes, order);
    assert places.Keys == Elems(nodes);
    TilesOfCompact(order, places, d, side);
    CompactPlacement(o, count);
    TilesOfCompact(order, places, d, SimulatorCols(count));
    TilePlacement(o, count);
    FiveMissTheirTiles();
    if count == 5 && CountEdges(o, nodes) != 0 {
      assert NoGaps(o, count) by { SomeInteract(o, count); }
      assert order[2] in d && d[order[2]] == 2 && IsTile(places[order[2]], 2, side);
    }
  }

  // ----- Labels as tiles --------------------------------------------------------------------------------------

  // The number of a cell on a grid of the given width, row by row.
  function CellNumber(p: Point, width: int): int { p.y * width + p.x }

  // The placement fills the first cells of the square without a gap: there is at most one node; or at least three,
  // and either some of them interact or at most one cell of the square is free.
  predicate NoGaps(o: Oracle, count: nat) {
    count <= 1 || (count >= 3 && (CountEdges(o, Numbers(count)) != 0 || count + 1 >= SquareSize(count) * SquareSize(count)))
  }

  // Every label is the simulator's tile of its place: there is at most one node; or at least three, and either some
  // interact and the simulator needs the whole square, or at most one of its tiles is free.
  predicate KeepsTiles(o: Oracle, count: nat) {
    count <= 1 ||
    (count >= 3 &&
     if CountEdges(o, Numbers(count)) != 0 then SquareSize(count) * (SquareSize(count) - 1) < count
     else count + 1 >= SimulatorCols(count) * SquareSize(count))
  }

  // The places are among the first n cells of a grid of the given width.
  ghost predicate Compact(m: map<nat, Point>, width: int, n: nat) {
    forall a | a in m :: m[a].x < width && CellNumber(m[a], width) < n
  }

  ghost predicate InOrder(order: seq<nat>, m: map<nat, Point>) {
    && (forall i | 0 <= i < |order| :: order[i] in m)
    && (forall a | a in m :: m[a].x >= 0 && m[a].y >= 0)
    && (forall i, j | 0 <= i < j < |order| :: order[i] in m && order[j] in m && Earlier(m[order[i]], m[order[j]]))
  }

  lemma EarlierIsLess(p: Point, q: Point, width: nat)
    requires 0 <= p.x < width && 0 <= q.x && 0 <= p.y && 0 <= q.y && Earlier(p, q)
    ensures CellNumber(p, width) < CellNumber(q, width)
  {
    if p.y < q.y { Arithmetic.MulStep(p.y, q.y, width); }
  }

  lemma CellNotNegative(p: Point, width: nat)
    requires p.x >= 0 && p.y >= 0
    ensures CellNumber(p, width) >= 0
  {
    if p.y > 0 { Arithmetic.MulStep(0, p.y, width); }
  }

  lemma {:induction false} CellsRise(order: seq<nat>, m: map<nat, Point>, width: nat, i: nat)
    requires InOrder(order, m) && i < |order| && Compact(m, width, |order|)
    ensures CellNumber(m[order[i]], width) >= i
  {
    hide CellNumber;
    CellNotNegative(m[order[i]], width);
    if i > 0 {
      CellsRise(order, m, width, i - 1);
      EarlierIsLess(m[order[i - 1]], m[order[i]], width);
    }
  }

  lemma {:induction false} CellsBounded(order: seq<nat>, m: map<nat, Point>, width: nat, i: nat)
    requires InOrder(order, m) && i < |order| && Compact(m, width, |order|)
    ensures CellNumber(m[order[i]], width) <= i
    decreases |order| - i
  {
    hide CellNumber;
    if i + 1 < |order| {
      CellsBounded(order, m, width, i + 1);
      EarlierIsLess(m[order[i]], m[order[i + 1]], width);
    }
  }

  lemma TileIsCell(p: Point, number: nat, width: int)
    requires p.x >= 0 && p.y >= 0
    ensures IsTile(p, number, width) <==> 0 < width && p.x < width && CellNumber(p, width) == number
  {
    if width > 0 {
      if p.x < width { Arithmetic.DivModUnique(p.y, p.x, width); }
      assert number == (number / width) * width + number % width;
    }
  }

  // Ranks are tiles of a grid exactly if the places are among its first cells.
  lemma TilesOfCompact(order: seq<nat>, m: map<nat, Point>, d: map<nat, nat>, width: int)
    requires Elems(order) == m.Keys == d.Keys
    requires forall a | a in m :: m[a].x >= 0 && m[a].y >= 0
    requires forall i, j | 0 <= i < j < |order| :: order[i] in m && order[j] in m && Earlier(m[order[i]], m[order[j]])
    requires forall i | 0 <= i < |order| :: order[i] in d && d[order[i]] == i
    ensures (forall a | a in d :: IsTile(m[a], d[a], width)) <==> Compact(m, width, |order|)
  {
    hide CellNumber, IsTile;
    assert InOrder(order, m);
    forall a | a in m
      ensures IsTile(m[a], d[a], width) ==> m[a].x < width && CellNumber(m[a], width) < |order|
      ensures Compact(m, width, |order|) ==> IsTile(m[a], d[a], width)
    {
      assert a in Elems(order);
      var i :| 0 <= i < |order| && order[i] == a;
      TileIsCell(m[a], i, width);
      if Compact(m, width, |order|) {
        CellsRise(order, m, width, i);
        CellsBounded(order, m, width, i);
      }
    }
  }

  // ----- Which placements are compact -------------------------------------------------------------------------

  lemma SquareMonotone(a: nat, b: nat)
    requires a <= b
    ensures a * a <= b * b
  {
    if a < b {
      Arithmetic.MulStep(a, b, a);
      Arithmetic.MulStep(a, b, b);
    }
  }

  lemma SquareIs(n: nat, s: nat)
    requires s > 0 && (s - 1) * (s - 1) < n <= s * s
    ensures SquareSize(n) == s
  {
    hide SquareSize;
    var r := SquareSize(n);
    if r < s { SquareMonotone(r, s - 1); }
    if r > s { SquareMonotone(s, r - 1); }
  }

  lemma SmallSquares()
    ensures SquareSize(0) == 0 && SquareSize(1) == 1 && SquareSize(2) == 2 && SquareSize(5) == 3
    ensures SimulatorCols(1) == 1 && SimulatorCols(2) == 1 && SimulatorCols(5) == 2
  {
    SquareIs(1, 1);
    SquareIs(2, 2);
    SquareIs(5, 3);
  }

  // For three nodes and more: the side, and the width of the simulator's grid.
  lemma SquareBounds(n: nat)
    requires n >= 3
    ensures var s: int := SquareSize(n);
            && s >= 2 && n >= s && (s - 2) * s + 1 == (s - 1) * (s - 1) < n <= s * s
            && (SimulatorCols(n) == s || (SimulatorCols(n) == s - 1 && s >= 3 && n <= (s - 1) * s))
            && (SimulatorCols(n) == s <==> s * (s - 1) < n)
  {
    hide SquareSize;
    var s: int := SquareSize(n);
    if s < 2 { SquareMonotone(s, 1); }
    Arithmetic.MulStep(0, s - 1, s - 1);
    if s == 2 { assert SimulatorCols(n) == 2; }
  }

  // Five interacting nodes fill the first row of the square of side 3; the simulator's grid is two tiles wide.
  lemma FiveMissTheirTiles()
    ensures SquareSize(5) == 3 && SimulatorCols(5) == 2
    ensures forall p | IsTile(p, 2, 3) :: p == Point(2, 0) && !IsTile(p, 2, 2)
  {
    hide SquareSize, SimulatorCols;
    SmallSquares();
  }

  lemma SomeInteract(o: Oracle, count: nat)
    requires count >= 3 && CountEdges(o, Numbers(count)) != 0
    ensures NoGaps(o, count)
  {
  }

  // Where the first call leaves gaps in the square.
  lemma CompactPlacement(o: Oracle, count: nat)
    requires OneLinePerNode(o)
    ensures var side := SquareSize(count);
            var br := Point(side - 1, side - 1);
            && Fits(count, Point(0, 0), br)
            && var r := GetLocations(o, Numbers(count), Point(0, 0), br);
            r.Some? && (Compact(r.value, side, count) <==> NoGaps(o, count))
  {
    hide CountEdges, Partition, Placed, GetLocations, Fits, Compact, CellNumber, SquareSize, SimulatorCols;
    var side: int, nodes := SquareSize(count), Numbers(count);
    var tl, br := Point(0, 0), Point(side - 1, side - 1);
    SquareFits(count);
    FirstCallPlaced(o, nodes, br);
    var m := GetLocations(o, nodes, tl, br).value;
    if count <= 2 {
      FewCompact(o, count);
    } else if count == side * side {
      InsideCompact(nodes, m, side);
    } else if CountEdges(o, nodes) == 0 {
      SquareBounds(count);
      FilledColumns(o, count);
      if (side - 1) * side <= count { FilledCompact(count, side, side); } else { FilledSparse(count, side); }
    } else {
      RowsPlaced(o, count);
    }
  }

  // Where the labels are the simulator's tiles.
  lemma TilePlacement(o: Oracle, count: nat)
    requires OneLinePerNode(o)
    ensures var side := SquareSize(count);
            var br := Point(side - 1, side - 1);
            && Fits(count, Point(0, 0), br)
            && var r := GetLocations(o, Numbers(count), Point(0, 0), br);
            r.Some? && (Compact(r.value, SimulatorCols(count), count) <==> KeepsTiles(o, count))
  {
    hide CountEdges, Partition, Placed, GetLocations, Fits, Compact, CellNumber, SquareSize, SimulatorCols;
    var side: int, nodes := SquareSize(count), Numbers(count);
    CompactPlacement(o, count);
    if count <= 2 {
      FewCompact(o, count);
    } else {
      SquareBounds(count);
      if SimulatorCols(count) == side - 1 {
        if CountEdges(o, nodes) == 0 {
          FilledColumns(o, count);
          FilledCompact(count, side - 1, side);
        } else {
          RowsPlaced(o, count);
          LastColumnUsed(GetLocations(o, nodes, Point(0, 0), Point(side - 1, side - 1)).value, side - 1, count);
        }
      }
    }
  }

  lemma LastColumnUsed(m: map<nat, Point>, width: int, n: nat)
    requires Point(width, 0) in m.Values
    ensures !Compact(m, width, n)
  {
    var a :| a in m && m[a] == Point(width, 0);
  }

  lemma InsideCompact(nodes: seq<nat>, m: map<nat, Point>, side: nat)
    requires Placed(nodes, Point(0, 0), Point(side - 1, side - 1), m)
    ensures Compact(m, side, side * side)
  {
    forall a | a in m ensures m[a].x < side && CellNumber(m[a], side) < side * side {
      CellBelow(m[a].x, m[a].y, side, side);
    }
  }

  // Two nodes go to opposite corners of the square of side 2.
  lemma FewCompact(o: Oracle, count: nat)
    requires OneLinePerNode(o) && count <= 2
    ensures var side := SquareSize(count);
            var br := Point(side - 1, side - 1);
            && Fits(count, Point(0, 0), br)
            && var r := GetLocations(o, Numbers(count), Point(0, 0), br);
            && r.Some?
            && (Compact(r.value, side, count) <==> count != 2) && (Compact(r.value, SimulatorCols(count), count) <==> count != 2)
            && (count == 2 ==> r.value == map[0 := Point(0, 0), 1 := Point(1, 1)])
  {
    hide SquareSize, SimulatorCols, Fits, CountEdges, GetLocations, Fill;
    SquareFits(count);
    SmallSquares();
    var side: int := SquareSize(count);
    BaseLocations(o, Numbers(count), Point(0, 0), Point(side - 1, side - 1));
    var r := GetLocations(o, Numbers(count), Point(0, 0), Point(side - 1, side - 1));
    if count == 0 {
      PairsOfNothing(o, Numbers(0));
      NothingFilled(Numbers(0), Point(0, 0), Height(Point(0, 0), Point(side - 1, side - 1)));
      assert r.value == map[];
    } else if count == 1 {
      assert r.value == map[0 := Point(0, 0)];
    } else {
      assert r.value == map[0 := Point(0, 0)][1 := Point(1, 1)];
      assert r.value[1] == Point(1, 1);
    }
  }

  lemma FilledColumns(o: Oracle, count: nat)
    requires OneLinePerNode(o) && count >= 3 && CountEdges(o, Numbers(count)) == 0
    ensures var side := SquareSize(count);
            var br := Point(side - 1, side - 1);
            && Fits(count, Point(0, 0), br) && side > 0
            && GetLocations(o, Numbers(count), Point(0, 0), br) == Some(Fill(Numbers(count), Point(0, 0), side, count))
  {
    hide CountEdges, Fill, SquareSize, Fits, GetLocations;
    SquareFits(count);
    var side: int := SquareSize(count);
    BaseLocations(o, Numbers(count), Point(0, 0), Point(side - 1, side - 1));
  }

  lemma OneRowLess(h: nat, w: nat)
    requires h > 0
    ensures (h - 1) * w + w == h * w
  {
  }

  // Row y, column x of a grid of h rows and w columns; only the last cell has the last number.
  lemma CellBelow(x: nat, y: nat, w: nat, h: nat)
    requires x < w && y < h
    ensures CellNumber(Point(x, y), w) < h * w
    ensures CellNumber(Point(x, y), w) == h * w - 1 <==> x == w - 1 && y == h - 1
  {
    OneRowLess(h, w);
    Arithmetic.MulStep(y, h - 1, w);
  }

  // The cells of the first nodes, column by column.
  lemma FilledCell(count: nat, h: int, j: nat)
    requires h > 0 && j < count
    ensures var m := Fill(Numbers(count), Point(0, 0), h, count);
            j in m && m[j] == Cell(Point(0, 0), h, j) && m.Keys == Elems(Numbers(count))
  {
    hide Fill;
    var nodes := Numbers(count);
    FillAt(nodes, Point(0, 0), h, count);
    assert nodes[..count] == nodes && nodes[j] == j;
  }

  // Filled column by column into w columns of height h, the last of which is used: at most the last cell may be free.
  lemma FilledCompact(count: nat, w: int, h: int)
    requires count >= 1 && w >= 2 && h > 0 && (w - 1) * h <= count <= w * h
    ensures Compact(Fill(Numbers(count), Point(0, 0), h, count), w, count) <==> count + 1 >= w * h
  {
    hide Fill, CellNumber, Cell;
    var m := Fill(Numbers(count), Point(0, 0), h, count);
    if count + 1 >= w * h {
      forall a | a in m ensures m[a].x < w && CellNumber(m[a], w) < count {
        FilledCell(count, h, 0);
        assert a in Elems(Numbers(count));
        FilledCell(count, h, a);
        NearlyFull(a, w, h, count);
      }
    } else {
      var j := LastButOneColumn(w, h, count);
      FilledCell(count, h, j);
    }
  }

  lemma FilledSparse(count: nat, side: int)
    requires count >= 3 && side >= 2 && count >= side && count < (side - 1) * side
    ensures !Compact(Fill(Numbers(count), Point(0, 0), side, count), side, count)
  {
    hide Fill;
    FilledCell(count, side, side - 1);
    assert Cell(Point(0, 0), side, side - 1) == Point(0, side - 1);
  }

  lemma NearlyFull(j: nat, w: int, h: int, count: nat)
    requires w > 0 && h > 0 && j < count && w * h - 1 <= count <= w * h
    ensures Cell(Point(0, 0), h, j).x < w && CellNumber(Cell(Point(0, 0), h, j), w) < count
  {
    hide CellNumber;
    CellOf(j, h, w);
    var q, r := j / h, j % h;
    assert Cell(Point(0, 0), h, j) == Point(q, r);
    CellBelow(q, r, w, h);
    CellBelow(r, q, h, w);
    Commute(w, h);
    IndexOfCell(j, h);
  }

  lemma Commute(x: int, y: int)
    ensures x * y == y * x
  {
  }

  // Column by column is row by row with the axes exchanged.
  lemma IndexOfCell(j: nat, h: int)
    requires h > 0
    ensures CellNumber(Point(j % h, j / h), h) == j
  {
  }

  // The last node of the last column but one lies beyond the first cells.
  lemma LastButOneColumn(w: int, h: int, count: nat) returns (j: nat)
    requires w >= 2 && h > 0 && (w - 1) * h <= count && count + 1 < w * h
    ensures j < count && CellNumber(Cell(Point(0, 0), h, j), w) >= count
  {
    OneRowLess(w - 1, h);
    Arithmetic.MulStep(0, w - 1, h);
    j := (w - 2) * h + (h - 1);
    Arithmetic.DivModUnique(w - 2, h - 1, h);
    assert Cell(Point(0, 0), h, j) == Point(w - 2, h - 1);
    OneRowLess(h, w);
    Commute(w, h);
  }

  // The first call on a square it does not fill: k nodes in the full rows br1, the rest in the row from tl2 to br2.
  lemma RowsSplit(o: Oracle, nodes: seq<nat>, br: Point, k: nat, br1: Point, tl2: Point, br2: Point)
    requires OneLinePerNode(o) && Distinct(nodes) && Fits(|nodes|, Point(0, 0), br)
    requires 3 <= |nodes| < Area(Point(0, 0), br) && CountEdges(o, nodes) != 0
    requires var n, w := |nodes|, br.x + 1;
             && w > 0 && k == w * (n / w) <= n
             && br1 == Point(br.x, n / w - 1) && tl2 == Point(0, n / w) && br2 == Point(n % w - 1, n / w)
    requires Fits(k, Point(0, 0), br1) && Fits(|nodes| - k, tl2, br2)
    ensures k == |nodes| ==> GetLocations(o, nodes, Point(0, 0), br) == GetLocations(o, nodes, Point(0, 0), br1)
    ensures k < |nodes| ==>
              (PartitionExact(nodes, k, o.metis(nodes));
               var (a, b) := Partition(nodes, k, o.metis(nodes));
               GetLocations(o, nodes, Point(0, 0), br)
               == Join(GetLocations(o, a, Point(0, 0), br1), GetLocations(o, b, tl2, br2)))
  {
    hide CountEdges, Partition, Bisect, Fill, Fits;
    FirstCallFits(|nodes|, br);
  }

  // Rows are filled from the top, the last one from the left; the first row is full.
  lemma RowsPlaced(o: Oracle, count: nat)
    requires OneLinePerNode(o) && count >= 3 && CountEdges(o, Numbers(count)) != 0
    requires count < SquareSize(count) * SquareSize(count)
    ensures var side := SquareSize(count);
            var br := Point(side - 1, side - 1);
            && Fits(count, Point(0, 0), br)
            && var r := GetLocations(o, Numbers(count), Point(0, 0), br);
            r.Some? && Compact(r.value, side, count) && Point(side - 1, 0) in r.value.Values
  {
    hide CountEdges, Partition, SquareSize, GetLocations, CellNumber, Placed, Compact, Area, Fits;
    var w: int, nodes := SquareSize(count), Numbers(count);
    var tl, br := Point(0, 0), Point(w - 1, w - 1);
    SquareFits(count);
    SquareBounds(count);
    AreaIs(tl, br, w, w);
    FirstCallFits(count, br);
    FullRows(count, w);
    var q, rest := count / w, count % w;
    var k := w * q;
    var br1, tl2, br2 := Point(w - 1, q - 1), Point(0, q), Point(rest - 1, q);
    RowsSplit(o, nodes, br, k, br1, tl2, br2);
    forall p | Inside(p, tl, br1) || Inside(p, tl2, br2) ensures IsBelow(p, w, count) { InRows(p, w, q, count); }
    if k == count {
      FullRectanglePlaced(o, nodes, tl, br1);
      PartCompact(nodes, tl, br1, GetLocations(o, nodes, tl, br1).value, w, count);
    } else {
      PartitionExact(nodes, k, o.metis(nodes));
      var (a, b) := Partition(nodes, k, o.metis(nodes));
      FullRectanglePlaced(o, a, tl, br1);
      FullRectanglePlaced(o, b, tl2, br2);
      PartCompact(a, tl, br1, GetLocations(o, a, tl, br1).value, w, count);
      PartCompact(b, tl2, br2, GetLocations(o, b, tl2, br2).value, w, count);
      JoinKeeps(GetLocations(o, a, tl, br1).value, GetLocations(o, b, tl2, br2).value, Point(w - 1, 0), w, count);
    }
  }

  predicate IsBelow(p: Point, w: int, count: nat) { p.x < w && CellNumber(p, w) < count }

  // A part whose rectangle lies among the first cells does so, and uses the end of the first row if it is full.
  lemma PartCompact(nodes: seq<nat>, tl: Point, br: Point, m: map<nat, Point>, w: int, count: nat)
    requires Placed(nodes, tl, br, m) && forall p | Inside(p, tl, br) :: IsBelow(p, w, count)
    ensures Compact(m, w, count) && m.Keys == Elems(nodes)
    ensures Inside(Point(w - 1, 0), tl, br) && |nodes| == Area(tl, br) ==> Point(w - 1, 0) in m.Values
  {
    hide CellNumber, Area, Inside;
    forall a | a in m ensures m[a].x < w && CellNumber(m[a], w) < count { assert IsBelow(m[a], w, count); }
  }

  lemma FullRows(count: nat, w: nat)
    requires 0 < w <= count
    ensures count / w >= 1
  {
  }

  lemma JoinKeeps(x: map<nat, Point>, y: map<nat, Point>, p: Point, w: int, n: nat)
    requires x.Keys !! y.Keys && p in x.Values && Compact(x, w, n) && Compact(y, w, n)
    ensures p in (x + y).Values && Compact(x + y, w, n)
  {
    hide CellNumber;
    var a :| a in x && x[a] == p;
    assert (x + y)[a] == p;
  }

  lemma InRows(p: Point, w: int, q: int, count: nat)
    requires w > 0 && q >= 0 && count == w * q + count % w
    requires Inside(p, Point(0, 0), Point(w - 1, q - 1)) || Inside(p, Point(0, q), Point(count % w - 1, q))
    ensures IsBelow(p, w, count)
  {
    Commute(w, q);
    if p.y < q { Arithmetic.MulStep(p.y, q, w); }
  }

  lemma SquareFits(n: nat)
    ensures Fits(n, Point(0, 0), Point(SquareSize(n) - 1, SquareSize(n) - 1))
  {
  }

  lemma OrderIsRank(order: seq<nat>, m: map<nat, Point>, d: map<nat, nat>)
    requires Distinct(order) && Elems(order) == m.Keys == d.Keys
    requires forall i, j | 0 <= i < j < |order| :: order[i] in m && order[j] in m && Earlier(m[order[i]], m[order[j]])
    requires forall i | 0 <= i < |order| :: order[i] in d && d[order[i]] == i
    ensures forall v | v in d.Values :: v < |order|
    ensures forall a, b | a in d && b in d && a != b :: d[a] != d[b] && m[a] != m[b]
    ensures forall a, b | a in d && b in d :: d[a] < d[b] <==> Earlier(m[a], m[b])
  {
  }

  lemma SameSize(s: seq<nat>, t: seq<nat>)
    requires Distinct(s) && Distinct(t) && Elems(s) == Elems(t)
    ensures |s| == |t|
  {
    ElemsSize(s);
    ElemsSize(t);
  }
}
