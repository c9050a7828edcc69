/**
 The gate dependency graph: each gate is linked, for each of its tiles, to the next gate that uses that tile.
 */
module Dag {
  import opened Events

  type Edges = set<(nat, nat)>

  // Gate k is the first one after gate i, with the tile q, that uses q again.
  ghost predicate IsNextUse(gates: seq<Gate>, i: nat, q: nat, k: nat) {
    && i < k < |gates|
    && q in gates[i].qid && q in gates[k].qid
    && forall m | i < m < k :: q !in gates[m].qid
  }

  ghost predicate NextUse(gates: seq<Gate>, i: nat, k: nat) {
    exists q :: IsNextUse(gates, i, q, k)
  }

  // The edges the source builds.
  ghost function NextUseEdges(gates: seq<Gate>): Edges {
    set i: nat, k: nat | i < k < |gates| && NextUse(gates, i, k) :: (i, k)
  }

  // "Earlier and shares a tile": the order that dependent gates must keep.
  predicate Shares(gates: seq<Gate>, i: nat, j: nat)
    requires i < |gates| && j < |gates|
  {
    exists q :: q in gates[i].qid && q in gates[j].qid
  }

  ghost function FullEdges(gates: seq<Gate>): Edges {
    set i: nat, j: nat | i < j < |gates| && Shares(gates, i, j) :: (i, j)
  }

  ghost predicate IsPath(es: Edges, p: seq<nat>) {
    |p| > 0 && forall i | 0 <= i < |p| - 1 :: (p[i], p[i + 1]) in es
  }

  ghost predicate PathFrom(es: Edges, i: nat, j: nat, p: seq<nat>) {
    |p| > 1 && IsPath(es, p) && p[0] == i && p[|p| - 1] == j
  }

  ghost predicate Reaches(es: Edges, i: nat, j: nat) {
    exists p :: PathFrom(es, i, j, p)
  }

  lemma EdgeReaches(es: Edges, i: nat, j: nat)
    requires (i, j) in es
    ensures Reaches(es, i, j)
  {
    assert PathFrom(es, i, j, [i, j]);
  }

  lemma ReachesTransitive(es: Edges, i: nat, j: nat, k: nat)
    requires Reaches(es, i, j) && Reaches(es, j, k)
    ensures Reaches(es, i, k)
  {
    var p :| PathFrom(es, i, j, p);
    var q :| PathFrom(es, j, k, q);
    var r := p + q[1..];
    forall x | 0 <= x < |r| - 1 ensures (r[x], r[x + 1]) in es {
      if x >= |p| - 1 {
        assert r[x] == q[x - |p| + 1] && r[x + 1] == q[x - |p| + 2];
      }
    }
    assert PathFrom(es, i, k, r);
  }

  // A tile used by i and again by j has a next use after i, no later than j.
  lemma NextUseExists(gates: seq<Gate>, i: nat, q: nat, j: nat) returns (k: nat)
    requires i < j < |gates| && q in gates[i].qid && q in gates[j].qid
    ensures k <= j && IsNextUse(gates, i, q, k)
  {
    k := i + 1;
    while q !in gates[k].qid
      invariant i < k <= j
      invariant forall m | i < m < k :: q !in gates[m].qid
      decreases j - k
    {
      k := k + 1;
    }
  }

  // Dependent gates are connected through the sparse edges.
  lemma {:induction false} SharesReaches(gates: seq<Gate>, i: nat, j: nat, q: nat)
    requires i < j < |gates| && q in gates[i].qid && q in gates[j].qid
    ensures Reaches(NextUseEdges(gates), i, j)
    decreases j - i
  {
    var k := NextUseExists(gates, i, q, j);
    assert NextUse(gates, i, k);
    EdgeReaches(NextUseEdges(gates), i, k);
    if k < j {
      SharesReaches(gates, k, j, q);
      ReachesTransitive(NextUseEdges(gates), i, k, j);
    }
  }

  lemma {:induction false} FullPathReaches(gates: seq<Gate>, i: nat, j: nat, p: seq<nat>)
    requires PathFrom(FullEdges(gates), i, j, p)
    ensures Reaches(NextUseEdges(gates), i, j)
    decreases |p|
  {
    assert (p[0], p[1]) in FullEdges(gates);
    var q :| q in gates[i].qid && q in gates[p[1]].qid;
    SharesReaches(gates, i, p[1], q);
    if |p| > 2 {
      var rest := p[1..];
      forall x | 0 <= x < |rest| - 1 ensures (rest[x], rest[x + 1]) in FullEdges(gates) {
        assert rest[x] == p[x + 1] && rest[x + 1] == p[x + 2];
      }
      FullPathReaches(gates, p[1], j, rest);
      ReachesTransitive(NextUseEdges(gates), i, p[1], j);
    }
  }

  // The sparse graph has exactly the reachability of the full dependency order, and only forward edges.
  lemma SparseReachabilityIsFull(gates: seq<Gate>, i: nat, j: nat)
    ensures Reaches(NextUseEdges(gates), i, j) <==> Reaches(FullEdges(gates), i, j)
    ensures Reaches(NextUseEdges(gates), i, j) ==> i < j < |gates|
  {
    if Reaches(FullEdges(gates), i, j) {
      var p :| PathFrom(FullEdges(gates), i, j, p);
      FullPathReaches(gates, i, j, p);
    }
    if Reaches(NextUseEdges(gates), i, j) {
      var p :| PathFrom(NextUseEdges(gates), i, j, p);
      forall x | 0 <= x < |p| - 1 ensures (p[x], p[x + 1]) in FullEdges(gates) {
        assert (p[x], p[x + 1]) in NextUseEdges(gates);
      }
      assert PathFrom(FullEdges(gates), i, j, p);
      PathAscends(gates, p);
    }
  }

  lemma {:induction false} PathAscends(gates: seq<Gate>, p: seq<nat>)
    requires IsPath(NextUseEdges(gates), p) && |p| > 1
    ensures p[0] < p[|p| - 1] < |gates|
    decreases |p|
  {
    assert (p[0], p[1]) in NextUseEdges(gates);
    if |p| > 2 {
      var rest := p[1..];
      forall x | 0 <= x < |rest| - 1 ensures (rest[x], rest[x + 1]) in NextUseEdges(gates) {
        assert (p[x + 1], p[x + 2]) in NextUseEdges(gates);
      }
      PathAscends(gates, rest);
    }
  }

  // The first gate from position `from` on that uses tile q, or |gates| when there is none.
  method FindNextUse(gates: seq<Gate>, from: nat, q: nat) returns (k: nat)
    requires from <= |gates|
    ensures from <= k <= |gates|
    ensures k < |gates| ==> q in gates[k].qid
    ensures forall m | from <= m < k :: q !in gates[m].qid
  {
    k := from;
    while k < |gates|
      invariant from <= k <= |gates|
      invariant forall m | from <= m < k :: q !in gates[m].qid
    {
      var j := 0;
      while j < |gates[k].qid|
        invariant j <= |gates[k].qid|
        invariant forall x | 0 <= x < j :: gates[k].qid[x] != q
      {
        if gates[k].qid[j] == q { return; }
        j := j + 1;
      }
      k := k + 1;
    }
  }

  // The source's nested scan: for each gate and each of its tiles, link to the next user.
  method BuildDag(gates: seq<Gate>) returns (es: Edges)
    ensures es == NextUseEdges(gates)
  {
    es := {};
    var i := 0;
    while i < |gates|
      invariant i <= |gates|
      invariant es == set e | e in NextUseEdges(gates) && e.0 < i
    {
      ghost var before := es;
      var a := 0;
      while a < |gates[i].qid|
        invariant a <= |gates[i].qid|
        invariant before <= es
        invariant forall e | e in es - before :: e in NextUseEdges(gates) && e.0 == i
        invariant forall x, k: nat | 0 <= x < a && IsNextUse(gates, i, gates[i].qid[x], k) :: (i, k) in es
      {
        var q := gates[i].qid[a];
        var k := FindNextUse(gates, i + 1, q);
        if k < |gates| {
          assert IsNextUse(gates, i, q, k);
          assert NextUse(gates, i, k);
          es := es + {(i, k)};
        }
        a := a + 1;
      }
      forall e | e in NextUseEdges(gates) && e.0 == i ensures e in es {
        var q :| IsNextUse(gates, i, q, e.1);
        var x :| 0 <= x < |gates[i].qid| && gates[i].qid[x] == q;
      }
      i := i + 1;
    }
  }

  // ----- How sparse the graph is ---------------------------------------------------------------------

  ghost predicate BelongsTo(qs: seq<nat>, of: (nat, nat) -> bool, k: nat) { exists q :: q in qs && of(q, k) }

  ghost predicate OneEach(s: set<nat>, of: (nat, nat) -> bool) {
    forall q, j, k | j in s && k in s && of(q, j) && of(q, k) :: j == k
  }

  // If every element of s belongs to some entry of qs, and to each entry at most one, s is no larger than qs.
  lemma {:induction false} OneForEach(s: set<nat>, qs: seq<nat>, of: (nat, nat) -> bool)
    requires forall k | k in s :: BelongsTo(qs, of, k)
    requires OneEach(s, of)
    ensures |s| <= |qs|
  {
    if qs == [] {
      assert s == {};
    } else {
      var n := |qs| - 1;
      var mine, others := LastApart(s, qs, of);
      hide BelongsTo, OneEach;
      OneForEach(others, qs[..n], of);
      assert s == mine + others && mine !! others;
    }
  }

  // The element of the last entry, if there is one, and the others.
  lemma LastApart(s: set<nat>, qs: seq<nat>, of: (nat, nat) -> bool) returns (mine: set<nat>, others: set<nat>)
    requires qs != [] && (forall k | k in s :: BelongsTo(qs, of, k)) && OneEach(s, of)
    ensures s == mine + others && mine !! others && |mine| <= 1
    ensures (forall k | k in others :: BelongsTo(qs[..|qs| - 1], of, k)) && OneEach(others, of)
  {
    var q := qs[|qs| - 1];
    mine := set k | k in s && of(q, k);
    others := s - mine;
    AtMostOne(mine);
    forall k | k in others ensures BelongsTo(qs[..|qs| - 1], of, k) { BelongsToRest(qs, of, k); }
  }

  lemma BelongsToRest(qs: seq<nat>, of: (nat, nat) -> bool, k: nat)
    requires qs != [] && BelongsTo(qs, of, k) && !of(qs[|qs| - 1], k)
    ensures BelongsTo(qs[..|qs| - 1], of, k)
  {
    var q :| q in qs && of(q, k);
    var x :| 0 <= x < |qs| && qs[x] == q;
    assert qs[..|qs| - 1][x] == q;
  }

  lemma AtMostOne(s: set<nat>)
    requires forall j, k | j in s && k in s :: j == k
    ensures |s| <= 1
  {
    if s != {} {
      var k :| k in s;
      assert s == {k};
    }
  }

  // A gate has at most one edge to a later gate, and at most one from an earlier gate, for each of its tiles.
  lemma EdgesPerTile(gates: seq<Gate>, i: nat)
    requires i < |gates|
    ensures |set k: nat | i < k < |gates| && (i, k) in NextUseEdges(gates)| <= |gates[i].qid|
    ensures |set k: nat | k < i && (k, i) in NextUseEdges(gates)| <= |gates[i].qid|
  {
    var after := set k: nat | i < k < |gates| && (i, k) in NextUseEdges(gates);
    forall k | k in after ensures exists q :: q in gates[i].qid && IsNextUse(gates, i, q, k) { assert NextUse(gates, i, k); }
    OneForEach(after, gates[i].qid, (q: nat, k: nat) => IsNextUse(gates, i, q, k));
    var before := set k: nat | k < i && (k, i) in NextUseEdges(gates);
    forall k | k in before ensures exists q :: q in gates[i].qid && IsNextUse(gates, k, q, i) { assert NextUse(gates, k, i); }
    OneForEach(before, gates[i].qid, (q: nat, k: nat) => IsNextUse(gates, k, q, i));
  }
}
