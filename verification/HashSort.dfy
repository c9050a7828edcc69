/**
 The bottom-up mergesort of the insertion order, on lists and on links.
 */
module HashSort {
  import opened Collections
  import opened PointerLists

  type Compare = (Ref, Ref) -> int

  // The comparison orders the elements of s: of two at least one is not after the other, and the order is transitive.
  ghost predicate Ordering(cmp: Compare, s: set<Ref>) {
    && (forall a, b | a in s && b in s :: cmp(a, b) <= 0 || cmp(b, a) <= 0)
    && (forall a, b, c | a in s && b in s && c in s && cmp(a, b) <= 0 && cmp(b, c) <= 0 :: cmp(a, c) <= 0)
  }

  // ----- On lists ------------------------------------------------------------------------------------------

  function Take(l: seq<Ref>, k: nat): seq<Ref> { if k <= |l| then l[..k] else l }
  function Drop(l: seq<Ref>, k: nat): seq<Ref> { if k <= |l| then l[k..] else [] }

  // Of equal elements, those of p come first.
  function Merge(cmp: Compare, p: seq<Ref>, q: seq<Ref>): (r: seq<Ref>)
    ensures |r| == |p| + |q|
    decreases |p| + |q|
  {
    if p == [] then q
    else if q == [] then p
    else if cmp(p[0], q[0]) <= 0 then [p[0]] + Merge(cmp, p[1..], q)
    else [q[0]] + Merge(cmp, p, q[1..])
  }

  // Merge neighbouring runs of length k.
  function Pass(cmp: Compare, l: seq<Ref>, k: nat): (r: seq<Ref>)
    requires k > 0
    ensures |r| == |l|
    decreases |l|
  {
    if l == [] then [] else
    Merge(cmp, Take(l, k), Take(Drop(l, k), k)) + Pass(cmp, Drop(Drop(l, k), k), k)
  }

  function SortFrom(cmp: Compare, l: seq<Ref>, k: nat): seq<Ref>
    requires k > 0
    decreases |l| - k
  {
    if |l| <= 2 * k then Pass(cmp, l, k) else SortFrom(cmp, Pass(cmp, l, k), 2 * k)
  }

  function Sorted(cmp: Compare, l: seq<Ref>): seq<Ref> { SortFrom(cmp, l, 1) }

  // ----- Sortedness and stability ---------------------------------------------------------------------------

  // a belongs before b: it is not after b, and if they are equal it came first.
  ghost predicate Before(cmp: Compare, pos: Ref -> int, a: Ref, b: Ref) {
    cmp(a, b) <= 0 && (cmp(b, a) <= 0 ==> pos(a) < pos(b))
  }

  ghost predicate StablySorted(cmp: Compare, pos: Ref -> int, l: seq<Ref>) {
    forall i, j | 0 <= i < j < |l| :: Before(cmp, pos, l[i], l[j])
  }

  ghost predicate Earlier(pos: Ref -> int, p: seq<Ref>, q: seq<Ref>) {
    forall x, y | x in p && y in q :: pos(x) < pos(y)
  }

  // l consists of runs of length k, each stably sorted, and all of a run came before all of the next.
  ghost predicate Runs(cmp: Compare, pos: Ref -> int, l: seq<Ref>, k: nat)
    requires k > 0
    decreases |l|
  {
    l != [] ==>
      && StablySorted(cmp, pos, Take(l, k)) && Earlier(pos, Take(l, k), Drop(l, k))
      && Runs(cmp, pos, Drop(l, k), k)
  }

  ghost predicate Within(l: seq<Ref>, s: set<Ref>) { forall i | 0 <= i < |l| :: l[i] in s }

  lemma {:induction false} MergeMembers(cmp: Compare, p: seq<Ref>, q: seq<Ref>)
    ensures multiset(Merge(cmp, p, q)) == multiset(p) + multiset(q)
    decreases |p| + |q|
  {
    if p != [] && q != [] {
      if cmp(p[0], q[0]) <= 0 {
        MergeMembers(cmp, p[1..], q);
        ConsMultiset(p[0], p[1..]);
        ConsMultiset(p[0], Merge(cmp, p[1..], q));
        assert p == [p[0]] + p[1..];
      } else {
        MergeMembers(cmp, p, q[1..]);
        ConsMultiset(q[0], q[1..]);
        ConsMultiset(q[0], Merge(cmp, p, q[1..]));
        assert q == [q[0]] + q[1..];
      }
    }
  }

  lemma ConsMultiset(x: Ref, l: seq<Ref>)
    ensures multiset([x] + l) == multiset{x} + multiset(l)
  {
  }

  lemma InMultiset(l: seq<Ref>, x: Ref)
    ensures x in l <==> x in multiset(l)
  {
  }

  lemma MergeContains(cmp: Compare, p: seq<Ref>, q: seq<Ref>, x: Ref)
    ensures x in Merge(cmp, p, q) <==> x in p || x in q
  {
  }

  // An element before everything in a sorted list extends it at the front.
  lemma ConsSorted(cmp: Compare, pos: Ref -> int, x: Ref, l: seq<Ref>)
    requires StablySorted(cmp, pos, l) && forall y | y in l :: Before(cmp, pos, x, y)
    ensures StablySorted(cmp, pos, [x] + l)
  {
  }

  lemma TailSorted(cmp: Compare, pos: Ref -> int, l: seq<Ref>)
    requires StablySorted(cmp, pos, l) && l != []
    ensures StablySorted(cmp, pos, l[1..]) && forall y | y in l[1..] :: Before(cmp, pos, l[0], y)
  {
  }

  lemma {:induction false} MergeSorted(cmp: Compare, pos: Ref -> int, s: set<Ref>, p: seq<Ref>, q: seq<Ref>)
    requires Ordering(cmp, s) && Within(p, s) && Within(q, s)
    requires StablySorted(cmp, pos, p) && StablySorted(cmp, pos, q) && Earlier(pos, p, q)
    ensures StablySorted(cmp, pos, Merge(cmp, p, q))
    decreases |p| + |q|
  {
    if p != [] && q != [] {
      TailSorted(cmp, pos, p);
      TailSorted(cmp, pos, q);
      if cmp(p[0], q[0]) <= 0 {
        var m := Merge(cmp, p[1..], q);
        MergeSorted(cmp, pos, s, p[1..], q);
        forall y | y in m ensures Before(cmp, pos, p[0], y) {
          MergeContains(cmp, p[1..], q, y);
          if y in q { FirstBeforeSecond(cmp, pos, s, p, q, y); }
        }
        ConsSorted(cmp, pos, p[0], m);
      } else {
        var m := Merge(cmp, p, q[1..]);
        MergeSorted(cmp, pos, s, p, q[1..]);
        forall y | y in m ensures Before(cmp, pos, q[0], y) {
          MergeContains(cmp, p, q[1..], y);
          if y in p { SecondBeforeFirst(cmp, pos, s, p, q, y); }
        }
        ConsSorted(cmp, pos, q[0], m);
      }
    }
  }

  lemma FirstBeforeSecond(cmp: Compare, pos: Ref -> int, s: set<Ref>, p: seq<Ref>, q: seq<Ref>, y: Ref)
    requires Ordering(cmp, s) && Within(p, s) && Within(q, s) && p != [] && q != [] && y in q
    requires StablySorted(cmp, pos, q) && Earlier(pos, p, q) && cmp(p[0], q[0]) <= 0
    ensures Before(cmp, pos, p[0], y)
  {
  }

  lemma SecondBeforeFirst(cmp: Compare, pos: Ref -> int, s: set<Ref>, p: seq<Ref>, q: seq<Ref>, y: Ref)
    requires Ordering(cmp, s) && Within(p, s) && Within(q, s) && p != [] && q != [] && y in p
    requires StablySorted(cmp, pos, p) && cmp(p[0], q[0]) > 0
    ensures Before(cmp, pos, q[0], y)
  {
  }

  lemma TakeDrop(l: seq<Ref>, k: nat)
    ensures l == Take(l, k) + Drop(l, k)
    ensures |Take(l, k)| == (if k <= |l| then k else |l|) && |Drop(l, k)| == |l| - |Take(l, k)|
    ensures forall x :: x in l <==> x in Take(l, k) || x in Drop(l, k)
  {
  }

  lemma {:induction false} PassMembers(cmp: Compare, l: seq<Ref>, k: nat)
    requires k > 0
    ensures multiset(Pass(cmp, l, k)) == multiset(l)
    decreases |l|
  {
    hide Merge, Take, Drop;
    if l != [] {
      var p, r := Take(l, k), Drop(l, k);
      var q, rest := Take(r, k), Drop(r, k);
      TakeDrop(l, k);
      TakeDrop(r, k);
      PassMembers(cmp, rest, k);
      MergeMembers(cmp, p, q);
      var m, t := Merge(cmp, p, q), Pass(cmp, rest, k);
      assert Pass(cmp, l, k) == m + t;
      assert multiset(m + t) == multiset(m) + multiset(t);
      assert l == p + q + rest;
      assert multiset(p + q + rest) == multiset(p) + multiset(q) + multiset(rest);
    }
  }

  // A pass turns runs of length k into runs of length 2k.
  lemma {:induction false} PassRuns(cmp: Compare, pos: Ref -> int, s: set<Ref>, l: seq<Ref>, k: nat)
    requires k > 0 && Ordering(cmp, s) && Within(l, s) && Runs(cmp, pos, l, k)
    ensures Runs(cmp, pos, Pass(cmp, l, k), 2 * k)
    decreases |l|
  {
    if l != [] {
      var p, r := Take(l, k), Drop(l, k);
      var q, rest := Take(r, k), Drop(r, k);
      TakeDrop(l, k);
      TakeDrop(r, k);
      assert Runs(cmp, pos, r, k);
      assert StablySorted(cmp, pos, q) by { if r == [] { assert q == []; } }
      assert Runs(cmp, pos, rest, k) by { if r == [] { assert rest == []; } }
      MergeSorted(cmp, pos, s, p, q);
      PassRuns(cmp, pos, s, rest, k);
      var m, tail := Merge(cmp, p, q), Pass(cmp, rest, k);
      assert Earlier(pos, m, tail) by {
        forall x, y | x in m && y in tail ensures pos(x) < pos(y) {
          MergeContains(cmp, p, q, x);
          PassContains(cmp, rest, k, y);
          if x in q { assert r != []; }
        }
      }
      JoinRuns(cmp, pos, m, tail, 2 * k);
    }
  }

  lemma PassContains(cmp: Compare, l: seq<Ref>, k: nat, x: Ref)
    requires k > 0
    ensures x in Pass(cmp, l, k) <==> x in l
  {
    hide Pass;
    PassMembers(cmp, l, k);
    InMultiset(Pass(cmp, l, k), x);
    InMultiset(l, x);
  }

  lemma JoinRuns(cmp: Compare, pos: Ref -> int, m: seq<Ref>, tail: seq<Ref>, k: nat)
    requires k > 0 && m != [] && StablySorted(cmp, pos, m) && Earlier(pos, m, tail) && Runs(cmp, pos, tail, k)
    requires |m| == k || (|m| < k && tail == [])
    ensures Runs(cmp, pos, m + tail, k)
  {
  }

  lemma {:induction false} SingleRuns(cmp: Compare, pos: Ref -> int, l: seq<Ref>)
    requires forall i, j | 0 <= i < j < |l| :: pos(l[i]) < pos(l[j])
    ensures Runs(cmp, pos, l, 1)
    decreases |l|
  {
    if l != [] {
      assert Drop(l, 1) == l[1..];
      forall i, j | 0 <= i < j < |l[1..]| ensures pos(l[1..][i]) < pos(l[1..][j]) {
        assert l[1..][i] == l[i + 1] && l[1..][j] == l[j + 1];
      }
      SingleRuns(cmp, pos, l[1..]);
      forall x, y | x in Take(l, 1) && y in Drop(l, 1) ensures pos(x) < pos(y) {
        assert x == l[0];
        var j :| 0 <= j < |l[1..]| && l[1..][j] == y;
        assert y == l[j + 1];
      }
    }
  }

  lemma {:induction false} SortFromSorts(cmp: Compare, pos: Ref -> int, s: set<Ref>, l: seq<Ref>, k: nat)
    requires k > 0 && Ordering(cmp, s) && Within(l, s) && Runs(cmp, pos, l, k)
    ensures StablySorted(cmp, pos, SortFrom(cmp, l, k)) && multiset(SortFrom(cmp, l, k)) == multiset(l)
    decreases |l| - k
  {
    hide Pass;
    var m := Pass(cmp, l, k);
    PassRuns(cmp, pos, s, l, k);
    PassMembers(cmp, l, k);
    if |l| <= 2 * k {
      assert Take(m, 2 * k) == m;
    } else {
      forall i | 0 <= i < |m| ensures m[i] in s { PassContains(cmp, l, k, m[i]); assert m[i] in m; }
      SortFromSorts(cmp, pos, s, m, 2 * k);
    }
  }

  // Mergesort returns a permutation that is sorted and keeps the order of equal elements.
  lemma SortIsStable(cmp: Compare, pos: Ref -> int, l: seq<Ref>)
    requires Ordering(cmp, (set x | x in l)) && forall i, j | 0 <= i < j < |l| :: pos(l[i]) < pos(l[j])
    ensures StablySorted(cmp, pos, Sorted(cmp, l)) && multiset(Sorted(cmp, l)) == multiset(l)
  {
    SingleRuns(cmp, pos, l);
    SortFromSorts(cmp, pos, (set x | x in l), l, 1);
  }

  // Without any assumption on the comparison, the result is still a permutation.
  lemma {:induction false} SortPermutes(cmp: Compare, l: seq<Ref>, k: nat)
    requires k > 0
    ensures multiset(SortFrom(cmp, l, k)) == multiset(l)
    decreases |l| - k
  {
    hide Pass;
    PassMembers(cmp, l, k);
    if |l| > 2 * k { SortPermutes(cmp, Pass(cmp, l, k), 2 * k); }
  }

  // ----- On links --------------------------------------------------------------------------------------------

  // The links from element to element of l; the last one leads to `end`.
  ghost predicate Chain(next: Field, l: seq<Ref>, end: Ref) {
    forall i | 0 <= i < |l| :: l[i] in next && next[l[i]] == Successor(l, end, i)
  }

  function Successor(l: seq<Ref>, end: Ref, i: nat): Ref
    requires i < |l|
  {
    if i + 1 < |l| then l[i + 1] else end
  }

  // What has been merged so far: linked both ways, except that the last forward link is not set yet.
  ghost predicate Output(next: Field, prev: Field, out: seq<Ref>) {
    forall i | 0 <= i < |out| ::
      && out[i] in next && out[i] in prev && prev[out[i]] == Previous(out, i)
      && (i + 1 < |out| ==> next[out[i]] == out[i + 1])
  }

  // The elements of the list, in three parts: merged, left of the first run, and the rest of the list.
  ghost predicate Parts(next: Field, prev: Field, out: seq<Ref>, p: seq<Ref>, r: seq<Ref>) {
    && Distinct(out + p + r) && NULL !in out + p + r
    && Output(next, prev, out)
    && (p != [] ==> exists end :: Chain(next, p, end))
    && Chain(next, r, NULL)
    && (forall i | 0 <= i < |p| :: p[i] in prev) && (forall i | 0 <= i < |r| :: r[i] in prev)
  }

  // Put element e at the end of what has been merged.
  lemma AppendOutput(next: Field, prev: Field, out: seq<Ref>, e: Ref)
    requires Output(next, prev, out) && e !in out && e in next && e in prev && Distinct(out)
    ensures Output(if out == [] then next else next[LastOf(out) := e], prev[e := LastOf(out)], out + [e])
  {
  }

  lemma ChainFrame(next: Field, x: Ref, e: Ref, l: seq<Ref>, end: Ref)
    requires Chain(next, l, end) && x !in l
    ensures Chain(next[x := e], l, end)
  {
  }

  lemma ChainTail(next: Field, l: seq<Ref>, end: Ref)
    requires Chain(next, l, end) && l != []
    ensures Chain(next, l[1..], end) && l[0] in next && next[l[0]] == Successor(l, end, 0)
  {
  }

  lemma PartsDisjoint(out: seq<Ref>, p: seq<Ref>, r: seq<Ref>)
    requires Distinct(out + p + r) && NULL !in out + p + r
    ensures Distinct(out) && (forall i | 0 <= i < |out| :: out[i] !in p && out[i] !in r)
    ensures forall i | 0 <= i < |p| :: p[i] !in out && p[i] !in r && p[i] != NULL
    ensures forall i | 0 <= i < |r| :: r[i] !in out && r[i] !in p && r[i] != NULL
  {
    var s := out + p + r;
    assert forall i | 0 <= i < |out| :: out[i] == s[i];
    assert forall i | 0 <= i < |p| :: p[i] == s[|out| + i];
    assert forall i | 0 <= i < |r| :: r[i] == s[|out| + |p| + i];
    assert forall i | 0 <= i < |s| :: s[i] in s;
  }

  // Taking the first element of the first run, or of the rest, to the output.
  lemma TakeFromFirst(next: Field, prev: Field, out: seq<Ref>, p: seq<Ref>, r: seq<Ref>)
    requires Parts(next, prev, out, p, r) && p != []
    ensures p[0] in next && (|p| > 1 ==> next[p[0]] == p[1])
    ensures var next' := if out == [] then next else next[LastOf(out) := p[0]];
            Parts(next', prev[p[0] := LastOf(out)], out + [p[0]], p[1..], r)
  {
    PartsDisjoint(out, p, r);
    var end :| Chain(next, p, end);
    ChainTail(next, p, end);
    AppendOutput(next, prev, out, p[0]);
    assert out + [p[0]] + p[1..] + r == out + p + r;
    if out != [] {
      assert LastOf(out) !in p && LastOf(out) !in r;
      assert forall i | 0 <= i < |p[1..]| :: p[1..][i] == p[i + 1];
      assert LastOf(out) !in p[1..];
      ChainFrame(next, LastOf(out), p[0], p[1..], end);
      ChainFrame(next, LastOf(out), p[0], r, NULL);
    }
  }

  lemma TakeFromRest(next: Field, prev: Field, out: seq<Ref>, p: seq<Ref>, r: seq<Ref>)
    requires Parts(next, prev, out, p, r) && r != []
    ensures r[0] in next && next[r[0]] == First(r[1..])
    ensures var next' := if out == [] then next else next[LastOf(out) := r[0]];
            Parts(next', prev[r[0] := LastOf(out)], out + [r[0]], p, r[1..])
  {
    PartsDisjoint(out, p, r);
    ChainTail(next, r, NULL);
    AppendOutput(next, prev, out, r[0]);
    var s, s' := out + p + r, out + [r[0]] + p + r[1..];
    assert Distinct(s') && NULL !in s' by { MoveToFront(out, p, r); }
    if out != [] {
      assert LastOf(out) !in p && LastOf(out) !in r;
      assert forall i | 0 <= i < |r[1..]| :: r[1..][i] == r[i + 1];
      ChainFrame(next, LastOf(out), r[0], r[1..], NULL);
      if p != [] {
        var end :| Chain(next, p, end);
        ChainFrame(next, LastOf(out), r[0], p, end);
      }
    }
  }

  lemma MoveToFront(out: seq<Ref>, p: seq<Ref>, r: seq<Ref>)
    requires Distinct(out + p + r) && NULL !in out + p + r && r != []
    ensures Distinct(out + [r[0]] + p + r[1..]) && NULL !in out + [r[0]] + p + r[1..]
  {
    var s, s' := out + p + r, out + [r[0]] + p + r[1..];
    var n, k := |out|, |p|;
    forall i | 0 <= i < |s'| ensures s'[i] == s[if i < n then i else if i == n then n + k else if i <= n + k then i - 1 else i] {}
    assert forall i | 0 <= i < |s| :: s[i] in s;
  }

  lemma ChainStep(next: Field, r: seq<Ref>, i: nat)
    requires Chain(next, r, NULL) && NULL !in r && i < |r|
    ensures r[i] in next
    ensures if i + 1 < |r| then next[r[i]] == r[i + 1] && next[r[i]] != NULL else next[r[i]] == NULL
  {
  }

  lemma RunEnd(r: seq<Ref>, k: nat, q: Ref, size: nat)
    requires if size < |r| then size == k && q == r[k] else size == |r| <= k && q == NULL
    ensures size == |Take(r, k)| && q == First(Drop(r, k))
  {
  }

  // Step over the first run, of at most k elements.
  method StepOver(next: Field, p: Ref, k: nat, ghost r: seq<Ref>) returns (q: Ref, size: nat)
    requires Chain(next, r, NULL) && NULL !in r && r != [] && p == r[0] && k > 0
    ensures size == |Take(r, k)| && q == First(Drop(r, k))
  {
    hide Chain, Take, Drop, First;
    q, size := p, 0;
    var i := 0;
    while i < k
      invariant 0 <= i <= k && size == i < |r| && q == r[i]
    {
      ChainStep(next, r, i);
      size := size + 1;
      q := next[q];
      if q == NULL { break; }
      i := i + 1;
    }
    RunEnd(r, k, q, size);
  }

  // The inner loop: merge the run p with the run of at most k elements at q onto the end of the output.
  method MergeRuns(cmp: Compare, next0: Field, prev0: Field, list0: Ref, tail0: Ref, p0: Ref, q0: Ref, psize0: nat, k: nat,
                   ghost out0: seq<Ref>, ghost first: seq<Ref>, ghost rest0: seq<Ref>)
    returns (next: Field, prev: Field, list: Ref, tail: Ref, q: Ref, ghost out: seq<Ref>, ghost rest: seq<Ref>)
    requires Parts(next0, prev0, out0, first, rest0) && first != [] && psize0 == |first|
    requires p0 == first[0] && q0 == First(rest0) && list0 == First(out0) && tail0 == LastOf(out0)
    ensures out == out0 + Merge(cmp, first, Take(rest0, k)) && rest == Drop(rest0, k)
    ensures Parts(next, prev, out, [], rest)
    ensures list == First(out) && tail == LastOf(out) && q == First(rest)
  {
    hide Parts, Merge, Take, Drop;
    next, prev, list, tail, q, out, rest := next0, prev0, list0, tail0, q0, out0, rest0;
    var p, psize, qsize := p0, psize0, k;
    ghost var left := first;
    NotNull(next, prev, out, left, rest);
    while psize > 0 || (qsize > 0 && q != NULL)
      invariant Parts(next, prev, out, left, rest)
      invariant psize == |left| && (left != [] ==> p == left[0]) && q == First(rest)
      invariant list == First(out) && tail == LastOf(out)
      invariant q == NULL <==> rest == []
      invariant tail == NULL <==> out == []
      invariant out + Merge(cmp, left, Take(rest, qsize)) == out0 + Merge(cmp, first, Take(rest0, k))
      invariant Drop(rest, qsize) == Drop(rest0, k)
      decreases psize + qsize
    {
      var fromFirst := psize > 0 && (qsize == 0 || q == NULL || cmp(p, q) <= 0);
      MergeStep(cmp, out, left, rest, qsize, fromFirst);
      var e;
      if fromFirst {
        TakeFromFirst(next, prev, out, left, rest);
        e := p;
        p := next[p];
        psize := psize - 1;
        left := left[1..];
      } else {
        TakeFromRest(next, prev, out, left, rest);
        e := q;
        q := next[q];
        qsize := qsize - 1;
        rest := rest[1..];
      }
      if tail != NULL { next := next[tail := e]; } else { list := e; }
      prev := prev[e := tail];
      tail := e;
      out := out + [e];
      NotNull(next, prev, out, left, rest);
    }
    MergeDone(cmp, out, left, rest, qsize);
  }

  lemma MergeDone(cmp: Compare, out: seq<Ref>, left: seq<Ref>, rest: seq<Ref>, qsize: nat)
    requires left == [] && (qsize == 0 || rest == [])
    ensures out + Merge(cmp, left, Take(rest, qsize)) == out && Drop(rest, qsize) == rest
  {
  }

  lemma NotNull(next: Field, prev: Field, out: seq<Ref>, p: seq<Ref>, r: seq<Ref>)
    requires Parts(next, prev, out, p, r)
    ensures First(r) == NULL <==> r == []
    ensures LastOf(out) == NULL <==> out == []
  {
  }

  // A merge takes the front of p, or that of q.
  lemma MergeFront(cmp: Compare, p: seq<Ref>, q: seq<Ref>, fromFirst: bool)
    requires p != [] || q != []
    requires fromFirst == (p != [] && (q == [] || cmp(p[0], q[0]) <= 0))
    ensures fromFirst ==> Merge(cmp, p, q) == [p[0]] + Merge(cmp, p[1..], q)
    ensures !fromFirst ==> q != [] && Merge(cmp, p, q) == [q[0]] + Merge(cmp, p, q[1..])
  {
  }

  lemma TakeFront(l: seq<Ref>, k: nat)
    ensures Take(l, k) == [] <==> k == 0 || l == []
    ensures k > 0 && l != [] ==>
              Take(l, k)[0] == l[0] && Take(l, k)[1..] == Take(l[1..], k - 1) && Drop(l[1..], k - 1) == Drop(l, k)
  {
  }

  // One choice of the merge loop is the next element of the merged list.
  lemma MergeStep(cmp: Compare, out: seq<Ref>, left: seq<Ref>, rest: seq<Ref>, qsize: nat, fromFirst: bool)
    requires left != [] || (qsize > 0 && rest != [])
    requires fromFirst == (left != [] && (qsize == 0 || rest == [] || cmp(left[0], rest[0]) <= 0))
    ensures fromFirst ==>
              (out + [left[0]]) + Merge(cmp, left[1..], Take(rest, qsize)) == out + Merge(cmp, left, Take(rest, qsize))
    ensures !fromFirst ==>
              (&& qsize > 0 && rest != []
               && (out + [rest[0]]) + Merge(cmp, left, Take(rest[1..], qsize - 1)) == out + Merge(cmp, left, Take(rest, qsize))
               && Drop(rest[1..], qsize - 1) == Drop(rest, qsize))
  {
    hide Merge, Take, Drop;
    TakeFront(rest, qsize);
    MergeFront(cmp, left, Take(rest, qsize), fromFirst);
  }

  // One pass over the list: merge neighbouring runs of length k.
  method SortPass(cmp: Compare, next0: Field, prev0: Field, head: Ref, k: nat, ghost l: seq<Ref>)
    returns (next: Field, prev: Field, list: Ref, tail: Ref, nmerges: nat)
    requires Chain(next0, l, NULL) && Distinct(l) && NULL !in l && l != [] && head == l[0] && k > 0
    requires forall i | 0 <= i < |l| :: l[i] in prev0
    ensures Linked(next, prev, Pass(cmp, l, k))
    ensures list == First(Pass(cmp, l, k)) && tail == LastOf(Pass(cmp, l, k))
    ensures nmerges <= 1 <==> |l| <= 2 * k
  {
    hide Parts, Merge, Take, Drop, Linked;
    next, prev, list, tail, nmerges := next0, prev0, NULL, NULL, 0;
    var p := head;
    ghost var out: seq<Ref>, rest := [], l;
    StartPass(next, prev, l);
    NotNull(next, prev, out, [], rest);
    while p != NULL
      invariant Parts(next, prev, out, [], rest) && p == First(rest) && (p == NULL <==> rest == [])
      invariant list == First(out) && tail == LastOf(out)
      invariant out + Pass(cmp, rest, k) == Pass(cmp, l, k)
      invariant nmerges == 0 ==> rest == l
      invariant nmerges == 1 ==> rest == Drop(Drop(l, k), k)
      invariant nmerges > 1 ==> Drop(Drop(l, k), k) != []
      decreases |rest|
    {
      nmerges := nmerges + 1;
      RestChain(next, prev, out, rest);
      var q, psize := StepOver(next, p, k, rest);
      ghost var first, second := Take(rest, k), Drop(rest, k);
      SplitParts(next, prev, out, rest, k);
      PassStep(cmp, out, rest, k);
      next, prev, list, tail, p, out, rest := MergeRuns(cmp, next, prev, list, tail, p, q, psize, k, out, first, second);
      NotNull(next, prev, out, [], rest);
    }
    MoreThanOneMerge(l, k);
    assert rest == [] && Pass(cmp, [], k) == [];
    assert out == Pass(cmp, l, k);
    FinishPass(next, prev, out);
    next := next[tail := NULL];
  }

  lemma StartPass(next: Field, prev: Field, l: seq<Ref>)
    requires Chain(next, l, NULL) && Distinct(l) && NULL !in l && forall i | 0 <= i < |l| :: l[i] in prev
    ensures Parts(next, prev, [], [], l)
  {
  }

  lemma RestChain(next: Field, prev: Field, out: seq<Ref>, rest: seq<Ref>)
    requires Parts(next, prev, out, [], rest)
    ensures Chain(next, rest, NULL) && NULL !in rest
  {
  }

  lemma PassStep(cmp: Compare, out: seq<Ref>, rest: seq<Ref>, k: nat)
    requires k > 0 && rest != []
    ensures var m, r := Merge(cmp, Take(rest, k), Take(Drop(rest, k), k)), Drop(Drop(rest, k), k);
            (out + m) + Pass(cmp, r, k) == out + Pass(cmp, rest, k) && |r| < |rest|
  {
    hide Merge, Take, Drop;
    TakeDrop(rest, k);
    TakeDrop(Drop(rest, k), k);
  }

  lemma MoreThanOneMerge(l: seq<Ref>, k: nat)
    ensures Drop(Drop(l, k), k) == [] <==> |l| <= 2 * k
  {
  }

  // Once nothing is left, setting the last forward link completes the list.
  lemma FinishPass(next: Field, prev: Field, out: seq<Ref>)
    requires Parts(next, prev, out, [], []) && out != []
    ensures Linked(next[LastOf(out) := NULL], prev, out)
  {
    assert out + [] + [] == out;
    forall i | 0 <= i < |out|
      ensures out[i] in next && out[i] in prev && next[LastOf(out) := NULL][out[i]] == After(out, i)
              && prev[out[i]] == Previous(out, i)
    {
      if i + 1 < |out| { assert out[i] != LastOf(out); }
    }
  }

  lemma SplitParts(next: Field, prev: Field, out: seq<Ref>, rest: seq<Ref>, k: nat)
    requires Parts(next, prev, out, [], rest) && rest != [] && k > 0
    ensures Parts(next, prev, out, Take(rest, k), Drop(rest, k))
    ensures Take(rest, k) != [] && Take(rest, k)[0] == rest[0]
  {
    var p, r := Take(rest, k), Drop(rest, k);
    assert out + p + r == out + [] + rest;
    assert Chain(next, p, First(r)) by {
      forall i | 0 <= i < |p| ensures p[i] in next && next[p[i]] == Successor(p, First(r), i) {
        assert p[i] == rest[i] && next[rest[i]] == Successor(rest, NULL, i);
      }
    }
    forall i | 0 <= i < |r| ensures r[i] in next && next[r[i]] == Successor(r, NULL, i) && r[i] in prev {
      assert r[i] == rest[k + i] && next[rest[k + i]] == Successor(rest, NULL, k + i);
    }
  }

  // The whole sort: passes over runs of length 1, 2, 4, ... until one pass needs a single merge.
  method MergeSort(cmp: Compare, next0: Field, prev0: Field, head: Ref, ghost l: seq<Ref>)
    returns (next: Field, prev: Field, list: Ref, tail: Ref)
    requires Linked(next0, prev0, l) && l != [] && head == l[0]
    ensures Linked(next, prev, Sorted(cmp, l))
    ensures list == First(Sorted(cmp, l)) && tail == LastOf(Sorted(cmp, l))
    ensures Sorted(cmp, l) != []
  {
    hide Pass, Linked;
    next, prev, list, tail := next0, prev0, head, NULL;
    var insize, looping := 1, true;
    ghost var cur := l;
    while looping
      invariant insize > 0 && cur != [] && Linked(next, prev, cur) && list == First(cur)
      invariant looping ==> SortFrom(cmp, cur, insize) == Sorted(cmp, l)
      invariant !looping ==> cur == Sorted(cmp, l) && tail == LastOf(cur)
      decreases looping, |cur| - insize
    {
      LinkedChain(next, prev, cur);
      var nmerges;
      next, prev, list, tail, nmerges := SortPass(cmp, next, prev, list, insize, cur);
      cur := Pass(cmp, cur, insize);
      if nmerges <= 1 { looping := false; }
      insize := insize * 2;
    }
  }

  lemma LinkedChain(next: Field, prev: Field, l: seq<Ref>)
    requires Linked(next, prev, l)
    ensures Chain(next, l, NULL) && Distinct(l) && NULL !in l && forall i | 0 <= i < |l| :: l[i] in prev
  {
  }
}
