/**
 Doubly linked lists in memory: each link field is a map from element to element, with NULL at the ends.
 */
module PointerLists {
  import opened Collections

  type Ref = int
  const NULL: Ref := -1

  type Field = map<Ref, Ref>

  function First(l: seq<Ref>): Ref { if l == [] then NULL else l[0] }
  function LastOf(l: seq<Ref>): Ref { if l == [] then NULL else l[|l| - 1] }

  // The element after, and before, position i.
  function After(l: seq<Ref>, i: nat): Ref
    requires i < |l|
  {
    if i + 1 < |l| then l[i + 1] else NULL
  }

  function Previous(l: seq<Ref>, i: nat): Ref
    requires i < |l|
  {
    if i > 0 then l[i - 1] else NULL
  }

  // The two fields link exactly the elements of l, in order.
  ghost predicate Linked(next: Field, prev: Field, l: seq<Ref>) {
    && Distinct(l) && NULL !in l
    && forall i | 0 <= i < |l| ::
         l[i] in next && l[i] in prev && next[l[i]] == After(l, i) && prev[l[i]] == Previous(l, i)
  }

  // Appending x at the tail.
  lemma LinkedAppend(next: Field, prev: Field, l: seq<Ref>, x: Ref)
    requires Linked(next, prev, l) && x !in l && x != NULL
    ensures var next' := if l == [] then next[x := NULL] else next[x := NULL][LastOf(l) := x];
            Linked(next', prev[x := LastOf(l)], l + [x])
  {
    var next' := if l == [] then next[x := NULL] else next[x := NULL][LastOf(l) := x];
    var m := l + [x];
    forall i | 0 <= i < |m|
      ensures m[i] in next' && next'[m[i]] == After(m, i) && prev[x := LastOf(l)][m[i]] == Previous(m, i)
    {
      if i < |l| - 1 { assert m[i] != LastOf(l); }
      if i < |l| { assert m[i] != x; }
    }
  }

  // Pushing x at the head.
  lemma LinkedPush(next: Field, prev: Field, l: seq<Ref>, x: Ref)
    requires Linked(next, prev, l) && x !in l && x != NULL
    ensures var prev' := if l == [] then prev[x := NULL] else prev[x := NULL][l[0] := x];
            Linked(next[x := First(l)], prev', [x] + l)
  {
    var prev' := if l == [] then prev[x := NULL] else prev[x := NULL][l[0] := x];
    var m := [x] + l;
    forall i | 0 <= i < |m|
      ensures m[i] in prev' && next[x := First(l)][m[i]] == After(m, i) && prev'[m[i]] == Previous(m, i)
    {
      if i > 0 { assert m[i] == l[i - 1] && m[i] != x; }
      if i > 1 { assert l[i - 1] != l[0]; }
    }
  }

  // Unlinking the element at position i.
  lemma LinkedRemove(next: Field, prev: Field, l: seq<Ref>, i: nat)
    requires Linked(next, prev, l) && i < |l|
    ensures var x := l[i];
            var next' := if prev[x] != NULL then next[prev[x] := next[x]] else next;
            var prev' := if next[x] != NULL then prev[next[x] := prev[x]] else prev;
            Linked(next', prev', RemoveAt(l, i))
  {
    var x := l[i];
    var next' := if prev[x] != NULL then next[prev[x] := next[x]] else next;
    var prev' := if next[x] != NULL then prev[next[x] := prev[x]] else prev;
    var m := RemoveAt(l, i);
    forall k | 0 <= k < |m|
      ensures m[k] in next' && m[k] in prev' && next'[m[k]] == After(m, k) && prev'[m[k]] == Previous(m, k)
    {
      AroundRemoved(l, i, k);
      LinkedAt(next, prev, l, i);
      LinkedAt(next, prev, l, if k < i then k else k + 1);
    }
    RemoveDistinct(l, i);
  }

  lemma LinkedAt(next: Field, prev: Field, l: seq<Ref>, i: nat)
    requires Linked(next, prev, l) && i < |l|
    ensures l[i] in next && l[i] in prev && next[l[i]] == After(l, i) && prev[l[i]] == Previous(l, i)
    ensures After(l, i) == NULL <==> i + 1 == |l|
    ensures Previous(l, i) == NULL <==> i == 0
    ensures forall j | 0 <= j < |l| && l[j] == After(l, i) :: j == i + 1
    ensures forall j | 0 <= j < |l| && l[j] == Previous(l, i) :: j == i - 1
  {
    assert forall k | 0 <= k < |l| :: l[k] in l;
  }

  // The neighbours of an element once the one at position i is gone.
  lemma AroundRemoved(l: seq<Ref>, i: nat, k: nat)
    requires i < |l| && k < |l| - 1
    ensures var m, k0 := RemoveAt(l, i), if k < i then k else k + 1;
            && m[k] == l[k0]
            && After(m, k) == (if k0 + 1 == i then After(l, i) else After(l, k0))
            && Previous(m, k) == (if k0 == i + 1 then Previous(l, i) else Previous(l, k0))
  {
  }

  lemma RemoveDistinct<T>(l: seq<T>, i: nat)
    requires Distinct(l) && i < |l|
    ensures Distinct(RemoveAt(l, i))
    ensures forall x :: x in RemoveAt(l, i) <==> x in l && x != l[i]
  {
  }
}
