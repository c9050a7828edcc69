/**
 Delta debugging: reduce a change list to one that still passes a test and from which nothing can be removed.
 */
module DeltaDebugging {
  import opened Collections

  // The test depends on which changes are applied only.
  type Test<!T> = set<T> -> bool

  function Concat<T>(sets: seq<seq<T>>): seq<T> {
    if sets == [] then [] else sets[0] + Concat(sets[1..])
  }

  function Without<T>(sets: seq<seq<T>>, i: nat): seq<seq<T>>
    requires i < |sets|
  {
    sets[..i] + sets[i + 1..]
  }

  // One piece, or two halves whose sizes differ by at most one, the second no smaller than the first.
  function Split<T>(s: seq<T>): (p: seq<seq<T>>)
    ensures Concat(p) == s
    ensures if |s| < 2 then p == [s] else |p| == 2 && 0 < |p[0]| <= |p[1]| <= |p[0]| + 1 && |p[1]| < |s|
  {
    var mid := |s| / 2;
    if mid == 0 then [s] else
    ConcatPair(s[..mid], s[mid..]);
    [s[..mid], s[mid..]]
  }

  lemma ConcatPair<T>(x: seq<T>, y: seq<T>)
    ensures Concat([x, y]) == x + y && Concat([x]) == x
  {
    assert [x, y][1..] == [y];
    assert Concat([y]) == y && Concat([x]) == x;
  }

  function SplitAll<T>(sets: seq<seq<T>>): seq<seq<T>> {
    if sets == [] then [] else Split(sets[0]) + SplitAll(sets[1..])
  }

  // The sets are pieces of c: together they list c's elements once each, and no piece is empty
  // (unless there is only one).
  ghost predicate Pieces<T>(c: seq<T>, sets: seq<seq<T>>) {
    && Distinct(Concat(sets)) && Elems(Concat(sets)) == Elems(c) && |Concat(sets)| == |c|
    && (|sets| <= 1 ==> |c| <= 1)
    && (|sets| > 1 ==> forall i | 0 <= i < |sets| :: sets[i] != [])
  }

  // ----- The algorithm without its cache ------------------------------------------------------

  function Delta<T>(test: Test, c: seq<T>, sets: seq<seq<T>>): seq<T>
    requires Pieces(c, sets)
    decreases |c|, |c| - |sets|, |sets| + 1
  {
    if |sets| <= 1 then c else
    match Search(test, c, sets, 0)
    case Some(r) => r
    case None =>
      var refined := SplitAll(sets);
      if |refined| == |sets| then c else
      RefinedPieces(c, sets);
      Delta(test, c, refined)
  }

  function Search<T>(test: Test, c: seq<T>, sets: seq<seq<T>>, i: nat): Option<seq<T>>
    requires Pieces(c, sets) && |sets| > 1 && i <= |sets|
    decreases |c|, |c| - |sets|, |sets| - i
  {
    if i == |sets| then None
    else if test(Elems(sets[i])) then
      PiecePieces(c, sets, i);
      Some(Delta(test, sets[i], Split(sets[i])))
    else if |sets| > 2 && test(Elems(Concat(Without(sets, i)))) then
      ComplementPieces(c, sets, i);
      Some(Delta(test, Concat(Without(sets, i)), Without(sets, i)))
    else Search(test, c, sets, i + 1)
  }

  // ----- Pieces ----------------------------------------------------------------------------------

  lemma {:induction false} ConcatAppend<T>(x: seq<seq<T>>, y: seq<seq<T>>)
    ensures Concat(x + y) == Concat(x) + Concat(y)
  {
    if x == [] {
      assert x + y == y;
    } else {
      assert (x + y)[1..] == x[1..] + y;
      ConcatAppend(x[1..], y);
    }
  }

  // A list of sets around position i.
  lemma ConcatAround<T>(sets: seq<seq<T>>, i: nat)
    requires i < |sets|
    ensures Concat(sets) == Concat(sets[..i]) + sets[i] + Concat(sets[i + 1..])
    ensures Concat(Without(sets, i)) == Concat(sets[..i]) + Concat(sets[i + 1..])
  {
    hide Concat;
    AroundAt(sets, i);
    ConcatAppend(sets[..i], sets[i + 1..]);
    ConcatMiddle(sets[..i], sets[i], sets[i + 1..]);
  }

  lemma AroundAt<T>(s: seq<T>, i: nat)
    requires i < |s|
    ensures s == s[..i] + [s[i]] + s[i + 1..]
  {
  }

  lemma ConcatMiddle<T>(x: seq<seq<T>>, y: seq<T>, z: seq<seq<T>>)
    ensures Concat(x + [y] + z) == Concat(x) + y + Concat(z)
  {
    ConcatAppend(x + [y], z);
    ConcatAppend(x, [y]);
    ConcatPair(y, y);
  }

  lemma {:induction false} NonEmptySets<T>(sets: seq<seq<T>>)
    requires forall i | 0 <= i < |sets| :: sets[i] != []
    ensures |Concat(sets)| >= |sets|
    ensures |Concat(sets)| == |sets| ==> forall i | 0 <= i < |sets| :: |sets[i]| == 1
  {
    if sets != [] {
      var rest := sets[1..];
      forall i | 0 <= i < |rest| ensures rest[i] != [] { assert rest[i] == sets[i + 1]; }
      NonEmptySets(rest);
      if |Concat(sets)| == |sets| {
        forall i | 0 <= i < |sets| ensures |sets[i]| == 1 { if i > 0 { assert sets[i] == rest[i - 1]; } }
      }
    }
  }

  lemma DistinctPart<T>(x: seq<T>, y: seq<T>, z: seq<T>)
    requires Distinct(x + y + z)
    ensures Distinct(y) && Distinct(x + z)
    ensures Elems(x + z) == Elems(x + y + z) - Elems(y)
  {
    var s := x + y + z;
    assert forall i | 0 <= i < |y| :: y[i] == s[|x| + i];
    forall i, j | 0 <= i < j < |x + z| ensures (x + z)[i] != (x + z)[j] {
      assert (x + z)[i] == if i < |x| then s[i] else s[i + |y|];
      assert (x + z)[j] == if j < |x| then s[j] else s[j + |y|];
    }
    forall e | e in x + z ensures e !in y {
      var i :| 0 <= i < |x + z| && (x + z)[i] == e;
      assert e == if i < |x| then s[i] else s[i + |y|];
      forall j | 0 <= j < |y| ensures y[j] != e { assert y[j] == s[|x| + j]; }
    }
    forall e ensures e in Elems(x + z) <==> e in Elems(s) - Elems(y) {
      assert e in s <==> e in x || e in y || e in z;
    }
  }

  // One of several pieces is smaller than the whole, and so is what is left without it.
  lemma PiecePieces<T>(c: seq<T>, sets: seq<seq<T>>, i: nat)
    requires Pieces(c, sets) && |sets| > 1 && i < |sets|
    ensures 0 < |sets[i]| < |c| && Distinct(sets[i]) && Elems(sets[i]) <= Elems(c)
    ensures Pieces(sets[i], Split(sets[i]))
    ensures var rest := Concat(Without(sets, i));
            0 < |rest| < |c| && Distinct(rest) && Elems(rest) == Elems(c) - Elems(sets[i])
  {
    ConcatAround(sets, i);
    DistinctPart(Concat(sets[..i]), sets[i], Concat(sets[i + 1..]));
    var rest := Without(sets, i);
    forall j | 0 <= j < |rest| ensures rest[j] != [] { assert rest[j] == sets[if j < i then j else j + 1]; }
    NonEmptySets(rest);
  }

  lemma ComplementPieces<T>(c: seq<T>, sets: seq<seq<T>>, i: nat)
    requires Pieces(c, sets) && |sets| > 2 && i < |sets|
    ensures |Concat(Without(sets, i))| < |c| && Pieces(Concat(Without(sets, i)), Without(sets, i))
  {
    PiecePieces(c, sets, i);
    var rest := Without(sets, i);
    forall j | 0 <= j < |rest| ensures rest[j] != [] { assert rest[j] == sets[if j < i then j else j + 1]; }
  }

  lemma {:induction false} SplitAllConcat<T>(sets: seq<seq<T>>)
    ensures Concat(SplitAll(sets)) == Concat(sets)
    ensures |SplitAll(sets)| >= |sets|
    ensures |SplitAll(sets)| == |sets| ==> forall i | 0 <= i < |sets| :: |sets[i]| < 2
    ensures (forall i | 0 <= i < |sets| :: sets[i] != []) ==>
              forall i | 0 <= i < |SplitAll(sets)| :: SplitAll(sets)[i] != []
  {
    if sets != [] {
      var rest := sets[1..];
      SplitAllConcat(rest);
      ConcatAppend(Split(sets[0]), SplitAll(rest));
      if |SplitAll(sets)| == |sets| {
        forall i | 0 <= i < |sets| ensures |sets[i]| < 2 { if i > 0 { assert sets[i] == rest[i - 1]; } }
      }
      if forall i | 0 <= i < |sets| :: sets[i] != [] {
        assert forall i | 0 <= i < |rest| :: rest[i] == sets[i + 1];
      }
    }
  }

  // Splitting every piece gives more pieces, but never more than there are elements.
  lemma RefinedPieces<T>(c: seq<T>, sets: seq<seq<T>>)
    requires Pieces(c, sets) && |sets| > 1
    ensures |sets| <= |SplitAll(sets)| <= |c| && Pieces(c, SplitAll(sets))
  {
    SplitAllConcat(sets);
    NonEmptySets(SplitAll(sets));
  }

  // ----- What the algorithm returns -------------------------------------------------------------

  // Without any one element the test fails.
  ghost predicate OneMinimal<T>(test: Test, r: seq<T>) {
    forall x | x in r :: !test(Elems(r) - {x})
  }

  ghost predicate Reduced<T>(test: Test, c: seq<T>, r: seq<T>) {
    && Distinct(r) && Elems(r) <= Elems(c)
    && (r == c || test(Elems(r)))
    && OneMinimal(test, r)
  }

  // A search that finds nothing has seen every piece, and with more than two pieces every complement, fail.
  lemma {:induction false} SearchNone<T>(test: Test, c: seq<T>, sets: seq<seq<T>>, i: nat)
    requires Pieces(c, sets) && |sets| > 1 && i <= |sets| && Search(test, c, sets, i) == None
    ensures forall j | i <= j < |sets| :: !test(Elems(sets[j]))
    ensures |sets| > 2 ==> forall j | i <= j < |sets| :: !test(Elems(Concat(Without(sets, j))))
    decreases |sets| - i
  {
    if i < |sets| { SearchNone(test, c, sets, i + 1); }
  }

  // When all pieces are single elements and the search found nothing, nothing can be removed.
  lemma SinglesAreMinimal<T>(test: Test, c: seq<T>, sets: seq<seq<T>>)
    requires Pieces(c, sets) && |sets| > 1 && Search(test, c, sets, 0) == None
    requires forall i | 0 <= i < |sets| :: |sets[i]| < 2
    ensures OneMinimal(test, c)
  {
    SearchNone(test, c, sets, 0);
    forall x | x in c ensures !test(Elems(c) - {x}) {
      assert x in Elems(Concat(sets));
      var i := PieceOf(sets, x);
      assert sets[i] == [x];
      assert Elems(sets[i]) == {x};
      PiecePieces(c, sets, i);
      if |sets| == 2 {
        ConcatAround(sets, i);
        assert Without(sets, i) == [sets[1 - i]];
        assert Concat([sets[1 - i]]) == sets[1 - i];
      }
    }
  }

  lemma {:induction false} PieceOf<T>(sets: seq<seq<T>>, x: T) returns (i: nat)
    requires x in Concat(sets)
    ensures i < |sets| && x in sets[i]
  {
    if x in sets[0] {
      i := 0;
    } else {
      i := PieceOf(sets[1..], x);
      i := i + 1;
    }
  }

  // Whatever the test, the result is part of the input, passes unless nothing was removed, and is 1-minimal.
  lemma {:induction false} DeltaReduces<T>(test: Test, c: seq<T>, sets: seq<seq<T>>)
    requires Pieces(c, sets) && Distinct(c) && !test({})
    ensures Reduced(test, c, Delta(test, c, sets))
    decreases |c|, |c| - |sets|, |sets| + 1
  {
    if |sets| <= 1 {
      forall x | x in c ensures !test(Elems(c) - {x}) {
        assert c == [x];
        assert Elems(c) - {x} == {};
      }
    } else if Search(test, c, sets, 0).Some? {
      SearchReduces(test, c, sets, 0);
    } else {
      RefinedPieces(c, sets);
      SplitAllConcat(sets);
      if |SplitAll(sets)| == |sets| {
        SinglesAreMinimal(test, c, sets);
      } else {
        DeltaReduces(test, c, SplitAll(sets));
      }
    }
  }

  lemma {:induction false} SearchReduces<T>(test: Test, c: seq<T>, sets: seq<seq<T>>, i: nat)
    requires Pieces(c, sets) && |sets| > 1 && i <= |sets| && !test({})
    requires Search(test, c, sets, i).Some?
    ensures var r := Search(test, c, sets, i).value;
            Distinct(r) && Elems(r) <= Elems(c) && test(Elems(r)) && OneMinimal(test, r)
    decreases |c|, |c| - |sets|, |sets| - i
  {
    if i < |sets| {
      PiecePieces(c, sets, i);
      if test(Elems(sets[i])) {
        DeltaReduces(test, sets[i], Split(sets[i]));
      } else if |sets| > 2 && test(Elems(Concat(Without(sets, i)))) {
        ComplementPieces(c, sets, i);
        DeltaReduces(test, Concat(Without(sets, i)), Without(sets, i));
      } else {
        SearchReduces(test, c, sets, i + 1);
      }
    }
  }

  // ----- The algorithm with its failure cache ------------------------------------------------------

  method SplitEach<T>(sets: seq<seq<T>>) returns (refined: seq<seq<T>>)
    ensures refined == SplitAll(sets)
  {
    hide Split, SplitAll;
    refined := [];
    var i := 0;
    assert sets[0..] == sets;
    while i < |sets|
      invariant i <= |sets| && refined + SplitAll(sets[i..]) == SplitAll(sets)
    {
      SplitFirst(sets, i);
      refined := refined + Split(sets[i]);
      i := i + 1;
    }
    NothingToSplit(sets, i);
  }

  lemma SplitFirst<T>(sets: seq<seq<T>>, i: nat)
    requires i < |sets|
    ensures SplitAll(sets[i..]) == Split(sets[i]) + SplitAll(sets[i + 1..])
  {
    hide Split;
    assert sets[i..][1..] == sets[i + 1..];
  }

  lemma NothingToSplit<T>(sets: seq<seq<T>>, i: nat)
    requires i == |sets|
    ensures SplitAll(sets[i..]) == []
  {
  }

  class DeltaAlgorithm<T(==)> {
    const test: Test<T>
    var cache: set<set<T>>

    // The cache holds only sets that fail the test.
    ghost predicate Valid()
      reads this
    {
      forall s | s in cache :: !test(s)
    }

    constructor (test: Test<T>)
      ensures Valid() && this.test == test && cache == {}
    {
      this.test := test;
      cache := {};
    }

    // The answer is the test's own, cached or not; only failures are remembered.
    method GetTestResult(changes: seq<T>) returns (ok: bool)
      requires Valid()
      modifies this`cache
      ensures Valid() && ok == test(Elems(changes))
      ensures cache == old(cache) + (if ok then {} else {Elems(changes)})
    {
      var changeset := Elems(changes);
      if changeset in cache {
        ok := false;
      } else if !test(changeset) {
        cache := cache + {changeset};
        ok := false;
      } else {
        ok := true;
      }
    }

    // The initial check is skipped when forced; then the empty set is tried; then the reduction runs.
    method Run(changes: seq<T>, force: bool) returns (r: Result<seq<T>>)
      requires Valid() && Distinct(changes)
      modifies this`cache
      ensures Valid() && old(cache) <= cache
      ensures r.Failure? <==> !force && !test(Elems(changes))
      ensures r.Success? ==> Elems(r.value) <= Elems(changes) && Distinct(r.value)
      ensures r.Success? ==> (r.value == [] && test({})) || Reduced(test, changes, r.value)
      ensures r.Success? && !force ==> test(Elems(r.value)) && OneMinimal(test, r.value)
    {
      if !force {
        var ok := GetTestResult(changes);
        if !ok { return Failure("Initial test passed to delta fails."); }
      }
      assert Elems<T>([]) == {};
      var empty := GetTestResult([]);
      if empty {
        return Success([]);
      }
      var res := DeltaMethod(changes, Split(changes));
      DeltaReduces(test, changes, Split(changes));
      return Success(res);
    }

    method DeltaMethod(c: seq<T>, sets: seq<seq<T>>) returns (r: seq<T>)
      requires Valid() && Pieces(c, sets)
      modifies this`cache
      ensures Valid() && old(cache) <= cache
      ensures r == Delta(test, c, sets)
      decreases |c|, |c| - |sets|, |sets| + 1
    {
      if |sets| <= 1 { return c; }
      NonEmptySets(sets);
      var res := SearchMethod(c, sets);
      if res.Some? { return res.value; }
      var refined := SplitEach(sets);
      if |refined| == |sets| { return c; }
      RefinedPieces(c, sets);
      r := DeltaMethod(c, refined);
    }

    method SearchMethod(c: seq<T>, sets: seq<seq<T>>) returns (r: Option<seq<T>>)
      requires Valid() && Pieces(c, sets) && 1 < |sets| <= |c|
      modifies this`cache
      ensures Valid() && old(cache) <= cache
      ensures r == Search(test, c, sets, 0)
      decreases |c|, |c| - |sets|, |sets|
    {
      var i := 0;
      while i < |sets|
        invariant i <= |sets| && Valid() && old(cache) <= cache
        invariant Search(test, c, sets, 0) == Search(test, c, sets, i)
      {
        PiecePieces(c, sets, i);
        var ok := GetTestResult(sets[i]);
        if ok {
          var s := DeltaMethod(sets[i], Split(sets[i]));
          return Some(s);
        }
        if |sets| > 2 {
          var complement := Concat(Without(sets, i));
          ok := GetTestResult(complement);
          if ok {
            ComplementPieces(c, sets, i);
            var s := DeltaMethod(complement, Without(sets, i));
            return Some(s);
          }
        }
        i := i + 1;
      }
      return None;
    }
  }
}
