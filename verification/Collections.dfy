/**
 Optional values, results, and lists as sets.
 */
module Collections {

  datatype Option<+T> = None | Some(value: T)
  datatype Result<+T> = Success(value: T) | Failure(error: string)

  ghost predicate Distinct<T>(s: seq<T>) { forall i, j | 0 <= i < j < |s| :: s[i] != s[j] }

  function Elems<T>(s: seq<T>): set<T> { set x | x in s }

  function RemoveAt<T>(l: seq<T>, i: nat): seq<T>
    requires i < |l|
  {
    l[..i] + l[i + 1..]
  }

  lemma {:induction false} ElemsSize<T>(s: seq<T>)
    requires Distinct(s)
    ensures |Elems(s)| == |s|
  {
    if s != [] {
      var n := |s| - 1;
      var t := s[..n];
      ElemsSize(t);
      assert s == t + [s[n]];
      assert Elems(s) == Elems(t) + {s[n]};
      assert s[n] !in t;
    }
  }
}
