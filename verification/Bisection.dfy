/**
 A/B bisection: which of the differing inputs are harmless when taken from side B.
 */
module Bisection {
  import opened Collections

  // A named choice between side A and side B.
  datatype Choice<V> = Choice(name: string, a: V, b: V)

  ghost predicate DistinctNames<V>(choices: seq<Choice<V>>) {
    forall i, j | 0 <= i < j < |choices| :: choices[i].name != choices[j].name
  }

  function Names<V>(choices: seq<Choice<V>>): (ns: seq<string>)
    ensures |ns| == |choices| && forall i | 0 <= i < |ns| :: ns[i] == choices[i].name
  {
    seq(|choices|, i requires 0 <= i < |choices| => choices[i].name)
  }

  // Side B for the names in `bs`, side A for all others; a later entry of the same name wins.
  function Picks<V>(choices: seq<Choice<V>>, bs: set<string>): map<string, V> {
    if choices == [] then map[] else
    var c := choices[|choices| - 1];
    Picks(choices[..|choices| - 1], bs)[c.name := if c.name in bs then c.b else c.a]
  }

  // No later entry has the name of entry i.
  ghost predicate IsLast<V>(choices: seq<Choice<V>>, i: nat) {
    i < |choices| && forall j | i < j < |choices| :: choices[j].name != choices[i].name
  }

  // Picking side B for one name is giving it side B of its last entry in the all-A selection.
  lemma {:induction false} OnePick<V>(choices: seq<Choice<V>>, i: nat)
    requires IsLast(choices, i)
    ensures Picks(choices, {choices[i].name}) == Picks(choices, {})[choices[i].name := choices[i].b]
  {
    var n := |choices| - 1;
    var x, rest := choices[i].name, choices[..n];
    if i < n {
      OnePick(rest, i);
    } else {
      EarlierEntries(rest, x);
    }
  }

  // Earlier entries of a name matter only for that name.
  lemma {:induction false} EarlierEntries<V>(choices: seq<Choice<V>>, x: string)
    ensures Picks(choices, {x}).Keys == Picks(choices, {}).Keys
    ensures forall y | y in Picks(choices, {}) && y != x :: Picks(choices, {x})[y] == Picks(choices, {})[y]
  {
    if choices != [] { EarlierEntries(choices[..|choices| - 1], x); }
  }

  lemma IsEntry<V>(choices: seq<Choice<V>>, k: nat)
    requires IsLast(choices, k)
    ensures k < |choices|
  {
  }

  lemma {:induction false} LastEntry<V>(choices: seq<Choice<V>>, i: nat) returns (k: nat)
    requires i < |choices|
    ensures IsLast(choices, k) && choices[k].name == choices[i].name
    decreases |choices| - i
  {
    k := i;
    if j :| i < j < |choices| && choices[j].name == choices[i].name { k := LastEntry(choices, j); }
  }

  // ----- Budget -------------------------------------------------------------------------------------

  // The most tests it takes to settle a partition not tested yet.
  function Untested(n: nat): nat
    requires n > 0
  {
    2 * n - 1
  }

  // The most tests it takes to settle the failed partitions waiting to be split.
  function Waiting(queue: seq<seq<string>>): int {
    if queue == [] then 0 else 2 * (|queue[0]| - 1) + Waiting(queue[1..])
  }

  lemma WaitingNil()
    ensures Waiting([]) == 0
  {
  }

  lemma {:induction false} WaitingLast(queue: seq<seq<string>>)
    requires queue != []
    ensures Waiting(queue) == Waiting(queue[..|queue| - 1]) + 2 * (|queue[|queue| - 1]| - 1)
  {
    if |queue| > 1 {
      WaitingLast(queue[1..]);
      assert queue[1..][..|queue| - 2] == queue[..|queue| - 1][1..];
    }
  }

  lemma {:induction false} WaitingNonNegative(queue: seq<seq<string>>)
    requires forall i | 0 <= i < |queue| :: queue[i] != []
    ensures Waiting(queue) >= 0
  {
    if queue != [] {
      assert forall i | 0 <= i < |queue[1..]| :: queue[1..][i] == queue[i + 1];
      WaitingNonNegative(queue[1..]);
    }
  }

  // How often a partition of n names can be halved, the larger half each time, until one name is left.
  function Levels(n: nat): nat { if n < 2 then 0 else 1 + Levels(n - n / 2) }

  function Pow2(n: nat): nat { if n == 0 then 1 else 2 * Pow2(n - 1) }

  // It is the binary logarithm, rounded up.
  lemma {:induction false} LevelsAreLogarithm(n: nat)
    requires n > 0
    ensures n <= Pow2(Levels(n)) && (n > 1 ==> Pow2(Levels(n)) < 2 * n)
  {
    if n > 1 {
      var half := n - n / 2;
      LevelsAreLogarithm(half);
      assert half > 1 ==> Pow2(Levels(half)) == 2 * Pow2(Levels(half) - 1);
    }
  }

  lemma {:induction false} LevelsRise(m: nat, n: nat)
    requires m <= n
    ensures Levels(m) <= Levels(n)
  {
    if m > 1 { LevelsRise(m - m / 2, n - n / 2); }
  }

  // How many names of p fail on their own.
  function Bad<V>(choices: seq<Choice<V>>, perform: map<string, V> -> bool, p: seq<string>): nat {
    if p == [] then 0 else
    Bad(choices, perform, p[1..]) + if perform(Picks(choices, {p[0]})) then 0 else 1
  }

  lemma {:induction false} BadOfBoth<V>(choices: seq<Choice<V>>, perform: map<string, V> -> bool, p: seq<string>, q: seq<string>)
    ensures Bad(choices, perform, p + q) == Bad(choices, perform, p) + Bad(choices, perform, q)
  {
    if p == [] {
      assert p + q == q;
    } else {
      BadOfBoth(choices, perform, p[1..], q);
      assert (p + q)[1..] == p[1..] + q;
    }
  }

  // A partition without bad names passes, if choices do not interact.
  lemma {:induction false} NoBad<V>(choices: seq<Choice<V>>, perform: map<string, V> -> bool, p: seq<string>)
    ensures Bad(choices, perform, p) == 0 <==> forall i | 0 <= i < |p| :: perform(Picks(choices, {p[i]}))
  {
    if p != [] {
      NoBad(choices, perform, p[1..]);
      forall i | 0 <= i < |p| - 1 ensures p[i + 1] == p[1..][i] {}
      assert forall i | 0 < i < |p| :: p[i] == p[1..][i - 1];
    }
  }

  lemma FailureIsBad<V>(choices: seq<Choice<V>>, perform: map<string, V> -> bool, p: seq<string>)
    requires Independent(choices, perform) && Elems(p) <= Elems(Names(choices)) && !perform(Picks(choices, Elems(p)))
    ensures Bad(choices, perform, p) > 0
  {
    hide Picks, Names;
    NoBad(choices, perform, p);
    var x :| x in Elems(p) && !perform(Picks(choices, {x}));
    var i :| 0 <= i < |p| && p[i] == x;
  }

  // The tests that settle the failed partitions waiting to be split, if choices do not interact.
  function Debt<V>(choices: seq<Choice<V>>, perform: map<string, V> -> bool, queue: seq<seq<string>>): nat {
    if queue == [] then 0 else DebtOf(choices, perform, queue[0]) + Debt(choices, perform, queue[1..])
  }

  function DebtOf<V>(choices: seq<Choice<V>>, perform: map<string, V> -> bool, p: seq<string>): nat {
    Owed(Bad(choices, perform, p), Levels(|p|))
  }

  function Owed(bad: nat, levels: nat): (r: nat)
    ensures bad == 0 ==> r == 0
  {
    2 * bad * levels
  }

  lemma {:induction false} DebtOfLast<V>(choices: seq<Choice<V>>, perform: map<string, V> -> bool, queue: seq<seq<string>>)
    requires queue != []
    ensures Debt(choices, perform, queue)
            == Debt(choices, perform, queue[..|queue| - 1]) + DebtOf(choices, perform, queue[|queue| - 1])
  {
    hide DebtOf;
    if |queue| > 1 {
      DebtOfLast(choices, perform, queue[1..]);
      assert queue[1..][..|queue| - 2] == queue[..|queue| - 1][1..];
    }
  }

  // Splitting a partition takes two tests and leaves debts one level lower.
  lemma HalvesOwe<V>(choices: seq<Choice<V>>, perform: map<string, V> -> bool, left: seq<string>, right: seq<string>)
    requires 0 < |left| <= |right| <= |left| + 1
    ensures DebtOf(choices, perform, left) + DebtOf(choices, perform, right) + 2 * Bad(choices, perform, left + right)
            <= DebtOf(choices, perform, left + right)
  {
    hide Bad, Owed, Levels;
    BadOfBoth(choices, perform, left, right);
    LevelsOfHalves(|left + right|);
    Weigh(Bad(choices, perform, left), Bad(choices, perform, right), Levels(|left|), Levels(|right|));
  }

  lemma LevelsOfHalves(n: nat)
    requires n >= 2
    ensures Levels(n / 2) <= Levels(n - n / 2) && Levels(n) == Levels(n - n / 2) + 1
  {
    LevelsRise(n / 2, n - n / 2);
  }

  lemma Weigh(a: nat, b: nat, k: nat, l: nat)
    requires k <= l
    ensures Owed(a, k) + Owed(b, l) + 2 * (a + b) <= Owed(a + b, l + 1)
  {
    assert 2 * (a + b) * (l + 1) == 2 * a * l + 2 * b * l + 2 * (a + b);
    assert a * (l - k) >= 0;
    assert 2 * a * l - 2 * a * k == 2 * (a * (l - k));
  }

  // The most tests that bisection takes, if choices do not interact.
  function TestBound<V>(choices: seq<Choice<V>>, perform: map<string, V> -> bool, p: seq<string>): nat {
    if |p| < 2 then |p| else if Bad(choices, perform, p) == 0 then 2 else DebtOf(choices, perform, p)
  }

  // A set passes exactly if each of its members passes alone.
  ghost predicate Independent<V>(choices: seq<Choice<V>>, perform: map<string, V> -> bool) {
    forall s: set<string> | s <= Elems(Names(choices)) ::
      perform(Picks(choices, s)) <==> forall x | x in s :: perform(Picks(choices, {x}))
  }

  class Bisector<V> {
    const choices: seq<Choice<V>>
    const perform: map<string, V> -> bool
    var knownGood: set<string>
    var toSplit: seq<seq<string>>
    // The bounds announced, one per test performed.
    var announced: seq<int>

    constructor (choices: seq<Choice<V>>, perform: map<string, V> -> bool)
      ensures this.choices == choices && this.perform == perform
      ensures knownGood == {} && toSplit == [] && announced == []
    {
      this.choices, this.perform := choices, perform;
      knownGood, toSplit, announced := {}, [], [];
    }

    predicate Passes(s: set<string>) { perform(Picks(choices, s)) }

    // A name is settled if it is known good, or has failed on its own.
    ghost predicate Settled(x: string)
      reads this
    {
      x in knownGood || !Passes({x})
    }

    // The waiting partitions after testing p.
    ghost function AfterTest(queue: seq<seq<string>>, p: seq<string>): seq<seq<string>> {
      if |p| < 2 || Passes(Elems(p)) then queue else [p] + queue
    }

    ghost function KnownBy(p: seq<string>): set<string> { if Passes(Elems(p)) then Elems(p) else {} }

    ghost predicate AllNamed(p: seq<string>) { forall x | x in p :: x in Names(choices) }

    // A name is known good because some set of names that contains it passed the test.
    ghost predicate Justified(x: string) {
      x in Names(choices) && exists s: set<string> :: x in s && s <= Elems(Names(choices)) && Passes(s)
    }

    ghost predicate Valid()
      reads this
    {
      && (forall i | 0 <= i < |toSplit| :: toSplit[i] != [] && AllNamed(toSplit[i]))
      && (announced != [] ==> forall i | 0 <= i < |toSplit| :: |toSplit[i]| >= 2 && !Passes(Elems(toSplit[i])))
      && (forall x | x in knownGood :: Justified(x))
    }

    // Every test performed so far was announced with a bound that the tests since then, this one included,
    // and `more` further ones do not exceed.
    ghost predicate Bounded(more: int)
      reads this
    {
      forall i | 0 <= i < |announced| :: announced[i] >= |announced| - i + more
    }

    // Test one partition; `upcoming` is the size of the partition to be tested right after it, if any.
    method TestPartition(partition: seq<string>, upcoming: nat)
      requires Valid() && partition != [] && AllNamed(partition)
      requires forall i | 0 <= i < |toSplit| :: |toSplit[i]| >= 2 && !Passes(Elems(toSplit[i]))
      requires Bounded(Untested(|partition|) + (if upcoming > 0 then Untested(upcoming) else 0) + Waiting(toSplit))
      modifies this
      ensures Valid()
      ensures announced == old(announced)
                + [Untested(|partition|) + (if upcoming > 0 then Untested(upcoming) else 0) + Waiting(old(toSplit))]
      ensures Bounded((if upcoming > 0 then Untested(upcoming) else 0) + Waiting(toSplit))
      ensures toSplit == AfterTest(old(toSplit), partition) && knownGood == old(knownGood) + KnownBy(partition)
      ensures forall x | x in partition :: Settled(x) || (|partition| > 1 && toSplit == [partition] + old(toSplit))
      ensures Waiting(toSplit) <= Waiting(old(toSplit)) + 2 * (|partition| - 1)
    {
      hide Picks;
      var max := MaxRemaining(partition, upcoming);
      var ok := perform(Picks(choices, Elems(partition)));
      announced := announced + [max];
      assert ([partition] + toSplit)[1..] == toSplit;
      hide Waiting, Untested;
      if ok {
        assert forall x | x in partition :: x in Elems(partition);
        assert Elems(partition) <= Elems(Names(choices));
        knownGood := knownGood + Elems(partition);
      } else if |partition| > 1 {
        toSplit := [partition] + toSplit;
      } else {
        assert Elems(partition) == {partition[0]};
      }
    }

    // The announced bound: for this partition, for the one to follow, and for each that waits to be split.
    method MaxRemaining(partition: seq<string>, upcoming: nat) returns (max: int)
      requires partition != []
      ensures max == Untested(|partition|) + (if upcoming > 0 then Untested(upcoming) else 0) + Waiting(toSplit)
    {
      max := |partition| * 2 - 1;
      if upcoming > 0 { max := max + upcoming * 2 - 1; }
      var k := 0;
      while k < |toSplit|
        invariant k <= |toSplit|
        invariant max + Waiting(toSplit[k..])
                  == Untested(|partition|) + (if upcoming > 0 then Untested(upcoming) else 0) + Waiting(toSplit)
      {
        assert toSplit[k..][1..] == toSplit[k + 1..];
        max := max + (|toSplit[k]| - 1) * 2;
        k := k + 1;
      }
    }

    // Test both halves of a partition taken off the list, the smaller first; a half that fails and can be split is
    // put in front.
    method TestHalves(partition: seq<string>)
      requires Valid() && partition != [] && AllNamed(partition)
      requires forall i | 0 <= i < |toSplit| :: |toSplit[i]| >= 2 && !Passes(Elems(toSplit[i]))
      requires |partition| == 1 ==> announced == []
      requires Bounded(2 * (|partition| - 1) + Waiting(toSplit))
      modifies this
      ensures Valid() && Bounded(Waiting(toSplit)) && old(knownGood) <= knownGood
      ensures forall x | x in partition :: Settled(x) || InQueue(toSplit, x)
      ensures forall x | InQueue(old(toSplit), x) :: InQueue(toSplit, x)
      ensures Waiting(toSplit) + |toSplit| <= Waiting(old(toSplit)) + |old(toSplit)| + 2 * (|partition| - 1)
      ensures |announced| == |old(announced)| + (if |partition| < 2 then 1 else 2)
      ensures announced[..|old(announced)|] == old(announced)
      ensures var (left, right) := (partition[..|partition| / 2], partition[|partition| / 2..]);
              && toSplit == AfterTest(AfterTest(old(toSplit), left), right)
              && knownGood == old(knownGood) + KnownBy(left) + KnownBy(right)
      ensures announced[|old(announced)|]
              <= Waiting(old(toSplit)) + if |partition| < 2 then 1 else 2 * |partition| - 2
    {
      hide Picks, Bisector.Justified;
      var middle := |partition| / 2;
      var left, right := partition[..middle], partition[middle..];
      assert partition == left + right;
      ghost var rest := toSplit;
      if |left| > 0 { TestPartition(left, |right|); }
      assert |right| > 0;
      ghost var mid := toSplit;
      TestPartition(right, 0);
      StillAccounted(rest, mid, toSplit, left, right);
    }

    // Splitting a failed partition, or the first one, leaves room for the tests still owed.
    lemma HalvesStep(queue: seq<seq<string>>, p: seq<string>)
      requires Independent(choices, perform) && p != [] && Elems(p) <= Elems(Names(choices))
      ensures var (left, right) := (p[..|p| / 2], p[|p| / 2..]);
              var owed := Debt(choices, perform, AfterTest(AfterTest(queue, left), right));
              && (if |p| < 2 then 1 else 2) + owed <= Debt(choices, perform, queue) + TestBound(choices, perform, p)
              && (!Passes(Elems(p)) && |p| >= 2 ==> TestBound(choices, perform, p) == DebtOf(choices, perform, p))
              && (queue == [] ==> Debt(choices, perform, queue) == 0)
    {
      hide Picks, Names, Levels, Bad, Owed, Independent;
      if |p| >= 2 {
        assert p == p[..|p| / 2] + p[|p| / 2..];
        HalvesOwe(choices, perform, p[..|p| / 2], p[|p| / 2..]);
        if !Passes(Elems(p)) { FailureIsBad(choices, perform, p); }
      }
      DebtAfter(queue, p[..|p| / 2]);
      DebtAfter(AfterTest(queue, p[..|p| / 2]), p[|p| / 2..]);
    }

    lemma DebtAfter(queue: seq<seq<string>>, p: seq<string>)
      ensures Debt(choices, perform, AfterTest(queue, p))
              <= Debt(choices, perform, queue) + if |p| < 2 then 0 else DebtOf(choices, perform, p)
    {
      hide DebtOf;
      assert ([p] + queue)[1..] == queue;
    }

    // The n tests performed and those still owed for the queue are no more than the bound.
    ghost predicate TestsWithin(queue: seq<seq<string>>, n: nat) {
      Independent(choices, perform) && n > 0 ==>
        n + Debt(choices, perform, queue) <= TestBound(choices, perform, Names(choices))
    }

    lemma NothingTested(queue: seq<seq<string>>)
      ensures TestsWithin(queue, 0)
    {
    }

    lemma WithinBound(n: nat)
      requires TestsWithin([], n)
      ensures Independent(choices, perform) ==> n <= TestBound(choices, perform, Names(choices)) || n == 0
    {
    }

    lemma StillWithin(queue: seq<seq<string>>, p: seq<string>, n: nat)
      requires queue != [] && p == queue[|queue| - 1] && p != [] && AllNamed(p) && TestsWithin(queue, n)
      requires if n == 0 then queue == [Names(choices)] else |p| >= 2 && !Passes(Elems(p))
      ensures var rest, left, right := queue[..|queue| - 1], p[..|p| / 2], p[|p| / 2..];
              TestsWithin(AfterTest(AfterTest(rest, left), right), n + if |p| < 2 then 1 else 2)
    {
      hide Picks, Names, Debt, DebtOf, TestBound, Bisector.AfterTest, Independent;
      var rest := queue[..|queue| - 1];
      DebtOfLast(choices, perform, queue);
      if Independent(choices, perform) { HalvesStep(rest, p); }
    }

    // Every name is settled or waits in a partition of the list.
    ghost predicate Accounted(queue: seq<seq<string>>)
      reads this
    {
      forall x | x in Names(choices) :: Settled(x) || InQueue(queue, x)
    }

    // The bisection loop.  Every name left out failed on its own; every name kept was part of a set that passed;
    // every announced bound holds.  If choices do not interact, the result is that of the sequential check.
    method CheckBisect() returns (good: set<string>)
      requires knownGood == {} && toSplit == [] && announced == []
      modifies this
      ensures good == knownGood
      ensures forall x | x in Names(choices) :: x in good || !Passes({x})
      ensures forall x | x in good :: Justified(x)
      ensures forall i | 0 <= i < |announced| :: announced[i] >= |announced| - i
      ensures |announced| <= if |choices| < 2 then |choices| else 2 * |choices| - 2
      ensures Independent(choices, perform) ==> good == set x | x in Names(choices) && Passes({x})
      ensures Independent(choices, perform) ==> |announced| <= TestBound(choices, perform, Names(choices))
    {
      hide TestBound, InQueue, Elems, Bisector.Passes, Bisector.TestsWithin, Bisector.KnownBy, Bisector.AfterTest, Independent, Picks, Bisector.Justified, Waiting;
      WaitingNil();
      NothingTested([Names(choices)]);
      if choices == [] { return {}; }
      var names := Names(choices);
      toSplit := [names];
      OneQueued(names);
      while toSplit != []
        invariant Valid()
        invariant announced == [] ==> toSplit == [names]
        invariant Accounted(toSplit)
        invariant Bounded(Waiting(toSplit))
        invariant TestsWithin(toSplit, |announced|)
        invariant announced != [] ==> announced[0] <= if |choices| < 2 then |choices| else 2 * |choices| - 2
        decreases Waiting(toSplit) + |toSplit|
      {
        ghost var queue := toSplit;
        WaitingLast(toSplit);
        var partition := toSplit[|toSplit| - 1];
        toSplit := toSplit[..|toSplit| - 1];
        QueueSplit(queue, toSplit, partition);
        StillWithin(queue, partition, |announced|);
        WaitingNonNegative(toSplit);
        TestHalves(partition);
        WaitingNonNegative(toSplit);
      }
      WithinBound(|announced|);
      NoneQueued();
      good := knownGood;
      assert forall x | x in names :: Settled(x);
      if Independent(choices, perform) { IndependentGood(); }
    }

    lemma IndependentGood()
      requires Independent(choices, perform) && forall x | x in knownGood :: Justified(x)
      ensures forall x | x in knownGood :: x in Names(choices) && Passes({x})
    {
    }

    // The sequential check: every entry on its own.  The names found are those that pass alone, which is what
    // bisection returns if choices do not interact, exactly if the last entry of each name decides.  If no later entry
    // of a name hides a side B, and so if no name occurs twice, it does for every test under which choices do not
    // interact.
    method CheckSequentially() returns (good: set<string>)
      ensures good == set i: nat | i < |choices| && PassesAlone(choices, perform, i) :: choices[i].name
      ensures good == (set x | x in Names(choices) && Passes({x})) <==> LastEntriesDecide(choices, perform)
      ensures Independent(choices, perform) && SidesAgree(choices) ==> good == set x | x in Names(choices) && Passes({x})
      ensures DistinctNames(choices) ==> SidesAgree(choices)
    {
      good := {};
      var allA := Picks(choices, {});
      var i := 0;
      while i < |choices|
        invariant i <= |choices|
        invariant good == set k: nat | k < i && PassesAlone(choices, perform, k) :: choices[k].name
      {
        var c := choices[i];
        if perform(allA[c.name := c.b]) { good := good + {c.name}; }
        i := i + 1;
      }
      AloneIsSingle(good);
      if Independent(choices, perform) && SidesAgree(choices) { SidesAgreeSuffices(choices, perform); }
    }

    lemma AloneIsSingle(good: set<string>)
      requires good == set i: nat | i < |choices| && PassesAlone(choices, perform, i) :: choices[i].name
      ensures good == (set x | x in Names(choices) && Passes({x})) <==> LastEntriesDecide(choices, perform)
    {
      hide Picks, IsLast, Names;
      forall k: nat | IsLast(choices, k)
        ensures k < |choices| && (PassesAlone(choices, perform, k) <==> Passes({choices[k].name}))
      {
        IsEntry(choices, k);
        OnePick(choices, k);
      }
      forall i: nat | i < |choices|
        ensures choices[i].name in Names(choices)
        ensures PassesAlone(choices, perform, i) && LastEntriesDecide(choices, perform) ==> Passes({choices[i].name})
        ensures Passes({choices[i].name}) ==> choices[i].name in good
      {
        assert Names(choices)[i] == choices[i].name;
        var k := LastEntry(choices, i);
        assert SameName(choices, i, k);
      }
      if !LastEntriesDecide(choices, perform) {
        var i: nat, k: nat :| SameName(choices, i, k) && PassesAlone(choices, perform, i) && !PassesAlone(choices, perform, k);
        assert choices[i].name in good && !Passes({choices[i].name});
      }
    }
  }

  // ----- Names that occur twice ------------------------------------------------------------------------------

  // Side A for all names but that of entry i, which gets its own side B.
  predicate PassesAlone<V>(choices: seq<Choice<V>>, perform: map<string, V> -> bool, i: nat)
    requires i < |choices|
  {
    perform(Picks(choices, {})[choices[i].name := choices[i].b])
  }

  // Entry k is the last one of entry i's name.
  ghost predicate SameName<V>(choices: seq<Choice<V>>, i: nat, k: nat) {
    i < |choices| && IsLast(choices, k) && choices[k].name == choices[i].name
  }

  // No entry passes whose name has a last entry that fails.
  ghost predicate LastEntriesDecide<V>(choices: seq<Choice<V>>, perform: map<string, V> -> bool) {
    forall i: nat, k: nat | SameName(choices, i, k) && PassesAlone(choices, perform, i) :: PassesAlone(choices, perform, k)
  }

  // Every entry has the side B of its name's last entry, or that last entry makes no difference.
  ghost predicate SidesAgree<V>(choices: seq<Choice<V>>) {
    forall i: nat, k: nat | SameName(choices, i, k) ::
      choices[i].b == choices[k].b || choices[k].b == choices[k].a
  }

  // What a selection takes for a name is a side of its last entry.
  lemma {:induction false} PickOfLast<V>(choices: seq<Choice<V>>, s: set<string>, k: nat)
    requires IsLast(choices, k)
    ensures var c := choices[k];
            c.name in Picks(choices, s) && Picks(choices, s)[c.name] == if c.name in s then c.b else c.a
  {
    if k < |choices| - 1 { PickOfLast(choices[..|choices| - 1], s, k); }
  }

  lemma SidesAgreeSuffices<V>(choices: seq<Choice<V>>, perform: map<string, V> -> bool)
    requires Independent(choices, perform) && SidesAgree(choices)
    ensures LastEntriesDecide(choices, perform)
  {
    forall i: nat, k: nat | SameName(choices, i, k) && PassesAlone(choices, perform, i)
      ensures PassesAlone(choices, perform, k)
    {
      var c, allA := choices[k], Picks(choices, {});
      assert c.name == choices[i].name;
      PickOfLast(choices, {}, k);
      if c.b == c.a {
        assert perform(allA) by { assert {} <= Elems(Names(choices)); }
        assert allA[c.name := c.b] == allA;
      }
    }
  }

  // A test that fails on the last side B of one name, and on nothing else.
  ghost predicate Watches<V(!new)>(perform: map<string, V> -> bool, x: string, b: V) {
    forall m :: perform(m) <==> !(x in m && m[x] == b)
  }

  lemma WatchingTest<V(!new)>(choices: seq<Choice<V>>, perform: map<string, V> -> bool, k: nat)
    requires IsLast(choices, k) && choices[k].b != choices[k].a && Watches(perform, choices[k].name, choices[k].b)
    ensures Independent(choices, perform)
  {
    hide Picks, Names, Elems;
    var x := choices[k].name;
    forall s: set<string> ensures perform(Picks(choices, s)) <==> x !in s { PickOfLast(choices, s, k); }
    hide Watches, IsLast;
    forall s: set<string> | s <= Elems(Names(choices))
      ensures perform(Picks(choices, s)) <==> forall y | y in s :: perform(Picks(choices, {y}))
    {
      assert perform(Picks(choices, {x})) <==> x !in {x};
    }
  }

  lemma HiddenEntry<V(!new)>(choices: seq<Choice<V>>, perform: map<string, V> -> bool, i: nat, k: nat)
    requires SameName(choices, i, k) && choices[i].b != choices[k].b && Watches(perform, choices[k].name, choices[k].b)
    ensures PassesAlone(choices, perform, i) && !PassesAlone(choices, perform, k)
  {
    hide Picks;
    var x, allA := choices[k].name, Picks(choices, {});
    assert choices[i].name == x;
    assert allA[x := choices[i].b][x] == choices[i].b && allA[x := choices[k].b][x] == choices[k].b;
  }

  lemma SidesDisagree<V(!new)>(choices: seq<Choice<V>>) returns (perform: map<string, V> -> bool)
    requires !SidesAgree(choices)
    ensures Independent(choices, perform) && !LastEntriesDecide(choices, perform)
  {
    hide Picks, Names, Independent, PassesAlone;
    var i: nat, k: nat :| SameName(choices, i, k) && choices[i].b != choices[k].b && choices[k].b != choices[k].a;
    var x, b := choices[k].name, choices[k].b;
    perform := (m: map<string, V>) => !(x in m && m[x] == b);
    assert Watches(perform, x, b);
    hide Watches;
    WatchingTest(choices, perform, k);
    HiddenEntry(choices, perform, i, k);
  }

  // The two checks agree on every test under which choices do not interact exactly if the sides agree.
  lemma ChecksAgree<V(!new)>(choices: seq<Choice<V>>)
    ensures SidesAgree(choices) <==>
            forall perform: map<string, V> -> bool | Independent(choices, perform) :: LastEntriesDecide(choices, perform)
  {
    if SidesAgree(choices) {
      forall perform: map<string, V> -> bool | Independent(choices, perform) ensures LastEntriesDecide(choices, perform) {
        SidesAgreeSuffices(choices, perform);
      }
    } else {
      var perform := SidesDisagree(choices);
    }
  }

  // Two entries of one name with different sides B, of which the last one matters, are enough to disagree.
  lemma DuplicateNamesDisagree<V(!new)>(a: V, b1: V, b2: V) returns (perform: map<string, V> -> bool)
    requires b2 != a && b2 != b1
    ensures var choices := [Choice("x", a, b1), Choice("x", a, b2)];
            Independent(choices, perform) && !LastEntriesDecide(choices, perform)
  {
    var choices := [Choice("x", a, b1), Choice("x", a, b2)];
    assert SameName(choices, 0, 1);
    perform := SidesDisagree(choices);
  }

  ghost predicate InQueue(queue: seq<seq<string>>, x: string) {
    exists i :: 0 <= i < |queue| && x in queue[i]
  }

  lemma OneQueued(p: seq<string>)
    ensures forall x | x in p :: InQueue([p], x)
  {
    assert [p][0] == p;
  }

  lemma NoneQueued()
    ensures forall x :: !InQueue([], x)
  {
  }

  lemma QueueSplit(queue: seq<seq<string>>, rest: seq<seq<string>>, partition: seq<string>)
    requires queue == rest + [partition]
    ensures forall x :: InQueue(queue, x) <==> InQueue(rest, x) || x in partition
  {
    forall x ensures InQueue(queue, x) <==> InQueue(rest, x) || x in partition {
      if x in partition { assert x in queue[|queue| - 1]; }
      if InQueue(rest, x) { var i :| 0 <= i < |rest| && x in rest[i]; assert x in queue[i]; }
    }
  }

  // Names waiting in the list still wait after the pieces that failed were put in front of it.
  lemma StillAccounted(rest: seq<seq<string>>, mid: seq<seq<string>>, queue: seq<seq<string>>,
                       left: seq<string>, right: seq<string>)
    requires mid == rest || mid == [left] + rest
    requires queue == mid || queue == [right] + mid
    ensures forall x | InQueue(rest, x) :: InQueue(queue, x)
    ensures mid == [left] + rest ==> forall x | x in left :: InQueue(queue, x)
    ensures queue == [right] + mid ==> forall x | x in right :: InQueue(queue, x)
  {
    forall x | InQueue(rest, x) ensures InQueue(queue, x) {
      var i :| 0 <= i < |rest| && x in rest[i];
      assert x in queue[i + |queue| - |rest|];
    }
    if mid == [left] + rest {
      forall x | x in left ensures InQueue(queue, x) { assert x in queue[|queue| - |mid|]; }
    }
    if queue == [right] + mid {
      forall x | x in right ensures InQueue(queue, x) { assert x in queue[0]; }
    }
  }
}
