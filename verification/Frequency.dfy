/**
 The call-frequency estimator: instrumented calls multiply repeat counts along a call stack instead of
 being executed over and over.
 */
module Frequency {
  import opened PointerLists
  import opened HashTable

  // Frequencies are 64-bit unsigned numbers.
  const MODULUS: nat := 0x1_0000_0000_0000_0000

  // A module call with its arguments, which form the key, made `repeat` times, and the calls it makes itself.
  datatype Call<Key> = Call(key: Key, repeat: nat, numInts: nat, numDoubles: nat, body: seq<Call<Key>>)

  // What the instrumented program does.
  datatype Op<Key> = Memoize(key: Key, repeat: nat, numInts: nat, numDoubles: nat) | ExitScope

  // The three resource fields of a table entry.
  datatype Entry = Entry(frequency: nat, numInts: nat, numDoubles: nat)

  // A full or an empty stack ends the program.
  datatype State<Key> = Running(stack: seq<nat>, memos: map<Key, Entry>) | Exited

  // ----- The estimator's operations -------------------------------------------------------------------

  // The repeat counts of all enclosing calls, the main program at the bottom excluded.
  function Multiplier(stack: seq<nat>): nat {
    if |stack| <= 1 then 1 else (stack[|stack| - 1] * Multiplier(stack[..|stack| - 1])) % MODULUS
  }

  function MemoEntry<Key>(memos: map<Key, Entry>, op: Op<Key>, mult: nat): Entry
    requires op.Memoize?
  {
    if op.key in memos then
      memos[op.key].(frequency := (memos[op.key].frequency + op.repeat * mult) % MODULUS)
    else Entry((op.repeat * mult) % MODULUS, op.numInts, op.numDoubles)
  }

  function Step<Key>(maxSize: nat, s: State<Key>, op: Op<Key>): State<Key> {
    if s.Exited? then s else
    match op
    case Memoize(key, repeat, _, _) =>
      if |s.stack| >= maxSize then Exited
      else Running(s.stack + [repeat], s.memos[key := MemoEntry(s.memos, op, Multiplier(s.stack))])
    case ExitScope =>
      if s.stack == [] then Exited else Running(s.stack[..|s.stack| - 1], s.memos)
  }

  function Exec<Key>(maxSize: nat, s: State<Key>, ops: seq<Op<Key>>): State<Key>
    decreases |ops|
  {
    if ops == [] then s else Exec(maxSize, Step(maxSize, s, ops[0]), ops[1..])
  }

  // ----- The instrumented program and what it stands for -------------------------------------------------

  // Each call is bracketed by memoize and exit_scope; its body runs once, whatever its repeat count.
  function Ops<Key>(calls: seq<Call<Key>>): seq<Op<Key>> {
    if calls == [] then [] else
    var c := calls[0];
    [Memoize(c.key, c.repeat, c.numInts, c.numDoubles)] + Ops(c.body) + [ExitScope] + Ops(calls[1..])
  }

  // The keys in the order a program without repeat counts would invoke them.
  function Unroll<Key>(calls: seq<Call<Key>>): seq<Key> {
    if calls == [] then [] else
    Times([calls[0].key] + Unroll(calls[0].body), calls[0].repeat) + Unroll(calls[1..])
  }

  function Times<T>(s: seq<T>, n: nat): seq<T> { if n == 0 then [] else s + Times(s, n - 1) }

  function Occurrences<T(==)>(s: seq<T>, x: T): nat { multiset(s)[x] }

  function Depth<Key>(calls: seq<Call<Key>>): nat {
    if calls == [] then 0 else
    var d, rest := 1 + Depth(calls[0].body), Depth(calls[1..]);
    if d >= rest then d else rest
  }

  ghost predicate Called<Key>(calls: seq<Call<Key>>, k: Key) {
    calls != [] && (calls[0].key == k || Called(calls[0].body, k) || Called(calls[1..], k))
  }

  // Invocations of k, multiplied out instead of unrolled.
  function Weight<Key(==)>(calls: seq<Call<Key>>, k: Key): nat {
    if calls == [] then 0 else
    var c := calls[0];
    c.repeat * ((if c.key == k then 1 else 0) + Weight(c.body, k)) + Weight(calls[1..], k)
  }

  // ----- Unrolling ----------------------------------------------------------------------------------------

  lemma OccurrencesAppend<T>(a: seq<T>, b: seq<T>, x: T)
    ensures Occurrences(a + b, x) == Occurrences(a, x) + Occurrences(b, x)
  {
  }

  lemma {:induction false} OccurrencesTimes<T>(s: seq<T>, n: nat, x: T)
    ensures Occurrences(Times(s, n), x) == n * Occurrences(s, x)
  {
    hide Occurrences;
    if n == 0 {
      OccurrencesNone(x);
    } else {
      OccurrencesTimes(s, n - 1, x);
      OccurrencesAppend(s, Times(s, n - 1), x);
      OneMore(n - 1, Occurrences(s, x));
    }
  }

  lemma OccurrencesNone<T>(x: T)
    ensures Occurrences([], x) == 0
  {
  }

  lemma OneMore(n: nat, c: nat)
    ensures (n + 1) * c == n * c + c
  {
  }

  lemma {:induction false} WeightIsUnrolledCount<Key>(calls: seq<Call<Key>>, k: Key)
    ensures Weight(calls, k) == Occurrences(Unroll(calls), k)
  {
    hide Occurrences;
    if calls == [] {
      OccurrencesNone(k);
    } else {
      var c := calls[0];
      var once := [c.key] + Unroll(c.body);
      WeightIsUnrolledCount(c.body, k);
      WeightIsUnrolledCount(calls[1..], k);
      OccurrencesOne(c.key, k);
      OccurrencesAppend([c.key], Unroll(c.body), k);
      OccurrencesTimes(once, c.repeat, k);
      OccurrencesAppend(Times(once, c.repeat), Unroll(calls[1..]), k);
    }
  }

  lemma OccurrencesOne<T>(y: T, x: T)
    ensures Occurrences([y], x) == if x == y then 1 else 0
  {
  }

  // ----- Arithmetic modulo 2^64 ---------------------------------------------------------------------------

  // Reducing a summand or a factor first does not change the result.
  lemma ModAbsorb(a: nat, b: nat, f: nat)
    ensures (a + f * (b % MODULUS)) % MODULUS == (a + f * b) % MODULUS
    ensures (a % MODULUS + b) % MODULUS == (a + b) % MODULUS
  {
    var q := b / MODULUS;
    assert b == q * MODULUS + b % MODULUS;
    assert f * b == f * (b % MODULUS) + (f * q) * MODULUS by {
      assert f * (q * MODULUS) == (f * q) * MODULUS;
    }
    ModShift(a + f * (b % MODULUS), f * q);
    assert a == (a / MODULUS) * MODULUS + a % MODULUS;
    ModShift(a % MODULUS + b, a / MODULUS);
  }

  lemma ModShift(x: nat, q: nat)
    ensures (x + q * MODULUS) % MODULUS == x % MODULUS
  {
  }

  // ----- Traces ---------------------------------------------------------------------------------------------

  lemma {:induction false} ExecAppend<Key>(maxSize: nat, s: State<Key>, x: seq<Op<Key>>, y: seq<Op<Key>>)
    ensures Exec(maxSize, s, x + y) == Exec(maxSize, Exec(maxSize, s, x), y)
    decreases |x|
  {
    if x == [] {
      assert x + y == y;
    } else {
      assert (x + y)[1..] == x[1..] + y;
      ExecAppend(maxSize, Step(maxSize, s, x[0]), x[1..], y);
    }
  }

  lemma {:induction false} ExitedStays<Key>(maxSize: nat, s: State<Key>, ops: seq<Op<Key>>)
    requires s.Exited?
    ensures Exec(maxSize, s, ops) == s
    decreases |ops|
  {
    if ops != [] { ExitedStays(maxSize, Step(maxSize, s, ops[0]), ops[1..]); }
  }

  // The table after the calls: every key's frequency grew by its invocations, times the enclosing repeat counts.
  ghost predicate Grown<Key(!new)>(before: map<Key, Entry>, after: map<Key, Entry>, calls: seq<Call<Key>>, mult: nat) {
    forall k: Key :: GrownAt(before, after, calls, mult, k)
  }

  ghost predicate GrownAt<Key>(before: map<Key, Entry>, after: map<Key, Entry>, calls: seq<Call<Key>>, mult: nat, k: Key) {
    && (k in after <==> k in before || Called(calls, k))
    && (k in after ==> after[k].frequency == (FrequencyOf(before, k) + mult * Weight(calls, k)) % MODULUS)
    && (k in before ==> after[k].numInts == before[k].numInts && after[k].numDoubles == before[k].numDoubles)
  }

  function FrequencyOf<Key>(memos: map<Key, Entry>, k: Key): nat { if k in memos then memos[k].frequency else 0 }

  ghost predicate Reduced<Key>(memos: map<Key, Entry>) { forall k | k in memos :: memos[k].frequency < MODULUS }

  // Entering the first call of a list, as far as key k is concerned.
  lemma EnterCall<Key>(memos: map<Key, Entry>, c: Call<Key>, mult: nat, k: Key)
    requires Reduced(memos)
    ensures var op := Memoize(c.key, c.repeat, c.numInts, c.numDoubles);
            var memos' := memos[c.key := MemoEntry(memos, op, mult)];
            && Reduced(memos')
            && (k in memos' <==> k in memos || c.key == k)
            && (k in memos' ==>
                  memos'[k].frequency == (FrequencyOf(memos, k) + (if c.key == k then c.repeat * mult else 0)) % MODULUS)
            && (k in memos ==> memos'[k].numInts == memos[k].numInts && memos'[k].numDoubles == memos[k].numDoubles)
  {
  }

  // The contributions of a call, of its body under the larger multiplier, and of the calls after it add up.
  lemma Contributions(f: nat, repeat: nat, mult: nat, own: nat, body: nat, rest: nat, f1: nat, f2: nat, f3: nat)
    requires f1 == (f + own * (repeat * mult)) % MODULUS
    requires f2 == (f1 + ((repeat * mult) % MODULUS) * body) % MODULUS
    requires f3 == (f2 + mult * rest) % MODULUS
    ensures f3 == (f + mult * (repeat * (own + body) + rest)) % MODULUS
  {
    var rm := repeat * mult;
    AbsorbFactor(f1, rm, body);
    AbsorbSum(f + own * rm, rm * body);
    AbsorbSum(f + own * rm + rm * body, mult * rest);
    ExpandProduct(repeat, mult, own, body, rest);
  }

  lemma AbsorbFactor(a: nat, b: nat, f: nat)
    ensures (a + (b % MODULUS) * f) % MODULUS == (a + b * f) % MODULUS
  {
    ModAbsorb(a, b, f);
    assert f * (b % MODULUS) == (b % MODULUS) * f && f * b == b * f;
  }

  lemma AbsorbSum(a: nat, b: nat)
    ensures (a % MODULUS + b) % MODULUS == (a + b) % MODULUS
  {
    ModAbsorb(a, b, 0);
  }

  lemma ExpandProduct(repeat: nat, mult: nat, own: nat, body: nat, rest: nat)
    ensures mult * (repeat * (own + body) + rest) == own * (repeat * mult) + (repeat * mult) * body + mult * rest
  {
  }

  lemma MultiplierPush(stack: seq<nat>, repeat: nat)
    requires stack != []
    ensures Multiplier(stack + [repeat]) == (repeat * Multiplier(stack)) % MODULUS
  {
  }

  // A well-bracketed trace that fits the stack leaves the stack as it was and the table grown by the calls' counts;
  // one that does not fit ends the program.
  lemma {:induction false} TraceCounts<Key(!new)>(maxSize: nat, stack: seq<nat>, memos: map<Key, Entry>, calls: seq<Call<Key>>)
    requires 0 < |stack| <= maxSize && Reduced(memos)
    ensures var r := Exec(maxSize, Running(stack, memos), Ops(calls));
            if |stack| + Depth(calls) <= maxSize then
              r.Running? && r.stack == stack && Reduced(r.memos) && Grown(memos, r.memos, calls, Multiplier(stack))
            else r.Exited?
    decreases calls
  {
    hide GrownAt, Multiplier, MemoEntry, Weight, Reduced;
    var start := Running(stack, memos);
    if calls == [] {
      forall k: Key ensures GrownAt(memos, memos, calls, Multiplier(stack), k) { NoCalls(memos, Multiplier(stack), k); }
    } else {
      var c, rest := calls[0], calls[1..];
      var op := Memoize(c.key, c.repeat, c.numInts, c.numDoubles);
      assert calls == [c] + rest;
      ExecCall(maxSize, start, c, rest);
      if |stack| < maxSize {
        var memos1 := memos[c.key := MemoEntry(memos, op, Multiplier(stack))];
        EnterCall(memos, c, Multiplier(stack), c.key);
        TraceCounts(maxSize, stack + [c.repeat], memos1, c.body);
        var r2 := Exec(maxSize, Running(stack + [c.repeat], memos1), Ops(c.body));
        if r2.Running? {
          assert (stack + [c.repeat])[..|stack|] == stack;
          TraceCounts(maxSize, stack, r2.memos, rest);
          var r3 := Exec(maxSize, Running(stack, r2.memos), Ops(rest));
          if r3.Running? {
            forall k: Key ensures GrownAt(memos, r3.memos, calls, Multiplier(stack), k) {
              CallCounts(stack, memos, c, rest, memos1, r2.memos, r3.memos, k);
            }
          }
        } else {
          ExitedStays(maxSize, Step(maxSize, r2, ExitScope), Ops(rest));
        }
      } else {
        ExitedStays(maxSize, Step(maxSize, start, op), Ops(c.body));
        ExitedStays(maxSize, Step(maxSize, Step(maxSize, start, op), ExitScope), Ops(rest));
      }
    }
  }

  lemma NoCalls<Key>(memos: map<Key, Entry>, mult: nat, k: Key)
    requires Reduced(memos)
    ensures GrownAt(memos, memos, [], mult, k)
  {
  }

  lemma ExecCall<Key>(maxSize: nat, s: State<Key>, c: Call<Key>, rest: seq<Call<Key>>)
    ensures var s1 := Step(maxSize, s, Memoize(c.key, c.repeat, c.numInts, c.numDoubles));
            Exec(maxSize, s, Ops([c] + rest))
            == Exec(maxSize, Step(maxSize, Exec(maxSize, s1, Ops(c.body)), ExitScope), Ops(rest))
  {
    var op := Memoize(c.key, c.repeat, c.numInts, c.numDoubles);
    var calls := [c] + rest;
    assert calls[1..] == rest;
    assert Ops(calls) == [op] + (Ops(c.body) + ([ExitScope] + Ops(rest)));
    ExecAppend(maxSize, s, [op], Ops(c.body) + ([ExitScope] + Ops(rest)));
    var s1 := Step(maxSize, s, op);
    assert Exec(maxSize, s, [op]) == s1;
    ExecAppend(maxSize, s1, Ops(c.body), [ExitScope] + Ops(rest));
    var s2 := Exec(maxSize, s1, Ops(c.body));
    ExecAppend(maxSize, s2, [ExitScope], Ops(rest));
    assert Exec(maxSize, s2, [ExitScope]) == Step(maxSize, s2, ExitScope);
  }

  lemma CallCounts<Key>(stack: seq<nat>, memos: map<Key, Entry>, c: Call<Key>, rest: seq<Call<Key>>,
                        memos1: map<Key, Entry>, memos2: map<Key, Entry>, memos3: map<Key, Entry>, k: Key)
    requires stack != [] && Reduced(memos)
    requires memos1 == memos[c.key := MemoEntry(memos, Memoize(c.key, c.repeat, c.numInts, c.numDoubles), Multiplier(stack))]
    requires GrownAt(memos1, memos2, c.body, Multiplier(stack + [c.repeat]), k)
    requires GrownAt(memos2, memos3, rest, Multiplier(stack), k)
    ensures GrownAt(memos, memos3, [c] + rest, Multiplier(stack), k)
  {
    hide Called, Weight, Multiplier, MemoEntry;
    var mult := Multiplier(stack);
    EnterCall(memos, c, mult, k);
    MultiplierPush(stack, c.repeat);
    FirstCall(c, rest, k);
    if k in memos3 {
      var own := if c.key == k then 1 else 0;
      var f := FrequencyOf(memos, k);
      var f1 := (f + own * (c.repeat * mult)) % MODULUS;
      var f2 := (f1 + ((c.repeat * mult) % MODULUS) * Weight(c.body, k)) % MODULUS;
      if k !in memos1 { NotCalled(c.body, k); }
      if k !in memos2 { NotCalled(c.body, k); }
      assert FrequencyOf(memos1, k) == f1;
      assert FrequencyOf(memos2, k) == f2;
      Contributions(f, c.repeat, mult, own, Weight(c.body, k), Weight(rest, k), f1, f2, memos3[k].frequency);
    }
  }

  lemma FirstCall<Key>(c: Call<Key>, rest: seq<Call<Key>>, k: Key)
    ensures Called([c] + rest, k) <==> c.key == k || Called(c.body, k) || Called(rest, k)
    ensures Weight([c] + rest, k) == c.repeat * ((if c.key == k then 1 else 0) + Weight(c.body, k)) + Weight(rest, k)
  {
  }

  lemma {:induction false} NotCalled<Key>(calls: seq<Call<Key>>, k: Key)
    ensures !Called(calls, k) ==> Weight(calls, k) == 0
  {
    if calls != [] {
      NotCalled(calls[0].body, k);
      NotCalled(calls[1..], k);
    }
  }

  // ----- The whole program --------------------------------------------------------------------------------

  // The deepest call nesting the estimator allows, the main program included.
  const MAX_CALL_DEPTH: nat := 16

  // After initialization the main program is on the stack and in the table, invoked once.
  function Initialized<Key>(main: Key): State<Key> {
    Running([1], map[main := Entry(1, 0, 0)])
  }

  // For every instrumented program whose calls nest at most 15 deep below main: the stack ends as it began, the
  // table lists exactly main and the keys called, and each frequency is the number of invocations the program
  // would make with every repeated call unrolled, up to the width of the counter.  Deeper programs are ended.
  lemma EstimateIsUnrolledCount<Key(!new)>(main: Key, calls: seq<Call<Key>>)
    ensures var r := Exec(MAX_CALL_DEPTH, Initialized(main), Ops(calls));
            if Depth(calls) < MAX_CALL_DEPTH then
              && r.Running? && r.stack == [1]
              && (forall k: Key :: k in r.memos <==> k == main || Called(calls, k))
              && (forall k: Key | k in r.memos ::
                    r.memos[k].frequency == (Occurrences(Unroll(calls), k) + if k == main then 1 else 0) % MODULUS)
            else r.Exited?
  {
    hide Exec, Ops, Occurrences, Unroll, Weight, Called, Depth;
    var memos := map[main := Entry(1, 0, 0)];
    TraceCounts(MAX_CALL_DEPTH, [1], memos, calls);
    var r := Exec(MAX_CALL_DEPTH, Initialized(main), Ops(calls));
    if Depth(calls) < MAX_CALL_DEPTH {
      forall k: Key ensures k in r.memos <==> k == main || Called(calls, k)
        ensures k in r.memos ==>
          r.memos[k].frequency == (Occurrences(Unroll(calls), k) + if k == main then 1 else 0) % MODULUS
      {
        assert GrownAt(memos, r.memos, calls, Multiplier([1]), k);
        WeightIsUnrolledCount(calls, k);
      }
    }
  }

  // ----- The estimator in place ----------------------------------------------------------------------------

  // The entries of the elements that a table of keys leads to.
  function Lookup<Key>(found: map<Key, Ref>, entries: map<Ref, Entry>): map<Key, Entry> {
    map k | k in found && found[k] in entries :: entries[found[k]]
  }

  lemma LookupAdded<Key>(found: map<Key, Ref>, entries: map<Ref, Entry>, k: Key, x: Ref, e: Entry)
    requires k !in found && forall j | j in found :: found[j] != x
    ensures Lookup(found[k := x], entries[x := e]) == Lookup(found, entries)[k := e]
  {
  }

  lemma LookupChanged<Key>(found: map<Key, Ref>, entries: map<Ref, Entry>, k: Key, e: Entry)
    requires k in found && forall j | j in found && j != k :: found[j] != found[k]
    ensures Lookup(found, entries[found[k] := e]) == Lookup(found, entries)[k := e]
  {
  }

  class Estimator<Key(==)> {
    // The memos table: the hash table of keys, and the resources of its elements.  Elements get fresh addresses.
    const table: Table<Key>
    var entries: map<Ref, Entry>
    var used: nat
    // The call stack is contents[0..top]; the program may have been ended by a stack error.
    var contents: array<nat>
    var top: int
    var exited: bool

    ghost predicate Valid()
      reads this, table
    {
      && table.Valid() && table.UniqueKeys()
      && (forall x | x in table.app :: x in entries && 0 <= x < used)
      && StackOK()
    }

    ghost predicate StackOK()
      reads this
    {
      contents.Length == MAX_CALL_DEPTH && -1 <= top < contents.Length
    }

    ghost function Memos(): map<Key, Entry>
      requires Valid()
      reads this, table
    {
      Lookup(table.Contents(), entries)
    }

    ghost function Stack(): seq<nat>
      requires StackOK()
      reads this, contents
    {
      contents[..top + 1]
    }

    ghost function S(): State<Key>
      requires Valid()
      reads this, table, contents
    {
      if exited then Exited else Running(Stack(), Memos())
    }

    constructor (hash: Key -> nat, main: Key)
      ensures Valid() && fresh(contents) && fresh(table) && S() == Initialized(main)
    {
      hide Assoc, Table.Valid, Table.UniqueKeys, Table.Contents;
      table := new Table(hash);
      contents := new nat[MAX_CALL_DEPTH];
      entries, used := map[], 0;
      exited := false;
      top := 0;
      new;
      contents[0] := 1;
      AddMemo(main, Entry(1, 0, 0));
      assert Stack() == [1];
    }

    // A new element for a key that is not in the table.
    method AddMemo(key: Key, e: Entry)
      requires Valid() && key !in table.Contents()
      modifies this`entries, this`used, table
      ensures Valid() && Memos() == old(Memos())[key := e]
    {
      hide Table.Valid, Table.UniqueKeys, Table.Contents, Lookup;
      var x := used;
      table.ContentsInOrder();
      LookupAdded(table.Contents(), entries, key, x, e);
      table.Add(x, key);
      entries := entries[x := e];
      used := used + 1;
    }

    method StackPush(x: nat)
      requires StackOK() && !exited
      modifies this`top, this`exited, contents
      ensures StackOK()
      ensures if |old(Stack())| >= MAX_CALL_DEPTH then exited else !exited && Stack() == old(Stack()) + [x]
    {
      if top >= contents.Length - 1 {
        exited := true;
      } else {
        top := top + 1;
        contents[top] := x;
      }
    }

    method StackPop()
      requires StackOK() && !exited
      modifies this`top, this`exited
      ensures StackOK()
      ensures if old(Stack()) == [] then exited else !exited && Stack() == old(Stack())[..|old(Stack())| - 1]
    {
      if top < 0 {
        exited := true;
      } else {
        top := top - 1;
      }
    }

    // The product of the repeat counts above the bottom of the stack.
    method Accumulate() returns (mult: nat)
      requires StackOK()
      ensures mult == Multiplier(Stack())
    {
      hide Multiplier;
      mult := 1;
      var it := top;
      MultiplierReduced(Stack());
      ghost var stack := Stack();
      assert stack[..top + 1] == stack;
      while it > 0
        invariant -1 <= it <= top && (top >= 0 ==> it >= 0) && mult < MODULUS
        invariant (mult * Multiplier(stack[..it + 1])) % MODULUS == Multiplier(stack)
      {
        MultiplierTop(stack, it);
        FoldFactor(mult, contents[it], Multiplier(stack[..it]));
        mult := (mult * contents[it]) % MODULUS;
        it := it - 1;
      }
      MultiplierBottom(stack[..it + 1]);
    }

    // Find the key's element and raise its frequency, or add one; then push the repeat count.
    method MemoizeCall(key: Key, repeat: nat, numInts: nat, numDoubles: nat)
      requires Valid() && !exited
      modifies this`entries, this`used, this`top, this`exited, table, contents
      ensures Valid() && S() == Step(MAX_CALL_DEPTH, old(S()), Memoize(key, repeat, numInts, numDoubles))
    {
      hide Table.Valid, Table.UniqueKeys, Table.Contents, Multiplier;
      var mult := Accumulate();
      var x := table.Find(key);
      table.ContentsInOrder();
      ghost var before := Memos();
      if x == NULL {
        AddMemo(key, Entry((repeat * mult) % MODULUS, numInts, numDoubles));
      } else {
        var e := entries[x].(frequency := (entries[x].frequency + repeat * mult) % MODULUS);
        LookupChanged(table.Contents(), entries, key, e);
        entries := entries[x := e];
      }
      assert Memos() == before[key := MemoEntry(before, Memoize(key, repeat, numInts, numDoubles), mult)];
      StackPush(repeat);
    }

    method LeaveScope()
      requires Valid() && !exited
      modifies this`top, this`exited
      ensures Valid() && S() == Step(MAX_CALL_DEPTH, old(S()), ExitScope)
    {
      hide Table.Valid, Table.UniqueKeys, Table.Contents, Lookup;
      StackPop();
    }

    // The instrumented program itself: its calls of memoize and exit_scope, until a stack error ends it.
    method Perform(ops: seq<Op<Key>>)
      requires Valid() && !exited
      modifies this`entries, this`used, this`top, this`exited, table, contents
      ensures Valid() && S() == Exec(MAX_CALL_DEPTH, old(S()), ops)
    {
      hide Table.Valid, Table.UniqueKeys, Table.Contents, Lookup, Step;
      var i := 0;
      assert ops[0..] == ops;
      while i < |ops| && !exited
        invariant i <= |ops| && Valid()
        invariant Exec(MAX_CALL_DEPTH, S(), ops[i..]) == Exec(MAX_CALL_DEPTH, old(S()), ops)
      {
        ExecFirst(S(), ops, i);
        match ops[i] {
          case Memoize(key, repeat, numInts, numDoubles) => MemoizeCall(key, repeat, numInts, numDoubles);
          case ExitScope => LeaveScope();
        }
        i := i + 1;
      }
      if exited { ExitedStays(MAX_CALL_DEPTH, S(), ops[i..]); }
    }

    // What the table holds for a key.
    ghost predicate Counts(key: Key, frequency: nat)
      requires Valid()
      reads this, table
    {
      && key in table.Contents() && table.Contents()[key] in entries
      && entries[table.Contents()[key]].frequency == frequency
    }

    lemma MemosAreEntries(key: Key)
      requires Valid()
      ensures key in Memos() <==> key in table.Contents()
      ensures key in Memos() ==> Counts(key, Memos()[key].frequency)
    {
      table.ContentsInOrder();
    }
  }

  lemma ExecFirst<Key>(s: State<Key>, ops: seq<Op<Key>>, i: nat)
    requires i < |ops|
    ensures Exec(MAX_CALL_DEPTH, s, ops[i..]) == Exec(MAX_CALL_DEPTH, Step(MAX_CALL_DEPTH, s, ops[i]), ops[i + 1..])
  {
    assert ops[i..][0] == ops[i] && ops[i..][1..] == ops[i + 1..];
  }

  // A whole instrumented program on the hash table: unless its calls nest too deep, the table ends with exactly main
  // and the keys called, each with the number of invocations of the program with every repeated call unrolled.
  method Estimate<Key(==, !new)>(hash: Key -> nat, main: Key, calls: seq<Call<Key>>) returns (e: Estimator<Key>)
    ensures fresh(e) && e.Valid() && (e.exited <==> Depth(calls) >= MAX_CALL_DEPTH)
    ensures !e.exited ==> e.Stack() == [1]
    ensures !e.exited ==> forall k: Key :: k in e.table.Contents() <==> k == main || Called(calls, k)
    ensures !e.exited ==> forall k: Key | k in e.table.Contents() ::
              e.Counts(k, (Occurrences(Unroll(calls), k) + if k == main then 1 else 0) % MODULUS)
  {
    hide Table.Valid, Table.UniqueKeys, Table.Contents, Lookup, Exec, Occurrences, Unroll, Called, Depth, Ops;
    e := new Estimator(hash, main);
    e.Perform(Ops(calls));
    EstimateIsUnrolledCount(main, calls);
    forall k: Key ensures k in e.Memos() <==> k in e.table.Contents()
      ensures k in e.Memos() ==> e.Counts(k, e.Memos()[k].frequency)
    {
      e.MemosAreEntries(k);
    }
  }

  lemma MultiplierTop(stack: seq<nat>, i: nat)
    requires 0 < i < |stack|
    ensures Multiplier(stack[..i + 1]) == (stack[i] * Multiplier(stack[..i])) % MODULUS
  {
    assert stack[..i + 1][..i] == stack[..i];
  }

  lemma MultiplierBottom(stack: seq<nat>)
    requires |stack| <= 1
    ensures Multiplier(stack) == 1
  {
  }

  lemma MultiplierReduced(stack: seq<nat>)
    ensures Multiplier(stack) < MODULUS
  {
  }

  // Multiplying a factor in from the left or from the right is the same modulo 2^64.
  lemma FoldFactor(mult: nat, x: nat, m: nat)
    ensures (((mult * x) % MODULUS) * m) % MODULUS == (mult * ((x * m) % MODULUS)) % MODULUS
  {
    ModAbsorb(0, x * m, mult);
    ModAbsorb(0, mult * x, m);
    assert m * (mult * x) == mult * (x * m);
    assert ((mult * x) % MODULUS) * m == m * ((mult * x) % MODULUS);
  }
}
