/**
 The case-folding code generator: a sorted table of character mappings becomes a chain of C++ tests.
 */
module CaseFold {
  import opened Collections

  // One C or S entry of the case folding database.
  datatype Mapping = Mapping(from: int, to: int)

  // The statements of the generated function, each `if (test) return value;` on its argument C.
  datatype Stmt =
    | IfEqual(c: int, result: int)                                    // C == c       -> result
    | IfBelow(c: int)                                                 // C < c        -> C
    | IfUpToOrOne(last: int)                                          // C <= last    -> C | 1
    | IfUpToAdd(last: int, shift: int)                                // C <= last    -> C + shift
    | IfUpToModulo(last: int, stride: int, modulo: int, shift: int)   // C <= last && C % stride == modulo -> C + shift

  // The C++ remainder truncates toward zero.
  function Remainder(x: int, m: int): int
    requires m > 0
  {
    if x >= 0 then x % m else -((-x) % m)
  }

  // Setting the lowest bit.
  function OrOne(x: int): int { if x % 2 == 0 then x + 1 else x }

  // What a statement returns for C, if its test succeeds.
  function Exec(s: Stmt, C: int): Option<int> {
    match s
    case IfEqual(c, result) => if C == c then Some(result) else None
    case IfBelow(c) => if C < c then Some(C) else None
    case IfUpToOrOne(last) => if C <= last then Some(OrOne(C)) else None
    case IfUpToAdd(last, shift) => if C <= last then Some(C + shift) else None
    case IfUpToModulo(last, stride, modulo, shift) =>
      if stride > 0 && C <= last && Remainder(C, stride) == modulo then Some(C + shift) else None
  }

  function ExecAll(body: seq<Stmt>, C: int): Option<int> {
    if body == [] then None
    else if Exec(body[0], C).Some? then Exec(body[0], C)
    else ExecAll(body[1..], C)
  }

  // The generated function: the chain, then `return C`.
  function Run(body: seq<Stmt>, C: int): int {
    match ExecAll(body, C)
    case Some(v) => v
    case None => C
  }

  // The image of C under the table; characters that are not listed fold to themselves.
  function Fold(table: seq<Mapping>, C: int): int {
    if table == [] then C
    else if table[0].from == C then table[0].to
    else Fold(table[1..], C)
  }

  ghost predicate Increasing(table: seq<Mapping>) {
    && (forall i | 0 <= i < |table| :: table[i].from >= 0)
    && (forall i, j | 0 <= i < j < |table| :: table[i].from < table[j].from)
  }

  function Shift(m: Mapping): int { m.to - m.from }

  function Stride2(m1: Mapping, m2: Mapping): int { m2.from - m1.from }

  function Stride(block: seq<Mapping>): int
    requires |block| >= 2
  {
    Stride2(block[0], block[1])
  }

  // All mappings of a block have one shift, and neighbours are one stride apart.
  ghost predicate IsBlock(b: seq<Mapping>) {
    && b != [] && Increasing(b)
    && (forall i | 0 <= i < |b| :: Shift(b[i]) == Shift(b[0]))
    && (|b| >= 2 ==> forall i | 0 <= i < |b| - 1 :: Stride2(b[i], b[i + 1]) == Stride(b))
  }

  // The statements emitted for a block.
  function DumpBlock(b: seq<Mapping>): seq<Stmt>
    requires IsBlock(b)
  {
    if |b| == 1 then [IfEqual(b[0].from, b[0].to)] else
    var first, stride := b[0].from, Stride(b);
    var last := first + stride * (|b| - 1);
    var modulo := first % stride;
    [IfBelow(first),
     if stride == 2 && Shift(b[0]) == 1 && modulo == 0 then IfUpToOrOne(last)
     else if stride == 1 then IfUpToAdd(last, Shift(b[0]))
     else IfUpToModulo(last, stride, modulo, Shift(b[0]))]
  }

  ghost predicate Listed(table: seq<Mapping>, C: int) {
    exists i :: 0 <= i < |table| && table[i].from == C
  }

  // The chain translates the table: listed characters get their image, others fall through or are
  // returned unchanged, and characters above the table fall through.
  ghost predicate Translates(body: seq<Stmt>, table: seq<Mapping>) {
    forall C :: TranslatesAt(body, table, C)
  }

  ghost predicate TranslatesAt(body: seq<Stmt>, table: seq<Mapping>, C: int) {
    && (Listed(table, C) ==> ExecAll(body, C) == Some(Fold(table, C)))
    && (!Listed(table, C) ==> ExecAll(body, C) == None || ExecAll(body, C) == Some(C))
    && ((forall i | 0 <= i < |table| :: table[i].from < C) ==> ExecAll(body, C) == None)
  }

  // ----- Tables -----------------------------------------------------------------------------

  lemma {:induction false} FoldListed(table: seq<Mapping>, i: nat)
    requires Increasing(table) && i < |table|
    ensures Fold(table, table[i].from) == table[i].to
  {
    if i > 0 {
      assert table[0].from < table[i].from;
      FoldListed(table[1..], i - 1);
    }
  }

  lemma {:induction false} FoldUnlisted(table: seq<Mapping>, C: int)
    requires !Listed(table, C)
    ensures Fold(table, C) == C
  {
    if table != [] {
      forall i | 0 <= i < |table[1..]| ensures table[1..][i].from != C { assert table[i + 1].from != C; }
      FoldUnlisted(table[1..], C);
    }
  }

  lemma {:induction false} ExecAppend(x: seq<Stmt>, y: seq<Stmt>, C: int)
    ensures ExecAll(x + y, C) == if ExecAll(x, C).Some? then ExecAll(x, C) else ExecAll(y, C)
  {
    if x == [] {
      assert x + y == y;
    } else {
      assert (x + y)[1..] == x[1..] + y;
      ExecAppend(x[1..], y, C);
    }
  }

  // ----- One block --------------------------------------------------------------------------

  lemma {:induction false} BlockAt(b: seq<Mapping>, i: nat)
    requires IsBlock(b) && |b| >= 2 && i < |b|
    ensures b[i].from == b[0].from + Stride(b) * i && b[i].to == b[i].from + Shift(b[0])
  {
    assert Shift(b[i]) == Shift(b[0]);
    if i > 0 {
      BlockAt(b, i - 1);
      assert Stride2(b[i - 1], b[i]) == Stride(b);
      assert Stride(b) * i == Stride(b) * (i - 1) + Stride(b);
    }
  }

  // Between the ends of a block, being listed is a matter of the remainder.
  lemma ListedByRemainder(b: seq<Mapping>, C: int)
    requires IsBlock(b) && |b| >= 2 && b[0].from <= C <= b[0].from + Stride(b) * (|b| - 1)
    ensures Stride(b) > 0 && (Listed(b, C) <==> C % Stride(b) == b[0].from % Stride(b))
  {
    var s, f := Stride(b), b[0].from;
    assert b[0].from < b[1].from;
    if Listed(b, C) {
      var i :| 0 <= i < |b| && b[i].from == C;
      BlockAt(b, i);
      SameRemainder(f, s, i);
    }
    if C % s == f % s {
      var k := StepsBetween(f, C, s);
      QuotientBounds(s, k, |b| - 1);
      BlockAt(b, k);
    }
  }

  lemma StepsBetween(f: int, C: int, s: int) returns (k: int)
    requires s > 0 && C % s == f % s
    ensures C == f + s * k
  {
    k := C / s - f / s;
    assert C == s * (C / s) + C % s && f == s * (f / s) + f % s;
    assert s * k == s * (C / s) - s * (f / s);
  }

  lemma MulAtLeast(s: int, k: int)
    requires s > 0
    ensures k >= 1 ==> s * k >= s
    ensures k <= -1 ==> s * k <= -s
  {
  }

  lemma RemainderUnique(s: int, q: int, m: int)
    requires 0 <= m < s
    ensures (s * q + m) % s == m && (s * q + m) / s == q
  {
    var n := s * q + m;
    assert n == s * (n / s) + n % s;
    assert s * (q - n / s) == s * q - s * (n / s);
    MulAtLeast(s, q - n / s);
  }

  lemma SameRemainder(f: int, s: int, i: int)
    requires s > 0
    ensures (f + s * i) % s == f % s
  {
    assert f == s * (f / s) + f % s;
    assert s * (f / s + i) == s * (f / s) + s * i;
    RemainderUnique(s, f / s + i, f % s);
  }

  lemma QuotientBounds(s: int, k: int, n: nat)
    requires s > 0 && 0 <= s * k <= s * n
    ensures 0 <= k <= n
  {
  }

  // The statements of a block translate exactly that block.
  lemma DumpBlockTranslates(b: seq<Mapping>, C: int)
    requires IsBlock(b)
    ensures TranslatesAt(DumpBlock(b), b, C)
  {
    var body := DumpBlock(b);
    if |b| == 1 {
      assert body[1..] == [];
      assert Listed(b, C) <==> C == b[0].from;
    } else {
      assert body == [body[0]] + [body[1]];
      ExecAppend([body[0]], [body[1]], C);
      var f, s := b[0].from, Stride(b);
      var last := f + s * (|b| - 1);
      assert b[0].from < b[1].from;
      BlockAt(b, |b| - 1);
      if C < f {
        forall i | 0 <= i < |b| ensures b[i].from != C { assert i > 0 ==> b[0].from < b[i].from; }
        assert b[0].from > C;
      } else if C > last {
        forall i | 0 <= i < |b| ensures b[i].from != C { assert i < |b| - 1 ==> b[i].from < b[|b| - 1].from; }
      } else {
        ListedByRemainder(b, C);
        assert b[|b| - 1].from >= C;
        if Listed(b, C) {
          var i :| 0 <= i < |b| && b[i].from == C;
          FoldListed(b, i);
          BlockAt(b, i);
        }
        assert s == 2 ==> C % 2 == 0 || C % 2 == 1;
      }
    }
  }

  // A chain for a table followed by the statements of a block above it translates both together.
  lemma AppendBlock(body: seq<Stmt>, table: seq<Mapping>, b: seq<Mapping>)
    requires Translates(body, table) && IsBlock(b) && Increasing(table + b)
    ensures Translates(body + DumpBlock(b), table + b)
  {
    hide DumpBlock, TranslatesAt;
    forall C ensures TranslatesAt(body + DumpBlock(b), table + b, C) {
      assert TranslatesAt(body, table, C);
      DumpBlockTranslates(b, C);
      ExecAppend(body, DumpBlock(b), C);
      AppendAt(body, DumpBlock(b), table, b, C);
    }
  }

  lemma ListedAppend(x: seq<Mapping>, y: seq<Mapping>, C: int)
    ensures Listed(x + y, C) <==> Listed(x, C) || Listed(y, C)
  {
    var t := x + y;
    if Listed(x, C) { var i :| 0 <= i < |x| && x[i].from == C; assert t[i].from == C; }
    if Listed(y, C) { var i :| 0 <= i < |y| && y[i].from == C; assert t[|x| + i].from == C; }
    if Listed(t, C) {
      var i :| 0 <= i < |t| && t[i].from == C;
      if i < |x| { assert x[i].from == C; } else { assert y[i - |x|].from == C; }
    }
  }

  // The image of a listed character is found in the part that lists it.
  lemma FoldAppend(x: seq<Mapping>, y: seq<Mapping>, C: int)
    requires Increasing(x + y)
    ensures Increasing(x) && Increasing(y)
    ensures Listed(x, C) ==> Fold(x + y, C) == Fold(x, C)
    ensures Listed(y, C) ==> Fold(x + y, C) == Fold(y, C) && forall j | 0 <= j < |x| :: x[j].from < C
  {
    IncreasingParts(x, y);
    hide Increasing, Fold;
    var t := x + y;
    if Listed(x, C) {
      var i :| 0 <= i < |x| && x[i].from == C;
      assert t[i] == x[i];
      FoldListed(t, i);
      FoldListed(x, i);
    }
    if Listed(y, C) {
      var i :| 0 <= i < |y| && y[i].from == C;
      assert t[|x| + i] == y[i];
      FoldListed(t, |x| + i);
      FoldListed(y, i);
    }
  }

  lemma IncreasingParts(x: seq<Mapping>, y: seq<Mapping>)
    requires Increasing(x + y)
    ensures Increasing(x) && Increasing(y)
    ensures forall i, j | 0 <= i < |x| && 0 <= j < |y| :: x[i].from < y[j].from
  {
    var t := x + y;
    assert forall i | 0 <= i < |x| :: x[i] == t[i];
    assert forall i | 0 <= i < |y| :: y[i] == t[|x| + i];
  }

  lemma AppendAt(x: seq<Stmt>, y: seq<Stmt>, table: seq<Mapping>, b: seq<Mapping>, C: int)
    requires TranslatesAt(x, table, C) && TranslatesAt(y, b, C) && Increasing(table + b)
    requires ExecAll(x + y, C) == if ExecAll(x, C).Some? then ExecAll(x, C) else ExecAll(y, C)
    ensures TranslatesAt(x + y, table + b, C)
  {
    hide Listed, Fold, ExecAll;
    ListedAppend(table, b, C);
    FoldAppend(table, b, C);
    var t := table + b;
    if forall i | 0 <= i < |t| :: t[i].from < C {
      forall i | 0 <= i < |table| ensures table[i].from < C { assert t[i].from < C; }
      forall i | 0 <= i < |b| ensures b[i].from < C { assert t[|table| + i].from < C; }
    }
  }

  // ----- The blocks of a table ------------------------------------------------------------------

  function Flatten(bs: seq<seq<Mapping>>): seq<Mapping> {
    if bs == [] then [] else Flatten(bs[..|bs| - 1]) + bs[|bs| - 1]
  }

  ghost predicate AllBlocks(bs: seq<seq<Mapping>>) { forall b | b in bs :: IsBlock(b) }

  // The statements of all blocks, one after the other.
  function Emitted(bs: seq<seq<Mapping>>): seq<Stmt>
    requires AllBlocks(bs)
  {
    if bs == [] then [] else Emitted(bs[..|bs| - 1]) + DumpBlock(bs[|bs| - 1])
  }

  // Block k could not have taken the first mapping of the next one.
  ghost predicate Full(bs: seq<seq<Mapping>>, k: nat) {
    k + 1 < |bs| ==> bs[k + 1] != [] && !IsBlock(bs[k] + [bs[k + 1][0]])
  }

  ghost predicate Greedy(bs: seq<seq<Mapping>>) { forall k: nat | k < |bs| :: Full(bs, k) }

  // Block after block, bs covers the table from i on.
  ghost predicate Covers(bs: seq<seq<Mapping>>, table: seq<Mapping>, i: nat)
    decreases |bs|
  {
    if bs == [] then i == |table| else
    && IsBlock(bs[0]) && i + |bs[0]| <= |table| && table[i..i + |bs[0]|] == bs[0]
    && Covers(bs[1..], table, i + |bs[0]|)
  }

  lemma PartOfBlock(b: seq<Mapping>, i: nat, j: nat)
    requires IsBlock(b) && i < j <= |b|
    ensures IsBlock(b[i..j])
  {
    var c := b[i..j];
    assert forall k | 0 <= k < |c| :: c[k] == b[i + k];
  }

  lemma PartOfPart(s: seq<Mapping>, i: nat, k: nat, x: nat, y: nat)
    requires i <= x <= y <= k <= |s|
    ensures s[i..k][x - i..y - i] == s[x..y]
  {
    var t := s[i..k];
    assert forall z | x <= z < y :: t[z - i] == s[z];
  }

  // A block that starts no later and ends later than x contains what follows x.
  lemma LaterPart(b: seq<Mapping>, x: seq<Mapping>, next: Mapping, table: seq<Mapping>, i: nat, j: nat)
    requires IsBlock(b) && i <= j && j + |x| < i + |b| <= |table| && table[i..i + |b|] == b
    requires table[j..j + |x|] == x && table[j + |x|] == next
    ensures IsBlock(x + [next])
  {
    hide IsBlock;
    PartOfBlock(b, j - i, j + |x| + 1 - i);
    PartOfPart(table, i, i + |b|, j, j + |x| + 1);
    OneMore(table, j, |x|);
  }

  lemma OneMore(s: seq<Mapping>, j: nat, n: nat)
    requires j + n < |s|
    ensures s[j..j + n + 1] == s[j..j + n] + [s[j + n]]
  {
  }

  // A greedy division that starts no earlier than another one has no more blocks.
  lemma {:induction false} GreedyIsShortest(g: seq<seq<Mapping>>, o: seq<seq<Mapping>>, table: seq<Mapping>, i: nat, j: nat)
    requires Covers(g, table, j) && Covers(o, table, i) && i <= j && Greedy(g)
    ensures |g| <= |o|
    decreases |o|
  {
    if |g| > 1 {
      assert Full(g, 0);
      var i', j' := i + |o[0]|, j + |g[0]|;
      var next := g[1][0];
      if i' > j' {
        assert g[1..][0] == g[1] && table[j'] == next;
        LaterPart(o[0], g[0], next, table, i, j);
        assert false;
      }
      forall k: nat | k < |g[1..]| ensures Full(g[1..], k) { assert Full(g, k + 1); }
      GreedyIsShortest(g[1..], o[1..], table, i', j');
    }
  }

  lemma {:induction false} FlattenCovers(bs: seq<seq<Mapping>>, table: seq<Mapping>, rest: seq<seq<Mapping>>)
    requires AllBlocks(bs) && Flatten(bs) <= table && Covers(rest, table, |Flatten(bs)|)
    ensures Covers(bs + rest, table, 0)
    decreases |bs|
  {
    hide IsBlock;
    if bs == [] {
      assert bs + rest == rest;
    } else {
      var n := |bs| - 1;
      var last := bs[n];
      assert last in bs;
      assert AllBlocks(bs[..n]);
      assert ([last] + rest)[1..] == rest;
      FlattenCovers(bs[..n], table, [last] + rest);
      assert bs[..n] + ([last] + rest) == bs + rest;
    }
  }

  // ----- The generator ------------------------------------------------------------------------

  lemma EmptyTranslates()
    ensures Translates([], [])
  {
  }

  lemma BlockGrows(block: seq<Mapping>, m: Mapping)
    requires IsBlock(block) && Increasing(block + [m]) && Shift(m) == Shift(block[0])
    requires |block| == 1 || Stride(block) == Stride2(block[|block| - 1], m)
    ensures IsBlock(block + [m])
  {
  }

  // The main loop: collect mappings into blocks, emit a block when the next mapping does not fit.
  // A table that is not strictly increasing is rejected; so is an empty one, whose last block has no element.
  // The blocks are as few as possible.
  method Compile(table: seq<Mapping>) returns (r: Result<seq<Stmt>>, ghost blocks: seq<seq<Mapping>>)
    ensures r.Success? <==> table != [] && Increasing(table)
    ensures r.Success? ==> forall C :: Run(r.value, C) == Fold(table, C)
    ensures r.Success? ==>
              && AllBlocks(blocks) && Flatten(blocks) == table && Greedy(blocks) && r.value == Emitted(blocks)
              && forall bs | Covers(bs, table, 0) :: |blocks| <= |bs|
  {
    hide Greedy, Flatten, Emitted, AllBlocks, Covers, DumpBlock, Translates, Increasing, IsBlock, Run, Fold;
    var body: seq<Stmt> := [];
    var block: seq<Mapping> := [];
    ghost var emitted: seq<Mapping> := [];
    blocks := [];
    NoBlocks();
    var previous := -1;
    EmptyTranslates();
    NothingIncreasing();
    var i := 0;
    while i < |table|
      invariant i <= |table|
      invariant emitted + block == table[..i] && Increasing(table[..i])
      invariant block == [] <==> i == 0
      invariant block != [] ==> IsBlock(block)
      invariant Translates(body, emitted)
      invariant AllBlocks(blocks) && Flatten(blocks) == emitted && body == Emitted(blocks)
      invariant block != [] ==> Greedy(blocks + [block])
      invariant previous == if i == 0 then -1 else table[i - 1].from
    {
      var m := table[i];
      if m.from <= previous {
        NotIncreasing(table, i);
        return Failure("Duplicate or unsorted characters in input"), blocks;
      }
      previous := m.from;
      assert table[..i + 1] == table[..i] + [m];
      assert Increasing(table[..i + 1]) by { IncreasingGrows(table, i); }
      IncreasingPart(emitted, block, m, table[..i + 1]);
      SingleBlock(m);
      if block == [] {
        StartGreedy([m]);
        FlattenLength(blocks);
        block := [m];
      } else if Shift(block[0]) != Shift(m) {
        AppendBlock(body, emitted, block);
        NextBlock(blocks, block, m);
        body, emitted, blocks, block := body + DumpBlock(block), emitted + block, blocks + [block], [m];
      } else if |block| == 1 || Stride(block) == Stride2(block[|block| - 1], m) {
        BlockGrows(block, m);
        SameStart(blocks, block, m);
        assert emitted + (block + [m]) == (emitted + block) + [m];
        block := block + [m];
      } else {
        AppendBlock(body, emitted, block);
        NextBlock(blocks, block, m);
        body, emitted, blocks, block := body + DumpBlock(block), emitted + block, blocks + [block], [m];
      }
      i := i + 1;
    }
    assert table[..i] == table;
    if block == [] {
      return Failure("list index out of range"), blocks;
    }
    AppendBlock(body, emitted, block);
    body := body + DumpBlock(block);
    assert emitted + block == table;
    TranslationFolds(body, table);
    OneMoreBlock(blocks, block);
    blocks := blocks + [block];
    FewestBlocks(blocks, table);
    return Success(body), blocks;
  }

  lemma NoBlocks()
    ensures AllBlocks([]) && Flatten([]) == [] && Emitted([]) == []
  {
  }

  lemma {:induction false} FlattenLength(bs: seq<seq<Mapping>>)
    requires AllBlocks(bs)
    ensures |bs| <= |Flatten(bs)|
  {
    if bs != [] {
      FlattenLength(bs[..|bs| - 1]);
      assert IsBlock(bs[|bs| - 1]);
    }
  }

  lemma StartGreedy(block: seq<Mapping>)
    ensures Greedy([] + [block])
  {
  }

  lemma OneMoreBlock(bs: seq<seq<Mapping>>, block: seq<Mapping>)
    requires AllBlocks(bs) && IsBlock(block)
    ensures AllBlocks(bs + [block]) && Flatten(bs + [block]) == Flatten(bs) + block
    ensures Emitted(bs + [block]) == Emitted(bs) + DumpBlock(block)
  {
    hide IsBlock, DumpBlock;
    var more := bs + [block];
    assert more[..|bs|] == bs && more[|bs|] == block;
  }

  // A mapping of another shift or stride starts the next block.
  lemma NextBlock(bs: seq<seq<Mapping>>, block: seq<Mapping>, m: Mapping)
    requires AllBlocks(bs) && IsBlock(block) && Greedy(bs + [block])
    requires Shift(block[0]) != Shift(m) || (|block| > 1 && Stride(block) != Stride2(block[|block| - 1], m))
    ensures AllBlocks(bs + [block]) && Flatten(bs + [block]) == Flatten(bs) + block
    ensures Emitted(bs + [block]) == Emitted(bs) + DumpBlock(block)
    ensures Greedy(bs + [block] + [[m]])
  {
    OneMoreBlock(bs, block);
    var more, longer := bs + [block] + [[m]], block + [m];
    assert !IsBlock(longer) by {
      assert longer[|block|] == m && longer[0] == block[0] && longer[|block| - 1] == block[|block| - 1];
      assert |block| > 1 ==> longer[1] == block[1];
    }
    forall k: nat | k < |more| ensures Full(more, k) { assert k < |bs| ==> Full(bs + [block], k); }
  }

  lemma SameStart(bs: seq<seq<Mapping>>, block: seq<Mapping>, m: Mapping)
    requires block != [] && Greedy(bs + [block])
    ensures Greedy(bs + [block + [m]])
  {
    var more := bs + [block + [m]];
    forall k: nat | k < |more| ensures Full(more, k) { assert Full(bs + [block], k); }
  }

  lemma FewestBlocks(bs: seq<seq<Mapping>>, table: seq<Mapping>)
    requires AllBlocks(bs) && Flatten(bs) == table && Greedy(bs)
    ensures forall o | Covers(o, table, 0) :: |bs| <= |o|
  {
    FlattenCovers(bs, table, []);
    assert bs + [] == bs;
    forall o | Covers(o, table, 0) ensures |bs| <= |o| { GreedyIsShortest(bs, o, table, 0, 0); }
  }

  // A chain that translates the table, followed by `return C`, computes the table's image.
  lemma TranslationFolds(body: seq<Stmt>, table: seq<Mapping>)
    requires Translates(body, table)
    ensures forall C :: Run(body, C) == Fold(table, C)
  {
    forall C ensures Run(body, C) == Fold(table, C) {
      assert TranslatesAt(body, table, C);
      if !Listed(table, C) { FoldUnlisted(table, C); }
    }
  }

  lemma NotIncreasing(table: seq<Mapping>, i: nat)
    requires i < |table| && table[i].from <= if i == 0 then -1 else table[i - 1].from
    ensures !Increasing(table)
  {
  }

  lemma SingleBlock(m: Mapping)
    requires Increasing([m])
    ensures IsBlock([m])
  {
  }

  lemma NothingIncreasing()
    ensures Increasing([])
  {
  }

  lemma IncreasingGrows(table: seq<Mapping>, i: nat)
    requires i < |table| && Increasing(table[..i])
    requires table[i].from > if i == 0 then -1 else table[i - 1].from
    ensures Increasing(table[..i + 1])
  {
  }

  lemma IncreasingPart(emitted: seq<Mapping>, block: seq<Mapping>, m: Mapping, t: seq<Mapping>)
    requires Increasing(t) && t == emitted + block + [m]
    ensures Increasing(block + [m]) && Increasing(emitted + block) && Increasing([m])
  {
    var b := block + [m];
    assert forall x | 0 <= x < |b| :: b[x] == t[|emitted| + x];
    assert forall x | 0 <= x < |emitted + block| :: (emitted + block)[x] == t[x];
    assert t[|t| - 1] == m;
  }
}
