/**
 The intrusive hash table: every element carries two pairs of links, one for its bucket chain and one for the
 order of insertion.
 */
module HashTable {
  import opened Collections
  import opened PointerLists
  import HashSort
  import Arithmetic

  const INITIAL_BUCKETS: nat := 32
  const INITIAL_LOG2: nat := 5
  const BUCKET_THRESHOLD: nat := 10

  datatype Bucket = Bucket(head: Ref, count: nat, expandMult: nat)

  const EMPTY_BUCKET := Bucket(NULL, 0, 0)

  type Hashes = map<Ref, nat>

  function Pow2(n: nat): nat
    ensures Pow2(n) > 0
  {
    if n == 0 then 1 else 2 * Pow2(n - 1)
  }

  // ----- Bucket chains ---------------------------------------------------------------------------------

  // Bucket b heads a well linked chain of its count, whose elements hash to b.
  ghost predicate ChainOK(hhNext: Field, hhPrev: Field, hashv: Hashes, n: nat, bucket: Bucket, chain: seq<Ref>, b: nat)
    requires n > 0
  {
    && Linked(hhNext, hhPrev, chain)
    && bucket.head == First(chain) && bucket.count == |chain|
    && forall i | 0 <= i < |chain| :: chain[i] in hashv && hashv[chain[i]] % n == b
  }

  ghost predicate ChainsOK(hhNext: Field, hhPrev: Field, hashv: Hashes, buckets: seq<Bucket>, chains: seq<seq<Ref>>) {
    && |chains| == |buckets| > 0
    && forall b: nat | b < |buckets| :: ChainOK(hhNext, hhPrev, hashv, |buckets|, buckets[b], chains[b], b)
  }

  ghost predicate InChains(chains: seq<seq<Ref>>, x: Ref) {
    exists b: nat :: b < |chains| && x in chains[b]
  }

  // An element can only be in the chain its hash value selects.
  lemma ChainOfElement(hhNext: Field, hhPrev: Field, hashv: Hashes, buckets: seq<Bucket>, chains: seq<seq<Ref>>, b: nat, x: Ref)
    requires ChainsOK(hhNext, hhPrev, hashv, buckets, chains) && b < |buckets| && x in chains[b]
    ensures x in hashv && hashv[x] % |buckets| == b && x != NULL
  {
  }

  lemma ChainsDisjoint(hhNext: Field, hhPrev: Field, hashv: Hashes, buckets: seq<Bucket>, chains: seq<seq<Ref>>,
                       b: nat, c: nat, x: Ref)
    requires ChainsOK(hhNext, hhPrev, hashv, buckets, chains) && b < |buckets| && c < |buckets| && b != c
    ensures x in chains[b] ==> x !in chains[c]
  {
  }

  ghost predicate SameExcept(f: Field, f': Field, xs: set<Ref>) {
    f.Keys <= f'.Keys && forall x | x in f && x !in xs :: f'[x] == f[x]
  }

  // A chain without any changed element stays as it was.
  lemma OtherChain(hhNext: Field, hhPrev: Field, hhNext': Field, hhPrev': Field, hashv: Hashes, n: nat,
                   bucket: Bucket, chain: seq<Ref>, b: nat, xs: set<Ref>)
    requires n > 0 && ChainOK(hhNext, hhPrev, hashv, n, bucket, chain, b)
    requires SameExcept(hhNext, hhNext', xs) && SameExcept(hhPrev, hhPrev', xs)
    requires forall x | x in chain :: x !in xs
    ensures ChainOK(hhNext', hhPrev', hashv, n, bucket, chain, b)
  {
  }

  // Adding x at the head of the chain it hashes to.
  lemma ChainsPush(hhNext: Field, hhPrev: Field, hashv: Hashes, buckets: seq<Bucket>, chains: seq<seq<Ref>>,
                   b: nat, x: Ref, mult: nat)
    requires ChainsOK(hhNext, hhPrev, hashv, buckets, chains) && b < |buckets|
    requires x != NULL && x in hashv && hashv[x] % |buckets| == b && !InChains(chains, x)
    ensures var h := buckets[b].head;
            var hhPrev' := if h != NULL then hhPrev[x := NULL][h := x] else hhPrev[x := NULL];
            ChainsOK(hhNext[x := h], hhPrev', hashv, buckets[b := Bucket(x, buckets[b].count + 1, mult)],
                     chains[b := [x] + chains[b]])
  {
    var h := buckets[b].head;
    var hhNext' := hhNext[x := h];
    var hhPrev' := if h != NULL then hhPrev[x := NULL][h := x] else hhPrev[x := NULL];
    var bs, cs := buckets[b := Bucket(x, buckets[b].count + 1, mult)], chains[b := [x] + chains[b]];
    assert ChainOK(hhNext, hhPrev, hashv, |buckets|, buckets[b], chains[b], b);
    assert chains[b] != [] ==> h == chains[b][0] && h in chains[b];
    forall c: nat | c < |bs| ensures ChainOK(hhNext', hhPrev', hashv, |bs|, bs[c], cs[c], c) {
      if c == b {
        LinkedPush(hhNext, hhPrev, chains[b], x);
      } else {
        assert NULL !in chains[c] by { assert ChainOK(hhNext, hhPrev, hashv, |buckets|, buckets[c], chains[c], c); }
        assert x !in chains[c];
        ChainsDisjoint(hhNext, hhPrev, hashv, buckets, chains, b, c, h);
        OtherChain(hhNext, hhPrev, hhNext', hhPrev', hashv, |buckets|, buckets[c], chains[c], c, {x, h});
      }
    }
  }

  // Removing the element at position i of chain b.
  lemma ChainsRemove(hhNext: Field, hhPrev: Field, hashv: Hashes, buckets: seq<Bucket>, chains: seq<seq<Ref>>, b: nat, i: nat)
    requires ChainsOK(hhNext, hhPrev, hashv, buckets, chains) && b < |buckets| && i < |chains[b]|
    ensures var x := chains[b][i];
            && x in hhNext && x in hhPrev && buckets[b].count > 0
            && var hhNext' := if hhPrev[x] != NULL then hhNext[hhPrev[x] := hhNext[x]] else hhNext;
            var hhPrev' := if hhNext[x] != NULL then hhPrev[hhNext[x] := hhPrev[x]] else hhPrev;
            var head := if buckets[b].head == x then hhNext[x] else buckets[b].head;
            ChainsOK(hhNext', hhPrev', hashv, buckets[b := buckets[b].(head := head, count := buckets[b].count - 1)],
                     chains[b := RemoveAt(chains[b], i)])
  {
    var x, l := chains[b][i], chains[b];
    assert ChainOK(hhNext, hhPrev, hashv, |buckets|, buckets[b], l, b);
    var hhNext' := if hhPrev[x] != NULL then hhNext[hhPrev[x] := hhNext[x]] else hhNext;
    var hhPrev' := if hhNext[x] != NULL then hhPrev[hhNext[x] := hhPrev[x]] else hhPrev;
    var head := if buckets[b].head == x then hhNext[x] else buckets[b].head;
    var bs := buckets[b := buckets[b].(head := head, count := buckets[b].count - 1)];
    var cs := chains[b := RemoveAt(l, i)];
    LinkedRemove(hhNext, hhPrev, l, i);
    RemoveDistinct(l, i);
    assert i > 0 ==> l[0] != x;
    forall c: nat | c < |bs| ensures ChainOK(hhNext', hhPrev', hashv, |bs|, bs[c], cs[c], c) {
      if c != b {
        assert (hhPrev[x] == NULL || hhPrev[x] in l) && (hhNext[x] == NULL || hhNext[x] in l);
        assert NULL !in chains[c] by { assert ChainOK(hhNext, hhPrev, hashv, |buckets|, buckets[c], chains[c], c); }
        ChainsDisjoint(hhNext, hhPrev, hashv, buckets, chains, b, c, hhPrev[x]);
        ChainsDisjoint(hhNext, hhPrev, hashv, buckets, chains, b, c, hhNext[x]);
        OtherChain(hhNext, hhPrev, hhNext', hhPrev', hashv, |buckets|, buckets[c], chains[c], c, {hhPrev[x], hhNext[x]});
      } else {
        RemoveKeepsHashes(hhNext, hhPrev, hashv, |buckets|, buckets[b], l, b, i);
      }
    }
  }

  lemma RemoveKeepsHashes(hhNext: Field, hhPrev: Field, hashv: Hashes, n: nat, bucket: Bucket, l: seq<Ref>, b: nat, i: nat)
    requires n > 0 && ChainOK(hhNext, hhPrev, hashv, n, bucket, l, b) && i < |l|
    ensures forall k | 0 <= k < |RemoveAt(l, i)| :: RemoveAt(l, i)[k] in hashv && hashv[RemoveAt(l, i)[k]] % n == b
  {
  }

  function BucketOf(h: nat, n: nat): (b: nat)
    requires n > 0
  {
    h % n
  }

  // Doubling the number of buckets splits bucket b into b and b + n.
  lemma DoubledBucket(h: nat, n: nat, m: nat)
    requires n > 0 && m == n + n
    ensures BucketOf(h, m) == BucketOf(h, n) || BucketOf(h, m) == BucketOf(h, n) + n
  {
    hide BucketOf;
    var q := Quotient(h, m);
    var r := BucketOf(h, m);
    Halved(q, n, m);
    if r < n {
      RemainderOf(h, q + q, n, r);
    } else {
      RemainderOf(h, q + q + 1, n, r - n);
    }
  }

  lemma Quotient(h: nat, m: nat) returns (q: nat)
    requires m > 0
    ensures h == q * m + BucketOf(h, m) && BucketOf(h, m) < m
  {
    q := h / m;
  }

  lemma RemainderOf(h: nat, q: nat, n: nat, r: nat)
    requires h == q * n + r && r < n
    ensures BucketOf(h, n) == r
  {
    Arithmetic.DivModUnique(q, r, n);
  }

  lemma Halved(q: nat, n: nat, m: nat)
    requires m == n + n
    ensures q * m == (q + q) * n && (q + q + 1) * n == (q + q) * n + n
  {
  }

  // ----- Chain lengths ---------------------------------------------------------------------------------

  // The expansion multiplier that doubling gives a bucket of `count` elements.
  function ExpandMultiplier(count: nat, ideal: nat): nat
    requires ideal > 0
  {
    if count > ideal then count / ideal else 0
  }

  ghost predicate MultipliersFit(buckets: seq<Bucket>, ideal: nat)
    requires ideal > 0
  {
    forall b | 0 <= b < |buckets| :: buckets[b].expandMult == ExpandMultiplier(buckets[b].count, ideal)
  }

  // By how many elements the chains exceed the ideal length.
  function TotalExcess(buckets: seq<Bucket>, ideal: nat): nat {
    if buckets == [] then 0 else
    var n := |buckets| - 1;
    TotalExcess(buckets[..n], ideal) + if buckets[n].count > ideal then buckets[n].count - ideal else 0
  }

  lemma {:induction false} NoExcess(buckets: seq<Bucket>, ideal: nat)
    requires forall b | 0 <= b < |buckets| :: buckets[b] == EMPTY_BUCKET
    ensures TotalExcess(buckets, ideal) == 0
  {
    if buckets != [] { NoExcess(buckets[..|buckets| - 1], ideal); }
  }

  // One more element in bucket b is one more in excess exactly if the bucket then exceeds the ideal length.
  lemma {:induction false} ExcessOfPush(buckets: seq<Bucket>, b: nat, bucket: Bucket, ideal: nat)
    requires b < |buckets| && bucket.count == buckets[b].count + 1
    ensures TotalExcess(buckets[b := bucket], ideal) == TotalExcess(buckets, ideal) + if bucket.count > ideal then 1 else 0
  {
    var n := |buckets| - 1;
    var updated := buckets[b := bucket];
    if b < n {
      ExcessOfPush(buckets[..n], b, bucket, ideal);
      assert updated[..n] == buckets[..n][b := bucket];
    } else {
      assert updated[..n] == buckets[..n];
    }
  }

  // Adding one element to a bucket of this many doubles the buckets.
  predicate Overfull(bucket: Bucket) {
    bucket.count + 1 >= (bucket.expandMult + 1) * BUCKET_THRESHOLD
  }

  // Until expansion is given up, and while the ideal length is below the threshold, a chain stays below the
  // threshold times one more than its multiplier.
  ghost predicate Bounded(buckets: seq<Bucket>, ideal: nat, noexpand: bool) {
    !noexpand && ideal < BUCKET_THRESHOLD ==>
      forall b | 0 <= b < |buckets| :: buckets[b].count < (buckets[b].expandMult + 1) * BUCKET_THRESHOLD
  }

  // Doubling bounds every chain.
  lemma MultipliersBound(buckets: seq<Bucket>, ideal: nat, noexpand: bool)
    requires ideal > 0 && MultipliersFit(buckets, ideal)
    ensures Bounded(buckets, ideal, noexpand)
  {
    forall b | 0 <= b < |buckets| && ideal < BUCKET_THRESHOLD
      ensures buckets[b].count < (buckets[b].expandMult + 1) * BUCKET_THRESHOLD
    {
      QuotientBound(buckets[b].count, ideal);
    }
  }

  lemma QuotientBound(count: nat, ideal: nat)
    requires 0 < ideal < BUCKET_THRESHOLD
    ensures count < (ExpandMultiplier(count, ideal) + 1) * BUCKET_THRESHOLD
  {
    if count > ideal {
      var q, r := Divided(count, ideal);
      NextMultiple(q, ideal);
    }
  }

  lemma Divided(count: nat, ideal: nat) returns (q: nat, r: nat)
    requires ideal > 0
    ensures count == q * ideal + r && r < ideal && q == count / ideal
  {
    q, r := count / ideal, count % ideal;
  }

  lemma NextMultiple(q: nat, ideal: nat)
    requires ideal <= BUCKET_THRESHOLD
    ensures q * ideal + ideal <= (q + 1) * BUCKET_THRESHOLD
  {
    assert q * BUCKET_THRESHOLD - q * ideal == q * (BUCKET_THRESHOLD - ideal);
  }

  // The elements whose hash values select bucket b of n.
  ghost function SelectedBy<Key>(hash: Key -> nat, key: map<Ref, Key>, app: seq<Ref>, n: nat, b: nat): set<Ref>
    requires n > 0
  {
    set x | x in app && x in key && hash(key[x]) % n == b
  }

  // ----- The table as a finite map -------------------------------------------------------------------------

  // Keys to elements, for the elements in insertion order.
  ghost function Assoc<Key>(key: map<Ref, Key>, app: seq<Ref>): map<Key, Ref>
    requires Keyed(key, app)
  {
    if app == [] then map[] else
    var n := |app| - 1;
    Assoc(key, app[..n])[key[app[n]] := app[n]]
  }

  ghost predicate Keyed<Key>(key: map<Ref, Key>, app: seq<Ref>) {
    forall i | 0 <= i < |app| :: app[i] in key
  }

  // Every element has a key of its own.
  ghost predicate KeysOK<Key>(key: map<Ref, Key>, app: seq<Ref>) {
    && Keyed(key, app)
    && (forall i, j | 0 <= i < j < |app| :: key[app[i]] != key[app[j]])
  }

  lemma {:induction false} AssocExact<Key>(key: map<Ref, Key>, app: seq<Ref>)
    requires KeysOK(key, app)
    ensures forall i | 0 <= i < |app| :: key[app[i]] in Assoc(key, app) && Assoc(key, app)[key[app[i]]] == app[i]
    ensures forall k | k in Assoc(key, app) :: exists i :: 0 <= i < |app| && key[app[i]] == k
  {
    if app != [] {
      var n := |app| - 1;
      AssocExact(key, app[..n]);
      var m := Assoc(key, app[..n]);
      forall k | k in Assoc(key, app) ensures exists i :: 0 <= i < |app| && key[app[i]] == k {
        if k in m {
          var i :| 0 <= i < n && key[app[..n][i]] == k;
          assert key[app[i]] == k;
        } else {
          assert key[app[n]] == k;
        }
      }
    }
  }

  ghost predicate Sublist(a: seq<Ref>, b: seq<Ref>) { forall i | 0 <= i < |a| :: a[i] in b }

  // The map depends on which elements there are, not on their order.
  lemma AssocSame<Key>(key: map<Ref, Key>, a: seq<Ref>, b: seq<Ref>)
    requires KeysOK(key, a) && KeysOK(key, b) && Sublist(a, b) && Sublist(b, a)
    ensures Assoc(key, a) == Assoc(key, b)
  {
    AssocSub(key, a, b);
    AssocSub(key, b, a);
  }

  lemma AssocSub<Key>(key: map<Ref, Key>, a: seq<Ref>, b: seq<Ref>)
    requires KeysOK(key, a) && KeysOK(key, b) && Sublist(a, b)
    ensures forall k | k in Assoc(key, a) :: k in Assoc(key, b) && Assoc(key, b)[k] == Assoc(key, a)[k]
  {
    AssocExact(key, a);
    AssocExact(key, b);
    forall k | k in Assoc(key, a) ensures k in Assoc(key, b) && Assoc(key, b)[k] == Assoc(key, a)[k] {
      var i :| 0 <= i < |a| && key[a[i]] == k;
      assert a[i] in b;
      var j :| 0 <= j < |b| && b[j] == a[i];
    }
  }

  lemma KeysRemove<Key>(key: map<Ref, Key>, app: seq<Ref>, i: nat)
    requires KeysOK(key, app) && i < |app|
    ensures KeysOK(key, RemoveAt(app, i))
    ensures forall j | 0 <= j < |RemoveAt(app, i)| :: key[RemoveAt(app, i)[j]] != key[app[i]]
  {
  }

  lemma AssocRemove<Key>(key: map<Ref, Key>, app: seq<Ref>, i: nat)
    requires KeysOK(key, app) && Distinct(app) && i < |app|
    ensures KeysOK(key, RemoveAt(app, i))
    ensures Assoc(key, RemoveAt(app, i)) == Assoc(key, app) - {key[app[i]]}
  {
    hide Assoc, RemoveAt;
    KeysRemove(key, app, i);
    var m := RemoveAt(app, i);
    RemoveDistinct(app, i);
    forall j | 0 <= j < |m| ensures m[j] in app { assert m[j] in m; }
    AssocSub(key, m, app);
    AssocExact(key, app);
    AssocExact(key, m);
    var a, b := Assoc(key, m), Assoc(key, app) - {key[app[i]]};
    forall k | k in b ensures k in a {
      var j :| 0 <= j < |app| && key[app[j]] == k;
      assert app[j] != app[i] && app[j] in m;
      var j' :| 0 <= j' < |m| && m[j'] == app[j];
    }
    assert a == b;
  }

  // Every listed element is in the chain its hash value selects, and the chains hold nothing else.
  ghost predicate Covered(hashv: Hashes, n: nat, app: seq<Ref>, chains: seq<seq<Ref>>) {
    && n > 0 && |chains| == n
    && (forall i | 0 <= i < |app| :: app[i] in hashv && app[i] in chains[hashv[app[i]] % n])
    && (forall x | InChains(chains, x) :: x in app)
  }

  ghost predicate HashesOK<Key>(hash: Key -> nat, key: map<Ref, Key>, hashv: Hashes, app: seq<Ref>) {
    forall i | 0 <= i < |app| :: app[i] in key && app[i] in hashv && hashv[app[i]] == hash(key[app[i]])
  }

  lemma CoveredPush(hashv: Hashes, n: nat, app: seq<Ref>, chains: seq<seq<Ref>>, x: Ref)
    requires Covered(hashv, n, app, chains) && x in hashv
    ensures var b := hashv[x] % n;
            Covered(hashv, n, app + [x], chains[b := [x] + chains[b]])
  {
  }

  lemma CoveredMember(hashv: Hashes, n: nat, app: seq<Ref>, chains: seq<seq<Ref>>, y: Ref)
    requires Covered(hashv, n, app, chains) && y in app
    ensures y in hashv && y in chains[hashv[y] % n]
  {
    var j :| 0 <= j < |app| && app[j] == y;
  }

  lemma CoveredRemove(hhNext: Field, hhPrev: Field, hashv: Hashes, buckets: seq<Bucket>, app: seq<Ref>, chains: seq<seq<Ref>>,
                      i: nat, b: nat, c: nat)
    requires ChainsOK(hhNext, hhPrev, hashv, buckets, chains) && Covered(hashv, |buckets|, app, chains)
    requires Distinct(app) && i < |app| && b < |chains| && c < |chains[b]| && chains[b][c] == app[i]
    ensures Covered(hashv, |buckets|, RemoveAt(app, i), chains[b := RemoveAt(chains[b], c)])
  {
    var n, x := |buckets|, app[i];
    var m, cs := RemoveAt(app, i), chains[b := RemoveAt(chains[b], c)];
    RemoveDistinct(app, i);
    assert ChainOK(hhNext, hhPrev, hashv, n, buckets[b], chains[b], b);
    RemoveDistinct(chains[b], c);
    hide ChainsOK, ChainOK, RemoveAt;
    forall k | 0 <= k < |m| ensures m[k] in hashv && m[k] in cs[hashv[m[k]] % n] {
      assert m[k] in m;
      CoveredMember(hashv, n, app, chains, m[k]);
    }
    forall y | InChains(cs, y) ensures y in m {
      var d: nat :| d < |cs| && y in cs[d];
      assert y in chains[d];
      assert InChains(chains, y);
      if d != b { ChainsDisjoint(hhNext, hhPrev, hashv, buckets, chains, b, d, x); }
    }
  }

  // ----- The table -------------------------------------------------------------------------------------------

  class Table<Key(==)> {
    const hash: Key -> nat
    // Insertion order.
    var head: Ref
    var tail: Ref
    var next: Field
    var prev: Field
    // Elements.
    var key: map<Ref, Key>
    var hashv: Hashes
    // Buckets.
    var buckets: seq<Bucket>
    var log2: nat
    var hhNext: Field
    var hhPrev: Field
    var numItems: nat
    var idealChainMaxlen: nat
    var nonidealItems: nat
    var ineffExpands: nat
    var noexpand: bool
    // The lists the links stand for.
    ghost var app: seq<Ref>
    ghost var chains: seq<seq<Ref>>

    ghost predicate AppOK()
      reads this
    {
      Linked(next, prev, app) && head == First(app) && numItems == |app| && (app != [] ==> tail == LastOf(app))
    }

    ghost predicate BucketsOK()
      reads this
    {
      && ChainsOK(hhNext, hhPrev, hashv, buckets, chains) && |buckets| == Pow2(log2)
      && Covered(hashv, |buckets|, app, chains)
      && HashesOK(hash, key, hashv, app)
    }

    // Both link structures are sound and list the same elements.
    ghost predicate Valid()
      reads this
    {
      AppOK() && Keyed(key, app) && (app != [] ==> BucketsOK())
    }

    ghost predicate ChainsBounded()
      reads this
    {
      Bounded(buckets, idealChainMaxlen, noexpand)
    }

    // No two elements have the same key.
    ghost predicate UniqueKeys()
      requires Valid()
      reads this
    {
      KeysOK(key, app)
    }

    // The finite map that a table without duplicate keys stands for.
    ghost function Contents(): map<Key, Ref>
      requires Valid()
      reads this
    {
      Assoc(key, app)
    }

    constructor (hash: Key -> nat)
      ensures Valid() && this.hash == hash && UniqueKeys() && Contents() == map[] && app == []
      ensures ChainsBounded()
    {
      this.hash := hash;
      head, tail, next, prev, key, hashv := NULL, NULL, map[], map[], map[], map[];
      buckets, log2, hhNext, hhPrev, numItems := [], 0, map[], map[], 0;
      idealChainMaxlen, nonidealItems, ineffExpands, noexpand := 0, 0, 0, false;
      app, chains := [], [];
    }

    // The map leads to listed elements, from their own keys.
    lemma ContentsInOrder()
      requires Valid() && UniqueKeys()
      ensures forall k | k in Contents() :: Contents()[k] in app && Contents()[k] in key && key[Contents()[k]] == k
      ensures NULL !in app
    {
      hide Table.BucketsOK, Assoc;
      AssocExact(key, app);
    }

    // An element with key k, or NULL if there is none.
    method Find(k: Key) returns (out: Ref)
      requires Valid()
      ensures out == NULL <==> forall i | 0 <= i < |app| :: key[app[i]] != k
      ensures out != NULL ==> out in app && key[out] == k
      ensures UniqueKeys() ==> out == if k in Contents() then Contents()[k] else NULL
    {
      out := Search(k);
      hide Table.AppOK, Table.BucketsOK, Assoc;
      if UniqueKeys() { AssocExact(key, app); }
    }

    method Search(k: Key) returns (out: Ref)
      requires Valid()
      ensures out == NULL <==> forall i | 0 <= i < |app| :: key[app[i]] != k
      ensures out != NULL ==> out in app && key[out] == k
    {
      out := NULL;
      if head != NULL {
        var b := hash(k) % |buckets|;
        ghost var chain := chains[b];
        assert ChainOK(hhNext, hhPrev, hashv, |buckets|, buckets[b], chain, b);
        ChainKeys(b);
        out := buckets[b].head;
        ghost var i := 0;
        while out != NULL
          invariant 0 <= i <= |chain| && out == (if i < |chain| then chain[i] else NULL)
          invariant forall j | 0 <= j < i :: key[chain[j]] != k
          decreases |chain| - i
        {
          if key[out] == k { return; }
          out := hhNext[out];
          i := i + 1;
        }
        NotFound(k, b);
      }
    }

    lemma ChainKeys(b: nat)
      requires Valid() && app != [] && b < |chains|
      ensures forall j | 0 <= j < |chains[b]| :: chains[b][j] in key && chains[b][j] in app
    {
      forall j | 0 <= j < |chains[b]| ensures chains[b][j] in key && chains[b][j] in app {
        assert chains[b][j] in chains[b];
        assert InChains(chains, chains[b][j]);
        var i :| 0 <= i < |app| && app[i] == chains[b][j];
      }
    }

    // A key missing from the chain it hashes to is missing from the table.
    lemma NotFound(k: Key, b: nat)
      requires Valid() && app != [] && b == hash(k) % |buckets| && b < |chains|
      requires forall j | 0 <= j < |chains[b]| :: chains[b][j] in key && key[chains[b][j]] != k
      ensures forall i | 0 <= i < |app| :: key[app[i]] != k
    {
      forall i | 0 <= i < |app| ensures key[app[i]] != k {
        assert app[i] in chains[hashv[app[i]] % |buckets|];
        assert hashv[app[i]] == hash(key[app[i]]);
      }
    }

    // Add element x under the key k.  If keys were unique and k is absent, the map grows by k.  The first element
    // brings the initial buckets; later the buckets double exactly if, with x, ten times one more than the
    // multiplier of the bucket that k selects are in it, unless expansion has been given up.  Once that has
    // happened it stays so as long as the table is not emptied.
    method Add(x: Ref, k: Key)
      requires Valid() && x != NULL && x !in app
      modifies this
      ensures Valid() && app == old(app) + [x] && key == old(key)[x := k]
      ensures old(UniqueKeys()) && k !in old(Contents()) ==> UniqueKeys() && Contents() == old(Contents())[k := x]
      ensures old(app) != [] && old(noexpand) ==> noexpand
      ensures old(app) == [] ==> |buckets| == INITIAL_BUCKETS
      ensures old(app) != [] ==>
                var n := |old(buckets)|;
                var b := hash(k) % n;
                var inBucket := |SelectedBy(hash, old(key), old(app), n, b)| + 1;
                var full := inBucket >= (old(buckets)[b].expandMult + 1) * BUCKET_THRESHOLD;
                |buckets| == if full && !old(noexpand) then 2 * n else n
      ensures old(ChainsBounded()) ==> ChainsBounded()
    {
      hide ChainsOK, Covered, HashesOK, Keyed, KeysOK, Assoc, Linked, Pow2, SelectedBy, Bounded;
      if app != [] {
        BucketBounds(hhNext, hhPrev, hashv, buckets, chains);
        CountsSelected(hhNext, hhPrev, hashv, buckets, chains, app, hash, key, hash(k) % |buckets|);
      }
      KeyedExtend(key, app, x, k);
      if UniqueKeys() && k !in Contents() { KeysExtend(key, app, x, k); }
      LinkLast(x);
      HashesIgnore(hash, key, hashv, app, x, k);
      key := key[x := k];
      numItems := numItems + 1;
      AddToBucket(x);
    }

    // Put x at the end of the insertion order; the first element brings a fresh table of buckets.
    method LinkLast(x: Ref)
      requires Valid() && x != NULL && x !in app
      modifies this`head, this`tail, this`next, this`prev, this`buckets, this`log2, this`chains,
               this`idealChainMaxlen, this`nonidealItems, this`ineffExpands, this`noexpand
      ensures Linked(next, prev, app + [x]) && head == First(app + [x]) && tail == x && BucketsOK()
      ensures app != [] ==> noexpand == old(noexpand) && buckets == old(buckets) && idealChainMaxlen == old(idealChainMaxlen)
      ensures app == [] ==> FreshBuckets()
      ensures old(ChainsBounded()) ==> ChainsBounded()
    {
      hide ChainsOK, Covered, HashesOK, Keyed, Linked, Pow2;
      LinkedAppend(next, prev, app, x);
      if head == NULL {
        MakeTable();
        head, tail := x, x;
        next, prev := next[x := NULL], prev[x := NULL];
        assert app == [];
        LinkedOne(next, prev, app, x);
      } else {
        next := next[x := NULL][tail := x];
        prev := prev[x := tail];
        tail := x;
      }
    }

    ghost predicate FreshBuckets()
      reads this
    {
      && |buckets| == INITIAL_BUCKETS && (forall b | 0 <= b < |buckets| :: buckets[b] == EMPTY_BUCKET)
      && idealChainMaxlen == nonidealItems == ineffExpands == 0 && !noexpand
    }

    // A fresh table of empty buckets.
    method MakeTable()
      requires Valid() && app == []
      modifies this`buckets, this`log2, this`chains, this`idealChainMaxlen, this`nonidealItems, this`ineffExpands, this`noexpand
      ensures BucketsOK() && FreshBuckets()
    {
      buckets := seq(INITIAL_BUCKETS, i => EMPTY_BUCKET);
      chains := seq(INITIAL_BUCKETS, i => []);
      log2 := INITIAL_LOG2;
      idealChainMaxlen, nonidealItems, ineffExpands, noexpand := 0, 0, 0, false;
      assert Pow2(2) == 4 && Pow2(4) == 16;
    }

    // Put the new last element x at the head of its bucket; double the buckets if that chain has become too long.
    method AddToBucket(x: Ref)
      requires BucketsOK() && x != NULL && x in key && x !in app
      requires Linked(next, prev, app + [x]) && head == First(app + [x]) && tail == x && numItems == |app| + 1
      requires Keyed(key, app + [x])
      modifies this
      ensures Valid() && app == old(app) + [x] && key == old(key)
      ensures var b := hash(key[x]) % |old(buckets)|;
              |buckets| == if Overfull(old(buckets)[b]) && !old(noexpand) then 2 * |old(buckets)| else |old(buckets)|
      ensures old(noexpand) ==> noexpand
      ensures old(ChainsBounded()) ==> ChainsBounded()
    {
      hide ChainsOK, Covered, HashesOK, Keyed, Linked, Pow2, ExpandMultiplier, MultipliersFit, SplitBuckets, TotalExcess;
      var b := LinkIntoBucket(x);
      app := app + [x];
      assert LastOf(app) == x;
      if buckets[b].count >= (buckets[b].expandMult + 1) * BUCKET_THRESHOLD && !noexpand {
        ExpandBuckets();
        MultipliersBound(buckets, idealChainMaxlen, noexpand);
      }
    }

    method LinkIntoBucket(x: Ref) returns (b: nat)
      requires BucketsOK() && x != NULL && x in key && x !in app
      modifies this`hashv, this`buckets, this`hhNext, this`hhPrev, this`chains
      ensures ChainsOK(hhNext, hhPrev, hashv, buckets, chains) && |buckets| == Pow2(log2) && b < |buckets|
      ensures Covered(hashv, |buckets|, app + [x], chains) && HashesOK(hash, key, hashv, app + [x])
      ensures |buckets| == |old(buckets)| && b == hash(key[x]) % |buckets|
      ensures var bucket := old(buckets)[b]; buckets == old(buckets)[b := bucket.(head := x, count := bucket.count + 1)]
    {
      hide ChainsOK, Covered, HashesOK, Pow2;
      BucketBounds(hhNext, hhPrev, hashv, buckets, chains);
      b := hash(key[x]) % |buckets|;
      HashEntry(hhNext, hhPrev, hashv, buckets, chains, app, hash, key, x);
      hashv := hashv[x := hash(key[x])];
      var bucket := buckets[b];
      ChainsPush(hhNext, hhPrev, hashv, buckets, chains, b, x, bucket.expandMult);
      CoveredPush(hashv, |buckets|, app, chains, x);
      buckets := buckets[b := Bucket(x, bucket.count + 1, bucket.expandMult)];
      hhNext := hhNext[x := bucket.head];
      hhPrev := hhPrev[x := NULL];
      if bucket.head != NULL { hhPrev := hhPrev[bucket.head := x]; }
      chains := chains[b := [x] + chains[b]];
    }

    // Take element x out of both lists; the last element takes the whole table with it.
    method Delete(x: Ref)
      requires Valid() && x in app
      modifies this
      ensures Valid() && key == old(key)
      ensures old(UniqueKeys()) ==> UniqueKeys() && Contents() == old(Contents()) - {key[x]}
      ensures old(ChainsBounded()) ==> ChainsBounded()
      ensures exists i :: 0 <= i < |old(app)| && old(app)[i] == x && app == RemoveAt(old(app), i)
    {
      hide ChainsOK, Covered, HashesOK, Keyed, KeysOK, Assoc, Linked, Pow2, Bounded, RemoveAt;
      ghost var i :| 0 <= i < |app| && app[i] == x;
      ElementLinks(next, prev, app, i);
      KeyedRemove(key, app, i);
      if UniqueKeys() { AssocRemove(key, app, i); }
      if prev[x] == NULL && next[x] == NULL {
        head := NULL;
        numItems := 0;
        OnlyElement(next, prev, app, i);
        app := RemoveAt(app, i);
      } else {
        UnlinkFromOrder(x, i);
        UnlinkFromBucket(x, i);
        numItems := numItems - 1;
        app := RemoveAt(app, i);
      }
    }

    method UnlinkFromOrder(x: Ref, ghost i: nat)
      requires AppOK() && i < |app| && app[i] == x && |app| > 1
      modifies this`head, this`tail, this`next, this`prev
      ensures RemoveAt(app, i) != [] && Linked(next, prev, RemoveAt(app, i))
      ensures |RemoveAt(app, i)| == |app| - 1 && head == First(RemoveAt(app, i)) && tail == LastOf(RemoveAt(app, i))
    {
      hide Linked;
      ElementLinks(next, prev, app, i);
      LinkedRemove(next, prev, app, i);
      RemoveEnds(app, i);
      if x == tail { tail := prev[x]; }
      var before, following := prev[x], next[x];
      if before != NULL { next := next[before := following]; } else { head := following; }
      if following != NULL { prev := prev[following := before]; }
    }

    method UnlinkFromBucket(x: Ref, ghost i: nat)
      requires BucketsOK() && Distinct(app) && i < |app| && app[i] == x
      modifies this`buckets, this`hhNext, this`hhPrev, this`chains
      ensures ChainsOK(hhNext, hhPrev, hashv, buckets, chains) && |buckets| == Pow2(log2)
      ensures Covered(hashv, |buckets|, RemoveAt(app, i), chains) && HashesOK(hash, key, hashv, RemoveAt(app, i))
      ensures old(ChainsBounded()) ==> ChainsBounded()
    {
      hide ChainsOK, HashesOK, Pow2;
      var b := hashv[x] % |buckets|;
      ghost var c :| 0 <= c < |chains[b]| && chains[b][c] == x;
      BucketBounds(hhNext, hhPrev, hashv, buckets, chains);
      ChainsRemove(hhNext, hhPrev, hashv, buckets, chains, b, c);
      CoveredRemove(hhNext, hhPrev, hashv, buckets, app, chains, i, b, c);
      HashesRemove(hash, key, hashv, app, i);
      var before, following, bucket := hhPrev[x], hhNext[x], buckets[b];
      buckets := buckets[b := bucket.(head := if bucket.head == x then following else bucket.head, count := bucket.count - 1)];
      if before != NULL { hhNext := hhNext[before := following]; }
      if following != NULL { hhPrev := hhPrev[following := before]; }
      chains := chains[b := RemoveAt(chains[b], c)];
    }

    // Sort the insertion order.  The result is a permutation; if the comparison orders the elements it is sorted
    // and equal elements keep their order; the buckets, and so every lookup, are as before.
    method Sort(cmp: HashSort.Compare)
      requires Valid()
      modifies this`head, this`tail, this`next, this`prev, this`app
      ensures Valid() && (old(UniqueKeys()) ==> UniqueKeys() && Contents() == old(Contents()))
      ensures multiset(app) == multiset(old(app)) && (old(ChainsBounded()) ==> ChainsBounded())
      ensures HashSort.Ordering(cmp, Elems(app)) ==> StableSort(cmp, old(app), app)
    {
      hide ChainsOK, Covered, HashesOK, Keyed, KeysOK, Assoc, Linked, Pow2, StableSort, Elems, HashSort.Ordering, HashSort.Sorted;
      ElementsNotNull(next, prev, app);
      if head != NULL {
        ghost var sorted := HashSort.Sorted(cmp, app);
        next, prev, head, tail := HashSort.MergeSort(cmp, next, prev, head, app);
        SortKeeps(cmp, next, prev, hash, key, hashv, |buckets|, app, chains);
        app := sorted;
      } else {
        SortedNothing(cmp, app);
      }
    }

    // The forward links, which every walk follows, form lists; nothing is said of back links and counts.
    ghost predicate Traversable()
      reads this
    {
      && ForwardList(next, prev, app, head)
      && (head != NULL ==> |chains| == |buckets|)
      && (head != NULL ==> forall b: nat | b < |buckets| :: ForwardList(hhNext, hhPrev, chains[b], buckets[b].head))
    }

    // What the consistency check looks at: both link structures and all counts.
    ghost predicate Consistent()
      reads this
    {
      && Linked(next, prev, app) && numItems == |app|
      && SumCounts(buckets) == numItems
      && |chains| == |buckets| && forall b: nat | b < |buckets| :: ChainConsistent(hhNext, hhPrev, buckets[b], chains[b])
    }

    // The library's own consistency check: back links and counts of every chain, the sum of the counts, back
    // links and count of the insertion order.  It accepts exactly the consistent tables, and an empty one.
    method Fsck() returns (ok: bool)
      requires Traversable()
      ensures ok <==> head == NULL || Consistent()
    {
      hide Linked, ForwardList, SumCounts;
      ok := true;
      if head != NULL {
        var good, sum := FsckBuckets();
        var linked, seen := FsckOrder();
        ok := good && sum == numItems && linked && seen == numItems;
      }
    }

    // The check accepts every valid table.
    lemma ValidPassesFsck()
      requires Valid()
      ensures Traversable() && (head == NULL || Consistent())
    {
      LinkedChecks(next, prev, app);
      ElementsNotNull(next, prev, app);
      if head != NULL {
        CountsAddUp(hhNext, hhPrev, hashv, buckets, chains, app);
        hide Linked, ForwardList, BackLinks, Covered, HashesOK, Keyed;
        forall b: nat | b < |buckets|
          ensures ForwardList(hhNext, hhPrev, chains[b], buckets[b].head)
                  && ChainConsistent(hhNext, hhPrev, buckets[b], chains[b])
        {
          assert ChainOK(hhNext, hhPrev, hashv, |buckets|, buckets[b], chains[b], b);
          LinkedChecks(hhNext, hhPrev, chains[b]);
        }
      }
    }

    // Whether every chain is consistent, and if so the sum of the bucket counts.
    method FsckBuckets() returns (ok: bool, count: nat)
      requires Traversable() && head != NULL
      ensures ok <==> forall b: nat | b < |buckets| :: ChainConsistent(hhNext, hhPrev, buckets[b], chains[b])
      ensures ok ==> count == SumCounts(buckets)
    {
      hide Linked, ForwardList;
      ok, count := true, 0;
      var b := 0;
      while b < |buckets|
        invariant b <= |buckets| && (ok ==> count == SumCounts(buckets[..b]))
        invariant ok <==> forall c: nat | c < b :: ChainConsistent(hhNext, hhPrev, buckets[c], chains[c])
      {
        var good, size := FsckChain(b);
        ok := ok && good;
        assert buckets[..b + 1][..b] == buckets[..b];
        count := count + size;
        b := b + 1;
      }
      assert buckets[..b] == buckets;
    }

    // Whether the back links of the insertion order are consistent, and its length.
    method FsckOrder() returns (ok: bool, seen: nat)
      requires ForwardList(next, prev, app, head)
      ensures ok <==> Linked(next, prev, app)
      ensures seen == |app|
    {
      ok, seen := CheckBackLinks(next, prev, head, app);
    }

    method FsckChain(b: nat) returns (ok: bool, size: nat)
      requires b < |buckets| == |chains| && ForwardList(hhNext, hhPrev, chains[b], buckets[b].head)
      ensures ok <==> ChainConsistent(hhNext, hhPrev, buckets[b], chains[b])
      ensures size == |chains[b]|
    {
      ok, size := CheckBackLinks(hhNext, hhPrev, buckets[b].head, chains[b]);
      ok := ok && size == buckets[b].count;
    }

    // Walk chain i and push each of its elements on the new chain its hash value selects.
    method MoveChain(i: nat, grown0: seq<Bucket>, ghost moved0: seq<seq<Ref>>, ghost oldNext: Field, ghost oldPrev: Field)
      returns (grown: seq<Bucket>, ghost moved: seq<seq<Ref>>)
      requires i < |buckets| == |chains| && |grown0| == |moved0| == 2 * |buckets| && idealChainMaxlen > 0
      requires Moving(oldNext, oldPrev, hashv, buckets, chains, hhNext, hhPrev, grown0, moved0, i, 0)
      requires MultipliersFit(grown0, idealChainMaxlen) && nonidealItems == TotalExcess(grown0, idealChainMaxlen)
      modifies this`hhNext, this`hhPrev, this`nonidealItems
      ensures |grown| == |moved| == 2 * |buckets|
      ensures Moving(oldNext, oldPrev, hashv, buckets, chains, hhNext, hhPrev, grown, moved, i, |chains[i]|)
      ensures MultipliersFit(grown, idealChainMaxlen) && nonidealItems == TotalExcess(grown, idealChainMaxlen)
    {
      hide Moving, TotalExcess;
      grown, moved := grown0, moved0;
      var thh := buckets[i].head;
      ghost var k := 0;
      MovingHead(oldNext, oldPrev, hashv, buckets, chains, hhNext, hhPrev, grown, moved, i);
      while thh != NULL
        invariant 0 <= k <= |chains[i]| && |grown| == |moved| == 2 * |buckets|
        invariant thh == if k < |chains[i]| then chains[i][k] else NULL
        invariant Moving(oldNext, oldPrev, hashv, buckets, chains, hhNext, hhPrev, grown, moved, i, k)
        invariant MultipliersFit(grown, idealChainMaxlen) && nonidealItems == TotalExcess(grown, idealChainMaxlen)
        decreases |chains[i]| - k
      {
        MoveOne(oldNext, oldPrev, hashv, buckets, chains, hhNext, hhPrev, grown, moved, i, k);
        var following := hhNext[thh];
        var b := hashv[thh] % |grown|;
        var bucket := grown[b];
        var mult := bucket.expandMult;
        if bucket.count + 1 > idealChainMaxlen {
          nonidealItems := nonidealItems + 1;
          mult := (bucket.count + 1) / idealChainMaxlen;
        }
        AnyMultiplier(oldNext, oldPrev, hashv, buckets, chains, hhNext, hhPrev, grown, moved, i, k, mult);
        hhPrev := hhPrev[thh := NULL];
        hhNext := hhNext[thh := bucket.head];
        if bucket.head != NULL { hhPrev := hhPrev[bucket.head := thh]; }
        ExcessOfPush(grown, b, Bucket(thh, bucket.count + 1, mult), idealChainMaxlen);
        grown := grown[b := Bucket(thh, bucket.count + 1, mult)];
        moved := moved[b := [thh] + moved[b]];
        thh := following;
        k := k + 1;
      }
    }

    // Build the doubled bucket array, chain by chain.
    method MoveAllChains() returns (grown: seq<Bucket>, ghost moved: seq<seq<Ref>>)
      requires ChainsOK(hhNext, hhPrev, hashv, buckets, chains) && idealChainMaxlen > 0
      modifies this`hhNext, this`hhPrev, this`nonidealItems
      ensures |grown| == |moved| == 2 * |buckets|
      ensures ChainsOK(hhNext, hhPrev, hashv, grown, moved)
      ensures SameMembers(chains, moved) && InHashChain(hashv, moved) && SplitBuckets(chains, moved)
      ensures MultipliersFit(grown, idealChainMaxlen) && nonidealItems == TotalExcess(grown, idealChainMaxlen)
    {
      hide ChainsOK, TotalExcess, Moving, SplitBuckets, SameMembers, InHashChain;
      BucketBounds(hhNext, hhPrev, hashv, buckets, chains);
      var n := |buckets|;
      ghost var oldNext, oldPrev := hhNext, hhPrev;
      grown := seq(2 * n, i => EMPTY_BUCKET);
      moved := seq(2 * n, i => []);
      nonidealItems := 0;
      NoExcess(grown, idealChainMaxlen);
      NothingMoved(oldNext, oldPrev, hashv, buckets, chains, grown, moved);
      var i := 0;
      while i < n
        invariant i <= n && |grown| == |moved| == 2 * n
        invariant Moving(oldNext, oldPrev, hashv, buckets, chains, hhNext, hhPrev, grown, moved, i, 0)
        invariant MultipliersFit(grown, idealChainMaxlen) && nonidealItems == TotalExcess(grown, idealChainMaxlen)
      {
        grown, moved := MoveChain(i, grown, moved, oldNext, oldPrev);
        MovedRow(oldNext, oldPrev, hashv, buckets, chains, hhNext, hhPrev, grown, moved, i);
        i := i + 1;
      }
      AllMoved(oldNext, oldPrev, hashv, buckets, chains, hhNext, hhPrev, grown, moved);
    }

    // After two expansions in a row that left most items in long chains, stop expanding.
    method GiveUpExpanding()
      modifies this`ineffExpands, this`noexpand
      ensures ineffExpands == if nonidealItems > numItems / 2 then old(ineffExpands) + 1 else 0
      ensures noexpand == (old(noexpand) || ineffExpands > 1)
    {
      ineffExpands := if nonidealItems > numItems / 2 then ineffExpands + 1 else 0;
      if ineffExpands > 1 { noexpand := true; }
    }

    // Double the number of buckets and move every element to the head of its new chain.  Each chain's multiplier
    // says how many times over it is longer than the ideal; the elements in excess of it are counted.
    method ExpandBuckets()
      requires Valid() && app != []
      modifies this`buckets, this`log2, this`hhNext, this`hhPrev, this`chains,
               this`idealChainMaxlen, this`nonidealItems, this`ineffExpands, this`noexpand
      ensures Valid() && |buckets| == 2 * |old(buckets)|
      ensures SplitBuckets(old(chains), chains)
      ensures idealChainMaxlen == Ideal(numItems, old(log2)) && MultipliersFit(buckets, idealChainMaxlen)
      ensures nonidealItems == TotalExcess(buckets, idealChainMaxlen)
      ensures ineffExpands == if nonidealItems > numItems / 2 then old(ineffExpands) + 1 else 0
      ensures noexpand == (old(noexpand) || ineffExpands > 1)
    {
      hide ChainsOK, Covered, HashesOK, Keyed, Linked, SplitBuckets, SameMembers, InHashChain, Pow2, Ideal,
           MultipliersFit, TotalExcess;
      assert AppOK() && Keyed(key, app);
      idealChainMaxlen := Ideal(numItems, log2);
      var grown;
      ghost var moved;
      grown, moved := MoveAllChains();
      StillCovered(hashv, |buckets|, app, chains, moved);
      Pow2Double(log2);
      buckets, chains, log2 := grown, moved, log2 + 1;
      GiveUpExpanding();
    }
  }

  // m is l in the order of cmp, with equal elements in their order in l: whatever positions increase along l,
  // every element of m belongs before all that follow it.
  ghost predicate StableSort(cmp: HashSort.Compare, l: seq<Ref>, m: seq<Ref>) {
    forall pos: Ref -> int | (forall i, j | 0 <= i < j < |l| :: pos(l[i]) < pos(l[j])) ::
      HashSort.StablySorted(cmp, pos, m)
  }

  lemma SortedNothing(cmp: HashSort.Compare, l: seq<Ref>)
    requires l == []
    ensures StableSort(cmp, l, l)
  {
  }

  lemma SortFacts(cmp: HashSort.Compare, l: seq<Ref>)
    ensures multiset(HashSort.Sorted(cmp, l)) == multiset(l) && |HashSort.Sorted(cmp, l)| == |l|
    ensures Elems(HashSort.Sorted(cmp, l)) == Elems(l)
    ensures HashSort.Ordering(cmp, Elems(l)) ==> StableSort(cmp, l, HashSort.Sorted(cmp, l))
  {
    if HashSort.Ordering(cmp, Elems(l)) {
      forall pos: Ref -> int | (forall i, j | 0 <= i < j < |l| :: pos(l[i]) < pos(l[j]))
        ensures HashSort.StablySorted(cmp, pos, HashSort.Sorted(cmp, l))
      {
        HashSort.SortIsStable(cmp, pos, l);
      }
    }
    HashSort.SortPermutes(cmp, l, 1);
    var m := HashSort.Sorted(cmp, l);
    assert |multiset(l)| == |l| && |multiset(m)| == |m|;
    SameElements(l, m);
    assert Elems(m) == Elems(l);
  }

  // Everything else about the table is as before with the sorted order.
  lemma SortKeeps<Key>(cmp: HashSort.Compare, next: Field, prev: Field, hash: Key -> nat, key: map<Ref, Key>, hashv: Hashes,
                       n: nat, l: seq<Ref>, chains: seq<seq<Ref>>)
    requires Linked(next, prev, HashSort.Sorted(cmp, l))
    requires Keyed(key, l) && Covered(hashv, n, l, chains) && HashesOK(hash, key, hashv, l)
    ensures var m := HashSort.Sorted(cmp, l);
            && multiset(m) == multiset(l) && |m| == |l| && Elems(m) == Elems(l)
            && (HashSort.Ordering(cmp, Elems(l)) ==> StableSort(cmp, l, m))
            && Keyed(key, m) && (KeysOK(key, l) ==> KeysOK(key, m) && Assoc(key, m) == Assoc(key, l))
            && Covered(hashv, n, m, chains) && HashesOK(hash, key, hashv, m)
  {
    hide Covered, HashesOK, Keyed, KeysOK, Assoc, Linked, Sublist, StableSort, Elems, HashSort.Ordering, HashSort.Sorted;
    var m := HashSort.Sorted(cmp, l);
    SortFacts(cmp, l);
    SameElements(l, m);
    HashSort.LinkedChain(next, prev, m);
    KeysReorder(key, l, m);
    if KeysOK(key, l) { AssocSame(key, l, m); }
    ReorderCovered(hash, key, hashv, n, l, m, chains);
  }

  lemma SameElements(l: seq<Ref>, m: seq<Ref>)
    requires multiset(l) == multiset(m)
    ensures Sublist(l, m) && Sublist(m, l)
  {
    forall i | 0 <= i < |l| ensures l[i] in m { assert l[i] in multiset(l); }
    forall i | 0 <= i < |m| ensures m[i] in l { assert m[i] in multiset(m); }
  }

  // Reordering distinct elements keeps keys distinct.
  lemma KeysReorder<Key>(key: map<Ref, Key>, l: seq<Ref>, m: seq<Ref>)
    requires Keyed(key, l) && Distinct(m) && Sublist(m, l)
    ensures Keyed(key, m) && (KeysOK(key, l) ==> KeysOK(key, m))
  {
  }

  lemma ReorderCovered<Key>(hash: Key -> nat, key: map<Ref, Key>, hashv: Hashes, n: nat, l: seq<Ref>, m: seq<Ref>,
                            chains: seq<seq<Ref>>)
    requires Covered(hashv, n, l, chains) && HashesOK(hash, key, hashv, l) && Sublist(m, l) && Sublist(l, m)
    ensures Covered(hashv, n, m, chains) && HashesOK(hash, key, hashv, m)
  {
  }

  // ----- The consistency check ----------------------------------------------------------------------------------

  // Following the forward links from `head` visits the elements of l and ends.
  ghost predicate ForwardList(next: Field, prev: Field, l: seq<Ref>, head: Ref) {
    && head == First(l) && NULL !in l
    && forall i | 0 <= i < |l| :: l[i] in next && l[i] in prev && next[l[i]] == After(l, i)
  }

  ghost predicate ChainConsistent(hhNext: Field, hhPrev: Field, bucket: Bucket, chain: seq<Ref>) {
    Linked(hhNext, hhPrev, chain) && bucket.count == |chain|
  }

  ghost predicate BackLinks(prev: Field, l: seq<Ref>, n: nat) {
    forall i | 0 <= i < |l| && i < n :: l[i] in prev && prev[l[i]] == Previous(l, i)
  }

  // A walk that ends cannot visit an element twice.
  lemma {:induction false} ForwardDistinct(next: Field, prev: Field, l: seq<Ref>, head: Ref, i: nat, j: nat)
    requires ForwardList(next, prev, l, head) && i < j < |l|
    ensures l[i] != l[j]
    decreases |l| - j
  {
    assert l[i + 1] in l;
    assert l[i] == l[j] ==> After(l, i) == After(l, j);
    if j + 1 < |l| { ForwardDistinct(next, prev, l, head, i + 1, j + 1); }
  }

  // Forward and back links together are what a well linked list is.
  lemma LinkedChecks(next: Field, prev: Field, l: seq<Ref>)
    ensures Linked(next, prev, l) <==> ForwardList(next, prev, l, First(l)) && BackLinks(prev, l, |l|)
  {
    if ForwardList(next, prev, l, First(l)) {
      forall i, j | 0 <= i < j < |l| ensures l[i] != l[j] {
        ForwardDistinct(next, prev, l, First(l), i, j);
      }
    }
  }

  lemma ForwardStep(next: Field, prev: Field, l: seq<Ref>, head: Ref, i: nat)
    requires ForwardList(next, prev, l, head) && i < |l|
    ensures l[i] in next && l[i] in prev && next[l[i]] == After(l, i) && l[i] != NULL
    ensures After(l, i) == NULL <==> i + 1 == |l|
    ensures BackLinks(prev, l, i + 1) <==> BackLinks(prev, l, i) && prev[l[i]] == Previous(l, i)
  {
  }

  // Walk a list and compare every back link with the element visited before.
  method CheckBackLinks(next: Field, prev: Field, head: Ref, ghost l: seq<Ref>) returns (ok: bool, count: nat)
    requires ForwardList(next, prev, l, head)
    ensures ok <==> Linked(next, prev, l)
    ensures count == |l|
  {
    LinkedChecks(next, prev, l);
    assert head == First(l) && (l != [] ==> l[0] in l);
    hide Linked, ForwardList, BackLinks;
    ok, count := true, 0;
    var before, thh := NULL, head;
    assert BackLinks(prev, l, 0) by { NoBackLinks(prev, l); }
    while thh != NULL
      invariant count <= |l| && (thh == NULL <==> count == |l|)
      invariant thh == (if count < |l| then l[count] else NULL)
      invariant before == if count == 0 then NULL else l[count - 1]
      invariant ok <==> BackLinks(prev, l, count)
      decreases |l| - count
    {
      ForwardStep(next, prev, l, head, count);
      ok := ok && prev[thh] == before;
      count := count + 1;
      before, thh := thh, next[thh];
    }
  }

  lemma NoBackLinks(prev: Field, l: seq<Ref>)
    ensures BackLinks(prev, l, 0)
  {
  }

  function SumCounts(buckets: seq<Bucket>): nat {
    if buckets == [] then 0 else SumCounts(buckets[..|buckets| - 1]) + buckets[|buckets| - 1].count
  }

  ghost function Members(chains: seq<seq<Ref>>): set<Ref> {
    if chains == [] then {} else Members(chains[..|chains| - 1]) + Elems(chains[|chains| - 1])
  }

  lemma {:induction false} MembersExact(chains: seq<seq<Ref>>, x: Ref)
    ensures x in Members(chains) <==> InChains(chains, x)
  {
    if chains != [] {
      var n := |chains| - 1;
      MembersExact(chains[..n], x);
      if InChains(chains[..n], x) { var b: nat :| b < n && x in chains[..n][b]; assert x in chains[b]; }
      if InChains(chains, x) { var b: nat :| b < |chains| && x in chains[b]; assert b < n ==> x in chains[..n][b]; }
    }
  }

  lemma LaterChainDisjoint(hhNext: Field, hhPrev: Field, hashv: Hashes, buckets: seq<Bucket>, chains: seq<seq<Ref>>, b: nat)
    requires ChainsOK(hhNext, hhPrev, hashv, buckets, chains) && b < |buckets|
    ensures Members(chains[..b]) !! Elems(chains[b])
  {
    hide ChainsOK;
    BucketBounds(hhNext, hhPrev, hashv, buckets, chains);
    forall x | x in Members(chains[..b]) ensures x !in Elems(chains[b]) {
      MembersExact(chains[..b], x);
      var c: nat :| c < |chains[..b]| && x in chains[..b][c];
      ChainsDisjoint(hhNext, hhPrev, hashv, buckets, chains, c, b, x);
    }
  }

  // The counts of the first k buckets add up to the number of elements in their chains.
  lemma {:induction false} CountsOfChains(hhNext: Field, hhPrev: Field, hashv: Hashes, buckets: seq<Bucket>,
                                          chains: seq<seq<Ref>>, k: nat)
    requires ChainsOK(hhNext, hhPrev, hashv, buckets, chains) && k <= |buckets| && |chains| == |buckets|
    ensures |Members(chains[..k])| == SumCounts(buckets[..k])
    decreases k
  {
    hide ChainsOK, Elems, Linked;
    if k > 0 {
      var b := k - 1;
      CountsOfChains(hhNext, hhPrev, hashv, buckets, chains, b);
      LaterChainDisjoint(hhNext, hhPrev, hashv, buckets, chains, b);
      ChainSize(hhNext, hhPrev, hashv, buckets, chains, b);
      assert chains[..k][..b] == chains[..b] && buckets[..k][..b] == buckets[..b];
      assert Members(chains[..k]) == Members(chains[..b]) + Elems(chains[b]);
    }
  }

  lemma ChainSize(hhNext: Field, hhPrev: Field, hashv: Hashes, buckets: seq<Bucket>, chains: seq<seq<Ref>>, b: nat)
    requires ChainsOK(hhNext, hhPrev, hashv, buckets, chains) && b < |buckets|
    ensures |Elems(chains[b])| == buckets[b].count
  {
    assert ChainOK(hhNext, hhPrev, hashv, |buckets|, buckets[b], chains[b], b);
    ElemsSize(chains[b]);
  }

  // A bucket counts the elements whose hash values select it.
  lemma CountsSelected<Key>(hhNext: Field, hhPrev: Field, hashv: Hashes, buckets: seq<Bucket>, chains: seq<seq<Ref>>,
                            app: seq<Ref>, hash: Key -> nat, key: map<Ref, Key>, b: nat)
    requires ChainsOK(hhNext, hhPrev, hashv, buckets, chains) && Covered(hashv, |buckets|, app, chains)
    requires HashesOK(hash, key, hashv, app) && b < |buckets|
    ensures |SelectedBy(hash, key, app, |buckets|, b)| == buckets[b].count
  {
    ChainSize(hhNext, hhPrev, hashv, buckets, chains, b);
    var selected := SelectedBy(hash, key, app, |buckets|, b);
    hide Linked;
    forall x ensures x in selected <==> x in chains[b] {
      if x in app { var i :| 0 <= i < |app| && app[i] == x; }
      if x in chains[b] {
        assert InChains(chains, x);
        ChainOfElement(hhNext, hhPrev, hashv, buckets, chains, b, x);
      } else if x in selected {
        CoveredMember(hashv, |buckets|, app, chains, x);
      }
    }
    assert selected == Elems(chains[b]);
  }

  // The bucket counts of a sound table add up to the number of items.
  lemma CountsAddUp(hhNext: Field, hhPrev: Field, hashv: Hashes, buckets: seq<Bucket>, chains: seq<seq<Ref>>, app: seq<Ref>)
    requires ChainsOK(hhNext, hhPrev, hashv, buckets, chains) && Covered(hashv, |buckets|, app, chains) && Distinct(app)
    ensures SumCounts(buckets) == |app|
  {
    hide ChainsOK, Members, SumCounts;
    var n := |buckets|;
    CountsOfChains(hhNext, hhPrev, hashv, buckets, chains, n);
    assert chains[..n] == chains && buckets[..n] == buckets;
    ElemsSize(app);
    forall x ensures x in Members(chains) <==> x in Elems(app) { 
      MembersExact(chains, x);
      if x in app {
        var i :| 0 <= i < |app| && app[i] == x;
        assert x in chains[hashv[app[i]] % n];
      }
    }
    assert Members(chains) == Elems(app);
  }

  lemma BucketBounds(hhNext: Field, hhPrev: Field, hashv: Hashes, buckets: seq<Bucket>, chains: seq<seq<Ref>>)
    requires ChainsOK(hhNext, hhPrev, hashv, buckets, chains)
    ensures |chains| == |buckets| > 0
  {
  }

  lemma LinkedOne(next: Field, prev: Field, app: seq<Ref>, x: Ref)
    requires app == [] && x != NULL && x in next && next[x] == NULL && x in prev && prev[x] == NULL
    ensures Linked(next, prev, app + [x]) && First(app + [x]) == x
  {
  }

  lemma HashesIgnore<Key>(hash: Key -> nat, key: map<Ref, Key>, hashv: Hashes, app: seq<Ref>, x: Ref, k: Key)
    requires x !in app
    ensures HashesOK(hash, key, hashv, app) ==> HashesOK(hash, key[x := k], hashv, app)
  {
  }

  // Storing the hash value of a new element disturbs neither the chains nor what they cover.
  lemma HashEntry<Key>(hhNext: Field, hhPrev: Field, hashv: Hashes, buckets: seq<Bucket>, chains: seq<seq<Ref>>,
                       app: seq<Ref>, hash: Key -> nat, key: map<Ref, Key>, x: Ref)
    requires ChainsOK(hhNext, hhPrev, hashv, buckets, chains) && Covered(hashv, |buckets|, app, chains)
    requires HashesOK(hash, key, hashv, app) && x in key && x !in app
    ensures var hashv' := hashv[x := hash(key[x])];
            && ChainsOK(hhNext, hhPrev, hashv', buckets, chains) && Covered(hashv', |buckets|, app, chains)
            && HashesOK(hash, key, hashv', app + [x]) && !InChains(chains, x)
  {
  }

  lemma KeyedExtend<Key>(key: map<Ref, Key>, app: seq<Ref>, x: Ref, k: Key)
    requires Keyed(key, app)
    ensures Keyed(key[x := k], app + [x])
  {
  }

  lemma KeyedRemove<Key>(key: map<Ref, Key>, app: seq<Ref>, i: nat)
    requires Keyed(key, app) && i < |app|
    ensures Keyed(key, RemoveAt(app, i))
  {
  }

  lemma KeysExtend<Key>(key: map<Ref, Key>, app: seq<Ref>, x: Ref, k: Key)
    requires KeysOK(key, app) && x !in app && k !in Assoc(key, app)
    ensures KeysOK(key[x := k], app + [x])
    ensures Assoc(key[x := k], app + [x]) == Assoc(key, app)[k := x]
  {
    AssocExact(key, app);
    var m := app + [x];
    assert forall i | 0 <= i < |app| :: app[i] in app;
    forall i, j | 0 <= i < j < |m| ensures key[x := k][m[i]] != key[x := k][m[j]] {}
    assert m[..|app|] == app;
    AssocIgnores(key, key[x := k], app);
  }

  lemma {:induction false} AssocIgnores<Key>(key: map<Ref, Key>, key': map<Ref, Key>, app: seq<Ref>)
    requires forall i | 0 <= i < |app| :: app[i] in key && app[i] in key' && key'[app[i]] == key[app[i]]
    ensures Assoc(key, app) == Assoc(key', app)
  {
    if app != [] { AssocIgnores(key, key', app[..|app| - 1]); }
  }

  lemma PushedMembers(chains: seq<seq<Ref>>, b: nat, x: Ref)
    requires b < |chains|
    ensures forall y :: InChains(chains[b := [x] + chains[b]], y) <==> y == x || InChains(chains, y)
  {
    var cs := chains[b := [x] + chains[b]];
    assert x in cs[b];
    forall y ensures InChains(cs, y) <==> y == x || InChains(chains, y) {
      if InChains(chains, y) { var c: nat :| c < |chains| && y in chains[c]; assert y in cs[c]; }
      if InChains(cs, y) && y != x { var c: nat :| c < |cs| && y in cs[c]; assert y in chains[c]; }
    }
  }

  lemma ElementLinks(next: Field, prev: Field, l: seq<Ref>, i: nat)
    requires Linked(next, prev, l) && i < |l|
    ensures l[i] in next && l[i] in prev && next[l[i]] == After(l, i) && prev[l[i]] == Previous(l, i) && l[i] != NULL
    ensures Distinct(l)
    ensures After(l, i) == NULL <==> i + 1 == |l|
    ensures Previous(l, i) == NULL <==> i == 0
  {
  }

  lemma ElementsNotNull(next: Field, prev: Field, l: seq<Ref>)
    requires Linked(next, prev, l)
    ensures forall i | 0 <= i < |l| :: l[i] != NULL
  {
  }

  lemma RemoveEnds(l: seq<Ref>, i: nat)
    requires i < |l| && |l| > 1
    ensures RemoveAt(l, i) != []
    ensures First(RemoveAt(l, i)) == if i == 0 then After(l, i) else First(l)
    ensures LastOf(RemoveAt(l, i)) == if i + 1 == |l| then Previous(l, i) else LastOf(l)
  {
  }

  lemma OnlyElement(next: Field, prev: Field, l: seq<Ref>, i: nat)
    requires |l| == 1 && i < |l|
    ensures RemoveAt(l, i) == [] && Linked(next, prev, RemoveAt(l, i))
  {
  }

  lemma HashesRemove<Key>(hash: Key -> nat, key: map<Ref, Key>, hashv: Hashes, app: seq<Ref>, i: nat)
    requires HashesOK(hash, key, hashv, app) && i < |app|
    ensures HashesOK(hash, key, hashv, RemoveAt(app, i))
  {
  }

  // ----- Bucket expansion -------------------------------------------------------------------------------------

  lemma Pow2Double(n: nat)
    ensures Pow2(n + 1) == 2 * Pow2(n)
  {
  }

  // The ideal chain length after doubling: the item count over the new bucket count, rounded up.
  function Ideal(items: nat, log2: nat): (r: nat)
    requires items > 0
    ensures r > 0
  {
    var n := Pow2(log2 + 1);
    assert items == (items / n) * n + items % n;
    items / n + if items % n != 0 then 1 else 0
  }

  lemma IdealIsCeiling(items: nat, log2: nat)
    requires items > 0
    ensures items <= Ideal(items, log2) * Pow2(log2 + 1) < items + Pow2(log2 + 1)
  {
    var n := Pow2(log2 + 1);
    assert items == (items / n) * n + items % n;
    assert (items / n + 1) * n == (items / n) * n + n;
  }

  // x was in bucket b, or in the one half the new size below it.
  ghost predicate InOldBucket(chains: seq<seq<Ref>>, b: nat, x: Ref) {
    (b < |chains| && x in chains[b]) || (|chains| <= b < 2 * |chains| && x in chains[b - |chains|])
  }

  ghost predicate SplitBuckets(chains: seq<seq<Ref>>, moved: seq<seq<Ref>>) {
    forall b: nat, x | b < |moved| && x in moved[b] :: InOldBucket(chains, b, x)
  }

  ghost predicate SameMembers(chains: seq<seq<Ref>>, moved: seq<seq<Ref>>) {
    forall x :: InChains(moved, x) <==> InChains(chains, x)
  }

  // Every element is in the chain its hash value selects.
  ghost predicate InHashChain(hashv: Hashes, chains: seq<seq<Ref>>) {
    forall b: nat, x | b < |chains| && x in chains[b] :: x in hashv && hashv[x] % |chains| == b
  }

  // x is in a chain before chain i, or among the first k of chain i.
  ghost predicate InPrefix(chains: seq<seq<Ref>>, i: nat, k: nat, x: Ref) {
    || (exists b: nat :: b < i && b < |chains| && x in chains[b])
    || (i < |chains| && k <= |chains[i]| && x in chains[i][..k])
  }

  ghost predicate MovedUpTo(chains: seq<seq<Ref>>, moved: seq<seq<Ref>>, i: nat, k: nat) {
    forall x :: InChains(moved, x) <==> InPrefix(chains, i, k, x)
  }

  // Elements still to be moved have their old successor.
  ghost predicate Unmoved(oldNext: Field, hhNext: Field, chains: seq<seq<Ref>>, moved: seq<seq<Ref>>) {
    forall x | InChains(chains, x) && !InChains(moved, x) :: x in hhNext && x in oldNext && hhNext[x] == oldNext[x]
  }

  // The state of the expansion: the first i chains and k elements of the next have been moved.
  ghost predicate Moving(oldNext: Field, oldPrev: Field, hashv: Hashes, buckets: seq<Bucket>, chains: seq<seq<Ref>>,
                         hhNext: Field, hhPrev: Field, grown: seq<Bucket>, moved: seq<seq<Ref>>, i: nat, k: nat) {
    && ChainsOK(oldNext, oldPrev, hashv, buckets, chains) && |grown| == 2 * |buckets|
    && ChainsOK(hhNext, hhPrev, hashv, grown, moved)
    && MovedUpTo(chains, moved, i, k)
    && Unmoved(oldNext, hhNext, chains, moved)
  }

  lemma MovingHead(oldNext: Field, oldPrev: Field, hashv: Hashes, buckets: seq<Bucket>, chains: seq<seq<Ref>>,
                   hhNext: Field, hhPrev: Field, grown: seq<Bucket>, moved: seq<seq<Ref>>, i: nat)
    requires Moving(oldNext, oldPrev, hashv, buckets, chains, hhNext, hhPrev, grown, moved, i, 0) && i < |buckets|
    ensures |chains| == |buckets| && buckets[i].head == First(chains[i])
    ensures forall k | 0 <= k < |chains[i]| :: chains[i][k] != NULL
  {
  }

  lemma NothingMoved(hhNext: Field, hhPrev: Field, hashv: Hashes, buckets: seq<Bucket>, chains: seq<seq<Ref>>,
                     grown: seq<Bucket>, moved: seq<seq<Ref>>)
    requires ChainsOK(hhNext, hhPrev, hashv, buckets, chains)
    requires |grown| == |moved| == 2 * |buckets|
    requires forall b | 0 <= b < |grown| :: grown[b] == EMPTY_BUCKET && moved[b] == []
    ensures Moving(hhNext, hhPrev, hashv, buckets, chains, hhNext, hhPrev, grown, moved, 0, 0)
  {
  }

  // The next element can be moved: its successor is still known, and it is in no new chain.
  lemma MoveOne(oldNext: Field, oldPrev: Field, hashv: Hashes, buckets: seq<Bucket>, chains: seq<seq<Ref>>,
                hhNext: Field, hhPrev: Field, grown: seq<Bucket>, moved: seq<seq<Ref>>, i: nat, k: nat)
    requires Moving(oldNext, oldPrev, hashv, buckets, chains, hhNext, hhPrev, grown, moved, i, k)
    requires i < |chains| && k < |chains[i]|
    ensures var x := chains[i][k];
            && x in hashv && x in hhNext && hhNext[x] == After(chains[i], k) && x != NULL
            && InChains(chains, x) && !InChains(moved, x) && |buckets| > 0 && |moved| == |grown|
            && (After(chains[i], k) == NULL <==> k + 1 == |chains[i]|)
  {
  }

  // Moving it to the head of its new chain keeps the state, whatever the new bucket's expansion multiplier.
  lemma AnyMultiplier(oldNext: Field, oldPrev: Field, hashv: Hashes, buckets: seq<Bucket>, chains: seq<seq<Ref>>,
                      hhNext: Field, hhPrev: Field, grown: seq<Bucket>, moved: seq<seq<Ref>>, i: nat, k: nat, mult: nat)
    requires Moving(oldNext, oldPrev, hashv, buckets, chains, hhNext, hhPrev, grown, moved, i, k)
    requires i < |chains| && k < |chains[i]| && chains[i][k] in hashv && |grown| > 0 && |moved| == |grown|
    ensures var x := chains[i][k];
            var b := hashv[x] % |grown|;
            var h := grown[b].head;
            Moving(oldNext, oldPrev, hashv, buckets, chains, hhNext[x := h],
                   if h != NULL then hhPrev[x := NULL][h := x] else hhPrev[x := NULL],
                   grown[b := Bucket(x, grown[b].count + 1, mult)], moved[b := [x] + moved[b]], i, k + 1)
  {
    hide ChainsOK;
    MoveOne(oldNext, oldPrev, hashv, buckets, chains, hhNext, hhPrev, grown, moved, i, k);
    var x := chains[i][k];
    var b := hashv[x] % |grown|;
    ChainsPush(hhNext, hhPrev, hashv, grown, moved, b, x, mult);
    PushedMembers(moved, b, x);
    var moved' := moved[b := [x] + moved[b]];
    assert MovedUpTo(chains, moved', i, k + 1) by {
      assert chains[i][..k + 1] == chains[i][..k] + [x];
      forall y ensures InChains(moved', y) <==> InPrefix(chains, i, k + 1, y) {
        assert InChains(moved, y) <==> InPrefix(chains, i, k, y);
        assert InPrefix(chains, i, k + 1, y) <==> y == x || InPrefix(chains, i, k, y);
      }
    }
    assert Unmoved(oldNext, hhNext[x := grown[b].head], chains, moved');
  }

  lemma MovedRow(oldNext: Field, oldPrev: Field, hashv: Hashes, buckets: seq<Bucket>, chains: seq<seq<Ref>>,
                 hhNext: Field, hhPrev: Field, grown: seq<Bucket>, moved: seq<seq<Ref>>, i: nat)
    requires i < |chains|
    requires Moving(oldNext, oldPrev, hashv, buckets, chains, hhNext, hhPrev, grown, moved, i, |chains[i]|)
    ensures Moving(oldNext, oldPrev, hashv, buckets, chains, hhNext, hhPrev, grown, moved, i + 1, 0)
  {
  }

  // After the last chain the new chains hold the same elements; each is in the bucket it was in or the one n above.
  lemma AllMoved(oldNext: Field, oldPrev: Field, hashv: Hashes, buckets: seq<Bucket>, chains: seq<seq<Ref>>,
                 hhNext: Field, hhPrev: Field, grown: seq<Bucket>, moved: seq<seq<Ref>>)
    requires |chains| == |buckets|
    requires Moving(oldNext, oldPrev, hashv, buckets, chains, hhNext, hhPrev, grown, moved, |buckets|, 0)
    ensures ChainsOK(hhNext, hhPrev, hashv, grown, moved) && |moved| == |grown| == 2 * |buckets|
    ensures SameMembers(chains, moved) && InHashChain(hashv, moved) && SplitBuckets(chains, moved)
  {
    hide ChainOK, Unmoved;
    forall x ensures InChains(moved, x) <==> InChains(chains, x) {
      assert InChains(moved, x) <==> InPrefix(chains, |chains|, 0, x);
    }
    forall b: nat, x | b < |moved| && x in moved[b]
      ensures x in hashv && hashv[x] % |grown| == b && InOldBucket(chains, b, x)
    {
      ChainOfElement(hhNext, hhPrev, hashv, grown, moved, b, x);
      assert InChains(moved, x);
      var c: nat :| c < |chains| && x in chains[c];
      ChainOfElement(oldNext, oldPrev, hashv, buckets, chains, c, x);
      DoubledBucket(hashv[x], |buckets|, |grown|);
      assert BucketOf(hashv[x], |grown|) == b && BucketOf(hashv[x], |buckets|) == c;
    }
  }

  lemma StillCovered(hashv: Hashes, n: nat, app: seq<Ref>, chains: seq<seq<Ref>>, moved: seq<seq<Ref>>)
    requires Covered(hashv, n, app, chains) && |moved| == 2 * n
    requires SameMembers(chains, moved) && InHashChain(hashv, moved)
    ensures Covered(hashv, 2 * n, app, moved)
  {
    forall i | 0 <= i < |app| ensures app[i] in hashv && app[i] in moved[hashv[app[i]] % (2 * n)] {
      assert app[i] in chains[hashv[app[i]] % n];
      assert InChains(chains, app[i]);
      var b: nat :| b < |moved| && app[i] in moved[b];
    }
  }
}
