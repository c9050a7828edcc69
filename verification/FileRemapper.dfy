/**
 The file remapper: a forward map from original files to their replacements, and an inverse map for
 replacements that are files themselves.
 */
module FileRemapper {
  import opened Collections

  // Files are told apart by identity; so are memory buffers, of which each is handed over once.
  type FileEntry = nat
  type BufferId = nat

  datatype Target = Buffer(buffer: BufferId) | File(file: FileEntry)

  // installed and deleted are history: the buffers handed over so far, and how often each was deleted.
  datatype State = State(
    fromTo: map<FileEntry, Target>,
    toFrom: map<FileEntry, FileEntry>,
    installed: set<BufferId>,
    deleted: multiset<BufferId>)

  const EMPTY := State(map[], map[], {}, multiset{})

  // Give up the present target of f: delete a buffer, forget the inverse entry of a file.
  function Reset(s: State, f: FileEntry): State {
    if f !in s.fromTo then s else
    match s.fromTo[f]
    case Buffer(b) => s.(deleted := s.deleted + multiset{b})
    case File(n) => s.(toFrom := s.toFrom - {n})
  }

  function RemapToBuffer(s: State, f: FileEntry, b: BufferId): State {
    var r := Reset(s, f);
    r.(fromTo := r.fromTo[f := Buffer(b)], installed := r.installed + {b})
  }

  function RemapToFile(s: State, f: FileEntry, n: FileEntry): State {
    var r := Reset(s, f);
    r.(fromTo := r.fromTo[f := File(n)], toFrom := r.toFrom[n := f])
  }

  datatype Op = ToBuffer(f: FileEntry, b: BufferId) | ToFile(f: FileEntry, n: FileEntry)

  // A buffer can be handed over only once.
  predicate Allowed(s: State, op: Op) { op.ToBuffer? ==> op.b !in s.installed }

  function Apply(s: State, op: Op): State {
    match op
    case ToBuffer(f, b) => RemapToBuffer(s, f, b)
    case ToFile(f, n) => RemapToFile(s, f, n)
  }

  // The state after a sequence of remaps, if all are allowed.
  function Run(s: State, ops: seq<Op>): Option<State>
    decreases |ops|
  {
    if ops == [] then Some(s)
    else if !Allowed(s, ops[0]) then None
    else Run(Apply(s, ops[0]), ops[1..])
  }

  // ----- Invariants ----------------------------------------------------------------------------------

  // An inverse entry always points back along a forward entry.
  ghost predicate InverseSound(s: State) {
    forall n | n in s.toFrom :: s.toFrom[n] in s.fromTo && s.fromTo[s.toFrom[n]] == File(n)
  }

  // Every forward entry to a file has its inverse entry.
  ghost predicate InverseComplete(s: State) {
    forall f | f in s.fromTo && s.fromTo[f].File? ::
      s.fromTo[f].file in s.toFrom && s.toFrom[s.fromTo[f].file] == f
  }

  ghost predicate Targets(s: State, f: FileEntry, b: BufferId) { f in s.fromTo && s.fromTo[f] == Buffer(b) }

  // A buffer handed over is the target of exactly one file, or has been deleted exactly once.
  ghost predicate BufferOK(s: State, b: BufferId) {
    if b !in s.installed then
      s.deleted[b] == 0 && forall f :: !Targets(s, f, b)
    else if s.deleted[b] == 0 then
      exists f :: Targets(s, f, b) && forall g | Targets(s, g, b) :: g == f
    else
      s.deleted[b] == 1 && forall f :: !Targets(s, f, b)
  }

  ghost predicate Inv(s: State) {
    InverseSound(s) && forall b :: BufferOK(s, b)
  }

  lemma ToBufferKeepsInv(s: State, f: FileEntry, b: BufferId)
    requires Inv(s) && b !in s.installed
    ensures Inv(RemapToBuffer(s, f, b))
  {
    var s' := RemapToBuffer(s, f, b);
    forall n | n in s'.toFrom ensures s'.toFrom[n] in s'.fromTo && s'.fromTo[s'.toFrom[n]] == File(n) {
      assert s.fromTo[s.toFrom[n]] == File(n);
    }
    forall c ensures BufferOK(s', c) {
      assert BufferOK(s, c);
      if c == b { NewBuffer(s, f, b); } else { BufferElsewhere(s, s', f, c); }
    }
  }

  lemma NewBuffer(s: State, f: FileEntry, b: BufferId)
    requires BufferOK(s, b) && b !in s.installed
    ensures BufferOK(RemapToBuffer(s, f, b), b)
  {
    var s' := RemapToBuffer(s, f, b);
    assert !Targets(s, f, b);
    assert s'.deleted[b] == 0;
    assert Targets(s', f, b);
    assert forall g | Targets(s', g, b) :: g == f || Targets(s, g, b);
  }

  lemma ToFileKeepsInv(s: State, f: FileEntry, n: FileEntry)
    requires Inv(s)
    ensures Inv(RemapToFile(s, f, n))
  {
    var s' := RemapToFile(s, f, n);
    forall m | m in s'.toFrom ensures s'.toFrom[m] in s'.fromTo && s'.fromTo[s'.toFrom[m]] == File(m) {
      if m != n { assert s.fromTo[s.toFrom[m]] == File(m); }
    }
    forall c ensures BufferOK(s', c) {
      assert BufferOK(s, c);
      BufferElsewhere(s, s', f, c);
    }
  }

  // Giving f a new target other than c deletes c if it was f's target, and otherwise leaves it alone.
  lemma BufferElsewhere(s: State, s': State, f: FileEntry, c: BufferId)
    requires BufferOK(s, c) && s'.deleted == Reset(s, f).deleted
    requires c in s'.installed <==> c in s.installed
    requires f in s'.fromTo && s'.fromTo == s.fromTo[f := s'.fromTo[f]] && s'.fromTo[f] != Buffer(c)
    ensures BufferOK(s', c)
  {
    forall g ensures Targets(s', g, c) <==> g != f && Targets(s, g, c) {}
    if Targets(s, f, c) {
      assert s.deleted[c] == 0 && s'.deleted[c] == 1;
    } else {
      assert s'.deleted[c] == s.deleted[c];
      SameTargets(s, s', c);
    }
  }

  lemma SameTargets(s: State, s': State, c: BufferId)
    requires BufferOK(s, c) && s'.deleted[c] == s.deleted[c] && (c in s'.installed <==> c in s.installed)
    requires forall g :: Targets(s', g, c) <==> Targets(s, g, c)
    ensures BufferOK(s', c)
  {
  }

  // Under any sequence of remaps the inverse map stays sound and every buffer is accounted for.
  lemma {:induction false} RunKeepsInv(s: State, ops: seq<Op>)
    requires Inv(s) && Run(s, ops).Some?
    ensures Inv(Run(s, ops).value)
    decreases |ops|
  {
    if ops != [] {
      match ops[0]
      case ToBuffer(f, b) => ToBufferKeepsInv(s, f, b); RunKeepsInv(Apply(s, ops[0]), ops[1..]);
      case ToFile(f, n) => ToFileKeepsInv(s, f, n); RunKeepsInv(Apply(s, ops[0]), ops[1..]);
    }
  }

  lemma EmptyInv()
    ensures Inv(EMPTY) && InverseComplete(EMPTY)
  {
  }

  // The inverse map is not complete in general: two originals may be replaced by one file.
  lemma SharedReplacementLosesInverse(f: FileEntry, g: FileEntry, n: FileEntry)
    requires f != g
    ensures var r := Run(EMPTY, [ToFile(f, n), ToFile(g, n)]);
            r.Some? && !InverseComplete(r.value)
  {
    var ops := [ToFile(f, n), ToFile(g, n)];
    var s1 := Apply(EMPTY, ops[0]);
    assert ops[1..] == [ToFile(g, n)];
    assert ops[1..][1..] == [];
    var s2 := Apply(s1, ToFile(g, n));
    assert Run(s2, []) == Some(s2);
    assert Run(s1, ops[1..]) == Some(s2);
    assert Run(EMPTY, ops) == Some(s2);
    assert s2.fromTo[f] == File(n);
  }

  // It stays complete exactly as long as a remap does not name a file that already replaces another original.
  lemma CompleteUnlessShared(s: State, f: FileEntry, n: FileEntry)
    requires Inv(s) && InverseComplete(s)
    ensures InverseComplete(RemapToFile(s, f, n)) <==> !exists g :: g != f && g in s.fromTo && s.fromTo[g] == File(n)
  {
    var s' := RemapToFile(s, f, n);
    if g :| g != f && g in s.fromTo && s.fromTo[g] == File(n) {
      assert s'.fromTo[g] == File(n);
    } else {
      forall h | h in s'.fromTo && s'.fromTo[h].File?
        ensures s'.fromTo[h].file in s'.toFrom && s'.toFrom[s'.fromTo[h].file] == h
      {
        if h != f {
          var m := s.fromTo[h].file;
          assert s.toFrom[m] == h;
          assert m != n;
          assert f in s.fromTo && s.fromTo[f].File? ==> s.toFrom[s.fromTo[f].file] == f;
        }
      }
    }
  }

  // ----- The remapper in place ---------------------------------------------------------------------------

  class FileRemapper {
    var fromTo: map<FileEntry, Target>
    var toFrom: map<FileEntry, FileEntry>
    ghost var installed: set<BufferId>
    ghost var deleted: multiset<BufferId>

    ghost function S(): State
      reads this
    {
      State(fromTo, toFrom, installed, deleted)
    }

    ghost predicate Valid()
      reads this
    {
      Inv(S())
    }

    constructor ()
      ensures Valid() && S() == EMPTY
    {
      fromTo, toFrom, installed, deleted := map[], map[], {}, multiset{};
      new;
      EmptyInv();
    }

    method ResetTarget(t: Target)
      modifies this`toFrom, this`deleted
      ensures deleted == old(deleted) + (if t.Buffer? then multiset{t.buffer} else multiset{})
      ensures toFrom == if t.File? then old(toFrom) - {t.file} else old(toFrom)
    {
      match t
      case Buffer(b) => deleted := deleted + multiset{b};
      case File(n) => toFrom := toFrom - {n};
    }

    method RemapBuffer(f: FileEntry, b: BufferId)
      requires Valid() && b !in installed
      modifies this
      ensures Valid() && S() == RemapToBuffer(old(S()), f, b)
    {
      hide Inv;
      ghost var before := S();
      ToBufferKeepsInv(before, f, b);
      if f in fromTo { ResetTarget(fromTo[f]); }
      fromTo := fromTo[f := Buffer(b)];
      installed := installed + {b};
      assert S() == RemapToBuffer(before, f, b);
    }

    method RemapFile(f: FileEntry, n: FileEntry)
      requires Valid()
      modifies this
      ensures Valid() && S() == RemapToFile(old(S()), f, n)
    {
      hide Inv;
      ghost var before := S();
      ToFileKeepsInv(before, f, n);
      if f in fromTo { ResetTarget(fromTo[f]); }
      fromTo := fromTo[f := File(n)];
      toFrom := toFrom[n := f];
      assert S() == RemapToFile(before, f, n);
    }

    // The file to update for a path that resolves to `found`: the original, if the path is a replacement.
    // An original looked up in the inverse map always has a forward entry.
    method GetOriginalFile(found: Option<FileEntry>) returns (file: Option<FileEntry>)
      requires Valid()
      ensures found == None ==> file == None
      ensures found.Some? && found.value !in toFrom ==> file == found
      ensures found.Some? && found.value in toFrom ==>
                file.Some? && file.value in fromTo && fromTo[file.value] == File(found.value)
    {
      file := found;
      if found.Some? && found.value in toFrom {
        file := Some(toFrom[found.value]);
        assert file.value in fromTo;
      }
    }

    // Reset every target.  Afterwards both maps are empty and every buffer ever handed over was deleted once.
    method Clear()
      requires Valid()
      modifies this
      ensures Valid() && fromTo == map[] && toFrom == map[] && installed == old(installed)
      ensures forall b | b in installed :: deleted[b] == 1
    {
      hide BufferOK, HalfCleared;
      ghost var s := S();
      var todo := fromTo.Keys;
      NothingCleared(s);
      while todo != {}
        invariant todo <= fromTo.Keys && fromTo == s.fromTo && installed == s.installed
        invariant forall n | n in toFrom :: n in s.toFrom && toFrom[n] == s.toFrom[n] && toFrom[n] in todo
        invariant HalfCleared(s, todo, deleted)
        decreases todo
      {
        var f :| f in todo;
        ghost var d := deleted;
        ResetTarget(fromTo[f]);
        ClearedOne(s, todo, d, deleted, f);
        todo := todo - {f};
        forall n | n in toFrom ensures toFrom[n] in todo {
          assert s.fromTo[s.toFrom[n]] == File(n);
        }
      }
      assert toFrom == map[];
      fromTo := map[];
      AllCleared(s, S());
    }
  }

  // While clearing: a buffer counts as deleted once its file is no longer among those left to do.
  ghost predicate HalfCleared(s: State, todo: set<FileEntry>, deleted: multiset<BufferId>) {
    forall b :: deleted[b] == s.deleted[b] + if Cleared(s, todo, b) then 1 else 0
  }

  ghost predicate Cleared(s: State, todo: set<FileEntry>, b: BufferId) {
    exists f :: f !in todo && Targets(s, f, b)
  }

  lemma NothingCleared(s: State)
    ensures HalfCleared(s, s.fromTo.Keys, s.deleted)
  {
  }

  lemma ClearedOne(s: State, todo: set<FileEntry>, d: multiset<BufferId>, d': multiset<BufferId>, f: FileEntry)
    requires Inv(s) && HalfCleared(s, todo, d) && f in todo && f in s.fromTo
    requires d' == d + if s.fromTo[f].Buffer? then multiset{s.fromTo[f].buffer} else multiset{}
    ensures HalfCleared(s, todo - {f}, d')
  {
    forall b ensures d'[b] == s.deleted[b] + if Cleared(s, todo - {f}, b) then 1 else 0 {
      if Targets(s, f, b) {
        assert BufferOK(s, b);
        assert f !in todo - {f};
        assert !Cleared(s, todo, b);
      } else {
        assert Cleared(s, todo - {f}, b) <==> Cleared(s, todo, b);
      }
    }
  }

  lemma AllCleared(s: State, s': State)
    requires Inv(s) && HalfCleared(s, {}, s'.deleted)
    requires s'.fromTo == map[] && s'.toFrom == map[] && s'.installed == s.installed
    ensures Inv(s') && forall b | b in s'.installed :: s'.deleted[b] == 1
  {
    forall b ensures BufferOK(s', b) && (b in s'.installed ==> s'.deleted[b] == 1) {
      assert BufferOK(s, b);
      if f :| Targets(s, f, b) { assert Cleared(s, {}, b); }
    }
  }
}
