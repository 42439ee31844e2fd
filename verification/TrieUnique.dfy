/** A canonical tree is the only one for its map, so a trie does not remember how it was built. */
module TrieUnique {
  import opened Base
  import opened TrieModel
  import opened TrieDelete

  ghost predicate SameMap(s: Tree, t: Tree) {
    forall q :: Lookup(s, q) == Lookup(t, q)
  }

  /** A branch holds a key that does not start with the given nibble. */
  lemma {:induction false} KeyElsewhere(t: Tree, n: Nibble) returns (q: Key)
    requires Canonical(t) && t.Branch?
    ensures Lookup(t, q) != [] && (q == [] || q[0] != n)
  {
    if t.value != [] {
      return [];
    }
    var i :| i != n as int && NonEmpty(t.children, i);
    var r := SomeKey(t.children[i]);
    q := [i] + r;
    assert q[1..] == r;
  }

  lemma {:induction false} KeyThrough(t: Tree, p: Key) returns (q: Key)
    requires t.Extension? && Canonical(t) && p < t.key
    ensures Lookup(t, q) != [] && p < q && q[|p|] == t.key[|p|]
  {
    var r := SomeKey(t.child);
    q := t.key + r;
    assert q[|t.key|..] == r;
  }

  lemma {:induction false} LeafVersusInner(s: Tree, t: Tree)
    requires Canonical(s) && Canonical(t) && s.Leaf? && (t.Extension? || t.Branch?)
    ensures !SameMap(s, t)
  {
    if t.Branch? {
      var q := SomeKey(t);
      if s.key != [] {
        q := KeyElsewhere(t, s.key[0]);
      }
      assert Lookup(s, q) == [];
    } else {
      var b := t.child;
      var r := SomeKey(b);
      var r' := KeyElsewhere(b, r[0]);
      var q, q' := t.key + r, t.key + r';
      assert q[|t.key|..] == r && q'[|t.key|..] == r';
      assert Lookup(t, q) != [] && Lookup(t, q') != [] && q != q';
      assert Lookup(s, q) == [] || Lookup(s, q') == [];
    }
  }

  lemma {:induction false} ExtensionVersusBranch(s: Tree, t: Tree)
    requires Canonical(s) && Canonical(t) && s.Extension? && t.Branch?
    ensures !SameMap(s, t)
  {
    var q := KeyElsewhere(t, s.key[0]);
    assert Lookup(s, q) == [];
  }

  /** Two extensions with different keys have different maps: a key is the longest path its map shares. */
  lemma {:induction false} ExtensionKeys(s: Tree, t: Tree)
    requires Canonical(s) && Canonical(t) && s.Extension? && t.Extension? && !(s.key <= t.key)
    ensures !SameMap(s, t)
  {
    var m := Matching(s.key, t.key);
    var q;
    if m == |t.key| {
      var r := KeyElsewhere(t.child, s.key[m]);
      q := t.key + r;
      assert q[|t.key|..] == r;
    } else {
      q := KeyThrough(t, t.key[..m]);
    }
    assert Lookup(t, q) != [];
    assert |q| > m ==> q[m] != s.key[m];
    assert Lookup(s, q) == [];
  }

  lemma {:induction false} NothingVersusSomething(t: Tree)
    requires Canonical(t) && t != Empty
    ensures !SameMap(Empty, t) && !SameMap(t, Empty)
  {
    var q := SomeKey(t);
    assert Lookup(Empty, q) == [];
  }

  lemma {:induction false} SameChild(s: Tree, t: Tree)
    requires s.Extension? && t.Extension? && s.key == t.key && SameMap(s, t)
    ensures SameMap(s.child, t.child)
  {
    forall q ensures Lookup(s.child, q) == Lookup(t.child, q) {
      assert (s.key + q)[|s.key|..] == q;
      assert Lookup(s, s.key + q) == Lookup(t, t.key + q);
    }
  }

  lemma {:induction false} SameSlot(s: Tree, t: Tree, i: Nibble)
    requires s.Branch? && t.Branch? && i < |s.children| && i < |t.children| && SameMap(s, t)
    ensures SameMap(s.children[i], t.children[i])
  {
    forall q ensures Lookup(s.children[i], q) == Lookup(t.children[i], q) {
      assert ([i] + q)[1..] == q;
      assert Lookup(s, [i] + q) == Lookup(t, [i] + q);
    }
  }

  /** Two canonical trees that denote one map are one tree. */
  lemma {:induction false} Unique(s: Tree, t: Tree)
    requires Canonical(s) && Canonical(t) && SameMap(s, t)
    ensures s == t
  {
    match s
    case Empty =>
      if t != Empty {
        NothingVersusSomething(t);
      }
    case Leaf(k, v) =>
      match t {
        case Empty => NothingVersusSomething(s);
        case Leaf(_, _) => assert Lookup(t, k) == v;
        case _ => LeafVersusInner(s, t);
      }
    case Extension(k, c) =>
      match t {
        case Empty => NothingVersusSomething(s);
        case Leaf(_, _) => LeafVersusInner(t, s);
        case Extension(_, d) =>
          if !(k <= t.key) {
            ExtensionKeys(s, t);
          } else if !(t.key <= k) {
            ExtensionKeys(t, s);
          } else {
            SameChild(s, t);
            Unique(c, d);
          }
        case Branch(_, _) => ExtensionVersusBranch(s, t);
      }
    case Branch(cs, v) =>
      match t {
        case Empty => NothingVersusSomething(s);
        case Leaf(_, _) => LeafVersusInner(t, s);
        case Extension(_, _) => ExtensionVersusBranch(t, s);
        case Branch(ds, w) =>
          assert Lookup(s, []) == Lookup(t, []);
          forall i: Nibble ensures cs[i] == ds[i] {
            SameSlot(s, t, i);
            Unique(cs[i], ds[i]);
          }
          assert forall j :: 0 <= j < 16 ==> var i: Nibble := j; cs[j] == ds[i];
      }
  }

  // ------------------------------------------------------------------------------ runs of put, del

  /** put with an empty value is del. */
  datatype Op = Put(key: Key, value: Bytes) | Del(key: Key)

  predicate Deletes(op: Op) {
    op.Del? || op.value == []
  }

  ghost function Apply(t: Tree, op: Op): Tree {
    if Deletes(op) then Delete(t, op.key) else Insert(t, op.key, op.value)
  }

  ghost function Run(ops: seq<Op>): Tree {
    if ops == [] then Empty else Apply(Run(ops[..|ops| - 1]), ops[|ops| - 1])
  }

  /** The finite map a run should leave. */
  function Effect(ops: seq<Op>): map<Key, Bytes> {
    if ops == [] then map[]
    else
      var m, op := Effect(ops[..|ops| - 1]), ops[|ops| - 1];
      if Deletes(op) then m - {op.key} else m[op.key := op.value]
  }

  ghost predicate Denotes(t: Tree, m: map<Key, Bytes>) {
    forall q :: Lookup(t, q) == if q in m then m[q] else []
  }

  lemma {:induction false} RunShaped(ops: seq<Op>)
    ensures Shaped(Run(ops))
  {
    if ops != [] {
      var front, op := ops[..|ops| - 1], ops[|ops| - 1];
      RunShaped(front);
      if Deletes(op) {
        ShapedRemove(Run(front), op.key);
      } else {
        ShapedInsert(Run(front), op.key, op.value);
      }
    }
  }

  /** Every deletion meets a tree that is deletable at its key. */
  ghost predicate Careful(ops: seq<Op>) {
    ops != [] ==>
      var front, op := ops[..|ops| - 1], ops[|ops| - 1];
      Careful(front) && (Deletes(op) ==> Deletable(Run(front), op.key))
  }

  /** Every deletion meets a tree that is deletable and collapsible at its key. */
  ghost predicate Admissible(ops: seq<Op>) {
    ops != [] ==>
      var front, op := ops[..|ops| - 1], ops[|ops| - 1];
      && Admissible(front)
      && (Deletes(op) ==> Deletable(Run(front), op.key) && Collapsible(Run(front), op.key))
  }

  /** The tree reached is the canonical tree of the map the run should leave. */
  ghost predicate Right(ops: seq<Op>) {
    Canonical(Run(ops)) && Denotes(Run(ops), Effect(ops))
  }

  lemma {:induction false} RestDenotes(t: Tree, t': Tree, m: map<Key, Bytes>, k: Key)
    requires Denotes(t, m) && TakesAway(t', t, k)
    ensures Denotes(t', m - {k})
  {
    hide Lookup;
    var rest := m - {k};
    forall q ensures Lookup(t', q) == if q in rest then rest[q] else [] {
      assert Lookup(t, q) == if q in m then m[q] else [];
    }
  }

  lemma {:induction false} DenotesRest(t: Tree, t': Tree, m: map<Key, Bytes>, k: Key)
    requires Denotes(t, m) && Denotes(t', m - {k})
    ensures TakesAway(t', t, k)
  {
    hide Lookup;
    forall q ensures Lookup(t', q) == if q == k then [] else Lookup(t, q) {
      assert q in m - {k} <==> q in m && q != k;
    }
  }

  lemma {:induction false} StepDenotes(front: seq<Op>, op: Op)
    requires Denotes(Run(front), Effect(front))
    ensures Denotes(Run(front + [op]), Effect(front + [op])) <==>
            (Deletes(op) ==> Deletable(Run(front), op.key))
  {
    hide Lookup, Deletable, Insert, Delete, Shaped, TakesAway, Denotes;
    var t, k, m := Run(front), op.key, Effect(front);
    assert (front + [op])[..|front|] == front;
    RunShaped(front);
    if Deletes(op) {
      DeleteIsExact(t, k);
      if Denotes(Delete(t, k), m - {k}) {
        DenotesRest(t, Delete(t, k), m, k);
      }
      if TakesAway(Delete(t, k), t, k) {
        RestDenotes(t, Delete(t, k), m, k);
      }
    } else {
      PutDenotes(t, m, k, op.value);
    }
  }

  /** A run denotes the finite map after every step exactly when each deletion meets a tree deletable at its key. */
  lemma {:induction false} RunDenotesMap(ops: seq<Op>)
    ensures Careful(ops) <==> forall i :: 0 <= i <= |ops| ==> Denotes(Run(ops[..i]), Effect(ops[..i]))
    ensures Careful(ops) ==> Denotes(Run(ops), Effect(ops))
  {
    hide Lookup, Deletable, Denotes, Run, Effect;
    assert ops[..|ops|] == ops;
    if ops == [] {
      EmptyRunIsRight();
    } else {
      var front, op := ops[..|ops| - 1], ops[|ops| - 1];
      RunDenotesMap(front);
      assert forall i :: 0 <= i <= |front| ==> ops[..i] == front[..i];
      assert front[..|front|] == front && front + [op] == ops;
      if Denotes(Run(front), Effect(front)) {
        StepDenotes(front, op);
      }
    }
  }

  lemma {:induction false} StepIsRight(front: seq<Op>, op: Op)
    requires Right(front)
    ensures Right(front + [op]) <==>
            (Deletes(op) ==> Deletable(Run(front), op.key) && Collapsible(Run(front), op.key))
  {
    hide Canonical, Lookup, Deletable, Collapsible, Insert, Delete, Shaped, TakesAway, Denotes;
    var t, k, m := Run(front), op.key, Effect(front);
    assert (front + [op])[..|front|] == front;
    if Deletes(op) {
      DeleteIsCanonical(t, k);
      if Denotes(Delete(t, k), m - {k}) {
        DenotesRest(t, Delete(t, k), m, k);
      }
      if TakesAway(Delete(t, k), t, k) {
        RestDenotes(t, Delete(t, k), m, k);
      }
    } else {
      CanonicalIsShaped(t);
      CanonicalInsert(t, k, op.value);
      PutDenotes(t, m, k, op.value);
    }
  }

  lemma {:induction false} PutDenotes(t: Tree, m: map<Key, Bytes>, k: Key, v: Bytes)
    requires Denotes(t, m) && Shaped(t)
    ensures Denotes(Insert(t, k, v), m[k := v])
  {
    hide Lookup, Insert;
    forall q { LookupInsert(t, k, v, q); }
  }

  /** A run is admissible exactly when after every step the tree is the canonical one of the finite map. */
  lemma {:induction false} RunRefinesMap(ops: seq<Op>)
    ensures Admissible(ops) <==> forall i :: 0 <= i <= |ops| ==> Right(ops[..i])
    ensures Admissible(ops) ==> Canonical(Run(ops)) && Denotes(Run(ops), Effect(ops))
  {
    hide Canonical, Lookup, Deletable, Collapsible;
    assert ops[..|ops|] == ops;
    if ops == [] {
      EmptyRunIsRight();
    } else {
      var front, op := ops[..|ops| - 1], ops[|ops| - 1];
      RunRefinesMap(front);
      assert forall i :: 0 <= i <= |front| ==> ops[..i] == front[..i];
      assert front[..|front|] == front && front + [op] == ops;
      if Right(front) {
        StepIsRight(front, op);
      }
    }
  }

  lemma {:induction false} EmptyRunIsRight()
    ensures Right([])
  {
  }

  /** Runs that never delete are admissible, whatever the lengths of their keys. */
  lemma {:induction false} PutsAreAdmissible(ops: seq<Op>)
    requires forall i :: 0 <= i < |ops| ==> !Deletes(ops[i])
    ensures Admissible(ops)
  {
    if ops != [] {
      PutsAreAdmissible(ops[..|ops| - 1]);
    }
  }

  /** Runs over keys of one non-zero length, as hashed keys are, are admissible. */
  lemma {:induction false} UniformIsAdmissible(ops: seq<Op>, n: nat)
    requires n > 0 && forall i :: 0 <= i < |ops| ==> |ops[i].key| == n
    ensures Admissible(ops) && Uniform(Run(ops), n)
  {
    if ops != [] {
      hide Canonical, Deletable, Collapsible, Lookup, Insert, Delete;
      var front, op := ops[..|ops| - 1], ops[|ops| - 1];
      UniformIsAdmissible(front, n);
      RunRefinesMap(front);
      if Deletes(op) {
        DeleteUniform(Run(front), op.key);
      } else {
        UniformInsert(Run(front), op.key, op.value);
      }
    }
  }

  /** Runs that end in one map end in one tree, whatever their order and detours. */
  lemma {:induction false} HistoryIndependence(ops: seq<Op>, ops': seq<Op>)
    requires Admissible(ops) && Admissible(ops')
    ensures Effect(ops) == Effect(ops') <==> Run(ops) == Run(ops')
  {
    RunRefinesMap(ops);
    RunRefinesMap(ops');
    if Effect(ops) == Effect(ops') {
      Unique(Run(ops), Run(ops'));
    }
    if Run(ops) == Run(ops') {
      EffectHasNoEmptyValue(ops);
      EffectHasNoEmptyValue(ops');
      var m, m' := Effect(ops), Effect(ops');
      forall q ensures q in m <==> q in m'
               ensures q in m ==> m[q] == m'[q] {
        assert Lookup(Run(ops), q) == Lookup(Run(ops'), q);
      }
    }
  }

  lemma {:induction false} EffectHasNoEmptyValue(ops: seq<Op>)
    ensures forall q :: q in Effect(ops) ==> Effect(ops)[q] != []
  {
    if ops != [] {
      EffectHasNoEmptyValue(ops[..|ops| - 1]);
    }
  }
}
