/** What del does to the denoted tree, exactly when that is right, and what it keeps. */
module TrieDelete {
  import opened Base
  import opened TrieModel

  // ----------------------------------------------------------------------------------------- del

  /** i is the one slot of the branch that holds a child. */
  predicate Only(cs: seq<Tree>, i: int) {
    NonEmpty(cs, i) && forall j :: 0 <= j < |cs| && j != i ==> cs[j] == Empty
  }

  ghost predicate SoleChild(cs: seq<Tree>) {
    exists i: Nibble :: Only(cs, i)
  }

  /** Put a path in front of a node, merging it into the node's own key if the node has one. */
  function Prepend(p: Key, t: Tree): Tree {
    match t
    case Empty => Empty
    case Leaf(lk, v) => Leaf(p + lk, v)
    case Extension(ek, c) => Extension(p + ek, c)
    case Branch(_, _) => Wrap(p, t)
  }

  /** The collapse test counts children only, so a value on a collapsing branch is dropped. */
  ghost function Collapse(cs: seq<Tree>, v: Bytes): Tree {
    if SoleChild(cs) then
      var i: Nibble :| Only(cs, i);
      Prepend([i], cs[i])
    else Branch(cs, v)
  }

  /** Clearing the value of a branch leaves it as it was: a null argument to value() is ignored. */
  ghost function Remove(t: Tree, k: Key): Tree {
    match t
    case Empty => Empty
    case Leaf(lk, _) => if lk == k then Empty else t
    case Extension(ek, c) => if ek <= k then Prepend(ek, Remove(c, k[|ek|..])) else t
    case Branch(cs, v) =>
      if k == [] then Collapse(cs, v)
      else if |cs| <= k[0] || cs[k[0]] == Empty then t
      else
        var r := Remove(cs[k[0]], k[1..]);
        if r == Empty then Collapse(cs[k[0] := Empty], v) else Branch(cs[k[0] := r], v)
  }

  /** A node found without a parent is taken for a leaf, and the whole trie is emptied. */
  ghost function Delete(t: Tree, k: Key): Tree {
    if t.Branch? && k == [] then Empty else Remove(t, k)
  }

  // ---------------------------------------------------------------------------- when del is right

  /**
    * The path of k does not end at a branch holding a value that stays, nor at a leaf whose
    * parent holds a value and keeps a single child.
    */
  ghost predicate Removable(t: Tree, k: Key) {
    match t
    case Empty => true
    case Leaf(_, _) => true
    case Extension(ek, c) => ek <= k ==> Removable(c, k[|ek|..])
    case Branch(cs, v) =>
      if k == [] then v == [] || SoleChild(cs)
      else if |cs| <= k[0] then true
      else if cs[k[0]] == Leaf(k[1..], Lookup(cs[k[0]], k[1..])) then
        v == [] || !SoleChild(cs[k[0] := Empty])
      else Removable(cs[k[0]], k[1..])
  }

  /** Where the path of k ends at a leaf below a branch, another child stays beside it. */
  ghost predicate Collapsible(t: Tree, k: Key) {
    match t
    case Empty => true
    case Leaf(_, _) => true
    case Extension(ek, c) => ek <= k ==> Collapsible(c, k[|ek|..])
    case Branch(cs, _) =>
      if k == [] || |cs| <= k[0] then true
      else if cs[k[0]] == Leaf(k[1..], Lookup(cs[k[0]], k[1..])) then
        exists j :: j != k[0] as int && NonEmpty(cs, j)
      else Collapsible(cs[k[0]], k[1..])
  }

  /** t holds no value anywhere. */
  ghost predicate Bare(t: Tree) {
    match t
    case Empty => true
    case Leaf(_, v) => v == []
    case Extension(_, c) => Bare(c)
    case Branch(cs, v) => v == [] && forall i :: 0 <= i < |cs| ==> Bare(cs[i])
  }

  /** At a root branch del empties the trie, so nothing else may be held. */
  ghost predicate Deletable(t: Tree, k: Key) {
    if t.Branch? && k == [] then forall i :: 0 <= i < |t.children| ==> Bare(t.children[i]) else Removable(t, k)
  }

  lemma {:induction false} LookupPrepend(p: Key, t: Tree, q: Key)
    ensures Lookup(Prepend(p, t), q) == if p <= q then Lookup(t, q[|p|..]) else []
  {
    match t
    case Empty =>
    case Leaf(lk, _) =>
      if p <= q {
        assert q == p + q[|p|..];
      }
    case Extension(ek, c) =>
      if p + ek <= q {
        assert q[..|p|] == p && q[|p|..][..|ek|] == ek;
        assert q[|p|..][|ek|..] == q[|p + ek|..];
      }
    case Branch(_, _) =>
      LookupWrap(p, t, q);
  }

  lemma {:induction false} LookupCollapse(cs: seq<Tree>, v: Bytes, q: Key)
    requires |cs| == 16
    ensures Lookup(Collapse(cs, v), q) ==
            if q == [] && SoleChild(cs) then [] else Lookup(Branch(cs, v), q)
  {
    if i: Nibble :| Only(cs, i) {
      assert forall j: Nibble :: Only(cs, j) ==> j == i;
      LookupPrepend([i], cs[i], q);
    }
  }

  /** A removal empties a subtree only when it was the leaf of the removed key. */
  lemma {:induction false} RemoveToEmpty(t: Tree, k: Key)
    requires Shaped(t) && t != Empty
    ensures Remove(t, k) == Empty <==> t == Leaf(k, Lookup(t, k))
    ensures t.Branch? ==> Remove(t, k) != Empty
  {
    match t
    case Leaf(_, _) =>
    case Extension(ek, c) =>
      if ek <= k {
        RemoveToEmpty(c, k[|ek|..]);
      }
    case Branch(cs, v) =>
  }

  lemma {:induction false} ShapedPrepend(p: Key, t: Tree)
    requires Shaped(t) && p != []
    ensures Shaped(Prepend(p, t))
  {
  }

  lemma {:induction false} ShapedCollapse(cs: seq<Tree>, v: Bytes)
    requires Shaped(Branch(cs, v))
    ensures Shaped(Collapse(cs, v))
  {
    if i: Nibble :| Only(cs, i) {
      assert forall j: Nibble :: Only(cs, j) ==> j == i;
      ShapedPrepend([i], cs[i]);
    }
  }

  lemma {:induction false} ShapedRemove(t: Tree, k: Key)
    requires Shaped(t)
    ensures Shaped(Remove(t, k))
  {
    match t
    case Empty =>
    case Leaf(_, _) =>
    case Extension(ek, c) =>
      if ek <= k {
        ShapedRemove(c, k[|ek|..]);
        ShapedPrepend(ek, Remove(c, k[|ek|..]));
      }
    case Branch(cs, v) =>
      if k == [] {
        ShapedCollapse(cs, v);
      } else if cs[k[0]] != Empty {
        ShapedRemove(cs[k[0]], k[1..]);
        ShapedCollapse(cs[k[0] := Empty], v);
      }
  }

  /** A removal that Removable allows takes away its key and nothing else. */
  lemma {:induction false} LookupRemove(t: Tree, k: Key, q: Key)
    requires Shaped(t) && Removable(t, k)
    ensures Lookup(Remove(t, k), q) == if q == k then [] else Lookup(t, q)
  {
    match t
    case Empty =>
    case Leaf(_, _) =>
    case Extension(ek, c) =>
      if ek <= k {
        LookupPrepend(ek, Remove(c, k[|ek|..]), q);
        if ek <= q {
          SameTail(q, k, |ek|);
          LookupRemove(c, k[|ek|..], q[|ek|..]);
        }
      }
    case Branch(cs, v) =>
      if k == [] {
        LookupCollapse(cs, v, q);
      } else if cs[k[0]] != Empty {
        var c := cs[k[0]];
        RemoveToEmpty(c, k[1..]);
        if Remove(c, k[1..]) == Empty {
          LookupCollapse(cs[k[0] := Empty], v, q);
        }
        if q != [] && q[0] == k[0] {
          SameTail(q, k, 1);
          LookupRemove(c, k[1..], q[1..]);
        }
      }
  }

  lemma {:induction false} SomeKey(t: Tree) returns (q: Key)
    requires Canonical(t) && t != Empty
    ensures Lookup(t, q) != []
    ensures t.Branch? ==> q != []
  {
    match t
    case Leaf(lk, _) => q := lk;
    case Extension(ek, c) =>
      var r := SomeKey(c);
      q := ek + r;
      assert q[|ek|..] == r;
    case Branch(cs, v) =>
      var i :| NonEmpty(cs, i);
      var r := SomeKey(cs[i]);
      q := [i] + r;
      assert q[1..] == r;
  }

  /** Where Removable fails, some key reads differently from what the removal should leave. */
  lemma {:induction false} WrongRemoval(t: Tree, k: Key) returns (q: Key)
    requires Shaped(t) && !Removable(t, k)
    ensures Lookup(Remove(t, k), q) != if q == k then [] else Lookup(t, q)
  {
    match t
    case Extension(ek, c) =>
      var r := WrongRemoval(c, k[|ek|..]);
      q := ek + r;
      assert q[|ek|..] == r;
      SameTail(q, k, |ek|);
      LookupPrepend(ek, Remove(c, k[|ek|..]), q);
    case Branch(cs, v) =>
      if k == [] {
        q := [];
        LookupCollapse(cs, v, q);
      } else {
        var c := cs[k[0]];
        RemoveToEmpty(c, k[1..]);
        if Remove(c, k[1..]) == Empty {
          q := [];
          LookupCollapse(cs[k[0] := Empty], v, q);
        } else {
          var r := WrongRemoval(c, k[1..]);
          q := [k[0]] + r;
          assert q[1..] == r;
          SameTail(q, k, 1);
        }
      }
  }

  /** The map of t' is that of t without k. */
  ghost predicate TakesAway(t': Tree, t: Tree, k: Key) {
    forall q :: Lookup(t', q) == if q == k then [] else Lookup(t, q)
  }

  lemma {:induction false} BareHoldsNothing(t: Tree, q: Key)
    requires Bare(t)
    ensures Lookup(t, q) == []
  {
    match t
    case Empty =>
    case Leaf(_, _) =>
    case Extension(ek, c) =>
      if ek <= q {
        BareHoldsNothing(c, q[|ek|..]);
      }
    case Branch(cs, _) =>
      if q != [] && q[0] < |cs| {
        BareHoldsNothing(cs[q[0]], q[1..]);
      }
  }

  lemma {:induction false} HeldKey(t: Tree) returns (q: Key)
    requires Shaped(t) && !Bare(t)
    ensures Lookup(t, q) != []
  {
    match t
    case Leaf(lk, _) => q := lk;
    case Extension(ek, c) =>
      var r := HeldKey(c);
      q := ek + r;
      assert q[|ek|..] == r;
    case Branch(cs, v) =>
      q := [];
      if v == [] {
        var i: int :| 0 <= i < |cs| && !Bare(cs[i]);
        var n: Nibble := i;
        var r := HeldKey(cs[i]);
        q := [n] + r;
        assert q[1..] == r;
      }
  }

  lemma {:induction false} EmptyingIsExact(cs: seq<Tree>, v: Bytes)
    requires Shaped(Branch(cs, v))
    ensures Deletable(Branch(cs, v), []) <==> TakesAway(Empty, Branch(cs, v), [])
  {
    if Deletable(Branch(cs, v), []) {
      forall q ensures Lookup(Empty, q) == if q == [] then [] else Lookup(Branch(cs, v), q) {
        if q != [] {
          BareHoldsNothing(cs[q[0]], q[1..]);
        }
      }
    } else {
      var i: int :| 0 <= i < |cs| && !Bare(cs[i]);
      var n: Nibble := i;
      var r := HeldKey(cs[i]);
      var q: Key := [n] + r;
      assert q[1..] == r;
      assert Lookup(Empty, q) != Lookup(Branch(cs, v), q);
    }
  }

  /** On canonical trees and others, del leaves the map without k exactly when the tree is deletable at k. */
  lemma {:induction false} DeleteIsExact(t: Tree, k: Key)
    requires Shaped(t)
    ensures Deletable(t, k) <==> TakesAway(Delete(t, k), t, k)
  {
    if t.Branch? && k == [] {
      EmptyingIsExact(t.children, t.value);
    } else if Deletable(t, k) {
      forall q ensures Lookup(Delete(t, k), q) == if q == k then [] else Lookup(t, q) {
        LookupRemove(t, k, q);
      }
    } else {
      var q := WrongRemoval(t, k);
      assert Lookup(Delete(t, k), q) != if q == k then [] else Lookup(t, q);
    }
  }

  /** A concrete failure: with values at 12, 1234 and 1256, deleting 12 leaves its value where it was. */
  lemma {:induction false} DeleteKeepsBranchValue(a: Bytes, b: Bytes, c: Bytes)
    requires a != [] && b != [] && c != []
    ensures var t := Insert(Insert(Insert(Empty, [1, 2], a), [1, 2, 3, 4], b), [1, 2, 5, 6], c);
            Lookup(Delete(t, [1, 2]), [1, 2]) == a
  {
    var t1 := Insert(Empty, [1, 2], a);
    var t2 := Insert(t1, [1, 2, 3, 4], b);
    var t := Insert(t2, [1, 2, 5, 6], c);
    CanonicalInsert(Empty, [1, 2], a);
    CanonicalInsert(t1, [1, 2, 3, 4], b);
    CanonicalInsert(t2, [1, 2, 5, 6], c);
    LookupInsert(t2, [1, 2, 5, 6], c, [1, 2]);
    LookupInsert(t1, [1, 2, 3, 4], b, [1, 2]);
    var first := NoChildren()[3 := Leaf([4], b)];
    TwoKeys(a, b);
    assert [1, 2] <= [1, 2, 5, 6] && [1, 2, 5, 6][2..] == [5, 6] && first[5] == Empty;
    var cs := first[5 := Leaf([6], c)];
    assert [5, 6][1..] == [6] && Insert(first[5], [6], c) == Leaf([6], c);
    assert Insert(Branch(first, a), [5, 6], c) == Branch(cs, a);
    assert t == Extension([1, 2], Branch(cs, a));
    assert cs[3] != Empty && cs[5] != Empty;
    assert !SoleChild(cs);
    assert Remove(Branch(cs, a), []) == Branch(cs, a);
  }

  // ----------------------------------------------------------------- when del leaves a canonical tree

  lemma {:induction false} CanonicalPrepend(p: Key, t: Tree)
    requires Shaped(t) && p != []
    ensures Canonical(Prepend(p, t)) <==> Canonical(t)
  {
  }

  lemma {:induction false} CanonicalCollapse(cs: seq<Tree>, v: Bytes, i: nat)
    requires |cs| == 16 && forall j :: 0 <= j < 16 ==> Canonical(cs[j])
    requires NonEmpty(cs, i)
    ensures Canonical(Collapse(cs, v)) && Collapse(cs, v) != Empty
  {
    if n: Nibble :| Only(cs, n) {
      assert forall j: Nibble :: Only(cs, j) ==> j == n;
      CanonicalIsShaped(cs[n]);
      CanonicalPrepend([n], cs[n]);
    } else {
      var n: Nibble := i;
      assert !Only(cs, n);
      var j :| 0 <= j < |cs| && j != i && cs[j] != Empty;
      assert NonEmpty(cs, j);
    }
  }

  /** The last child of a branch with a value is taken away, and the branch stays without children. */
  lemma {:induction false} CollapseChildless(cs: seq<Tree>, v: Bytes)
    requires forall j :: !NonEmpty(cs, j)
    ensures !Canonical(Collapse(cs, v))
  {
  }

  /** A removal from a canonical tree leaves a canonical one exactly when the tree is collapsible there. */
  lemma {:induction false} RemoveCanonical(t: Tree, k: Key)
    requires Canonical(t)
    ensures Canonical(Remove(t, k)) <==> Collapsible(t, k)
  {
    CanonicalIsShaped(t);
    match t
    case Empty =>
    case Leaf(_, _) =>
    case Extension(ek, c) =>
      if ek <= k {
        RemoveCanonical(c, k[|ek|..]);
        ShapedRemove(c, k[|ek|..]);
        CanonicalPrepend(ek, Remove(c, k[|ek|..]));
      }
    case Branch(cs, v) =>
      if k == [] {
        var i :| NonEmpty(cs, i);
        CanonicalCollapse(cs, v, i);
      } else if cs[k[0]] != Empty {
        RemoveFromBranch(cs, v, k);
      }
  }

  lemma {:induction false} RemoveFromBranch(cs: seq<Tree>, v: Bytes, k: Key)
    requires Canonical(Branch(cs, v)) && k != [] && cs[k[0]] != Empty
    ensures Canonical(Remove(Branch(cs, v), k)) <==> Collapsible(Branch(cs, v), k)
    decreases Branch(cs, v), k, 0
  {
    var c, r := cs[k[0]], Remove(cs[k[0]], k[1..]);
    CanonicalIsShaped(c);
    RemoveToEmpty(c, k[1..]);
    if r != Empty {
      RemoveCanonical(c, k[1..]);
      StillNeeded(cs, v, k[0], r);
      var cs' := cs[k[0] := r];
      assert cs'[k[0]] == r;
    } else {
      var cs' := cs[k[0] := Empty];
      if j :| j != k[0] as int && NonEmpty(cs, j) {
        assert NonEmpty(cs', j);
        CanonicalCollapse(cs', v, j);
      } else {
        assert forall j :: NonEmpty(cs', j) ==> NonEmpty(cs, j);
        CollapseChildless(cs', v);
      }
    }
  }

  /** del is the map without k in its one canonical form exactly when the tree is deletable and collapsible at k. */
  lemma {:induction false} DeleteIsCanonical(t: Tree, k: Key)
    requires Canonical(t)
    ensures Canonical(Delete(t, k)) <==> Collapsible(t, k)
    ensures Deletable(t, k) && Collapsible(t, k) <==>
            Canonical(Delete(t, k)) && TakesAway(Delete(t, k), t, k)
  {
    hide TakesAway;
    RemoveCanonical(t, k);
    CanonicalIsShaped(t);
    DeleteIsExact(t, k);
  }

  /**
    * A concrete failure: with values at 12 and 1234, deleting 1234 is right about the map, but leaves an
    * extension above a branch without children where the map alone makes a leaf.
    */
  lemma {:induction false} DeleteLeavesBranch(a: Bytes, b: Bytes)
    requires a != [] && b != []
    ensures var t := Insert(Insert(Empty, [1, 2], a), [1, 2, 3, 4], b);
            var d := Delete(t, [1, 2, 3, 4]);
            && Canonical(t) && Deletable(t, [1, 2, 3, 4]) && !Collapsible(t, [1, 2, 3, 4])
            && d == Extension([1, 2], Branch(NoChildren(), a)) && !Canonical(d)
            && forall q :: Lookup(d, q) == Lookup(Leaf([1, 2], a), q)
  {
    var t1 := Insert(Empty, [1, 2], a);
    var t := Insert(t1, [1, 2, 3, 4], b);
    CanonicalInsert(Empty, [1, 2], a);
    CanonicalInsert(t1, [1, 2, 3, 4], b);
    TwoKeys(a, b);
    var k: Key := [3, 4];
    var cs, none := NoChildren()[3 := Leaf([4], b)], NoChildren();
    assert [1, 2, 3, 4][2..] == k && k[1..] == [4];
    assert [1, 2] <= [1, 2, 3, 4];
    assert cs[3 := Empty] == none;
    assert Remove(Leaf([4], b), [4]) == Empty;
    assert !SoleChild(none);
    assert Remove(Branch(cs, a), k) == Branch(none, a);
    assert !Collapsible(Branch(cs, a), k) && Removable(Branch(cs, a), k);
    DeleteIsCanonical(t, [1, 2, 3, 4]);
    CanonicalIsShaped(t);
    DeleteIsExact(t, [1, 2, 3, 4]);
    forall q ensures Lookup(Delete(t, [1, 2, 3, 4]), q) == Lookup(Leaf([1, 2], a), q) {
      LookupInsert(t1, [1, 2, 3, 4], b, q);
    }
  }

  lemma {:induction false} TwoKeys(a: Bytes, b: Bytes)
    ensures Insert(Insert(Empty, [1, 2], a), [1, 2, 3, 4], b) ==
            Extension([1, 2], Branch(NoChildren()[3 := Leaf([4], b)], a))
  {
    assert Matching([1, 2], [1, 2, 3, 4]) == 2;
    assert [1, 2][2..] == [] && [1, 2, 3, 4][2..] == [3, 4] && [3, 4][1..] == [4];
    assert [1, 2, 3, 4][..2] == [1, 2];
  }

  // ------------------------------------------------------------------- keys of one non-zero length

  lemma {:induction false} UniformPrepend(p: Key, t: Tree, n: nat)
    requires |p| <= n && Uniform(t, n - |p|)
    ensures Uniform(Prepend(p, t), n)
  {
  }

  lemma {:induction false} UniformCollapse(cs: seq<Tree>, n: nat)
    requires n > 0 && forall i :: 0 <= i < |cs| ==> Uniform(cs[i], n - 1)
    ensures Uniform(Collapse(cs, []), n)
  {
    if i: Nibble :| Only(cs, i) {
      assert forall j: Nibble :: Only(cs, j) ==> j == i;
      UniformPrepend([i], cs[i], n);
    }
  }

  /** For keys of one length every collapse case gives back a canonical tree with keys of that length. */
  lemma {:induction false} RemoveUniform(t: Tree, k: Key)
    requires Canonical(t) && Uniform(t, |k|)
    ensures Removable(t, k) && Canonical(Remove(t, k)) && Uniform(Remove(t, k), |k|)
  {
    hide Prepend, Collapse, SoleChild, Lookup;
    match t
    case Empty =>
    case Leaf(_, _) =>
    case Extension(ek, c) =>
      if ek <= k {
        RemoveUniform(c, k[|ek|..]);
        CanonicalIsShaped(Remove(c, k[|ek|..]));
        CanonicalPrepend(ek, Remove(c, k[|ek|..]));
        UniformPrepend(ek, Remove(c, k[|ek|..]), |k|);
      }
    case Branch(cs, v) =>
      var c := cs[k[0]];
      RemoveUniform(c, k[1..]);
      if c != Empty {
        CanonicalIsShaped(c);
        RemoveToEmpty(c, k[1..]);
        var r := Remove(c, k[1..]);
        if r == Empty {
          var i :| i != k[0] && NonEmpty(cs, i);
          assert NonEmpty(cs[k[0] := Empty], i);
          CanonicalCollapse(cs[k[0] := Empty], v, i);
          UniformCollapse(cs[k[0] := Empty], |k|);
        } else {
          StillNeeded(cs, v, k[0], r);
        }
      }
  }

  lemma {:induction false} DeleteUniform(t: Tree, k: Key)
    requires Canonical(t) && Uniform(t, |k|) && k != []
    ensures Deletable(t, k) && Collapsible(t, k) && Canonical(Delete(t, k)) && Uniform(Delete(t, k), |k|)
  {
    RemoveUniform(t, k);
    RemoveCanonical(t, k);
  }
}
