/**
  * The tree a Merkle Patricia trie denotes once every reference is resolved
  * (Appendix D of the Ethereum Yellow Paper), and what put and del do to it.
  */
module TrieModel {
  import opened Base

  type Key = seq<Nibble>

  /** An absent value is the empty byte string: the trie stores no empty values. */
  datatype Tree =
    | Empty
    | Leaf(key: Key, value: Bytes)
    | Extension(key: Key, child: Tree)
    | Branch(children: seq<Tree>, value: Bytes)

  // ----------------------------------------------------------------------------- the map it denotes

  function Lookup(t: Tree, k: Key): Bytes {
    match t
    case Empty => []
    case Leaf(lk, v) => if k == lk then v else []
    case Extension(ek, c) => if ek <= k then Lookup(c, k[|ek|..]) else []
    case Branch(cs, v) => if k == [] then v else if k[0] < |cs| then Lookup(cs[k[0]], k[1..]) else []
  }

  predicate NonEmpty(cs: seq<Tree>, i: int) {
    0 <= i < |cs| && cs[i] != Empty
  }

  /** A branch must be needed: two children, or one child and a value. */
  ghost predicate Needed(cs: seq<Tree>, v: Bytes) {
    || (exists i, j :: i != j && NonEmpty(cs, i) && NonEmpty(cs, j))
    || (v != [] && exists i :: NonEmpty(cs, i))
  }

  /** No empty value, no empty extension key, no extension above an extension or leaf, no needless branch. */
  ghost predicate Canonical(t: Tree) {
    match t
    case Empty => true
    case Leaf(_, v) => v != []
    case Extension(ek, c) => ek != [] && c.Branch? && Canonical(c)
    case Branch(cs, v) => |cs| == 16 && Needed(cs, v) && forall i :: 0 <= i < 16 ==> Canonical(cs[i])
  }

  /** What every operation keeps, canonical or not: the shape the node types and the walk rely on. */
  ghost predicate Shaped(t: Tree) {
    match t
    case Empty => true
    case Leaf(_, v) => v != []
    case Extension(ek, c) => ek != [] && c.Branch? && Shaped(c)
    case Branch(cs, _) => |cs| == 16 && forall i :: 0 <= i < 16 ==> Shaped(cs[i])
  }

  lemma {:induction false} CanonicalIsShaped(t: Tree)
    requires Canonical(t)
    ensures Shaped(t)
  {
    match t
    case Empty =>
    case Leaf(_, _) =>
    case Extension(_, c) => CanonicalIsShaped(c);
    case Branch(cs, _) =>
      forall i | 0 <= i < 16 { CanonicalIsShaped(cs[i]); }
  }

  /** Every key of t has exactly n nibbles. */
  ghost predicate Uniform(t: Tree, n: nat) {
    match t
    case Empty => true
    case Leaf(lk, _) => |lk| == n
    case Extension(ek, c) => |ek| <= n && Uniform(c, n - |ek|)
    case Branch(cs, v) => v == [] && n > 0 && forall i :: 0 <= i < |cs| ==> Uniform(cs[i], n - 1)
  }

  // ----------------------------------------------------------------------------------------- put

  /** The number of leading nibbles on which a and b agree. */
  function Matching(a: Key, b: Key): (m: nat)
    ensures m <= |a| && m <= |b| && a[..m] == b[..m]
    ensures m < |a| && m < |b| ==> a[m] != b[m]
    ensures m == |a| <==> a <= b
  {
    if a == [] || b == [] || a[0] != b[0] then 0
    else
      var m := 1 + Matching(a[1..], b[1..]);
      assert a[..m] == [a[0]] + a[1..][..m - 1] && b[..m] == [b[0]] + b[1..][..m - 1];
      m
  }

  function NoChildren(): (cs: seq<Tree>)
    ensures |cs| == 16 && forall i :: 0 <= i < 16 ==> cs[i] == Empty
  {
    seq(16, _ => Empty)
  }

  /** A path in front of a tree, if there is one. */
  function Wrap(p: Key, t: Tree): Tree {
    if p == [] then t else Extension(p, t)
  }

  /** Put v at k below a branch whose slot for k is free. */
  function AddEntry(cs: seq<Tree>, value: Bytes, k: Key, v: Bytes): Tree
    requires |cs| == 16
  {
    if k == [] then Branch(cs, v) else Branch(cs[k[0] := Leaf(k[1..], v)], value)
  }

  function SplitLeaf(lk: Key, lv: Bytes, k: Key, v: Bytes): Tree {
    var m := Matching(lk, k);
    var first := AddEntry(NoChildren(), [], lk[m..], lv);
    Wrap(k[..m], AddEntry(first.children, first.value, k[m..], v))
  }

  function SplitExtension(ek: Key, c: Tree, k: Key, v: Bytes): Tree
    requires !(ek <= k)
  {
    var m := Matching(ek, k);
    Wrap(k[..m], AddEntry(NoChildren()[ek[m] := Wrap(ek[m + 1..], c)], [], k[m..], v))
  }

  function Insert(t: Tree, k: Key, v: Bytes): (r: Tree)
    ensures r != Empty
  {
    match t
    case Empty => Leaf(k, v)
    case Leaf(lk, lv) => if lk == k then Leaf(k, v) else SplitLeaf(lk, lv, k, v)
    case Extension(ek, c) =>
      if ek <= k then Extension(ek, Insert(c, k[|ek|..], v)) else SplitExtension(ek, c, k, v)
    case Branch(cs, bv) =>
      if k == [] then Branch(cs, v)
      else if k[0] < |cs| then Branch(cs[k[0] := Insert(cs[k[0]], k[1..], v)], bv)
      else t
  }

  lemma {:induction false} LookupWrap(p: Key, t: Tree, q: Key)
    ensures Lookup(Wrap(p, t), q) == if p <= q then Lookup(t, q[|p|..]) else []
  {
    assert p == [] ==> q[|p|..] == q;
  }

  lemma {:induction false} LookupAddEntry(cs: seq<Tree>, value: Bytes, k: Key, v: Bytes, q: Key)
    requires |cs| == 16
    requires if k == [] then value == [] else cs[k[0]] == Empty
    ensures Lookup(AddEntry(cs, value, k, v), q) == if q == k then v else Lookup(Branch(cs, value), q)
  {
    if q != [] && k != [] && q[0] == k[0] {
      assert q == [q[0]] + q[1..] && k == [k[0]] + k[1..];
    }
  }

  /** Cutting a common front off both keys does not change whether they are equal. */
  lemma {:induction false} SameTail(a: Key, b: Key, m: nat)
    requires m <= |a| && m <= |b| && a[..m] == b[..m]
    ensures a == b <==> a[m..] == b[m..]
  {
    assert a == a[..m] + a[m..] && b == b[..m] + b[m..];
  }

  lemma {:induction false} LookupSplitLeaf(lk: Key, lv: Bytes, k: Key, v: Bytes, q: Key)
    requires lk != k
    ensures Lookup(SplitLeaf(lk, lv, k, v), q) == if q == k then v else if q == lk then lv else []
  {
    var m := Matching(lk, k);
    SameTail(lk, k, m);
    var first := AddEntry(NoChildren(), [], lk[m..], lv);
    LookupWrap(k[..m], AddEntry(first.children, first.value, k[m..], v), q);
    if k[..m] <= q {
      SameTail(q, k, m);
      SameTail(q, lk, m);
      LookupAddEntry(first.children, first.value, k[m..], v, q[m..]);
      LookupAddEntry(NoChildren(), [], lk[m..], lv, q[m..]);
    }
  }

  lemma {:induction false} SamePrefix(p: Key, q: Key, m: nat)
    requires m < |p| && m < |q| && p[..m] == q[..m] && p[m] == q[m]
    ensures p <= q <==> p[m + 1..] <= q[m + 1..]
    ensures p <= q ==> q[m + 1..][|p| - m - 1..] == q[|p|..]
  {
    assert p == p[..m] + [p[m]] + p[m + 1..] && q == q[..m] + [q[m]] + q[m + 1..];
    if p[m + 1..] <= q[m + 1..] {
      assert q[..|p|] == q[..m] + [q[m]] + q[m + 1..][..|p| - m - 1];
    }
    if p <= q {
      assert q[m + 1..][..|p| - m - 1] == p[m + 1..];
    }
  }

  lemma {:induction false} LookupSplitExtension(ek: Key, c: Tree, k: Key, v: Bytes, q: Key)
    requires !(ek <= k)
    ensures Lookup(SplitExtension(ek, c, k, v), q) ==
            if q == k then v else Lookup(Extension(ek, c), q)
  {
    var m := Matching(ek, k);
    var cs := NoChildren()[ek[m] := Wrap(ek[m + 1..], c)];
    LookupWrap(k[..m], AddEntry(cs, [], k[m..], v), q);
    if k[..m] <= q {
      SameTail(q, k, m);
      LookupAddEntry(cs, [], k[m..], v, q[m..]);
      LookupUnderExtension(ek, c, m, q);
    }
  }

  lemma {:induction false} LookupUnderExtension(ek: Key, c: Tree, m: nat, q: Key)
    requires m < |ek| && m <= |q| && ek[..m] == q[..m]
    ensures Lookup(Branch(NoChildren()[ek[m] := Wrap(ek[m + 1..], c)], []), q[m..]) == Lookup(Extension(ek, c), q)
  {
    if m < |q| && q[m] == ek[m] {
      SamePrefix(ek, q, m);
      LookupWrap(ek[m + 1..], c, q[m + 1..]);
      assert q[m..][1..] == q[m + 1..];
    }
  }

  /** put changes the map at its key and nowhere else, for every key, prefixes of other keys included. */
  lemma {:induction false} LookupInsert(t: Tree, k: Key, v: Bytes, q: Key)
    requires Shaped(t)
    ensures Lookup(Insert(t, k, v), q) == if q == k then v else Lookup(t, q)
  {
    match t
    case Empty =>
    case Leaf(lk, lv) =>
      if lk != k {
        LookupSplitLeaf(lk, lv, k, v, q);
      }
    case Extension(ek, c) =>
      if !(ek <= k) {
        LookupSplitExtension(ek, c, k, v, q);
      } else if ek <= q {
        LookupInsert(c, k[|ek|..], v, q[|ek|..]);
        SameTail(q, k, |ek|);
      }
    case Branch(cs, bv) =>
      if k != [] && q != [] && k[0] == q[0] {
        LookupInsert(cs[k[0]], k[1..], v, q[1..]);
        SameTail(q, k, 1);
      }
  }

  lemma {:induction false} ShapedAddEntry(cs: seq<Tree>, value: Bytes, k: Key, v: Bytes)
    requires Shaped(Branch(cs, value)) && v != []
    ensures AddEntry(cs, value, k, v).Branch? && Shaped(AddEntry(cs, value, k, v))
  {
  }

  lemma {:induction false} ShapedSplitLeaf(lk: Key, lv: Bytes, k: Key, v: Bytes)
    requires lv != [] && v != []
    ensures Shaped(SplitLeaf(lk, lv, k, v))
  {
    var m := Matching(lk, k);
    ShapedAddEntry(NoChildren(), [], lk[m..], lv);
    var first := AddEntry(NoChildren(), [], lk[m..], lv);
    ShapedAddEntry(first.children, first.value, k[m..], v);
  }

  lemma {:induction false} ShapedSplitExtension(ek: Key, c: Tree, k: Key, v: Bytes)
    requires Shaped(c) && c.Branch? && v != [] && !(ek <= k)
    ensures Shaped(SplitExtension(ek, c, k, v))
  {
    var m := Matching(ek, k);
    assert Shaped(Wrap(ek[m + 1..], c));
    ShapedAddEntry(NoChildren()[ek[m] := Wrap(ek[m + 1..], c)], [], k[m..], v);
  }

  lemma {:induction false} ShapedInsert(t: Tree, k: Key, v: Bytes)
    requires Shaped(t) && v != []
    ensures Shaped(Insert(t, k, v))
    ensures t.Branch? ==> Insert(t, k, v).Branch?
  {
    match t
    case Empty =>
    case Leaf(lk, lv) =>
      if lk != k {
        ShapedSplitLeaf(lk, lv, k, v);
      }
    case Extension(ek, c) =>
      if ek <= k {
        ShapedInsert(c, k[|ek|..], v);
      } else {
        ShapedSplitExtension(ek, c, k, v);
      }
    case Branch(cs, bv) =>
      if k != [] {
        ShapedInsert(cs[k[0]], k[1..], v);
      }
  }

  lemma {:induction false} CanonicalAddEntry(cs: seq<Tree>, value: Bytes, k: Key, v: Bytes, i: nat)
    requires |cs| == 16 && v != [] && forall j :: 0 <= j < 16 ==> Canonical(cs[j])
    requires NonEmpty(cs, i) || (value != [] && k != [])
    requires if k == [] then value == [] else cs[k[0]] == Empty
    ensures Canonical(AddEntry(cs, value, k, v))
  {
    if k != [] {
      var cs' := cs[k[0] := Leaf(k[1..], v)];
      assert NonEmpty(cs', k[0]);
      assert NonEmpty(cs, i) ==> NonEmpty(cs', i);
    }
  }

  lemma {:induction false} CanonicalInsert(t: Tree, k: Key, v: Bytes)
    requires Canonical(t) && v != []
    ensures Canonical(Insert(t, k, v))
    ensures t.Branch? ==> Insert(t, k, v).Branch?
  {
    match t
    case Empty =>
    case Leaf(lk, lv) =>
      if lk != k {
        var m := Matching(lk, k);
        SameTail(lk, k, m);
        var first := AddEntry(NoChildren(), [], lk[m..], lv);
        assert lk[m..] != [] ==> NonEmpty(first.children, lk[m]);
        CanonicalAddEntry(first.children, first.value, k[m..], v, if lk[m..] != [] then lk[m] else 0);
      }
    case Extension(ek, c) =>
      if ek <= k {
        CanonicalInsert(c, k[|ek|..], v);
      } else {
        var m := Matching(ek, k);
        var cs := NoChildren()[ek[m] := Wrap(ek[m + 1..], c)];
        CanonicalAddEntry(cs, [], k[m..], v, ek[m]);
      }
    case Branch(cs, bv) =>
      if k != [] {
        CanonicalInsert(cs[k[0]], k[1..], v);
        StillNeeded(cs, bv, k[0], Insert(cs[k[0]], k[1..], v));
      }
  }

  lemma {:induction false} StillNeeded(cs: seq<Tree>, v: Bytes, n: nat, t: Tree)
    requires n < |cs| && Needed(cs, v) && t != Empty
    ensures Needed(cs[n := t], v)
  {
    assert forall i :: NonEmpty(cs, i) ==> NonEmpty(cs[n := t], i);
  }

  lemma {:induction false} UniformInsert(t: Tree, k: Key, v: Bytes)
    requires Canonical(t) && Uniform(t, |k|)
    ensures Uniform(Insert(t, k, v), |k|)
  {
    match t
    case Empty =>
    case Leaf(lk, lv) =>
      if lk != k {
        SameTail(lk, k, Matching(lk, k));
      }
    case Extension(ek, c) =>
      if ek <= k {
        UniformInsert(c, k[|ek|..], v);
      } else {
        UniformSplitExtension(ek, c, k, v);
      }
    case Branch(cs, bv) =>
      UniformInsert(cs[k[0]], k[1..], v);
  }

  lemma {:induction false} UniformSplitExtension(ek: Key, c: Tree, k: Key, v: Bytes)
    requires |ek| <= |k| && !(ek <= k) && Uniform(c, |k| - |ek|)
    ensures Uniform(SplitExtension(ek, c, k, v), |k|)
  {
    var m := Matching(ek, k);
    assert Uniform(Wrap(ek[m + 1..], c), |k| - m - 1);
    var cs := NoChildren()[ek[m] := Wrap(ek[m + 1..], c)];
    assert Uniform(AddEntry(cs, [], k[m..], v), |k| - m);
  }
}
