/**
  * How a denoted tree is laid out: the node of each subtree, the reference its parent keeps
  * (inlined below 32 bytes, otherwise a hash), and which encodings must be in the store.
  */
module TrieStore {
  import opened Base
  import opened Rlp
  import opened TrieModel
  import opened TrieDelete
  import opened TrieNode

  type HashFunction = f: Bytes -> Bytes | forall x :: |f(x)| == 32 witness ((x: Bytes) => Zeros(32))

  /** The encoding of the empty string, whose hash stands for the empty trie. */
  const RLP_EMPTY_STRING: Bytes := [0x80]

  /** Paths and values stay below this bound, so that every node fits RLP's length limit. */
  const LIMIT: nat := 0x20_0000_0000_0000

  function NodeOf(hash: HashFunction, t: Tree): (n: Node)
    requires t != Empty
    ensures n.BranchNode? <==> t.Branch?
    ensures n.BranchNode? ==> |n.refs| == |t.children|
    decreases t, 0
  {
    match t
    case Leaf(k, v) => LeafNode(k, v)
    case Extension(k, c) => ExtensionNode(k, RefOf(hash, c))
    case Branch(cs, v) =>
      BranchNode(seq(|cs|, i requires 0 <= i < |cs| => RefOf(hash, cs[i])), v)
  }

  function Encoding(hash: HashFunction, t: Tree): Bytes
    requires t != Empty
    decreases t, 1
  {
    Serialize(NodeOf(hash, t))
  }

  function RefOf(hash: HashFunction, t: Tree): Item
    decreases t, 2
  {
    if t == Empty then NO_REF
    else if |Encoding(hash, t)| < 32 then Raw(NodeOf(hash, t))
    else Str(hash(Encoding(hash, t)))
  }

  function RootOf(hash: HashFunction, t: Tree): Bytes {
    hash(if t == Empty then RLP_EMPTY_STRING else Encoding(hash, t))
  }

  /**
    * What is hashed and stored for a subtree (the functions c and n of Appendix D of the Yellow Paper): path
    * and value, path and child, or sixteen children and a value.
    */
  lemma {:induction false} EncodingForm(hash: HashFunction, t: Tree)
    ensures t.Leaf? ==> Encoding(hash, t) == Encode(List([Str(EncodedKey(t.key, true)), Str(t.value)]))
    ensures t.Extension? ==> Encoding(hash, t) == Encode(List([Str(EncodedKey(t.key, false)), RefOf(hash, t.child)]))
    ensures t.Branch? ==>
              exists refs :: |refs| == |t.children| && Encoding(hash, t) == Encode(List(refs + [Str(t.value)]))
                             && forall i :: 0 <= i < |refs| ==> refs[i] == RefOf(hash, t.children[i])
  {
    hide Encode, EncodedKey;
    if t.Branch? {
      var refs := NodeOf(hash, t).refs;
      assert Encoding(hash, t) == Encode(List(refs + [Str(t.value)]));
    }
  }

  /**
    * How a subtree is referred to: an absent one as the empty string, one whose form is shorter than 32 bytes
    * by that form itself, any other by its hash. The root is always hashed, that of an empty trie from 80.
    */
  lemma {:induction false} ReferenceForm(hash: HashFunction, t: Tree)
    ensures t == Empty ==> RefOf(hash, t) == Str([]) && RootOf(hash, t) == hash([128])
    ensures t != Empty ==> RootOf(hash, t) == hash(Encoding(hash, t))
    ensures t != Empty && |Encoding(hash, t)| < 32 ==>
              RefOf(hash, t).List? && Encode(RefOf(hash, t)) == Encoding(hash, t)
    ensures t != Empty && |Encoding(hash, t)| >= 32 ==> RefOf(hash, t) == Str(hash(Encoding(hash, t)))
  {
    hide Encode, EncodedKey;
  }

  lemma {:induction false} LeafExamplePayload()
    ensures EncodeAll([Str([0x20, 0x12]), Str([0x61])]) == [0x82, 0x20, 0x12, 0x61]
    ensures AllSized([Str([0x20, 0x12]), Str([0x61])])
  {
    hide Encode, EncodeAll, Power256;
    Power256Eight();
    var path, value := Str([0x20, 0x12]), Str([0x61]);
    EncodeForm(path);
    EncodeForm(value);
    PayloadForm(value, []);
    PayloadForm(path, [value]);
    assert [value] + [] == [value] && [path] + [value] == [path, value];
    assert [path, value][1..] == [value] && [value][1..] == [];
  }

  lemma {:induction false} LeafExamplePath(k: Key)
    requires k == [1, 2]
    ensures EncodedKey(k, true) == [0x20, 0x12]
  {
    hide EncodedKey;
    EncodedKeyForm(k, true);
    var b, i := EncodedKey(k, true), 0;
    assert k[2 * i] == 1 && k[2 * i + 1] == 2;
    assert b[1 + i] == 0x12;
    assert b == [b[0], b[1]];
  }

  /** A trie with the one value 61 at the key 12 is hashed from the bytes c4 82 20 12 61. */
  lemma {:induction false} LeafExample(hash: HashFunction, t: Tree)
    requires t == Leaf([1, 2], [0x61])
    ensures RootOf(hash, t) == hash([0xc4, 0x82, 0x20, 0x12, 0x61])
  {
    hide Encoding, EncodedKey, Encode, EncodeAll, RootOf, RefOf, AllSized, Power256;
    var x := List([Str([0x20, 0x12]), Str([0x61])]);
    assert Encoding(hash, t) == Encode(x) by {
      EncodingForm(hash, t);
      LeafExamplePath(t.key);
    }
    assert Encode(x) == [0xc4, 0x82, 0x20, 0x12, 0x61] by {
      LeafExamplePayload();
      Power256Eight();
      EncodeForm(x);
    }
    ReferenceForm(hash, t);
  }

  lemma {:induction false} PresentRef(hash: HashFunction, t: Tree)
    ensures Present(RefOf(hash, t)) <==> t != Empty
    ensures t == Empty ==> RefOf(hash, t) == NO_REF
  {
    hide Encode, EncodeAll;
    if t != Empty && |Encoding(hash, t)| < 32 && t.Branch? {
      assert |Raw(NodeOf(hash, t)).items| > 0;
    }
  }

  // -------------------------------------------------------------------------------------- sizes

  ghost predicate Fits(t: Tree, n: nat) {
    match t
    case Empty => true
    case Leaf(k, v) => |k| <= n && |v| < LIMIT
    case Extension(k, c) => |k| <= n && Fits(c, n - |k|)
    case Branch(cs, v) => |cs| == 16 && |v| < LIMIT && n > 0 && forall i :: 0 <= i < 16 ==> Fits(cs[i], n - 1)
  }

  lemma {:induction false} StringSize(b: Bytes)
    requires |b| < Power256(8)
    ensures |Encode(Str(b))| <= |b| + 9
  {
    if |b| >= 56 {
      LongHeader(|b|, 128, []);
      assert Header(|b|, 128) + [] == Header(|b|, 128);
    }
  }

  lemma {:induction false} ItemsSize(xs: seq<Item>, bound: nat, total: nat)
    requires forall i :: 0 <= i < |xs| ==> ItemSize(xs[i], bound)
    requires total == |xs| * bound
    ensures |EncodeAll(xs)| <= total && AllSized(xs)
  {
    if xs != [] {
      var rest := total - bound;
      assert rest == (|xs| - 1) * bound && rest >= 0;
      assert ItemSize(xs[0], bound);
      ItemsSize(xs[1..], bound, rest);
    }
  }

  ghost predicate ItemSize(x: Item, bound: nat) {
    |Encode(x)| <= bound && Sized(x)
  }

  lemma {:induction false} RawSized(n: Node)
    requires |Raw(n).items| <= 17
    requires forall i :: 0 <= i < |Raw(n).items| ==> ItemSize(Raw(n).items[i], LIMIT + 10)
    ensures Sized(Raw(n))
  {
    Power256Eight();
    var xs := Raw(n).items;
    assert |xs| * (LIMIT + 10) < Power256(8);
    ItemsSize(xs, LIMIT + 10, |xs| * (LIMIT + 10));
  }

  lemma {:induction false} StringItemSize(b: Bytes)
    requires |b| <= LIMIT + 1
    ensures ItemSize(Str(b), LIMIT + 10)
  {
    Power256Eight();
    StringSize(b);
  }

  lemma {:induction false} NodeFits(hash: HashFunction, t: Tree, n: nat)
    requires t != Empty && Fits(t, n) && n <= LIMIT
    ensures Sized(Raw(NodeOf(hash, t)))
    decreases t, 0
  {
    match t
    case Leaf(k, v) =>
      StringItemSize(EncodedKey(k, true));
      StringItemSize(v);
      RawSized(NodeOf(hash, t));
    case Extension(k, c) =>
      StringItemSize(EncodedKey(k, false));
      RefFits(hash, c, n - |k|);
      RawSized(NodeOf(hash, t));
    case Branch(cs, v) =>
      forall i | 0 <= i < 16 { RefFits(hash, cs[i], n - 1); }
      StringItemSize(v);
      RawSized(NodeOf(hash, t));
  }

  lemma {:induction false} RefFits(hash: HashFunction, t: Tree, n: nat)
    requires Fits(t, n) && n <= LIMIT
    ensures ItemSize(RefOf(hash, t), LIMIT + 10)
    decreases t, 1
  {
    if t == Empty {
      StringItemSize([]);
    } else {
      NodeFits(hash, t, n);
      StringItemSize(hash(Encoding(hash, t)));
    }
  }

  lemma {:induction false} FitsInsert(t: Tree, k: Key, v: Bytes, n: nat)
    requires Shaped(t) && Fits(t, n) && |k| <= n && |v| < LIMIT
    ensures Fits(Insert(t, k, v), n)
  {
    match t
    case Empty =>
    case Leaf(lk, lv) =>
      if lk != k {
        FitsSplitLeaf(lk, lv, k, v, n);
      }
    case Extension(ek, c) =>
      if ek <= k {
        FitsInsert(c, k[|ek|..], v, n - |ek|);
      } else {
        FitsSplitExtension(ek, c, k, v, n);
      }
    case Branch(cs, bv) =>
      if k != [] {
        FitsInsert(cs[k[0]], k[1..], v, n - 1);
      }
  }

  lemma {:induction false} FitsSplitLeaf(lk: Key, lv: Bytes, k: Key, v: Bytes, n: nat)
    requires |lk| <= n && |k| <= n && |v| < LIMIT && |lv| < LIMIT && lk != k
    ensures Fits(SplitLeaf(lk, lv, k, v), n)
  {
    var m := Matching(lk, k);
    SameTail(lk, k, m);
    assert Fits(AddEntry(NoChildren(), [], lk[m..], lv), n - m);
  }

  lemma {:induction false} FitsSplitExtension(ek: Key, c: Tree, k: Key, v: Bytes, n: nat)
    requires |ek| <= n && |k| <= n && |v| < LIMIT && !(ek <= k) && Fits(c, n - |ek|)
    ensures Fits(SplitExtension(ek, c, k, v), n)
  {
    var m := Matching(ek, k);
    assert Fits(Wrap(ek[m + 1..], c), n - m - 1);
    var cs := NoChildren()[ek[m] := Wrap(ek[m + 1..], c)];
    assert Fits(AddEntry(cs, [], k[m..], v), n - m);
  }

  lemma {:induction false} FitsPrepend(p: Key, t: Tree, n: nat)
    requires |p| <= n && Fits(t, n - |p|)
    ensures Fits(Prepend(p, t), n)
  {
  }

  lemma {:induction false} FitsCollapse(cs: seq<Tree>, v: Bytes, n: nat)
    requires Fits(Branch(cs, v), n)
    ensures Fits(Collapse(cs, v), n)
  {
    if i: Nibble :| Only(cs, i) {
      assert forall j: Nibble :: Only(cs, j) ==> j == i;
      FitsPrepend([i], cs[i], n);
    }
  }

  lemma {:induction false} FitsRemove(t: Tree, k: Key, n: nat)
    requires Fits(t, n)
    ensures Fits(Remove(t, k), n)
  {
    match t
    case Empty =>
    case Leaf(_, _) =>
    case Extension(ek, c) =>
      if ek <= k {
        FitsRemove(c, k[|ek|..], n - |ek|);
        FitsPrepend(ek, Remove(c, k[|ek|..]), n);
      }
    case Branch(cs, v) =>
      if k == [] {
        FitsCollapse(cs, v, n);
      } else if cs[k[0]] != Empty {
        FitsRemove(cs[k[0]], k[1..], n - 1);
        if Remove(cs[k[0]], k[1..]) == Empty {
          FitsCollapse(cs[k[0] := Empty], v, n);
        }
      }
  }

  // ------------------------------------------------------------------------------- what is stored

  /** No two of the stored strings share a hash, and none shares the hash of the empty string. */
  ghost predicate CollisionFree(hash: HashFunction, strings: set<Bytes>) {
    && (forall a, b :: a in strings && b in strings && hash(a) == hash(b) ==> a == b)
    && (forall a :: a in strings && hash(a) == hash(RLP_EMPTY_STRING) ==> a == RLP_EMPTY_STRING)
  }

  lemma {:induction false} HashInjective(hash: HashFunction, puts: set<Bytes>, a: Bytes, b: Bytes)
    requires CollisionFree(hash, puts) && a in puts && b in puts && hash(a) == hash(b)
    ensures a == b
  {
  }

  /** A child can be followed: it is absent, inlined, or its encoding was put in the store. */
  ghost predicate Held(hash: HashFunction, puts: set<Bytes>, t: Tree) {
    t == Empty || |Encoding(hash, t)| < 32 || Encoding(hash, t) in puts
  }

  /** Everything below t can be followed. */
  ghost predicate Stored(hash: HashFunction, puts: set<Bytes>, t: Tree) {
    match t
    case Empty => true
    case Leaf(_, _) => true
    case Extension(_, c) => Held(hash, puts, c) && Stored(hash, puts, c)
    case Branch(cs, _) =>
      forall i :: 0 <= i < |cs| ==> Held(hash, puts, cs[i]) && Stored(hash, puts, cs[i])
  }

  ghost predicate Rooted(hash: HashFunction, puts: set<Bytes>, t: Tree) {
    t != Empty ==> Encoding(hash, t) in puts && Stored(hash, puts, t) && Fits(t, LIMIT)
  }

  /** The encodings of all non-empty subtrees strictly below t. */
  ghost function EncodingsBelow(hash: HashFunction, t: Tree): set<Bytes>
    decreases t, 0
  {
    match t
    case Empty => {}
    case Leaf(_, _) => {}
    case Extension(_, c) => Encodings(hash, c)
    case Branch(cs, _) => set i, e | 0 <= i < |cs| && e in Encodings(hash, cs[i]) :: e
  }

  /** The encodings of all non-empty subtrees of t. */
  ghost function Encodings(hash: HashFunction, t: Tree): set<Bytes>
    decreases t, 1
  {
    if t == Empty then {} else {Encoding(hash, t)} + EncodingsBelow(hash, t)
  }

  lemma {:induction false} StoredGrows(hash: HashFunction, puts: set<Bytes>, more: set<Bytes>, t: Tree)
    requires puts <= more && Stored(hash, puts, t)
    ensures Stored(hash, more, t)
  {
    match t
    case Empty =>
    case Leaf(_, _) =>
    case Extension(_, c) => StoredGrows(hash, puts, more, c);
    case Branch(cs, _) =>
      forall i | 0 <= i < |cs| { StoredGrows(hash, puts, more, cs[i]); }
  }

  /** Old roots stay readable: a tree once rooted stays so while the store only grows. */
  lemma {:induction false} RootedGrows(hash: HashFunction, puts: set<Bytes>, more: set<Bytes>, t: Tree)
    requires puts <= more && Rooted(hash, puts, t)
    ensures Rooted(hash, more, t)
  {
    if t != Empty {
      StoredGrows(hash, puts, more, t);
    }
  }

  function LookupNode(db: map<Bytes, Bytes>, ref: Item): Result<Node, NodeError> {
    match ref
    case List(_) => DecodeRaw(ref)
    case Str(h) => if h in db then DecodeNode(db[h]) else Err(MissingNode)
  }

  /** The store answers each hash with the last string put under it. */
  ghost predicate Holds(hash: HashFunction, puts: set<Bytes>, db: map<Bytes, Bytes>) {
    && (forall e :: e in puts ==> hash(e) in db)
    && (forall h :: h in db ==> db[h] in puts && hash(db[h]) == h)
  }

  lemma {:induction false} HeldString(hash: HashFunction, puts: set<Bytes>, db: map<Bytes, Bytes>, e: Bytes)
    requires Holds(hash, puts, db) && CollisionFree(hash, puts) && e in puts
    ensures hash(e) in db && db[hash(e)] == e
  {
  }

  lemma {:induction false} FollowHash(hash: HashFunction, puts: set<Bytes>, db: map<Bytes, Bytes>, n: Node)
    requires Holds(hash, puts, db) && CollisionFree(hash, puts)
    requires (n.BranchNode? ==> |n.refs| == 16) && Sized(Raw(n)) && Serialize(n) in puts
    ensures LookupNode(db, Str(hash(Serialize(n)))) == Ok(n)
  {
    HeldString(hash, puts, db, Serialize(n));
    DecodeOfSerialize(n);
  }

  /** Inlined or hashed, the reference to a subtree leads to the node of that subtree. */
  lemma {:induction false} FollowReference(hash: HashFunction, puts: set<Bytes>, db: map<Bytes, Bytes>, t: Tree, n: nat)
    requires Holds(hash, puts, db) && CollisionFree(hash, puts)
    requires t != Empty && Fits(t, n) && n <= LIMIT && Held(hash, puts, t)
    ensures LookupNode(db, RefOf(hash, t)) == Ok(NodeOf(hash, t))
  {
    hide Encode, EncodeAll, Decode, Sized, CollisionFree, Holds;
    var node := NodeOf(hash, t);
    NodeFits(hash, t, n);
    if |Encoding(hash, t)| < 32 {
      DecodeOfRaw(node);
    } else {
      FollowHash(hash, puts, db, node);
    }
  }

  lemma {:induction false} FollowRoot(hash: HashFunction, puts: set<Bytes>, db: map<Bytes, Bytes>, t: Tree)
    requires Holds(hash, puts, db) && CollisionFree(hash, puts)
    requires t != Empty && Rooted(hash, puts, t)
    ensures LookupNode(db, Str(RootOf(hash, t))) == Ok(NodeOf(hash, t))
  {
    hide Encode, EncodeAll, Decode, Sized;
    NodeFits(hash, t, LIMIT);
    FollowHash(hash, puts, db, NodeOf(hash, t));
  }

  lemma {:induction false} EncodingIsNoString(hash: HashFunction, t: Tree, n: nat)
    requires t != Empty && Fits(t, n) && n <= LIMIT
    ensures Encoding(hash, t) != RLP_EMPTY_STRING
  {
    NodeFits(hash, t, n);
    DecodeOfSerialize(NodeOf(hash, t));
  }

  lemma {:induction false} RootNotEmpty(hash: HashFunction, puts: set<Bytes>, t: Tree)
    requires CollisionFree(hash, puts)
    requires t != Empty && Rooted(hash, puts, t)
    ensures RootOf(hash, t) != RootOf(hash, Empty)
  {
    EncodingIsNoString(hash, t, LIMIT);
  }

  // ------------------------------------------------------------------- the root determines the tree

  lemma {:induction false} EncodingIsNode(hash: HashFunction, s: Tree, t: Tree, n: nat)
    requires n <= LIMIT && s != Empty && Fits(s, n) && t != Empty && Fits(t, n)
    requires Encoding(hash, s) == Encoding(hash, t)
    ensures NodeOf(hash, s) == NodeOf(hash, t)
  {
    hide Encode, EncodeAll, Sized;
    NodeFits(hash, s, n);
    NodeFits(hash, t, n);
    SerializeInjective(NodeOf(hash, s), NodeOf(hash, t));
  }

  lemma {:induction false} EncodingInjective(hash: HashFunction, puts: set<Bytes>, s: Tree, t: Tree, n: nat)
    requires CollisionFree(hash, puts) && n <= LIMIT
    requires s != Empty && Fits(s, n) && Stored(hash, puts, s)
    requires t != Empty && Fits(t, n) && Stored(hash, puts, t)
    requires Encoding(hash, s) == Encoding(hash, t)
    ensures s == t
    decreases s, 0
  {
    hide Encode, EncodeAll, CollisionFree;
    EncodingIsNode(hash, s, t, n);
    match s
    case Leaf(_, _) =>
    case Extension(k, c) =>
      RefInjective(hash, puts, c, t.child, n - |k|);
    case Branch(cs, _) =>
      forall i | 0 <= i < 16 ensures cs[i] == t.children[i] {
        assert NodeOf(hash, s).refs[i] == NodeOf(hash, t).refs[i];
        RefInjective(hash, puts, cs[i], t.children[i], n - 1);
      }
  }

  lemma {:induction false} RefInjective(hash: HashFunction, puts: set<Bytes>, s: Tree, t: Tree, n: nat)
    requires CollisionFree(hash, puts) && n <= LIMIT
    requires Fits(s, n) && Held(hash, puts, s) && Stored(hash, puts, s)
    requires Fits(t, n) && Held(hash, puts, t) && Stored(hash, puts, t)
    requires RefOf(hash, s) == RefOf(hash, t)
    ensures s == t
    decreases s, 1
  {
    hide Encode, EncodeAll, CollisionFree, Stored, Fits;
    if s != Empty && t != Empty {
      if |Encoding(hash, s)| >= 32 && |Encoding(hash, t)| >= 32 {
        HashInjective(hash, puts, Encoding(hash, s), Encoding(hash, t));
      }
      EncodingInjective(hash, puts, s, t, n);
    }
  }

  /** Equal roots mean equal trees, as long as no two stored strings share a hash. */
  lemma {:induction false} RootInjective(hash: HashFunction, puts: set<Bytes>, s: Tree, t: Tree)
    requires CollisionFree(hash, puts)
    requires Rooted(hash, puts, s) && Rooted(hash, puts, t)
    ensures RootOf(hash, s) == RootOf(hash, t) <==> s == t
  {
    hide Encode, EncodeAll, Stored, Fits, Encoding;
    if s == Empty && t != Empty {
      RootNotEmpty(hash, puts, t);
    } else if s != Empty && t == Empty {
      RootNotEmpty(hash, puts, s);
    } else if s != Empty && RootOf(hash, s) == RootOf(hash, t) {
      HashInjective(hash, puts, Encoding(hash, s), Encoding(hash, t));
      EncodingInjective(hash, puts, s, t, LIMIT);
    }
  }
}
