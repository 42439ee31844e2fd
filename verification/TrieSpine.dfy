/** The stack of nodes between the root and a key: what findPath collects and saveStack rebuilds. */
module TrieSpine {
  import opened Base
  import opened Rlp
  import opened TrieModel
  import opened TrieDelete
  import opened TrieNode
  import opened TrieStore

  // ---------------------------------------------------------------------------- the search for a key

  /** The subtrees passed on the way to k. */
  function Ancestors(t: Tree, k: Key): (ts: seq<Tree>)
    ensures forall i :: 0 <= i < |ts| ==> ts[i] != Empty
  {
    match t
    case Empty => []
    case Leaf(_, _) => []
    case Extension(ek, c) => if ek <= k && c != Empty then [t] + Ancestors(c, k[|ek|..]) else []
    case Branch(cs, _) =>
      if k != [] && k[0] < |cs| && cs[k[0]] != Empty then [t] + Ancestors(cs[k[0]], k[1..]) else []
  }

  /** The subtree where the search for k ends. */
  function End(t: Tree, k: Key): (sub: Tree)
    ensures t != Empty ==> sub != Empty
  {
    match t
    case Empty => Empty
    case Leaf(_, _) => t
    case Extension(ek, c) => if ek <= k && c != Empty then End(c, k[|ek|..]) else t
    case Branch(cs, _) =>
      if k != [] && k[0] < |cs| && cs[k[0]] != Empty then End(cs[k[0]], k[1..]) else t
  }

  /** The search ends at the node of k. */
  predicate Found(t: Tree, k: Key) {
    match t
    case Empty => false
    case Leaf(lk, _) => lk == k
    case Extension(ek, c) => ek <= k && Found(c, k[|ek|..])
    case Branch(cs, _) => k == [] || (k[0] < |cs| && Found(cs[k[0]], k[1..]))
  }

  /** The part of k below the node where the search ends without finding it. */
  function Remaining(t: Tree, k: Key): Key {
    match t
    case Empty => []
    case Leaf(lk, _) => if lk == k then [] else k
    case Extension(ek, c) => if ek <= k then Remaining(c, k[|ek|..]) else k
    case Branch(cs, _) =>
      if k == [] then [] else if k[0] < |cs| && cs[k[0]] != Empty then Remaining(cs[k[0]], k[1..]) else k
  }

  function Nodes(hash: HashFunction, ts: seq<Tree>): (ns: seq<Node>)
    requires forall i :: 0 <= i < |ts| ==> ts[i] != Empty
  {
    if ts == [] then [] else [NodeOf(hash, ts[0])] + Nodes(hash, ts[1..])
  }

  lemma {:induction false} NodesAppend(hash: HashFunction, ts: seq<Tree>, t: Tree)
    requires t != Empty && forall i :: 0 <= i < |ts| ==> ts[i] != Empty
    ensures Nodes(hash, ts + [t]) == Nodes(hash, ts) + [NodeOf(hash, t)]
  {
    hide NodeOf;
    if ts == [] {
      assert ts + [t] == [t] && [t][1..] == [];
    } else {
      assert (ts + [t])[1..] == ts[1..] + [t];
      NodesAppend(hash, ts[1..], t);
    }
  }

  /** Where a search ends, it is known why: what is there, and what is left of the key. */
  ghost predicate EndsAt(sub: Tree, rest: Key, found: bool, remaining: Key) {
    match sub
    case Empty => false
    case Leaf(lk, _) => found == (lk == rest) && remaining == if found then [] else rest
    case Extension(ek, _) => !found && !(ek <= rest) && remaining == rest
    case Branch(cs, _) =>
      && found == (rest == []) && remaining == rest
      && (rest == [] || (|cs| == 16 && cs[rest[0]] == Empty))
  }

  /** The value of the node found is the value of the key. */
  lemma {:induction false} FoundValue(t: Tree, k: Key)
    requires Shaped(t)
    ensures !Found(t, k) ==> Lookup(t, k) == []
    ensures Found(t, k) ==> Remaining(t, k) == []
    ensures Found(t, k) ==> var sub := End(t, k); (sub.Leaf? || sub.Branch?) && sub.value == Lookup(t, k)
  {
    match t
    case Empty =>
    case Leaf(_, _) =>
    case Extension(ek, c) =>
      if ek <= k {
        FoundValue(c, k[|ek|..]);
      }
    case Branch(cs, _) =>
      if k != [] {
        FoundValue(cs[k[0]], k[1..]);
      }
  }

  // --------------------------------------------------------------------------------------- spines

  /** The way from the root down to a subtree: the ancestors, and the path each of them consumes. */
  datatype Spine = Top | Down(up: Spine, parent: Tree, seg: Key)

  function Path(z: Spine): Key {
    match z
    case Top => []
    case Down(up, _, seg) => Path(up) + seg
  }

  function Root(z: Spine, sub: Tree): Tree {
    match z
    case Top => sub
    case Down(up, parent, _) => Root(up, parent)
  }

  /** The path seg leads from t to its child. */
  ghost predicate Child(t: Tree, seg: Key, child: Tree) {
    match t
    case Empty => false
    case Leaf(_, _) => false
    case Extension(ek, c) => seg == ek && child == c
    case Branch(cs, _) => |cs| == 16 && |seg| == 1 && child == cs[seg[0]]
  }

  /** n is the node of t, up to the reference on the path seg. */
  ghost predicate Link(hash: HashFunction, puts: set<Bytes>, n: Node, t: Tree, seg: Key) {
    match t
    case Empty => false
    case Leaf(_, _) => false
    case Extension(ek, _) => n.ExtensionNode? && n.key == ek
    case Branch(cs, v) =>
      && n.BranchNode? && n.value == v && |n.refs| == |cs| == 16 && |seg| == 1
      && forall i :: 0 <= i < 16 && i != seg[0] ==> n.refs[i] == RefOf(hash, cs[i]) && Safe(hash, puts, cs[i])
  }

  /** A subtree whose reference can be followed, all the way down. */
  ghost predicate Safe(hash: HashFunction, puts: set<Bytes>, t: Tree) {
    Held(hash, puts, t) && Stored(hash, puts, t)
  }

  /** The stack holds the ancestors' nodes; the references on the path may be out of date. */
  ghost predicate Along(hash: HashFunction, puts: set<Bytes>, stack: seq<Node>, z: Spine, sub: Tree)
    decreases z
  {
    match z
    case Top => stack == []
    case Down(up, parent, seg) =>
      && stack != [] && Child(parent, seg, sub)
      && Link(hash, puts, stack[|stack| - 1], parent, seg)
      && Along(hash, puts, stack[..|stack| - 1], up, parent)
  }

  lemma {:induction false} AlongPush(hash: HashFunction, puts: set<Bytes>, stack: seq<Node>, z: Spine, sub: Tree,
                                     n: Node, seg: Key, child: Tree)
    requires Along(hash, puts, stack, z, sub)
    requires Child(sub, seg, child) && Link(hash, puts, n, sub, seg)
    ensures Along(hash, puts, stack + [n], Down(z, sub, seg), child)
  {
    assert (stack + [n])[..|stack|] == stack;
  }

  lemma {:induction false} AlongGrows(hash: HashFunction, puts: set<Bytes>, more: set<Bytes>, stack: seq<Node>,
                                      z: Spine, sub: Tree)
    requires puts <= more && Along(hash, puts, stack, z, sub)
    ensures Along(hash, more, stack, z, sub)
    decreases z
  {
    match z
    case Top =>
    case Down(up, parent, seg) =>
      LinkGrows(hash, puts, more, stack[|stack| - 1], parent, seg);
      AlongGrows(hash, puts, more, stack[..|stack| - 1], up, parent);
  }

  lemma {:induction false} LinkGrows(hash: HashFunction, puts: set<Bytes>, more: set<Bytes>, n: Node, t: Tree, seg: Key)
    requires puts <= more && Link(hash, puts, n, t, seg)
    ensures Link(hash, more, n, t, seg)
  {
    hide Encode, EncodeAll, RefOf;
    if t.Branch? {
      forall i | 0 <= i < 16 && i != seg[0] { StoredGrows(hash, puts, more, t.children[i]); }
    }
  }

  /** The node of t is linked to t on every path. */
  lemma {:induction false} NodeLinks(hash: HashFunction, puts: set<Bytes>, t: Tree, seg: Key, child: Tree)
    requires t != Empty && Child(t, seg, child) && Stored(hash, puts, t)
    ensures Link(hash, puts, NodeOf(hash, t), t, seg) && Safe(hash, puts, child)
  {
    hide Encode, EncodeAll;
  }

  /** The search for k below t has come to rest at z', with rest of k left. */
  ghost predicate Reached(hash: HashFunction, puts: set<Bytes>, stack: seq<Node>, z: Spine, t: Tree, k: Key, z': Spine,
                          rest: Key)
  {
    var sub := End(t, k);
    && Path(z) + k == Path(z') + rest && Root(z', sub) == Root(z, t)
    && Shaped(sub) && Stored(hash, puts, sub)
    && EndsAt(sub, rest, Found(t, k), Remaining(t, k))
    && Along(hash, puts, stack + Nodes(hash, Ancestors(t, k)), z', sub)
  }

  /** What encodes a part of a subtree encodes a part of the tree. */
  lemma {:induction false} PartOfWhole(hash: HashFunction, puts: set<Bytes>, stack: seq<Node>, z: Spine, sub: Tree)
    requires Along(hash, puts, stack, z, sub)
    ensures Encodings(hash, sub) <= Encodings(hash, Root(z, sub))
    decreases z
  {
    hide Encode, EncodeAll, Encoding, Link;
    match z
    case Top =>
    case Down(up, parent, _) =>
      PartOfWhole(hash, puts, stack[..|stack| - 1], up, parent);
  }

  /** The nodes a search visits before it ends are the spine to where it ends. */
  lemma {:induction false} VisitSpine(hash: HashFunction, puts: set<Bytes>, stack: seq<Node>, z: Spine, t: Tree, k: Key)
    returns (z': Spine, rest: Key)
    requires Shaped(t) && t != Empty && Stored(hash, puts, t) && Along(hash, puts, stack, z, t)
    ensures Reached(hash, puts, stack, z, t, k, z', rest)
    decreases t
  {
    hide Encode, EncodeAll, NodeOf, Along, Held;
    if t.Extension? && t.key <= k {
      z', rest := VisitNext(hash, puts, stack, z, t, k, t.key, t.child);
    } else if t.Branch? && k != [] && t.children[k[0]] != Empty {
      z', rest := VisitNext(hash, puts, stack, z, t, k, k[..1], t.children[k[0]]);
    } else {
      z', rest := z, k;
      assert End(t, k) == t && Ancestors(t, k) == [];
      assert EndsAt(t, k, Found(t, k), Remaining(t, k));
      assert stack + Nodes(hash, []) == stack;
    }
  }

  lemma {:induction false} VisitNext(hash: HashFunction, puts: set<Bytes>, stack: seq<Node>, z: Spine, t: Tree, k: Key,
                                     seg: Key, c: Tree)
    returns (z': Spine, rest: Key)
    requires Shaped(t) && t != Empty && Stored(hash, puts, t) && Along(hash, puts, stack, z, t)
    requires Child(t, seg, c) && c != Empty && seg <= k
    ensures Reached(hash, puts, stack, z, t, k, z', rest)
    decreases t, 0
  {
    hide Encode, EncodeAll, NodeOf, RefOf, Along, Link, Held, Shaped, Ancestors, End, Reached;
    var n := NodeOf(hash, t);
    OneStep(t, k, seg, c);
    NodeLinks(hash, puts, t, seg, c);
    AlongPush(hash, puts, stack, z, t, n, seg, c);
    z', rest := VisitSpine(hash, puts, stack + [n], Down(z, t, seg), c, k[|seg|..]);
    ReachedStep(hash, puts, stack, z, t, k, seg, c, z', rest);
  }

  lemma {:induction false} ReachedStep(hash: HashFunction, puts: set<Bytes>, stack: seq<Node>, z: Spine, t: Tree,
                                       k: Key, seg: Key, c: Tree, z': Spine, rest: Key)
    requires Shaped(t) && t != Empty && Child(t, seg, c) && c != Empty && seg <= k
    requires Reached(hash, puts, stack + [NodeOf(hash, t)], Down(z, t, seg), c, k[|seg|..], z', rest)
    ensures Reached(hash, puts, stack, z, t, k, z', rest)
  {
    hide Encode, EncodeAll, NodeOf, Nodes, Path, Along, EndsAt, Shaped, Child, Ancestors, End, Found, Remaining, Stored;
    var k' := k[|seg|..];
    OneStep(t, k, seg, c);
    PathStep(z, t, seg, k);
    NodesCons(hash, stack, t, Ancestors(c, k'));
  }

  lemma {:induction false} PathStep(z: Spine, t: Tree, seg: Key, k: Key)
    requires seg <= k
    ensures Path(Down(z, t, seg)) + k[|seg|..] == Path(z) + k
  {
    assert k == seg + k[|seg|..];
  }

  lemma {:induction false} NodesCons(hash: HashFunction, stack: seq<Node>, t: Tree, ts: seq<Tree>)
    requires t != Empty && forall i :: 0 <= i < |ts| ==> ts[i] != Empty
    ensures stack + Nodes(hash, [t] + ts) == stack + [NodeOf(hash, t)] + Nodes(hash, ts)
  {
    hide NodeOf;
    assert ([t] + ts)[1..] == ts;
    assert Nodes(hash, [t] + ts) == [NodeOf(hash, t)] + Nodes(hash, ts);
  }

  lemma {:induction false} OneStep(t: Tree, k: Key, seg: Key, c: Tree)
    requires t != Empty && Shaped(t) && Child(t, seg, c) && c != Empty && seg <= k
    ensures Ancestors(t, k) == [t] + Ancestors(c, k[|seg|..]) && End(t, k) == End(c, k[|seg|..]) && Shaped(c)
    ensures Found(t, k) == Found(c, k[|seg|..]) && Remaining(t, k) == Remaining(c, k[|seg|..])
  {
  }

  /** The number of nibbles the nodes of a stack consume. */
  function PathLength(stack: seq<Node>): nat {
    if stack == [] then 0
    else PathLength(stack[..|stack| - 1]) +
         (if stack[|stack| - 1].BranchNode? then 1 else |stack[|stack| - 1].key|)
  }

  lemma {:induction false} AlongLength(hash: HashFunction, puts: set<Bytes>, stack: seq<Node>, z: Spine, sub: Tree)
    requires Along(hash, puts, stack, z, sub)
    ensures PathLength(stack) == |Path(z)|
    decreases z
  {
    match z
    case Top =>
    case Down(up, parent, seg) => AlongLength(hash, puts, stack[..|stack| - 1], up, parent);
  }

  // ------------------------------------------------------------------------- changes below a spine

  /** t with another child on the path seg. */
  function WithChild(t: Tree, seg: Key, child: Tree): Tree {
    match t
    case Extension(ek, _) => Extension(ek, child)
    case Branch(cs, v) => if seg != [] && seg[0] < |cs| then Branch(cs[seg[0] := child], v) else t
    case _ => t
  }

  function Replace(z: Spine, sub: Tree): Spine {
    match z
    case Top => Top
    case Down(up, parent, seg) =>
      var p := WithChild(parent, seg, sub);
      Down(Replace(up, p), p, seg)
  }

  lemma {:induction false} LinkReplace(hash: HashFunction, puts: set<Bytes>, n: Node, t: Tree, seg: Key, child: Tree,
                                       child': Tree)
    requires Child(t, seg, child) && Link(hash, puts, n, t, seg)
    ensures Child(WithChild(t, seg, child'), seg, child')
    ensures Link(hash, puts, n, WithChild(t, seg, child'), seg)
  {
    hide Encode, EncodeAll, RefOf, Safe;
  }

  lemma {:induction false} AlongReplace(hash: HashFunction, puts: set<Bytes>, stack: seq<Node>, z: Spine, sub: Tree,
                                        sub': Tree)
    requires Along(hash, puts, stack, z, sub)
    ensures Along(hash, puts, stack, Replace(z, sub'), sub')
    ensures Path(Replace(z, sub')) == Path(z)
    decreases z
  {
    match z
    case Top =>
    case Down(up, parent, seg) =>
      LinkReplace(hash, puts, stack[|stack| - 1], parent, seg, sub, sub');
      AlongReplace(hash, puts, stack[..|stack| - 1], up, parent, WithChild(parent, seg, sub'));
  }

  lemma {:induction false} InsertChild(t: Tree, seg: Key, child: Tree, rest: Key, v: Bytes)
    requires Child(t, seg, child)
    ensures Insert(t, seg + rest, v) == WithChild(t, seg, Insert(child, rest, v))
  {
    assert (seg + rest)[|seg|..] == rest;
  }

  /** An insertion below a spine is an insertion into the whole tree. */
  lemma {:induction false} InsertBelow(hash: HashFunction, puts: set<Bytes>, stack: seq<Node>, z: Spine, sub: Tree,
                                       rest: Key, v: Bytes)
    requires Along(hash, puts, stack, z, sub)
    ensures var sub' := Insert(sub, rest, v);
            Root(Replace(z, sub'), sub') == Insert(Root(z, sub), Path(z) + rest, v)
    decreases z
  {
    hide Encode, EncodeAll, Insert, Link, Stored;
    match z
    case Top => assert Path(z) + rest == rest;
    case Down(up, parent, seg) =>
      InsertChild(parent, seg, sub, rest, v);
      InsertBelow(hash, puts, stack[..|stack| - 1], up, parent, seg + rest, v);
      assert Path(z) + rest == Path(up) + (seg + rest);
  }

  lemma {:induction false} RemoveChild(t: Tree, seg: Key, child: Tree, rest: Key)
    requires Child(t, seg, child) && child != Empty && Remove(child, rest) != Empty
    requires t.Extension? ==> Remove(child, rest).Branch? && seg != []
    ensures Remove(t, seg + rest) == WithChild(t, seg, Remove(child, rest))
  {
    assert (seg + rest)[|seg|..] == rest;
  }

  /**
    * A removal below a spine is the removal from the whole tree, if it leaves something,
    * and leaves a branch wherever the parent is an extension.
    */
  lemma {:induction false} RemoveBelow(hash: HashFunction, puts: set<Bytes>, stack: seq<Node>, z: Spine, sub: Tree,
                                       rest: Key)
    requires Along(hash, puts, stack, z, sub) && Shaped(Root(z, sub)) && sub != Empty && Remove(sub, rest) != Empty
    requires z.Down? && z.parent.Extension? ==> Remove(sub, rest).Branch?
    ensures var sub' := Remove(sub, rest);
            Root(Replace(z, sub'), sub') == Remove(Root(z, sub), Path(z) + rest)
    decreases z
  {
    hide Encode, EncodeAll, Remove, Link, Stored;
    match z
    case Top => assert Path(z) + rest == rest;
    case Down(up, parent, seg) =>
      ShapedBelow(hash, puts, stack[..|stack| - 1], up, parent);
      RemoveChild(parent, seg, sub, rest);
      if up.Down? {
        ShapedBelow(hash, puts, stack[..|stack| - 1][..|stack| - 2], up.up, up.parent);
      }
      RemoveBelow(hash, puts, stack[..|stack| - 1], up, parent, seg + rest);
      assert Path(z) + rest == Path(up) + (seg + rest);
  }

  lemma {:induction false} ShapedBelow(hash: HashFunction, puts: set<Bytes>, stack: seq<Node>, z: Spine, sub: Tree)
    requires Along(hash, puts, stack, z, sub) && Shaped(Root(z, sub))
    ensures Shaped(sub)
    decreases z
  {
    match z
    case Top =>
    case Down(up, parent, seg) => ShapedBelow(hash, puts, stack[..|stack| - 1], up, parent);
  }
}
