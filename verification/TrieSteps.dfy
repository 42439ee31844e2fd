/** The steps of the trie's walk, of its updates and of saving a stack, said of trees and spines. */
module TrieSteps {
  import opened Base
  import opened Rlp
  import opened TrieModel
  import opened TrieDelete
  import opened TrieNode
  import opened TrieStore
  import opened TrieSpine

  /** What findPath returns: the node of the key if there is one, else what is left of the key. */
  datatype PathResult = PathResult(node: Option<Node>, remaining: Key, stack: seq<Node>)

  datatype PutOp = PutOp(key: Bytes, value: Bytes)

  ghost function Values(ops: seq<PutOp>): set<Bytes> {
    set op | op in ops :: op.value
  }

  /** Every pending write stores a node encoding under its own hash. */
  ghost predicate Addressed(hash: HashFunction, ops: seq<PutOp>) {
    forall op :: op in ops ==> op.key == hash(op.value) && op.value != RLP_EMPTY_STRING
  }

  ghost function OwnKey(t: Tree): Key {
    match t
    case Leaf(k, _) => k
    case Extension(k, _) => k
    case _ => []
  }

  /** n with the reference on the path seg replaced. */
  function SetRef(n: Node, seg: Key, ref: Item): Node {
    match n
    case LeafNode(_, _) => n
    case ExtensionNode(k, _) => ExtensionNode(k, ref)
    case BranchNode(refs, v) => if seg != [] && seg[0] < |refs| then BranchNode(refs[seg[0] := ref], v) else n
  }

  /** Once the reference on the path is brought up to date, a linked node is the node of its tree. */
  lemma {:induction false} LinkComplete(hash: HashFunction, puts: set<Bytes>, n: Node, t: Tree, seg: Key, child: Tree)
    requires t != Empty && Link(hash, puts, n, t, seg) && Child(t, seg, child) && Safe(hash, puts, child)
    ensures SetRef(n, seg, RefOf(hash, child)) == NodeOf(hash, t)
    ensures Stored(hash, puts, t)
  {
    hide Encode, EncodeAll, Encodings, EncodingsBelow, RefOf, Held;
    if t.Branch? {
      var m := SetRef(n, seg, RefOf(hash, child));
      assert m.refs == NodeOf(hash, t).refs;
    }
  }

  lemma {:induction false} NodeIsNoString(n: Node)
    ensures Serialize(n) != RLP_EMPTY_STRING
  {
    var payload := EncodeAll(Raw(n).items);
    assert Serialize(n) == Header(|payload|, 192) + payload;
    if |payload| < 56 {
      assert Header(|payload|, 192)[0] >= 192;
    } else {
      assert |Serialize(n)| > 1;
    }
  }

  // ----------------------------------------------------------------------------- lemmas for the walk

  datatype Next = Stop(found: bool, remaining: Key) | Follow(progress: nat, ref: Item)

  ghost function SearchResult(hash: HashFunction, t: Tree, k: Key): PathResult
    requires t != Empty
  {
    var last := NodeOf(hash, End(t, k));
    PathResult(if Found(t, k) then Some(last) else None, Remaining(t, k), Nodes(hash, Ancestors(t, k)) + [last])
  }

  /** The walk has passed the subtrees seen and stands before cur. */
  ghost predicate SoFar(hash: HashFunction, t: Tree, k: Key, progress: nat, cur: Tree, seen: seq<Tree>,
                        stack: seq<Node>) {
    && progress <= |k|
    && (forall i :: 0 <= i < |seen| ==> seen[i] != Empty)
    && stack == Nodes(hash, seen)
    && Ancestors(t, k) == seen + Ancestors(cur, k[progress..])
    && End(t, k) == End(cur, k[progress..])
    && Found(t, k) == Found(cur, k[progress..])
    && Remaining(t, k) == Remaining(cur, k[progress..])
  }

  lemma {:induction false} SearchStarts(hash: HashFunction, t: Tree, k: Key)
    ensures SoFar(hash, t, k, 0, t, [], [])
  {
    assert k[0..] == k && [] + Ancestors(t, k) == Ancestors(t, k);
  }

  lemma {:induction false} SearchEnds(hash: HashFunction, t: Tree, k: Key, progress: nat, cur: Tree, seen: seq<Tree>,
                                      stack: seq<Node>)
    requires t != Empty && cur != Empty && SoFar(hash, t, k, progress, cur, seen, stack)
    requires End(cur, k[progress..]) == cur && Ancestors(cur, k[progress..]) == []
    ensures SearchResult(hash, t, k) ==
            PathResult(if Found(cur, k[progress..]) then Some(NodeOf(hash, cur)) else None,
                       Remaining(cur, k[progress..]), stack + [NodeOf(hash, cur)])
  {
    hide NodeOf, Nodes, Ancestors, End, Found, Remaining;
    assert seen + [] == seen;
  }

  /** Where the walk stops: at a leaf, at an extension that does not match, at a branch with nothing on the path. */
  ghost predicate Stops(cur: Tree, rest: Key) {
    match cur
    case Empty => false
    case Leaf(_, _) => true
    case Extension(k, _) => !(k <= rest)
    case Branch(cs, _) => rest == [] || (rest[0] < |cs| && cs[rest[0]] == Empty)
  }

  lemma {:induction false} WalkStops(cur: Tree, rest: Key)
    requires Stops(cur, rest)
    ensures End(cur, rest) == cur && Ancestors(cur, rest) == []
    ensures Found(cur, rest) <==> (cur.Leaf? && cur.key == rest) || (cur.Branch? && rest == [])
    ensures Remaining(cur, rest) == if Found(cur, rest) then [] else rest
  {
  }

  lemma {:induction false} ChildOnPath(cur: Tree, seg: Key)
    ensures cur.Branch? && |cur.children| == 16 && |seg| == 1 ==>
              Child(cur, seg, cur.children[seg[0]]) && cur.children[seg[0]] < cur
    ensures cur.Extension? && seg == cur.key ==> Child(cur, seg, cur.child) && cur.child < cur
  {
  }

  lemma {:induction false} SearchContinues(hash: HashFunction, t: Tree, k: Key, progress: nat, cur: Tree,
                                           seen: seq<Tree>, stack: seq<Node>, end: nat, child: Tree)
    requires cur != Empty && child != Empty && Shaped(cur) && SoFar(hash, t, k, progress, cur, seen, stack)
    requires progress < end <= |k| && Child(cur, k[progress..end], child)
    ensures SoFar(hash, t, k, end, child, seen + [cur], stack + [NodeOf(hash, cur)])
  {
    hide NodeOf, Nodes, Ancestors, End, Found, Remaining, Child, Shaped;
    var rest, seg := k[progress..], k[progress..end];
    assert seg <= rest && rest[|seg|..] == k[end..];
    OneStep(cur, rest, seg, child);
    NodesAppend(hash, seen, cur);
    assert seen + ([cur] + Ancestors(child, k[end..])) == seen + [cur] + Ancestors(child, k[end..]);
  }

  lemma {:induction false} EmptyIsMissing(hash: HashFunction, puts: set<Bytes>, db: map<Bytes, Bytes>)
    requires Holds(hash, puts, db) && CollisionFree(hash, puts) && RLP_EMPTY_STRING !in puts
    ensures LookupNode(db, Str(RootOf(hash, Empty))) == Err(MissingNode)
  {
    assert hash(RLP_EMPTY_STRING) !in db;
  }

  lemma {:induction false} NodeShape(hash: HashFunction, t: Tree)
    requires t != Empty
    ensures var n := NodeOf(hash, t);
            && (t.Leaf? ==> n == LeafNode(t.key, t.value))
            && (t.Extension? ==> n.ExtensionNode? && n.key == t.key)
            && (t.Branch? ==> n.BranchNode? && n.value == t.value && |n.refs| == |t.children|)
  {
    hide Encode, EncodeAll, Encodings, EncodingsBelow, RefOf;
  }

  /** The reference on a path is absent exactly when the child is, and otherwise leads to it. */
  lemma {:induction false} RefShape(hash: HashFunction, puts: set<Bytes>, db: map<Bytes, Bytes>, t: Tree, seg: Key,
                                    n: nat)
    requires Holds(hash, puts, db) && CollisionFree(hash, puts)
    requires Shaped(t) && Fits(t, n) && n <= LIMIT && Stored(hash, puts, t)
    requires if t.Branch? then |seg| == 1 else t.Extension?
    ensures var c := if t.Branch? then t.children[seg[0]] else t.child;
            var ref := if t.Branch? then NodeOf(hash, t).refs[seg[0]] else NodeOf(hash, t).ref;
            && (Present(ref) <==> c != Empty) && Shaped(c) && Stored(hash, puts, c)
            && (if t.Branch? then n > 0 && Fits(c, n - 1) else |t.key| <= n && Fits(c, n - |t.key|))
            && (c != Empty ==> LookupNode(db, ref) == Ok(NodeOf(hash, c)))
  {
    hide Encode, EncodeAll, Encodings, EncodingsBelow, LookupNode, Holds, CollisionFree, Present;
    PresentRef(hash, if t.Branch? then t.children[seg[0]] else t.child);
    if t.Branch? {
      if t.children[seg[0]] != Empty {
        FollowReference(hash, puts, db, t.children[seg[0]], n - 1);
      }
    } else {
      FollowReference(hash, puts, db, t.child, n - |t.key|);
    }
  }

  // --------------------------------------------------------------------------------- lemmas for del

  /** Where a deletion happens: the spine of the tree down to the node of the key. */
  lemma {:induction false} RemoveSpine(hash: HashFunction, puts: set<Bytes>, t: Tree, k: Key)
    returns (z: Spine, rest: Key, n: nat)
    requires Shaped(t) && t != Empty && Stored(hash, puts, t) && Found(t, k) && Fits(t, LIMIT)
    ensures var sub := End(t, k); var stack := Nodes(hash, Ancestors(t, k));
            && Along(hash, puts, stack, z, sub) && Root(z, sub) == t && k == Path(z) + rest
            && Shaped(sub) && Stored(hash, puts, sub) && Fits(sub, n)
            && n + |Path(z)| == LIMIT
            && ((sub.Leaf? && sub.key == rest) || (sub.Branch? && rest == [] && k == Path(z) && |sub.children| == 16))
  {
    hide Encode, EncodeAll, Encodings, EncodingsBelow, NodeOf, RefOf, Link, Stored, Nodes, Ancestors, End, Remaining,
      Found, Shaped, Fits;
    var stack, sub := Nodes(hash, Ancestors(t, k)), End(t, k);
    z, rest := VisitSpine(hash, puts, [], Top, t, k);
    assert [] + stack == stack && Path(Top) + k == k;
    n := FitsBelow(hash, puts, stack, z, sub, LIMIT);
    BranchSlots(sub);
    assert Path(z) + [] == Path(z);
  }

  lemma {:induction false} BranchSlots(t: Tree)
    requires Shaped(t)
    ensures t.Branch? ==> |t.children| == 16
  {
  }

  lemma {:induction false} FitsBelow(hash: HashFunction, puts: set<Bytes>, stack: seq<Node>, z: Spine, sub: Tree,
                                     n: nat)
    returns (m: nat)
    requires Along(hash, puts, stack, z, sub) && Fits(Root(z, sub), n)
    ensures Fits(sub, m) && m + |Path(z)| == n
    decreases z
  {
    hide Encode, EncodeAll, Encodings, EncodingsBelow, Link;
    match z
    case Top => m := n;
    case Down(up, parent, seg) =>
      var m' := FitsBelow(hash, puts, stack[..|stack| - 1], up, parent, n);
      m := m' - |seg|;
  }

  lemma {:induction false} RootRemoved(hash: HashFunction, puts: set<Bytes>, z: Spine, sub: Tree, rest: Key)
    requires z.Top? && ((sub.Leaf? && sub.key == rest) || (sub.Branch? && rest == []))
    ensures Delete(Root(z, sub), Path(z) + rest) == Empty
  {
    assert Path(z) + rest == rest;
  }

  lemma {:induction false} NotRootRemoved(hash: HashFunction, puts: set<Bytes>, stack: seq<Node>, t: Tree, k: Key,
                                          z: Spine, sub: Tree, rest: Key)
    requires z.Down? && Along(hash, puts, stack, z, sub) && Shaped(t) && Root(z, sub) == t && k == Path(z) + rest
    ensures Delete(t, k) == Remove(t, k)
    ensures sub.Branch? ==> Remove(sub, []) == Collapse(sub.children, sub.value)
  {
    hide Encode, EncodeAll, Encodings, EncodingsBelow, Link;
    ShapedBelow(hash, puts, stack[..|stack| - 1], z.up, z.parent);
    assert z.seg != [];
    assert k == Path(z.up) + z.seg + rest;
  }

  /** A leaf stands below a branch; without the leaf, the branch node is the node of what is left. */
  lemma {:induction false} LeafRemoved(hash: HashFunction, puts: set<Bytes>, stack: seq<Node>, z: Spine, sub: Tree,
                                       k: Key)
    returns (b: Tree, n: nat)
    requires z.Down? && sub.Leaf? && Along(hash, puts, stack, z, sub)
    requires Shaped(Root(z, sub)) && Fits(Root(z, sub), LIMIT) && k == Path(z) + sub.key
    ensures z.parent.Branch? && |stack| > 0 && stack[|stack| - 1].BranchNode? && |stack[|stack| - 1].refs| == 16
    ensures |k| > |sub.key| && var i := k[|k| - |sub.key| - 1];
            && k[..|k| - |sub.key|][..|k| - |sub.key| - 1] == Path(z.up)
            && b == Branch(z.parent.children[i := Empty], z.parent.value) && |b.children| == 16
            && BranchNode(stack[|stack| - 1].refs[i := NO_REF], stack[|stack| - 1].value) == NodeOf(hash, b)
    ensures Stored(hash, puts, b) && Shaped(b) && Fits(b, n) && n <= LIMIT
    ensures Along(hash, puts, stack[..|stack| - 1], z.up, z.parent) && Root(z.up, z.parent) == Root(z, sub)
    ensures Remove(z.parent, z.seg + sub.key) == Collapse(b.children, b.value)
    ensures k == Path(z.up) + (z.seg + sub.key)
  {
    hide Encode, EncodeAll, Encodings, EncodingsBelow, NodeOf, RefOf, Link, Stored, Shaped, Fits, Collapse, Remove,
      Root, Path;
    var base, node := stack[..|stack| - 1], stack[|stack| - 1];
    PathUp(z, sub, sub.key);
    ShapedBelow(hash, puts, base, z.up, z.parent);
    n := FitsBelow(hash, puts, base, z.up, z.parent, LIMIT);
    b := BranchWithout(hash, puts, node, z.parent, z.seg, sub, n);
    LastNibble(k, Path(z.up), z.seg, sub.key);
  }

  lemma {:induction false} LastNibble(k: Key, front: Key, seg: Key, rest: Key)
    requires |seg| == 1 && k == front + (seg + rest)
    ensures |k| > |rest| && k[|k| - |rest| - 1] == seg[0]
    ensures k[..|k| - |rest|][..|k| - |rest| - 1] == front
  {
  }

  lemma {:induction false} BranchWithout(hash: HashFunction, puts: set<Bytes>, node: Node, t: Tree, seg: Key,
                                         leaf: Tree, n: nat)
    returns (b: Tree)
    requires Link(hash, puts, node, t, seg) && Child(t, seg, leaf) && leaf.Leaf? && Shaped(t) && Fits(t, n)
    ensures t.Branch? && node.BranchNode? && |node.refs| == 16 && |seg| == 1
    ensures b == Branch(t.children[seg[0] := Empty], t.value) && |b.children| == 16
    ensures BranchNode(node.refs[seg[0] := NO_REF], node.value) == NodeOf(hash, b)
    ensures Stored(hash, puts, b) && Shaped(b) && Fits(b, n)
    ensures Remove(t, seg + leaf.key) == Collapse(b.children, b.value)
  {
    hide Encode, EncodeAll, Encodings, EncodingsBelow, Encoding, Collapse;
    var i := seg[0];
    b := Branch(t.children[i := Empty], t.value);
    assert (seg + leaf.key)[1..] == leaf.key && (seg + leaf.key)[0] == i;
    assert NodeOf(hash, b).refs == node.refs[i := NO_REF];
  }

  lemma {:induction false} NotFoundUnchanged(t: Tree, k: Key)
    requires Shaped(t) && !Found(t, k)
    ensures Delete(t, k) == t && Remove(t, k) == t
  {
    match t
    case Empty =>
    case Leaf(_, _) =>
    case Extension(ek, c) =>
      if ek <= k {
        NotFoundUnchanged(c, k[|ek|..]);
      }
    case Branch(cs, _) =>
      if cs[k[0]] != Empty {
        NotFoundUnchanged(cs[k[0]], k[1..]);
      }
  }

  lemma {:induction false} NothingToDelete(k: Key)
    ensures Delete(Empty, k) == Empty
  {
  }

  lemma {:induction false} DeleteKeeps(t: Tree, k: Key, hashed: bool)
    requires Shaped(t) && (t != Empty ==> Fits(t, LIMIT))
    requires hashed ==> Canonical(t) && Uniform(t, 64) && |k| == 64
    ensures Shaped(Delete(t, k)) && Fits(Delete(t, k), LIMIT)
    ensures !Found(t, k) || t == Empty ==> Delete(t, k) == t
    ensures Deletable(t, k) <==> TakesAway(Delete(t, k), t, k)
    ensures Canonical(t) ==> (Canonical(Delete(t, k)) <==> Collapsible(t, k))
    ensures hashed ==> Canonical(Delete(t, k)) && Uniform(Delete(t, k), 64)
  {
    hide Canonical, Uniform, Deletable, Collapsible, TakesAway, Remove, Found;
    ShapedRemove(t, k);
    FitsRemove(t, k, LIMIT);
    NothingToDelete(k);
    if !Found(t, k) && t != Empty {
      NotFoundUnchanged(t, k);
    }
    DeleteIsExact(t, k);
    if Canonical(t) {
      DeleteIsCanonical(t, k);
    }
    if hashed {
      DeleteUniform(t, k);
    }
  }

  function WithKey(n: Node, key: Key): Node {
    match n
    case LeafNode(_, v) => LeafNode(key, v)
    case ExtensionNode(_, ref) => ExtensionNode(key, ref)
    case BranchNode(_, _) => n
  }

  /** The references among the first n that count as children, with their slots. */
  function ChildRefs(refs: seq<Item>, n: nat): seq<(int, Item)>
    requires n <= |refs|
  {
    if n == 0 then []
    else ChildRefs(refs, n - 1) + (if Present(refs[n - 1]) then [(n - 1, refs[n - 1])] else [])
  }

  lemma {:induction false} ChildRefsCount(refs: seq<Item>, n: nat)
    requires n <= |refs|
    ensures var kids := ChildRefs(refs, n);
            && (kids == [] <==> forall i :: 0 <= i < n ==> !Present(refs[i]))
            && (|kids| == 1 ==> var i := kids[0].0;
                  0 <= i < n && kids[0].1 == refs[i] && Present(refs[i]) &&
                  forall j :: 0 <= j < n && j != i ==> !Present(refs[j]))
            && (|kids| > 1 ==> exists i, j :: 0 <= i < j < n && Present(refs[i]) && Present(refs[j]))
  {
    hide Present;
    if n > 0 {
      ChildRefsCount(refs, n - 1);
      var kids := ChildRefs(refs, n - 1);
      if |kids| == 1 && Present(refs[n - 1]) {
        assert Present(refs[kids[0].0]);
      }
    }
  }

  /** Counting the children of a branch node finds whether the branch has a single child, and which. */
  lemma {:induction false} CountChildren(hash: HashFunction, b: Tree)
    requires b.Branch? && |b.children| == 16
    ensures var refs := NodeOf(hash, b).refs; var kids := ChildRefs(refs, |refs|);
            && (|kids| == 1 <==> SoleChild(b.children))
            && (|kids| == 1 ==> 0 <= kids[0].0 < 16 && kids[0].1 == refs[kids[0].0] && Only(b.children, kids[0].0))
  {
    hide Encode, EncodeAll, Encodings, EncodingsBelow, Encoding, Present;
    var refs := NodeOf(hash, b).refs;
    forall i | 0 <= i < 16 ensures Present(refs[i]) <==> b.children[i] != Empty {
      PresentRef(hash, b.children[i]);
    }
    ChildRefsCount(refs, 16);
    var kids := ChildRefs(refs, 16);
    if |kids| == 1 {
      var n: Nibble := kids[0].0;
      assert Only(b.children, n);
    }
  }

  lemma {:induction false} AboveShape(hash: HashFunction, puts: set<Bytes>, stack: seq<Node>, z: Spine, sub: Tree)
    requires Along(hash, puts, stack, z, sub)
    ensures stack == [] <==> z.Top?
    ensures z.Down? ==>
              var n := stack[|stack| - 1];
              && (z.parent.Extension? <==> n.ExtensionNode?) && (z.parent.Branch? <==> n.BranchNode?) && !n.LeafNode?
              && (n.ExtensionNode? ==> n.key == z.parent.key == z.seg)
  {
  }

  lemma {:induction false} NoCollapse(hash: HashFunction, puts: set<Bytes>, above: seq<Node>, z: Spine, b0: Tree,
                                      rest: Key, b: Tree)
    requires b0.Branch? && Along(hash, puts, above, z, b0) && Shaped(Root(z, b0)) && b.Branch?
    requires Remove(b0, rest) == Collapse(b.children, b.value) && !SoleChild(b.children)
    ensures Along(hash, puts, above, Replace(z, b), b) && Path(Replace(z, b)) == Path(z) && OwnKey(b) == []
    ensures Root(Replace(z, b), b) == Remove(Root(z, b0), Path(z) + rest)
  {
    hide Encode, EncodeAll, Encodings, EncodingsBelow, Along, Remove, Root, Path, Shaped;
    RemoveBelow(hash, puts, above, z, b0, rest);
    AlongReplace(hash, puts, above, z, b0, b);
  }

  /** Where a collapsed branch's child goes: below zp, behind the path p and its own slot. */
  lemma {:induction false} CollapseAt(hash: HashFunction, puts: set<Bytes>, above: seq<Node>, z: Spine, b0: Tree,
                                      rest: Key, b: Tree, i: Nibble)
    returns (zp: Spine, p: Key, base: seq<Node>, t: Tree)
    requires b0.Branch? && Along(hash, puts, above, z, b0) && Shaped(Root(z, b0)) && b.Branch? && |b.children| == 16
    requires Remove(b0, rest) == Collapse(b.children, b.value) && Only(b.children, i)
    ensures t == Remove(Root(z, b0), Path(z) + rest)
    ensures var full := Prepend(p + [i], b.children[i]);
            && Along(hash, puts, base, zp, full) && Root(zp, full) == t && Path(z) == Path(zp) + p
    ensures if z.Down? && z.parent.Extension? then p == z.parent.key && base == above[..|above| - 1]
            else p == [] && base == above
  {
    hide Encode, EncodeAll, Encodings, EncodingsBelow, Link, Shaped, Root;
    var c := b.children[i];
    t := Remove(Root(z, b0), Path(z) + rest);
    CollapseIs(b, i);
    if z.Down? && z.parent.Extension? {
      p, base := z.parent.key, above[..|above| - 1];
      ExtensionCollapse(hash, puts, above, z, b0, rest, i, c);
      zp := Replace(z.up, Prepend(p + [i], c));
    } else {
      p, base := [], above;
      RemoveBelow(hash, puts, above, z, b0, rest);
      AlongReplace(hash, puts, above, z, b0, Prepend([i], c));
      zp := Replace(z, Prepend([i], c));
      assert p + [i] == [i];
    }
  }

  lemma {:induction false} CollapseIs(b: Tree, i: Nibble)
    requires b.Branch? && |b.children| == 16 && Only(b.children, i)
    ensures Collapse(b.children, b.value) == Prepend([i], b.children[i]) && Prepend([i], b.children[i]) != Empty
  {
    assert forall j: Nibble :: Only(b.children, j) ==> j == i;
  }

  lemma {:induction false} ExtensionCollapse(hash: HashFunction, puts: set<Bytes>, above: seq<Node>, z: Spine, b0: Tree,
                                             rest: Key, i: Nibble, c: Tree)
    requires z.Down? && z.parent.Extension? && b0.Branch? && Along(hash, puts, above, z, b0) && Shaped(Root(z, b0))
    requires Remove(b0, rest) == Prepend([i], c) && c != Empty
    ensures var full := Prepend(z.parent.key + [i], c); var zp := Replace(z.up, full);
            && Along(hash, puts, above[..|above| - 1], zp, full) && Path(zp) == Path(z.up)
            && Root(zp, full) == Remove(Root(z, b0), Path(z) + rest)
  {
    hide Encode, EncodeAll, Encodings, EncodingsBelow, Link, Shaped, Root, Path;
    var pk, base := z.parent.key, above[..|above| - 1];
    var full := Prepend(pk + [i], c);
    assert Remove(z.parent, pk + rest) == full by {
      assert (pk + rest)[|pk|..] == rest;
      PrependTwice(pk, [i], c);
    }
    ParentOfExtension(hash, puts, above, z, b0);
    RemoveBelow(hash, puts, base, z.up, z.parent, pk + rest);
    AlongReplace(hash, puts, base, z.up, z.parent, full);
    PathUp(z, b0, rest);
  }

  lemma {:induction false} PathUp(z: Spine, sub: Tree, rest: Key)
    requires z.Down?
    ensures Path(z) + rest == Path(z.up) + (z.seg + rest) && Root(z, sub) == Root(z.up, z.parent)
  {
  }

  lemma {:induction false} PrependTwice(p: Key, q: Key, t: Tree)
    requires q != []
    ensures Prepend(p, Prepend(q, t)) == Prepend(p + q, t)
  {
    match t
    case Empty =>
    case Leaf(k, _) => assert p + (q + k) == p + q + k;
    case Extension(k, _) => assert p + (q + k) == p + q + k;
    case Branch(_, _) =>
  }

  /** No extension stands above an extension. */
  lemma {:induction false} ParentOfExtension(hash: HashFunction, puts: set<Bytes>, stack: seq<Node>, z: Spine,
                                             sub: Tree)
    requires z.Down? && z.parent.Extension? && Along(hash, puts, stack, z, sub) && Shaped(Root(z, sub))
    ensures z.up.Down? ==> !z.up.parent.Extension?
    ensures Shaped(Root(z.up, z.parent)) && z.seg == z.parent.key
  {
    hide Encode, EncodeAll, Encodings, EncodingsBelow, Link;
    var base := stack[..|stack| - 1];
    assert Along(hash, puts, base, z.up, z.parent);
    if z.up.Down? {
      ShapedBelow(hash, puts, base[..|base| - 1], z.up.up, z.up.parent);
    }
  }

  /** The stack left by a collapse is ready to be saved. */
  lemma {:induction false} CollapsedStack(hash: HashFunction, puts: set<Bytes>, base: seq<Node>, zp: Spine, p: Key,
                                          i: Nibble, c: Tree, key: Key, key': Key, stack: seq<Node>)
    returns (z: Spine, bottom: Tree)
    requires c != Empty && Stored(hash, puts, c) && Along(hash, puts, base, zp, Prepend(p + [i], c)) &&
             key == Path(zp) + p
    requires var n := NodeOf(hash, c);
             if c.Branch? then key' == key + [i] && exists ref :: stack == base + [ExtensionNode(p + [i], ref)] + [n]
             else key' == key + [i] + n.key && stack == base + [WithKey(n, p + [i] + n.key)]
    ensures bottom != Empty && Stored(hash, puts, bottom) && stack != [] && stack[|stack| - 1] == NodeOf(hash, bottom)
    ensures Along(hash, puts, stack[..|stack| - 1], z, bottom) && Root(z, bottom) == Root(zp, Prepend(p + [i], c))
    ensures key' == Path(z) + OwnKey(bottom)
  {
    hide Encode, EncodeAll, Encodings, EncodingsBelow, RefOf, Along, Link;
    var full, n := Prepend(p + [i], c), NodeOf(hash, c);
    if c.Branch? {
      var ref :| stack == base + [ExtensionNode(p + [i], ref)] + [n];
      ExtensionLinks(hash, puts, base, zp, full, p + [i], ref);
      z, bottom := Down(zp, full, p + [i]), c;
      Snoc(base + [ExtensionNode(p + [i], ref)], n);
      assert Path(zp) + p + [i] == Path(zp) + (p + [i]);
    } else {
      z, bottom := zp, full;
      Snoc(base, WithKey(n, p + [i] + n.key));
      PrependNode(hash, puts, c, p + [i]);
      assert Path(zp) + p + [i] + n.key == Path(zp) + (p + [i] + n.key);
    }
  }

  lemma {:induction false} PrependNode(hash: HashFunction, puts: set<Bytes>, t: Tree, p: Key)
    requires (t.Leaf? || t.Extension?) && Stored(hash, puts, t)
    ensures NodeOf(hash, Prepend(p, t)) == WithKey(NodeOf(hash, t), p + t.key) && NodeOf(hash, t).key == t.key
    ensures Stored(hash, puts, Prepend(p, t)) && OwnKey(Prepend(p, t)) == p + t.key
  {
    hide Encode, EncodeAll, Encodings, EncodingsBelow, RefOf;
  }

  // --------------------------------------------------------------------------------- lemmas for put

  /** Where an insertion happens: the spine of the whole new tree, down to the new subtree. */
  lemma {:induction false} InsertSpine(hash: HashFunction, puts: set<Bytes>, t: Tree, k: Key, v: Bytes)
    returns (z: Spine, rest: Key)
    requires Shaped(t) && t != Empty && Stored(hash, puts, t)
    ensures var sub := End(t, k); var full := Insert(sub, rest, v); var stack := Nodes(hash, Ancestors(t, k));
            && Along(hash, puts, stack, z, full) && Root(z, full) == Insert(t, k, v)
            && k == Path(z) + rest && PathLength(stack) <= |k| && k[PathLength(stack)..] == rest
            && Shaped(sub) && Stored(hash, puts, sub) && EndsAt(sub, rest, Found(t, k), Remaining(t, k))
  {
    hide Encode, EncodeAll, Encodings, EncodingsBelow, NodeOf, RefOf, Link, Stored, Insert, Nodes, Ancestors, End,
      Remaining, Found, EndsAt, Shaped;
    var z0, rest0 := VisitSpine(hash, puts, [], Top, t, k);
    var stack, sub := Nodes(hash, Ancestors(t, k)), End(t, k);
    assert [] + stack == stack && Path(Top) + k == k;
    rest := rest0;
    InsertBelow(hash, puts, stack, z0, sub, rest, v);
    AlongReplace(hash, puts, stack, z0, sub, Insert(sub, rest, v));
    z := Replace(z0, Insert(sub, rest, v));
    AlongLength(hash, puts, stack, z, Insert(sub, rest, v));
  }

  lemma {:induction false} LeafMatches(lk: Key, rest: Key, remaining: Key, found: bool, m: nat)
    requires found == (lk == rest) && remaining == (if found then [] else rest) && m == Matching(lk, rest)
    ensures (remaining == [] && m == |lk|) == found
  {
  }

  lemma {:induction false} InsertAtLeaf(t: Tree, k: Key, v: Bytes)
    requires t.Leaf? && t.key == k
    ensures Insert(t, k, v) == Leaf(k, v) && OwnKey(Leaf(k, v)) == k
  {
  }

  lemma {:induction false} InsertAtBranch(t: Tree, k: Key, v: Bytes)
    requires t.Branch? && |t.children| == 16 && (k != [] ==> t.children[k[0]] == Empty)
    ensures Insert(t, k, v) == AddEntry(t.children, t.value, k, v)
  {
  }

  lemma {:induction false} InsertIntoEmpty(k: Key, v: Bytes)
    ensures Insert(Empty, k, v) == Leaf(k, v)
  {
  }

  lemma {:induction false} EmptyRoot(hash: HashFunction, puts: set<Bytes>, t: Tree)
    requires CollisionFree(hash, puts) && Rooted(hash, puts, t)
    ensures RootOf(hash, t) == hash(RLP_EMPTY_STRING) <==> t == Empty
  {
    hide Encode, EncodeAll, Encodings, EncodingsBelow, CollisionFree;
    if t != Empty {
      RootNotEmpty(hash, puts, t);
    }
  }

  lemma {:induction false} InsertKeeps(t: Tree, k: Key, v: Bytes, hashed: bool)
    requires Shaped(t) && (t != Empty ==> Fits(t, LIMIT)) && 0 < |v| < LIMIT && |k| <= LIMIT
    requires hashed ==> Canonical(t) && Uniform(t, 64) && |k| == 64
    ensures Shaped(Insert(t, k, v)) && Fits(Insert(t, k, v), LIMIT)
    ensures forall q :: TrieModel.Lookup(Insert(t, k, v), q) == if q == k then v else TrieModel.Lookup(t, q)
    ensures Canonical(t) ==> Canonical(Insert(t, k, v))
    ensures hashed ==> Uniform(Insert(t, k, v), 64)
  {
    hide Insert, Canonical, Uniform;
    ShapedInsert(t, k, v);
    FitsInsert(t, k, v, LIMIT);
    forall q { LookupInsert(t, k, v, q); }
    if Canonical(t) {
      CanonicalInsert(t, k, v);
    }
    if hashed {
      UniformInsert(t, k, v);
    }
  }

  lemma {:induction false} MatchingUnique(a: Key, b: Key, i: nat)
    requires i <= |a| && i <= |b| && a[..i] == b[..i]
    requires i < |a| && i < |b| ==> a[i] != b[i]
    ensures i == Matching(a, b)
  {
  }

  /** What is left of a split leaf or extension, below the branch that splits it after m nibbles. */
  ghost function SplitBranch(t: Tree, m: nat): Tree
    requires (t.Leaf? && m <= |t.key|) || (t.Extension? && m < |t.key|)
  {
    match t
    case Leaf(lk, lv) => AddEntry(NoChildren(), [], lk[m..], lv)
    case Extension(ek, c) => Branch(NoChildren()[ek[m] := Wrap(ek[m + 1..], c)], [])
  }

  lemma {:induction false} SplitIsAddEntry(t: Tree, k: Key, v: Bytes)
    requires (t.Leaf? && t.key != k) || (t.Extension? && !(t.key <= k))
    ensures var m := Matching(t.key, k); var b := SplitBranch(t, m);
            && b.Branch? && |b.children| == 16 && (k[m..] != [] ==> b.children[k[m]] == Empty)
            && t.key[..m] == k[..m]
            && Insert(t, k, v) == Wrap(t.key[..m], AddEntry(b.children, b.value, k[m..], v))
  {
    if t.Leaf? {
      SameTail(t.key, k, Matching(t.key, k));
    }
  }

  lemma {:induction false} ExtensionLinks(hash: HashFunction, puts: set<Bytes>, stack: seq<Node>, z: Spine, t: Tree,
                                          p: Key, ref: Item)
    requires t.Extension? && t.key == p && Along(hash, puts, stack, z, t)
    ensures Along(hash, puts, stack + [ExtensionNode(p, ref)], Down(z, t, p), t.child)
    ensures Root(Down(z, t, p), t.child) == Root(z, t)
  {
    AlongPush(hash, puts, stack, z, t, ExtensionNode(p, ref), p, t.child);
  }

  lemma {:induction false} PathDown(z: Spine, t: Tree, p: Key, k: Key)
    requires p <= k
    ensures Path(z) + k == Path(Down(z, t, p)) + k[|p|..]
  {
    assert k == p + k[|p|..];
  }

  lemma {:induction false} NothingToSave(hash: HashFunction, puts: set<Bytes>)
    ensures Addressed(hash, []) && Values([]) == {} && puts + Values([]) == puts
  {
  }

  /** The leaf put below a branch is the end of the spine through that branch. */
  lemma {:induction false} LeafBelow(hash: HashFunction, puts: set<Bytes>, stack: seq<Node>, z: Spine, b: Tree, k: Key,
                                     v: Bytes) returns (l: Tree)
    requires b.Branch? && |b.children| == 16 && k != [] && b.children[k[0]] == Empty && Stored(hash, puts, b)
    requires Along(hash, puts, stack, z, AddEntry(b.children, b.value, k, v))
    ensures l == Leaf(k[1..], v) && NodeOf(hash, l) == LeafNode(k[1..], v) && Stored(hash, puts, l)
    ensures var full := AddEntry(b.children, b.value, k, v);
            && Along(hash, puts, stack + [NodeOf(hash, b)], Down(z, full, k[..1]), l)
            && Root(Down(z, full, k[..1]), l) == Root(z, full)
            && Path(z) + k == Path(Down(z, full, k[..1])) + OwnKey(l)
  {
    hide Encode, EncodeAll, Encodings, EncodingsBelow, NodeOf, RefOf, Along, Link, Stored;
    l := Leaf(k[1..], v);
    NodeLinks(hash, puts, b, k[..1], Empty);
    LinkReplace(hash, puts, NodeOf(hash, b), b, k[..1], Empty, l);
    AlongPush(hash, puts, stack, z, AddEntry(b.children, b.value, k, v), NodeOf(hash, b), k[..1], l);
    LeafNodeOf(hash, puts, l);
    PathDown(z, AddEntry(b.children, b.value, k, v), k[..1], k);
  }

  lemma {:induction false} EntryOnBranch(z: Spine, b: Tree, v: Bytes)
    requires b.Branch? && |b.children| == 16
    ensures AddEntry(b.children, b.value, [], v) == Branch(b.children, v)
    ensures Path(z) + [] == Path(z) && OwnKey(Branch(b.children, v)) == []
  {
  }

  lemma {:induction false} LeafNodeOf(hash: HashFunction, puts: set<Bytes>, t: Tree)
    requires t.Leaf?
    ensures NodeOf(hash, t) == LeafNode(t.key, t.value) && Stored(hash, puts, t) && OwnKey(t) == t.key
  {
  }

  lemma {:induction false} BranchWithValue(hash: HashFunction, puts: set<Bytes>, b: Tree, v: Bytes)
    requires b.Branch? && Stored(hash, puts, b)
    ensures NodeOf(hash, Branch(b.children, v)) == BranchNode(NodeOf(hash, b).refs, v)
    ensures Stored(hash, puts, Branch(b.children, v))
  {
    hide Encode, EncodeAll, Encodings, EncodingsBelow, RefOf;
  }

  /** A node with its key shortened is the node of the tree with its key shortened. */
  lemma {:induction false} ShrunkNode(hash: HashFunction, puts: set<Bytes>, t: Tree, rest: Key)
    requires (t.Leaf? || t.Extension?) && Shaped(t) && Stored(hash, puts, t)
    ensures t.Leaf? ==>
              NodeOf(hash, Leaf(rest, t.value)) == LeafNode(rest, t.value) && Stored(hash, puts, Leaf(rest, t.value))
    ensures t.Extension? ==>
              && NodeOf(hash, t).ref == RefOf(hash, t.child) && Safe(hash, puts, t.child)
              && NodeOf(hash, Extension(rest, t.child)) == ExtensionNode(rest, RefOf(hash, t.child))
              && Stored(hash, puts, Extension(rest, t.child))
  {
    hide Encode, EncodeAll, Encodings, EncodingsBelow, RefOf;
  }

  lemma {:induction false} SafeNothing(hash: HashFunction, puts: set<Bytes>)
    ensures Safe(hash, puts, Empty) && RefOf(hash, Empty) == NO_REF
  {
  }

  lemma {:induction false} OneChild(hash: HashFunction, puts: set<Bytes>, i: Nibble, c: Tree, refs: seq<Item>, v: Bytes)
    requires Safe(hash, puts, c) && refs == seq(16, _ => NO_REF)[i := RefOf(hash, c)]
    ensures NodeOf(hash, Branch(NoChildren()[i := c], v)) == BranchNode(refs, v)
    ensures Stored(hash, puts, Branch(NoChildren()[i := c], v))
  {
    hide Encode, EncodeAll, Encodings, EncodingsBelow, Encoding;
  }

  lemma {:induction false} BelowOneChild(hash: HashFunction, i: Nibble, c: Tree, v: Bytes)
    ensures Encodings(hash, c) <= EncodingsBelow(hash, Branch(NoChildren()[i := c], v))
  {
    hide Encode, EncodeAll, Encoding;
    assert NoChildren()[i := c][i] == c;
  }

  lemma {:induction false} BelowAddEntry(hash: HashFunction, b: Tree, k: Key, v: Bytes)
    requires b.Branch? && |b.children| == 16 && (k != [] ==> b.children[k[0]] == Empty)
    ensures var full := AddEntry(b.children, b.value, k, v);
            EncodingsBelow(hash, b) <= EncodingsBelow(hash, full) && full != Empty
  {
    hide Encode, EncodeAll, Encoding;
    var full := AddEntry(b.children, b.value, k, v);
    forall e | e in EncodingsBelow(hash, b) ensures e in EncodingsBelow(hash, full) {
      var i :| 0 <= i < 16 && e in Encodings(hash, b.children[i]);
      assert full.children[i] == b.children[i];
    }
  }

  lemma {:induction false} SplitBranchIs(hash: HashFunction, puts: set<Bytes>, t: Tree, m: nat)
    requires (t.Leaf? && m <= |t.key|) || (t.Extension? && m < |t.key|)
    ensures SplitBranch(t, m) ==
            if m == |t.key| then Branch(NoChildren()[0 := Empty], t.value)
            else if t.Leaf? then Branch(NoChildren()[t.key[m] := Leaf(t.key[m + 1..], t.value)], [])
            else Branch(NoChildren()[t.key[m] := Wrap(t.key[m + 1..], t.child)], [])
  {
  }

  // ------------------------------------------------------------------------------- lemmas for saving

  lemma {:induction false} ValuesOfNothing()
    ensures Values([]) == {}
  {
  }

  lemma {:induction false} ValuesNext(ops: seq<PutOp>, i: nat)
    requires i < |ops|
    ensures Values(ops[..i + 1]) == Values(ops[..i]) + {ops[i].value}
  {
    assert ops[..i + 1] == ops[..i] + [ops[i]];
  }

  lemma {:induction false} ValuesAppend(hash: HashFunction, ops: seq<PutOp>, e: Bytes)
    requires Addressed(hash, ops) && e != RLP_EMPTY_STRING
    ensures Addressed(hash, ops + [PutOp(hash(e), e)])
    ensures Values(ops + [PutOp(hash(e), e)]) == Values(ops) + {e}
  {
  }

  lemma {:induction false} Snoc(stack: seq<Node>, n: Node)
    ensures (stack + [n])[|stack|] == n && (stack + [n])[..|stack|] == stack
  {
  }

  lemma {:induction false} HoldsPut(hash: HashFunction, puts: set<Bytes>, db: map<Bytes, Bytes>, e: Bytes)
    requires Holds(hash, puts, db)
    ensures Holds(hash, puts + {e}, db[hash(e) := e])
  {
  }

  /** ref refers to sub, from its parent or, at the top level, as the root. */
  ghost predicate Saved(hash: HashFunction, puts: set<Bytes>, sub: Tree, ref: Item, topLevel: bool) {
    sub != Empty && if topLevel then ref == Str(RootOf(hash, sub)) && Encoding(hash, sub) in puts
                    else ref == RefOf(hash, sub) && Held(hash, puts, sub)
  }

  lemma {:induction false} OwnEncoding(hash: HashFunction, t: Tree)
    requires t != Empty
    ensures Encoding(hash, t) in Encodings(hash, t)
    ensures EncodingsBelow(hash, t) <= Encodings(hash, t)
  {
  }

  lemma {:induction false} SavedNode(hash: HashFunction, puts: set<Bytes>, sub: Tree, ref: Item, topLevel: bool)
    requires sub != Empty
    requires var e := Encoding(hash, sub);
             if |e| < 32 && !topLevel then ref == Raw(NodeOf(hash, sub)) else ref == Str(hash(e)) && e in puts
    ensures Saved(hash, puts, sub, ref, topLevel)
  {
    hide Encode, EncodeAll, Encodings, EncodingsBelow, NodeOf, Raw;
  }

  lemma {:induction false} OwnKeyOfNode(hash: HashFunction, t: Tree, front: Key)
    requires t != Empty
    ensures var n, key := NodeOf(hash, t), front + OwnKey(t);
            && (n.BranchNode? ==> key == front)
            && (!n.BranchNode? ==> |n.key| <= |key| && key[..|key| - |n.key|] == front)
  {
    hide Encode, EncodeAll, Encodings, EncodingsBelow, RefOf;
  }

  /** One step up a spine: the last node of the stack, with its reference brought up to date. */
  lemma {:induction false} LinkUp(hash: HashFunction, puts: set<Bytes>, stack: seq<Node>, z: Spine, sub: Tree, key: Key)
    requires stack != [] && Along(hash, puts, stack, z, sub) && Safe(hash, puts, sub) && key == Path(z)
    ensures z.Down? && z.parent != Empty && Stored(hash, puts, z.parent)
    ensures Along(hash, puts, stack[..|stack| - 1], z.up, z.parent) && Root(z.up, z.parent) == Root(z, sub)
    ensures var n, ref := stack[|stack| - 1], RefOf(hash, sub);
            && (n.BranchNode? ==> key != [] && |n.refs| == 16 && Path(z.up) == key[..|key| - 1] &&
                                  BranchNode(n.refs[key[|key| - 1] := ref], n.value) == NodeOf(hash, z.parent))
            && (!n.BranchNode? ==> n.ExtensionNode? && |n.key| <= |key| && Path(z.up) == key[..|key| - |n.key|] &&
                                   ExtensionNode(n.key, ref) == NodeOf(hash, z.parent))
  {
    hide Encode, EncodeAll, Encodings, EncodingsBelow, RefOf, NodeOf, Held, Stored;
    var n := stack[|stack| - 1];
    LinkComplete(hash, puts, n, z.parent, z.seg, sub);
    assert key == Path(z.up) + z.seg;
  }

  lemma {:induction false} RootReached(hash: HashFunction, puts: set<Bytes>, z: Spine, sub: Tree, ref: Item)
    requires Along(hash, puts, [], z, sub) && Saved(hash, puts, sub, ref, true)
    ensures Root(z, sub) == sub && ref == Str(RootOf(hash, sub)) && Encoding(hash, sub) in puts
  {
  }
}
