/** The Merkle Patricia trie over its hash-addressed store. */
module Trie {
  import opened Base
  import opened Rlp
  import opened RlpCodec
  import opened TrieModel
  import opened TrieDelete
  import opened TrieNode
  import opened TrieStore
  import opened TrieSpine
  import opened TrieSteps

  datatype RootError = InvalidRootLength

  class MerklePatriciaTrie {
    const hash: HashFunction
    const useKeyHashing: bool
    var root: Bytes
    var db: map<Bytes, Bytes>
    /** Every node encoding ever written to the store. */
    ghost var puts: set<Bytes>
    /** The tree at the current root, and the trees at all roots ever set. */
    ghost var tree: Tree
    ghost var known: set<Tree>

    ghost predicate StoreValid()
      reads this
    {
      Holds(hash, puts, db) && RLP_EMPTY_STRING !in puts
    }

    /** All trees known are in the store, whatever the root is. */
    ghost predicate Known()
      reads this
    {
      StoreValid() && Empty in known && forall t :: t in known ==> KnownTree(t)
    }

    ghost predicate Valid()
      reads this
    {
      Known() && tree in known && root == RootOf(hash, tree)
    }

    ghost predicate KnownTree(t: Tree)
      reads this
    {
      KnownUnder(t, puts)
    }

    ghost predicate KnownUnder(t: Tree, strings: set<Bytes>) {
      && Rooted(hash, strings, t) && Shaped(t)
      && (useKeyHashing ==> Canonical(t) && Uniform(t, 64))
    }

    /** The trees known before stay known while the store grows, and the tree at the new root joins them. */
    ghost method Remember(t: Tree, before: set<Bytes>)
      requires StoreValid() && Empty in known && before <= puts && forall t' :: t' in known ==> KnownUnder(t', before)
      requires root == RootOf(hash, t) && KnownTree(t)
      modifies this`tree, this`known
      ensures Valid() && tree == t && known == old(known) + {t}
    {
      hide Rooted, Shaped, Canonical, Uniform, Holds, RootOf;
      forall t' | t' in known ensures KnownTree(t') {
        RootedGrows(hash, before, puts, t');
      }
      tree := t;
      known := known + {t};
    }

    /** The root is that of t, and all of t is in the store. */
    ghost predicate SavedAt(t: Tree)
      reads this
    {
      t != Empty && root == RootOf(hash, t) && Encoding(hash, t) in puts && Stored(hash, puts, t)
    }

    /** Nothing was written but encodings of parts of t. */
    twostate predicate OnlyWrote(t: Tree)
      reads this
    {
      old(puts) <= puts <= old(puts) + Encodings(hash, t)
    }

    ghost predicate NoCollisions()
      reads this
    {
      CollisionFree(hash, puts)
    }

    constructor (hash: HashFunction, useKeyHashing: bool)
      ensures Valid() && NoCollisions() && tree == Empty && known == {Empty} && puts == {}
      ensures this.hash == hash && this.useKeyHashing == useKeyHashing
    {
      hide Encode, EncodeAll, Encodings, Encoding, Stored, Fits;
      this.hash, this.useKeyHashing := hash, useKeyHashing;
      root := hash(RLP_EMPTY_STRING);
      db, puts, tree, known := map[], {}, Empty, {Empty};
    }

    /** The path of a key through the trie: the nibbles of the key, or of its hash. */
    function AppliedKey(key: Bytes): (k: Bytes)
      ensures useKeyHashing ==> |k| == 32
      ensures k == if useKeyHashing then hash(key) else key
    {
      if useKeyHashing then hash(key) else key
    }

    function PathOf(key: Bytes): (k: Key)
      ensures useKeyHashing ==> |k| == 64
    {
      Unpack(AppliedKey(key))
    }

    /** The nibbles of the key, or of its hash, the high one of each byte first. */
    lemma {:induction false} PathForm(key: Bytes, i: nat)
      ensures var applied := if useKeyHashing then hash(key) else key;
              && |PathOf(key)| == 2 * |applied|
              && (i < |applied| ==> PathOf(key)[2 * i] == applied[i] / 16 && PathOf(key)[2 * i + 1] == applied[i] % 16)
    {
      hide Unpack;
      var applied := if useKeyHashing then hash(key) else key;
      if i < |applied| {
        UnpackAt(applied, i);
      }
    }

    method Lookup(ref: Item) returns (r: Result<Node, NodeError>)
      ensures r == LookupNode(db, ref)
    {
      if ref.List? {
        return DecodeRaw(ref);
      }
      if ref.bytes !in db {
        return Err(MissingNode);
      }
      var d := DecodeInput(db[ref.bytes]);
      if d.Err? {
        return Err(BadEncoding(d.error));
      }
      r := DecodeRaw(d.value);
    }

    static method MatchNibbles(nodeKey: Key, target: Key, start: nat) returns (matched: bool, progress: nat)
      requires start <= |target|
      ensures matched <==> nodeKey <= target[start..]
      ensures matched ==> progress == start + |nodeKey|
    {
      progress := start;
      for i := 0 to |nodeKey|
        invariant progress == start + i <= |target|
        invariant forall j :: 0 <= j < i ==> nodeKey[j] == target[start + j]
      {
        if progress >= |target| || nodeKey[i] != target[progress] {
          return false, progress;
        }
        progress := progress + 1;
      }
      matched := true;
    }

    /** What the walk does on each node it meets: stop, or go on to one child. */
    method OnFound(node: Node, k: Key, progress: nat, ghost cur: Tree, ghost n: nat)
      returns (next: Next, ghost child: Tree)
      requires StoreValid() && NoCollisions() && progress <= |k| && n <= LIMIT
      requires cur != Empty && Shaped(cur) && Fits(cur, n) && Stored(hash, puts, cur) && node == NodeOf(hash, cur)
      ensures next.Stop? ==>
                var rest := k[progress..];
                && End(cur, rest) == cur && Ancestors(cur, rest) == []
                && next.found == Found(cur, rest) && next.remaining == Remaining(cur, rest)
      ensures next.Follow? ==>
                && progress < next.progress <= |k|
                && Child(cur, k[progress..next.progress], child) && child < cur
                && child != Empty && Shaped(child) && Stored(hash, puts, child)
                && next.progress - progress <= n && Fits(child, n - (next.progress - progress))
                && LookupNode(db, next.ref) == Ok(NodeOf(hash, child))
    {
      hide Encode, EncodeAll, Encodings, EncodingsBelow, NodeOf, RefOf, LookupNode, Holds, CollisionFree, Ancestors,
        End, Found, Remaining, Child, Stored;
      NodeShape(hash, cur);
      child := Empty;
      if Stops(cur, k[progress..]) {
        WalkStops(cur, k[progress..]);
      }
      if node.BranchNode? {
        if progress == |k| {
          return Stop(true, []), child;
        }
        var branchIndex := k[progress];
        RefShape(hash, puts, db, cur, k[progress..progress + 1], n);
        var branchRef := node.refs[branchIndex];
        if !Present(branchRef) {
          return Stop(false, k[progress..]), child;
        }
        ChildOnPath(cur, k[progress..progress + 1]);
        return Follow(progress + 1, branchRef), cur.children[branchIndex];
      } else if node.LeafNode? {
        if |k| - progress > |node.key| {
          return Stop(false, k[progress..]), child;
        }
        var matched, end := MatchNibbles(node.key, k, progress);
        return Stop(matched, if matched then [] else k[progress..]), child;
      } else {
        var matched, end := MatchNibbles(node.key, k, progress);
        if !matched {
          return Stop(false, k[progress..]), child;
        }
        RefShape(hash, puts, db, cur, node.key, n);
        ChildOnPath(cur, k[progress..end]);
        return Follow(end, node.ref), cur.child;
      }
    }

    method FindPath(key: Bytes) returns (r: PathResult)
      requires Valid() && NoCollisions()
      ensures tree == Empty ==> r == PathResult(None, [], [])
      ensures tree != Empty ==> r == SearchResult(hash, tree, Unpack(key))
    {
      hide Encode, EncodeAll, Encodings, EncodingsBelow, NodeOf, RefOf, RootOf, LookupNode, Holds, CollisionFree,
        Ancestors, End, Found, Remaining, Nodes, Child, Shaped, Fits, Stored, SoFar, SearchResult;
      var targetKey := BytesToHex(key);
      var stack: seq<Node>, progress, ref := [], 0, Str(root);
      ghost var cur, seen: seq<Tree> := tree, [];
      ghost var n: nat := LIMIT;
      if tree == Empty {
        EmptyIsMissing(hash, puts, db);
      } else {
        FollowRoot(hash, puts, db, tree);
        SearchStarts(hash, tree, targetKey);
      }
      while true
        invariant 0 <= progress <= |targetKey|
        invariant tree == Empty ==> LookupNode(db, ref) == Err(MissingNode) && stack == []
        invariant tree != Empty ==>
                    && cur != Empty && LookupNode(db, ref) == Ok(NodeOf(hash, cur))
                    && Shaped(cur) && Fits(cur, n) && n <= LIMIT && Stored(hash, puts, cur)
                    && SoFar(hash, tree, targetKey, progress, cur, seen, stack)
        decreases cur
      {
        var lookup := Lookup(ref);
        if lookup.Err? {
          return PathResult(None, [], stack);
        }
        var node := lookup.value;
        ghost var passed := stack;
        stack := stack + [node];
        ghost var child;
        var next;
        next, child := OnFound(node, targetKey, progress, cur, n);
        match next {
          case Stop(found, remaining) =>
            SearchEnds(hash, tree, targetKey, progress, cur, seen, passed);
            return PathResult(if found then Some(node) else None, remaining, stack);
          case Follow(end, childRef) =>
            SearchContinues(hash, tree, targetKey, progress, cur, seen, passed, end, child);
            seen, cur, n := seen + [cur], child, n - (end - progress);
            progress, ref := end, childRef;
        }
      }
    }

    // ----------------------------------------------------------------------------- saving a stack

    method FormatNode(node: Node, topLevel: bool, opStack: seq<PutOp>, remove: bool)
      returns (ref: Item, ops: seq<PutOp>)
      requires Addressed(hash, opStack)
      ensures Addressed(hash, ops) && Values(opStack) <= Values(ops)
      ensures var e := Serialize(node);
              if |e| < 32 && !topLevel then ref == Raw(node) && ops == opStack
              else ref == Str(hash(e)) && (if remove then ops == opStack else Values(ops) == Values(opStack) + {e})
    {
      hide Encode, EncodeAll, Encodings, EncodingsBelow, Values, Addressed;
      var encoded := EncodeItem(Raw(node));
      ops := opStack;
      if |encoded| >= 32 || topLevel {
        var lastRoot := hash(encoded);
        if !remove {
          NodeIsNoString(node);
          ValuesAppend(hash, opStack, encoded);
          ops := opStack + [PutOp(lastRoot, encoded)];
        }
        return Str(lastRoot), ops;
      }
      ref := Raw(node);
    }

    method Batch(ops: seq<PutOp>)
      requires StoreValid() && Addressed(hash, ops)
      modifies this`db, this`puts
      ensures StoreValid() && puts == old(puts) + Values(ops)
    {
      hide Holds, Values;
      assert ops[..0] == [] && puts + {} == puts && Values([]) == {} by { ValuesOfNothing(); }
      for i := 0 to |ops|
        invariant StoreValid() && puts == old(puts) + Values(ops[..i])
      {
        ValuesNext(ops, i);
        HoldsPut(hash, puts, db, ops[i].value);
        assert ops[i] in ops;
        db := db[ops[i].key := ops[i].value];
        puts := puts + {ops[i].value};
      }
      assert ops[..|ops|] == ops;
    }

    /** Where saveStack stands: before the first node, or above a subtree whose reference is lastRoot. */
    ghost predicate Saving(view: set<Bytes>, key: Key, stack: seq<Node>, lastRoot: Option<Item>, z: Spine, sub: Tree)
    {
      && sub != Empty && Stored(hash, view, sub)
      && (if lastRoot.None? then
            && stack != [] && stack[|stack| - 1] == NodeOf(hash, sub) && key == Path(z) + OwnKey(sub)
            && Along(hash, view, stack[..|stack| - 1], z, sub)
          else
            && key == Path(z) && Along(hash, view, stack, z, sub)
            && Saved(hash, view, sub, lastRoot.value, stack == []))
    }

    /** Take the last node off the stack and bring its reference and the key up to date. */
    method PopNode(key0: Key, stack: seq<Node>, lastRoot: Option<Item>, ghost view: set<Bytes>, ghost z0: Spine,
                   ghost sub0: Tree)
      returns (key: Key, node: Node, ghost z: Spine, ghost sub: Tree)
      requires stack != [] && Saving(view, key0, stack, lastRoot, z0, sub0)
      ensures sub != Empty && node == NodeOf(hash, sub) && key == Path(z) && Root(z, sub) == Root(z0, sub0)
      ensures Along(hash, view, stack[..|stack| - 1], z, sub) && Stored(hash, view, sub)
    {
      hide Encode, EncodeAll, Encodings, EncodingsBelow, NodeOf, RefOf, Raw, Link, Child, Stored, Along, Path, Root,
        OwnKey;
      key, node := key0, stack[|stack| - 1];
      if lastRoot.Some? {
        LinkUp(hash, view, stack, z0, sub0, key);
        z, sub := z0.up, z0.parent;
      } else {
        OwnKeyOfNode(hash, sub0, Path(z0));
        z, sub := z0, sub0;
      }
      if !node.BranchNode? {
        key := key[..|key| - |node.key|];
      }
      if node.ExtensionNode? && lastRoot.Some? {
        node := ExtensionNode(node.key, lastRoot.value);
      }
      if node.BranchNode? && lastRoot.Some? {
        var branchKey := key[|key| - 1];
        key := key[..|key| - 1];
        node := BranchNode(node.refs[branchKey := lastRoot.value], node.value);
      }
    }

    /**
      * Rebuild the references from the bottom of the stack to the root and write every node.
      * t is the tree to be saved, z0 the way down to the subtree sub0 whose node is last.
      */
    method SaveStack(key0: Key, stack0: seq<Node>, opStack0: seq<PutOp>, ghost t: Tree, ghost z0: Spine,
                     ghost sub0: Tree)
      requires StoreValid() && Addressed(hash, opStack0)
      requires Root(z0, sub0) == t && Saving(puts + Values(opStack0), key0, stack0, None, z0, sub0)
      requires Values(opStack0) <= Encodings(hash, t)
      modifies this`db, this`puts, this`root
      ensures StoreValid() && SavedAt(t) && OnlyWrote(t)
    {
      hide Encode, EncodeAll, Encodings, EncodingsBelow, NodeOf, RefOf, Raw, Holds, Addressed, Values, Stored, Along,
        Path, Root, OwnKey, Saved;
      var key, stack, opStack := key0, stack0, opStack0;
      var lastRoot: Option<Item> := None;
      ghost var z, sub := z0, sub0;
      while stack != []
        invariant puts == old(puts) && db == old(db)
        invariant Addressed(hash, opStack) && Values(opStack) <= Encodings(hash, t) && Root(z, sub) == t
        invariant Saving(puts + Values(opStack), key, stack, lastRoot, z, sub)
        decreases |stack|
      {
        ghost var view := puts + Values(opStack);
        var node;
        key, node, z, sub := PopNode(key, stack, lastRoot, view, z, sub);
        stack := stack[..|stack| - 1];
        var ref;
        ref, opStack := FormatNode(node, stack == [], opStack, false);
        ghost var view' := puts + Values(opStack);
        OwnEncoding(hash, sub);
        PartOfWhole(hash, view, stack, z, sub);
        AlongGrows(hash, view, view', stack, z, sub);
        StoredGrows(hash, view, view', sub);
        SavedNode(hash, view', sub, ref, stack == []);
        lastRoot := Some(ref);
      }
      RootReached(hash, puts + Values(opStack), z, sub, lastRoot.value);
      root := lastRoot.value.bytes;
      Batch(opStack);
    }

    // -------------------------------------------------------------------------------------- put

    static method MatchingNibbleLength(a: Key, b: Key) returns (i: nat)
      ensures i == Matching(a, b)
    {
      i := 0;
      while i < |a| && i < |b| && a[i] == b[i]
        invariant i <= |a| && i <= |b| && a[..i] == b[..i]
      {
        i := i + 1;
      }
      MatchingUnique(a, b, i);
    }

    /** The number of nibbles consumed above the last node of a stack. */
    static method ConsumedNibbles(stack: seq<Node>) returns (l: nat)
      ensures l == PathLength(stack)
    {
      l := 0;
      for i := 0 to |stack|
        invariant l == PathLength(stack[..i])
      {
        assert stack[..i + 1][..i] == stack[..i];
        l := l + if stack[i].BranchNode? then 1 else |stack[i].key|;
      }
      assert stack[..|stack|] == stack;
    }

    /** Put the value below a branch whose slot for it is free, or on the branch, and save the stack. */
    method AddToBranch(key: Key, branch: Node, keyRemainder: Key, value: Bytes, stack: seq<Node>, toSave: seq<PutOp>,
                       ghost t: Tree, ghost z: Spine, ghost b: Tree)
      requires StoreValid() && Addressed(hash, toSave) && Values(toSave) <= Encodings(hash, t)
      requires b.Branch? && |b.children| == 16 && branch == NodeOf(hash, b)
      requires keyRemainder != [] ==> b.children[keyRemainder[0]] == Empty
      requires Stored(hash, puts + Values(toSave), b)
      requires var full := AddEntry(b.children, b.value, keyRemainder, value);
               Along(hash, puts + Values(toSave), stack, z, full) && Root(z, full) == t
      requires key == Path(z) + keyRemainder
      modifies this`db, this`puts, this`root
      ensures StoreValid() && SavedAt(t) && OnlyWrote(t)
    {
      hide Encode, EncodeAll, Encodings, EncodingsBelow, NodeOf, RefOf, RootOf, Along, Stored, Link, Holds, Addressed,
        Values, AddEntry, Path;
      ghost var view, full := puts + Values(toSave), AddEntry(b.children, b.value, keyRemainder, value);
      if keyRemainder != [] {
        var leaf := LeafNode(keyRemainder[1..], value);
        ghost var l := LeafBelow(hash, view, stack, z, b, keyRemainder, value);
        var above := stack + [branch];
        Snoc(above, leaf);
        SaveStack(key, above + [leaf], toSave, t, Down(z, full, keyRemainder[..1]), l);
      } else {
        BranchWithValue(hash, view, b, value);
        EntryOnBranch(z, b, value);
        Snoc(stack, BranchNode(branch.refs, value));
        SaveStack(key, stack + [BranchNode(branch.refs, value)], toSave, t, z, full);
      }
    }

    /** The branch that splits a leaf or an extension, holding what is left of it below the split. */
    method HangRemainder(lastNode: Node, lastKey: Key, ghost sub: Tree, ghost m: nat)
      returns (branch: Node, toSave: seq<PutOp>)
      requires (sub.Leaf? && m <= |sub.key|) || (sub.Extension? && m < |sub.key|)
      requires lastNode == NodeOf(hash, sub) && lastKey == sub.key[m..] && Shaped(sub) && Stored(hash, puts, sub)
      ensures Addressed(hash, toSave) && Values(toSave) <= EncodingsBelow(hash, SplitBranch(sub, m))
      ensures branch == NodeOf(hash, SplitBranch(sub, m)) && Stored(hash, puts + Values(toSave), SplitBranch(sub, m))
    {
      hide Encode, EncodeAll, Encodings, EncodingsBelow, NodeOf, RefOf, Stored, Addressed, Values, Raw;
      NodeShape(hash, sub);
      NothingToSave(hash, puts);
      toSave := [];
      var refs: seq<Item>, branchValue: Bytes := seq(16, _ => NO_REF), [];
      if lastKey != [] {
        var branchKey, rest := lastKey[0], lastKey[1..];
        ghost var c := if sub.Leaf? then Leaf(rest, sub.value) else Wrap(rest, sub.child);
        if rest != [] || lastNode.LeafNode? {
          var shrunk := if lastNode.LeafNode? then LeafNode(rest, lastNode.value)
                        else ExtensionNode(rest, lastNode.ref);
          ShrunkNode(hash, puts, sub, rest);
          var formatted;
          formatted, toSave := FormatNode(shrunk, false, [], false);
          OwnEncoding(hash, c);
          SavedNode(hash, puts + Values(toSave), c, formatted, false);
          StoredGrows(hash, puts, puts + Values(toSave), c);
          refs := refs[branchKey := formatted];
        } else {
          var removed;
          removed, toSave := FormatNode(lastNode, false, [], true);
          ShrunkNode(hash, puts, sub, rest);
          refs := refs[branchKey := lastNode.ref];
        }
        assert sub.key[m] == branchKey && sub.key[m + 1..] == rest;
        BelowOneChild(hash, branchKey, c, []);
        OneChild(hash, puts + Values(toSave), branchKey, c, refs, []);
      } else {
        branchValue := lastNode.value;
        SafeNothing(hash, puts);
        assert refs == refs[0 := RefOf(hash, Empty)];
        OneChild(hash, puts, 0, Empty, refs, branchValue);
      }
      branch := BranchNode(refs, branchValue);
      SplitBranchIs(hash, puts + Values(toSave), sub, m);
    }

    /** Put a branch where the key leaves the path of a leaf or an extension. */
    method SplitNode(key: Key, lastNode: Node, keyRemainder0: Key, value: Bytes, stack0: seq<Node>, ghost t: Tree,
                     ghost z0: Spine, ghost sub: Tree)
      requires StoreValid() && value != []
      requires (sub.Leaf? && sub.key != keyRemainder0) || (sub.Extension? && !(sub.key <= keyRemainder0))
      requires lastNode == NodeOf(hash, sub) && Shaped(sub) && Stored(hash, puts, sub)
      requires var full := Insert(sub, keyRemainder0, value);
               Along(hash, puts, stack0, z0, full) && Root(z0, full) == t
      requires key == Path(z0) + keyRemainder0
      modifies this`db, this`puts, this`root
      ensures StoreValid() && SavedAt(t) && OnlyWrote(t)
    {
      hide Encode, EncodeAll, Encodings, EncodingsBelow, NodeOf, RefOf, RootOf, Along, Stored, Link, Holds, Addressed,
        Values, Insert, Root, Path;
      NodeShape(hash, sub);
      var lastKey, keyRemainder, stack := lastNode.key, keyRemainder0, stack0;
      var matchingLength := MatchingNibbleLength(lastKey, keyRemainder);
      SplitIsAddEntry(sub, keyRemainder0, value);
      ghost var full, z, b := Insert(sub, keyRemainder0, value), z0, SplitBranch(sub, matchingLength);
      if matchingLength != 0 {
        var newKey := lastKey[..matchingLength];
        ExtensionLinks(hash, puts, stack0, z0, full, newKey, Str(value));
        PathDown(z0, full, newKey, keyRemainder0);
        stack := stack + [ExtensionNode(newKey, Str(value))];
        z := Down(z0, full, newKey);
        lastKey := lastKey[matchingLength..];
        keyRemainder := keyRemainder[matchingLength..];
      }
      assert lastKey == sub.key[matchingLength..] && keyRemainder == keyRemainder0[matchingLength..];
      ghost var entry := AddEntry(b.children, b.value, keyRemainder, value);
      assert Along(hash, puts, stack, z, entry) && Root(z, entry) == t && key == Path(z) + keyRemainder;
      var branch, toSave := HangRemainder(lastNode, lastKey, sub, matchingLength);
      BelowAddEntry(hash, b, keyRemainder, value);
      OwnEncoding(hash, entry);
      PartOfWhole(hash, puts, stack, z, entry);
      AlongGrows(hash, puts, puts + Values(toSave), stack, z, entry);
      AddToBranch(key, branch, keyRemainder, value, stack, toSave, t, z, b);
    }

    method UpdateNode(k: Bytes, value: Bytes, keyRemainder: Key, stack0: seq<Node>)
      requires StoreValid() && tree != Empty && Shaped(tree) && Stored(hash, puts, tree) && value != []
      requires keyRemainder == Remaining(tree, Unpack(k))
      requires stack0 == Nodes(hash, Ancestors(tree, Unpack(k))) + [NodeOf(hash, End(tree, Unpack(k)))]
      modifies this`db, this`puts, this`root
      ensures StoreValid() && SavedAt(Insert(tree, Unpack(k), value)) && OnlyWrote(Insert(tree, Unpack(k), value))
    {
      hide Encode, EncodeAll, Encodings, EncodingsBelow, NodeOf, RefOf, RootOf, Along, Stored, Holds, Insert, Root,
        Path, Nodes, Ancestors, End, Remaining,
        Found, Unpack, Matching, Values;
      var key := BytesToHex(k);
      var stack, lastNode := stack0[..|stack0| - 1], stack0[|stack0| - 1];
      ghost var sub, t := End(tree, key), Insert(tree, key, value);
      Snoc(Nodes(hash, Ancestors(tree, key)), NodeOf(hash, sub));
      ghost var z, rest := InsertSpine(hash, puts, tree, key, value);
      NodeShape(hash, sub);
      NothingToSave(hash, puts);
      // the last node is the leaf of this very key
      var matchLeaf := false;
      if lastNode.LeafNode? {
        var l := ConsumedNibbles(stack);
        var matching := MatchingNibbleLength(lastNode.key, key[l..]);
        matchLeaf := keyRemainder == [] && matching == |lastNode.key|;
        LeafMatches(lastNode.key, rest, keyRemainder, Found(tree, key), matching);
      }
      if matchLeaf {
        LeafNodeOf(hash, puts, Leaf(rest, value));
        InsertAtLeaf(sub, rest, value);
        Snoc(stack, LeafNode(lastNode.key, value));
        SaveStack(key, stack + [LeafNode(lastNode.key, value)], [], t, z, Leaf(rest, value));
      } else if lastNode.BranchNode? {
        InsertAtBranch(sub, rest, value);
        AddToBranch(key, lastNode, keyRemainder, value, stack, [], t, z, sub);
      } else {
        SplitNode(key, lastNode, keyRemainder, value, stack, t, z, sub);
      }
    }

    method CreateInitialNode(key: Bytes, value: Bytes)
      requires StoreValid()
      modifies this`db, this`puts, this`root
      ensures StoreValid() && SavedAt(Leaf(Unpack(key), value)) && OnlyWrote(Leaf(Unpack(key), value))
    {
      hide Encode, EncodeAll, Encodings, EncodingsBelow, NodeOf, Raw, Holds, Stored;
      var nibbles := BytesToHex(key);
      LeafNodeOf(hash, puts, Leaf(nibbles, value));
      var newNode := LeafNode(nibbles, value);
      var encoded := EncodeItem(Raw(newNode));
      NodeIsNoString(newNode);
      HoldsPut(hash, puts, db, encoded);
      StoredGrows(hash, puts, puts + {encoded}, Leaf(nibbles, value));
      OwnEncoding(hash, Leaf(nibbles, value));
      root := hash(encoded);
      db := db[root := encoded];
      puts := puts + {encoded};
    }

    /** Store a non-empty value: the map changes at its key and nowhere else. */
    method PutValue(key: Bytes, value: Bytes)
      requires Valid() && NoCollisions() && 0 < |value| < LIMIT && |PathOf(key)| <= LIMIT
      modifies this`db, this`puts, this`root, this`tree, this`known
      ensures Valid() && OnlyWrote(tree) && known == old(known) + {tree}
      ensures tree == Insert(old(tree), PathOf(key), value)
      ensures forall q ::
                TrieModel.Lookup(tree, q) == if q == PathOf(key) then value else TrieModel.Lookup(old(tree), q)
      ensures old(Canonical(tree)) ==> Canonical(tree)
    {
      hide Encode, EncodeAll, Encodings, EncodingsBelow, NodeOf, RefOf, Holds, Insert, Uniform, Canonical, Stored, Fits,
        Shaped, CollisionFree;
      var appliedKey := AppliedKey(key);
      ghost var k, t := PathOf(key), Insert(tree, PathOf(key), value);
      if root == hash(RLP_EMPTY_STRING) {
        EmptyRoot(hash, puts, tree);
        InsertIntoEmpty(k, value);
        CreateInitialNode(appliedKey, value);
      } else {
        var path := FindPath(appliedKey);
        UpdateNode(appliedKey, value, path.remaining, path.stack);
      }
      InsertKeeps(tree, k, value, useKeyHashing);
      Remember(t, old(puts));
    }

    // -------------------------------------------------------------------------------------- get

    method Get(key: Bytes) returns (value: Option<Bytes>)
      requires Valid() && NoCollisions()
      ensures var v := TrieModel.Lookup(tree, PathOf(key)); value == if v == [] then None else Some(v)
    {
      hide Encode, EncodeAll, Encodings, EncodingsBelow, NodeOf, RefOf, RootOf, Holds, Stored, Fits, CollisionFree,
        Uniform, Canonical, Rooted,
        Found, Remaining, End, Nodes, Ancestors, Shaped;
      var path := FindPath(AppliedKey(key));
      value := None;
      ghost var k := PathOf(key);
      if tree != Empty {
        FoundValue(tree, k);
        NodeShape(hash, End(tree, k));
      }
      if path.node.Some? && path.remaining == [] {
        var node := path.node.value;
        if (node.LeafNode? || node.BranchNode?) && node.value != [] {
          value := Some(node.value);
        }
      }
    }

    // -------------------------------------------------------------------------------------- del

    static method GetChildren(refs: seq<Item>) returns (children: seq<(int, Item)>)
      ensures children == ChildRefs(refs, |refs|)
    {
      children := [];
      for i := 0 to |refs|
        invariant children == ChildRefs(refs, i)
      {
        if Present(refs[i]) {
          children := children + [(i, refs[i])];
        }
      }
    }

    /** Merge the one remaining child of a branch into what is above the branch. */
    static method ProcessBranchNode(key: Key, branchKey: Nibble, branchNode: Node, parentNode: Option<Node>,
                                    stack0: seq<Node>)
      returns (key': Key, stack: seq<Node>)
      requires parentNode.Some? ==> !parentNode.value.LeafNode?
      ensures var merge := parentNode.Some? && parentNode.value.ExtensionNode?;
              var base := if parentNode.None? || merge then stack0 else stack0 + [parentNode.value];
              var p := if merge then parentNode.value.key + [branchKey] else [branchKey];
              if branchNode.BranchNode? then
                && key' == key + [branchKey]
                && exists ref :: stack == base + [ExtensionNode(p, ref)] + [branchNode]
              else
                && key' == key + [branchKey] + branchNode.key
                && stack == base + [WithKey(branchNode, p + branchNode.key)]
    {
      stack := stack0;
      if parentNode.None? || parentNode.value.BranchNode? {
        if parentNode.Some? {
          stack := stack + [parentNode.value];
        }
        if branchNode.BranchNode? {
          stack := stack + [ExtensionNode([branchKey], Str([]))];
          key' := key + [branchKey];
          stack := stack + [branchNode];
        } else {
          var branchNodeKey := [branchKey] + branchNode.key;
          key' := key + branchNodeKey;
          stack := stack + [WithKey(branchNode, branchNodeKey)];
        }
      } else {
        var parentKey := parentNode.value.key;
        if branchNode.BranchNode? {
          parentKey := parentKey + [branchKey];
          key' := key + [branchKey];
          stack := stack + [ExtensionNode(parentKey, parentNode.value.ref)];
          stack := stack + [branchNode];
        } else {
          var branchNodeKey := [branchKey] + branchNode.key;
          key' := key + branchNodeKey;
          parentKey := parentKey + branchNodeKey;
          assert parentKey == parentNode.value.key + [branchKey] + branchNode.key;
          stack := stack + [WithKey(branchNode, parentKey)];
        }
      }
    }

    /** A branch collapses into an extension above it, if there is one. */
    ghost static predicate MergesInto(above: seq<Node>, p: Key, base: seq<Node>) {
      if above != [] && above[|above| - 1].ExtensionNode? then p == above[|above| - 1].key &&
        base == above[..|above| - 1]
      else p == [] && base == above && (above != [] ==> !above[|above| - 1].LeafNode?)
    }

    /** Take the parent of a branch off the stack, if there is one, and merge the branch's one child into it. */
    static method MergeOntoParent(key: Key, branchKey: Nibble, branchNode: Node, above: seq<Node>, ghost p: Key,
                                  ghost base: seq<Node>)
      returns (key': Key, stack: seq<Node>)
      requires MergesInto(above, p, base)
      ensures if branchNode.BranchNode? then
                && key' == key + [branchKey]
                && exists ref :: stack == base + [ExtensionNode(p + [branchKey], ref)] + [branchNode]
              else
                && key' == key + [branchKey] + branchNode.key
                && stack == base + [WithKey(branchNode, p + [branchKey] + branchNode.key)]
    {
      var parentNode, rest := None, above;
      if above != [] {
        parentNode, rest := Some(above[|above| - 1]), above[..|above| - 1];
        assert rest + [parentNode.value] == above;
      }
      assert [] + [branchKey] == [branchKey];
      key', stack := ProcessBranchNode(key, branchKey, branchNode, parentNode, rest);
    }

    /** Look up the one child a branch has left and save the stack with the branch collapsed into it. */
    method MergeChild(key: Key, branchKey: Nibble, branchRef: Item, above: seq<Node>, ghost p: Key, ghost zp: Spine,
                      ghost base: seq<Node>, ghost c: Tree, ghost t: Tree)
      requires StoreValid() && c != Empty && Stored(hash, puts, c) && LookupNode(db, branchRef) == Ok(NodeOf(hash, c))
      requires MergesInto(above, p, base)
      requires Along(hash, puts, base, zp, Prepend(p + [branchKey], c)) && Root(zp, Prepend(p + [branchKey], c)) == t
      requires key == Path(zp) + p
      modifies this`db, this`puts, this`root
      ensures StoreValid() && SavedAt(t) && OnlyWrote(t)
    {
      hide Encode, EncodeAll, Encodings, EncodingsBelow, NodeOf, RefOf, RootOf, LookupNode, Along, Stored, Holds, Root,
        Path, Values, Addressed, Prepend, MergesInto, WithKey;
      NodeShape(hash, c);
      NothingToSave(hash, puts);
      var foundNode := Lookup(branchRef);
      var key', stack' := MergeOntoParent(key, branchKey, foundNode.value, above, p, base);
      ghost var z', bottom := CollapsedStack(hash, puts, base, zp, p, branchKey, c, key, key', stack');
      SaveStack(key', stack', [], t, z', bottom);
    }

    /** Save the stack above a branch that has lost an entry, collapsing the branch if one child is left. */
    method CollapseBranch(key: Key, branch: Node, above: seq<Node>, ghost z: Spine, ghost b0: Tree, ghost rest: Key,
                          ghost b: Tree, ghost n: nat)
      requires StoreValid() && NoCollisions() && tree != Empty && Shaped(tree)
      requires b0.Branch? && Along(hash, puts, above, z, b0) && Root(z, b0) == tree && key == Path(z)
      requires b.Branch? && |b.children| == 16 && branch == NodeOf(hash, b)
      requires Stored(hash, puts, b) && Shaped(b) && Fits(b, n) && n <= LIMIT
      requires Remove(b0, rest) == Collapse(b.children, b.value)
      modifies this`db, this`puts, this`root
      ensures StoreValid() && SavedAt(Remove(tree, key + rest)) && OnlyWrote(Remove(tree, key + rest))
    {
      hide Encode, EncodeAll, Encodings, EncodingsBelow, NodeOf, RefOf, RootOf, LookupNode, Along, Stored, Holds,
        CollisionFree, Root, Path, Remove, Shaped,
        Fits, Values, Addressed, Collapse, SoleChild, Present, SavedAt, Prepend;
      NodeShape(hash, b);
      NothingToSave(hash, puts);
      var branchNodes := GetChildren(branch.refs);
      CountChildren(hash, b);
      if |branchNodes| == 1 {
        var branchKey, branchRef := branchNodes[0].0, branchNodes[0].1;
        RefShape(hash, puts, db, b, [branchKey], n);
        AboveShape(hash, puts, above, z, b0);
        ghost var zp, p, base, t := CollapseAt(hash, puts, above, z, b0, rest, b, branchKey);
        MergeChild(key, branchKey, branchRef, above, p, zp, base, b.children[branchKey], t);
      } else {
        NoCollapse(hash, puts, above, z, b0, rest, b);
        Snoc(above, branch);
        SaveStack(key, above + [branch], [], Remove(tree, key + rest), Replace(z, b), b);
      }
    }

    /** Remove the node found for a key: the last of the stack. */
    method DeleteNode(k: Bytes, stack0: seq<Node>)
      requires StoreValid() && NoCollisions() && tree != Empty && Shaped(tree) && Fits(tree, LIMIT) &&
               Stored(hash, puts, tree)
      requires Found(tree, Unpack(k))
      requires stack0 == Nodes(hash, Ancestors(tree, Unpack(k))) + [NodeOf(hash, End(tree, Unpack(k)))]
      modifies this`db, this`puts, this`root
      ensures StoreValid() && OnlyWrote(Delete(tree, Unpack(k)))
      ensures var t := Delete(tree, Unpack(k)); if t == Empty then root == RootOf(hash, Empty) else SavedAt(t)
    {
      hide Encode, EncodeAll, Encodings, EncodingsBelow, NodeOf, RefOf, Along, Stored, Link, Holds, CollisionFree, Root,
        Path, Remove, Shaped, Fits,
        Values, Nodes, Ancestors, End, Remaining, Found, Unpack, Delete, Collapse, Child;
      var key := BytesToHex(k);
      ghost var sub := End(tree, key);
      Snoc(Nodes(hash, Ancestors(tree, key)), NodeOf(hash, sub));
      ghost var z, rest, n := RemoveSpine(hash, puts, tree, key);
      NodeShape(hash, sub);
      var lastNode, stack := stack0[|stack0| - 1], stack0[..|stack0| - 1];
      AboveShape(hash, puts, stack, z, sub);
      if stack == [] {
        RootRemoved(hash, puts, z, sub, rest);
        root := hash(RLP_EMPTY_STRING);
        return;
      }
      NotRootRemoved(hash, puts, stack, tree, key, z, sub, rest);
      if lastNode.BranchNode? {
        // a null argument leaves the value of the branch as it is
        CollapseBranch(key, lastNode, stack, z, sub, rest, sub, n);
      } else {
        var parentNode := stack[|stack| - 1];
        ghost var b, m := LeafRemoved(hash, puts, stack, z, sub, key);
        key := key[..|key| - |lastNode.key|];
        var removed, opStack := FormatNode(lastNode, false, [], true);
        var branchKey := key[|key| - 1];
        key := key[..|key| - 1];
        lastNode := BranchNode(parentNode.refs[branchKey := NO_REF], parentNode.value);
        CollapseBranch(key, lastNode, stack[..|stack| - 1], z.up, z.parent, z.seg + rest, b, m);
      }
    }

    /** Delete a key: the trie denotes exactly what deleting on the denoted tree leaves. */
    method Del(key: Bytes)
      requires Valid() && NoCollisions()
      modifies this`db, this`puts, this`root, this`tree, this`known
      ensures Valid() && OnlyWrote(tree) && known == old(known) + {tree}
      ensures tree == Delete(old(tree), PathOf(key))
      ensures old(Deletable(tree, PathOf(key))) <==> TakesAway(tree, old(tree), PathOf(key))
      ensures old(Canonical(tree)) ==> (Canonical(tree) <==> old(Collapsible(tree, PathOf(key))))
    {
      hide Encode, EncodeAll, Encodings, EncodingsBelow, NodeOf, RefOf, Holds, Delete, Uniform, Canonical, Stored, Fits,
        Shaped, CollisionFree, Found, Deletable, Collapsible, TakesAway, Nodes, Ancestors, End, Remaining;
      var appliedKey := AppliedKey(key);
      ghost var k := PathOf(key);
      ghost var t := Delete(tree, k);
      var path := FindPath(appliedKey);
      DeleteKeeps(tree, k, useKeyHashing);
      if path.node.Some? {
        DeleteNode(appliedKey, path.stack);
      }
      Remember(t, old(puts));
    }

    /** put: an empty value deletes. */
    method Put(key: Bytes, value: Bytes)
      requires Valid() && NoCollisions() && |value| < LIMIT && |PathOf(key)| <= LIMIT
      modifies this`db, this`puts, this`root, this`tree, this`known
      ensures Valid() && OnlyWrote(tree) && known == old(known) + {tree}
      ensures value != [] ==> tree == Insert(old(tree), PathOf(key), value)
      ensures value == [] ==> tree == Delete(old(tree), PathOf(key))
      ensures value != [] || (useKeyHashing && old(Canonical(tree))) ==>
                forall q ::
                  TrieModel.Lookup(tree, q) == if q == PathOf(key) then value else TrieModel.Lookup(old(tree), q)
      ensures value == [] ==>
                (old(Deletable(tree, PathOf(key))) <==> TakesAway(tree, old(tree), PathOf(key)))
      ensures old(Canonical(tree)) ==> (Canonical(tree) <==> value != [] || old(Collapsible(tree, PathOf(key))))
    {
      hide Insert, Delete, Deletable, Collapsible, Found, Uniform, Canonical, Shaped, Rooted, Holds, CollisionFree;
      if value == [] {
        if useKeyHashing {
          DeleteUniform(tree, PathOf(key));
        }
        Del(key);
      } else {
        PutValue(key, value);
      }
    }

    /**
      * Any 32 bytes become the root, and no argument stands for the empty trie. A root the trie has had
      * still resolves to the tree it had then; with any other the trie is not valid until the next SetRoot.
      */
    method SetRoot(value: Option<Bytes>) returns (r: Result<Bytes, RootError>)
      requires Known() && NoCollisions()
      modifies this`root, this`tree
      ensures Known()
      ensures r.Err? <==> value.Some? && |value.value| != 32
      ensures r.Err? ==> root == old(root) && tree == old(tree)
      ensures r.Ok? ==> r.value == root == if value.Some? then value.value else RootOf(hash, Empty)
      ensures r.Ok? ==> forall t :: t in known && RootOf(hash, t) == root ==> Valid() && tree == t
    {
      hide Encode, EncodeAll, Encodings, EncodingsBelow, Holds, CollisionFree, Stored, Fits, Shaped, Canonical, Uniform,
        Rooted;
      var newRoot := if value.Some? then value.value else hash(RLP_EMPTY_STRING);
      if |newRoot| != 32 {
        return Err(InvalidRootLength);
      }
      root := newRoot;
      if was :| was in known && RootOf(hash, was) == root {
        forall t | t in known && RootOf(hash, t) == root ensures t == was {
          RootInjective(hash, puts, t, was);
        }
        tree := was;
      }
      r := Ok(root);
    }
  }
}
