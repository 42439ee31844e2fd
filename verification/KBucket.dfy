/** The k-bucket tree: nodes changed in place, split only along the local id. */
module KBucketTree {
  import opened Base
  import opened XorMetric
  import opened KBucketModel
  import opened NearestContacts

  /** An inner node has no list of contacts; a leaf has one, and no children. */
  class KBucketNode {
    var contacts: Option<seq<Peer>>
    var noSplit: bool
    var left: KBucketNode?
    var right: KBucketNode?

    constructor ()
      ensures contacts == Some([]) && !noSplit && left == null && right == null
    {
      contacts, noSplit, left, right := Some([]), false, null, null;
    }
  }

  datatype KBucketError = NoId | NotPositive

  class KBucket {
    const localNodeId: Bytes
    const numberOfNodesPerKBucket: nat
    const numberOfNodesToPing: nat
    const root: KBucketNode
    /** The nodes along the local id, the sibling of each below the root, and what the leaves hold. */
    ghost var chain: seq<KBucketNode>
    ghost var off: seq<KBucketNode>
    ghost var buckets: Buckets
    ghost var repr: set<KBucketNode>

    ghost predicate Inner(d: nat)
      requires d < |chain| - 1 && d < |off|
      reads this, chain[d]
    {
      && chain[d].contacts.None?
      && (if Bit(localNodeId, d) then chain[d].right == chain[d + 1] && chain[d].left == off[d]
          else chain[d].left == chain[d + 1] && chain[d].right == off[d])
    }

    ghost predicate Linked()
      reads this
    {
      && |chain| == |buckets| == |off| + 1 && chain[0] == root
      && (forall i :: 0 <= i < |chain| ==> chain[i] in repr)
      && (forall i :: 0 <= i < |off| ==> off[i] in repr)
      && (forall i, j :: 0 <= i < j < |chain| ==> chain[i] != chain[j])
      && (forall i, j :: 0 <= i < j < |off| ==> off[i] != off[j])
      && (forall i, j :: 0 <= i < |chain| && 0 <= j < |off| ==> chain[i] != off[j])
    }

    /** Inner nodes form a single chain; a leaf may split exactly when it ends that chain. */
    ghost predicate TreeOk()
      requires Linked()
      reads this, repr
    {
      && (forall d :: 0 <= d < |off| ==> Inner(d))
      && (forall d :: 0 <= d < |off| ==> off[d].contacts == Some(buckets[d]) && off[d].noSplit)
      && chain[|off|].contacts == Some(buckets[|off|]) && !chain[|off|].noSplit
    }

    ghost predicate Valid()
      reads this, repr
    {
      && Linked() && TreeOk()
      && numberOfNodesPerKBucket > 0
      && Placed(localNodeId, numberOfNodesPerKBucket, buckets)
    }

    ghost function Leaf(j: nat): KBucketNode
      requires Linked() && j < |buckets|
      reads this
    {
      if j < |off| then off[j] else chain[j]
    }

    /** No two contacts have one id, and each has one. */
    lemma {:induction false} OneContactPerId(c: Peer, d: Peer)
      requires Valid() && c in Contents(buckets) && d in Contents(buckets) && IdOf(c) == IdOf(d)
      ensures c == d && c.id.Some?
    {
      IdsDistinct(localNodeId, numberOfNodesPerKBucket, buckets, c, d);
      OnlyInSlot(localNodeId, numberOfNodesPerKBucket, buckets, c);
    }

    constructor (localNodeId: Bytes, numberOfNodesPerKBucket: nat, numberOfNodesToPing: nat)
      requires numberOfNodesPerKBucket > 0
      ensures Valid() && Contents(buckets) == {} && fresh(repr)
      ensures this.localNodeId == localNodeId && this.numberOfNodesToPing == numberOfNodesToPing
      ensures this.numberOfNodesPerKBucket == numberOfNodesPerKBucket
    {
      this.localNodeId := localNodeId;
      this.numberOfNodesPerKBucket := numberOfNodesPerKBucket;
      this.numberOfNodesToPing := numberOfNodesToPing;
      var node := new KBucketNode();
      root := node;
      chain, off, buckets, repr := [node], [], [[]], {node};
    }

    /** The child on the side of bit bitIndex of id. */
    static function DetermineNode(node: KBucketNode, id: Bytes, bitIndex: nat): (child: KBucketNode?)
      reads node
      ensures child == if Bit(id, bitIndex) then node.right else node.left
    {
      var byteIndex, within := bitIndex / 8, bitIndex % 8;
      if |id| <= byteIndex && within != 0 then node.left
      else if byteIndex < |id| && Shift(id[byteIndex], 7 - within) % 2 == 1 then node.right
      else node.left
    }

    /** The walk from the root that add, get and remove share. */
    method FindLeaf(id: Bytes) returns (node: KBucketNode, bitIndex: nat)
      requires Valid()
      ensures var j := Slot(localNodeId, id, |off|); node == Leaf(j) && bitIndex == if j < |off| then j + 1 else j
      ensures node.contacts.Some?
    {
      bitIndex := 0;
      node := root;
      ghost var onChain := true;
      while node.contacts.None?
        invariant node in repr
        invariant onChain ==> bitIndex <= |off| && node == chain[bitIndex] && Agree(localNodeId, id, bitIndex)
        invariant !onChain ==>
                    && 0 < bitIndex <= |off| && node == off[bitIndex - 1]
                    && Slot(localNodeId, id, |off|) == bitIndex - 1
        decreases |off| - bitIndex
      {
        assert Inner(bitIndex);
        onChain := Bit(id, bitIndex) == Bit(localNodeId, bitIndex);
        if !onChain {
          SlotIs(localNodeId, id, |off|, bitIndex);
        }
        node := DetermineNode(node, id, bitIndex);
        bitIndex := bitIndex + 1;
      }
      if onChain {
        assert bitIndex < |off| ==> Inner(bitIndex);
        SlotIs(localNodeId, id, |off|, bitIndex);
      }
    }

    static method IndexOf(node: KBucketNode, id: Bytes) returns (index: int)
      requires node.contacts.Some?
      ensures -1 <= index < |node.contacts.value|
      ensures index >= 0 ==> IdOf(node.contacts.value[index]) == id
      ensures index < 0 ==> forall c :: c in node.contacts.value ==> IdOf(c) != id
    {
      for i := 0 to |node.contacts.value|
        invariant forall j :: 0 <= j < i ==> IdOf(node.contacts.value[j]) != id
      {
        if IdOf(node.contacts.value[i]) == id {
          return i;
        }
      }
      index := -1;
    }

    /** get finds the contact with the given id, wherever it is stored. */
    method Get(id: Bytes) returns (contact: Option<Peer>)
      requires Valid()
      ensures contact.Some? <==> Known(Contents(buckets), id)
      ensures contact.Some? ==> contact.value in Contents(buckets) && IdOf(contact.value) == id
    {
      var node, bitIndex := FindLeaf(id);
      var index := IndexOf(node, id);
      KnownInSlot(localNodeId, numberOfNodesPerKBucket, buckets, id);
      contact := if index >= 0 then Some(node.contacts.value[index]) else None;
      if index >= 0 {
        InContents(buckets, Slot(localNodeId, id, |off|), contact.value);
      }
    }

    /** Replace the list of one leaf. */
    method SetContacts(node: KBucketNode, s: seq<Peer>, ghost j: nat)
      requires Valid() && j < |buckets| && node == Leaf(j)
      requires BucketOk(localNodeId, numberOfNodesPerKBucket, s, j, |off|)
      modifies this`buckets, node`contacts
      ensures Valid() && buckets == old(buckets)[j := s]
    {
      node.contacts := Some(s);
      buckets := buckets[j := s];
      forall d | 0 <= d < |off| ensures Inner(d) {
        assert old(Inner(d));
      }
    }

    /** remove takes away the contact with the given id and nothing else. */
    method Remove(id: Bytes) returns (removed: Option<Peer>)
      requires Valid()
      modifies this`buckets, repr
      ensures Valid()
      ensures removed.Some? <==> Known(old(Contents(buckets)), id)
      ensures removed.Some? ==> removed.value in old(Contents(buckets)) && IdOf(removed.value) == id
      ensures Contents(buckets) == old(Contents(buckets)) - if removed.Some? then {removed.value} else {}
      ensures OrderKept(old(buckets), buckets, id)
    {
      hide OrderKept, BucketOk, Without, Bit, Contents;
      var node, bitIndex := FindLeaf(id);
      var index := IndexOf(node, id);
      ghost var j := Slot(localNodeId, id, |off|);
      KnownInSlot(localNodeId, numberOfNodesPerKBucket, buckets, id);
      removed := None;
      if index >= 0 {
        removed := Some(node.contacts.value[index]);
        InContents(buckets, j, removed.value);
        RemoveFromBucket(localNodeId, numberOfNodesPerKBucket, buckets, j, index);
        RenewedOrderKept(buckets, j, index, removed.value);
        SetContacts(node, Without(node.contacts.value, index), j);
      } else {
        SameOrder(buckets, id);
      }
    }

    /** The contact selected by the arbiter goes to the end of its leaf, unless the incumbent stays. */
    method Update(node: KBucketNode, index: nat, contact: Peer, ghost j: nat) returns (e: Event)
      requires Valid() && contact.id.Some?
      requires j == Slot(localNodeId, IdOf(contact), |off|) && node == Leaf(j)
      requires index < |buckets[j]| && IdOf(buckets[j][index]) == IdOf(contact)
      modifies this`buckets, node`contacts
      ensures Valid()
      ensures Admits(localNodeId, numberOfNodesPerKBucket, numberOfNodesToPing,
                     old(Contents(buckets)), contact, buckets, e)
      ensures OrderKept(old(buckets), buckets, IdOf(contact))
    {
      hide OrderKept;
      AdmitKnown(localNodeId, numberOfNodesPerKBucket, numberOfNodesToPing, buckets, contact, index);
      var incumbent := node.contacts.value[index];
      var selection := Arbiter(incumbent, contact);
      if selection == incumbent && incumbent != contact {
        SameOrder(buckets, IdOf(contact));
        return Unchanged;
      }
      RenewedOrderKept(buckets, j, index, selection);
      SetContacts(node, Without(node.contacts.value, index) + [selection], j);
      e := Updated(incumbent, selection);
    }

    /** Hand each contact to the child on the side of its bit. */
    static method Distribute(node: KBucketNode, contacts: seq<Peer>, local: Bytes, bitIndex: nat)
      requires node.left != null && node.right != null && node.left != node.right
      requires node.left.contacts == node.right.contacts == Some([])
      modifies node.left`contacts, node.right`contacts
      ensures node.left.contacts == Some(Keep(contacts, local, bitIndex, !Bit(local, bitIndex)))
      ensures node.right.contacts == Some(Keep(contacts, local, bitIndex, Bit(local, bitIndex)))
    {
      for i := 0 to |contacts|
        invariant node.left.contacts == Some(Keep(contacts[..i], local, bitIndex, !Bit(local, bitIndex)))
        invariant node.right.contacts == Some(Keep(contacts[..i], local, bitIndex, Bit(local, bitIndex)))
      {
        KeepNext(contacts, i, local, bitIndex, true);
        KeepNext(contacts, i, local, bitIndex, false);
        var child := DetermineNode(node, IdOf(contacts[i]), bitIndex);
        child.contacts := Some(child.contacts.value + [contacts[i]]);
      }
      assert contacts[..|contacts|] == contacts;
    }

    /** The tree with its last chain node just opened: everything above is as it was. */
    ghost predicate Opened(detNode: KBucketNode, otherNode: KBucketNode)
      requires Linked()
      reads this, repr, detNode, otherNode
    {
      var n := |off|;
      && detNode !in repr && otherNode !in repr && detNode != otherNode
      && (forall d :: 0 <= d < n ==> Inner(d))
      && (forall d :: 0 <= d < n ==> off[d].contacts == Some(buckets[d]) && off[d].noSplit)
      && chain[n].contacts.None?
      && (if Bit(localNodeId, n) then chain[n].right == detNode && chain[n].left == otherNode
          else chain[n].left == detNode && chain[n].right == otherNode)
      && detNode.contacts == Some(Keep(buckets[n], localNodeId, n, true)) && !detNode.noSplit
      && otherNode.contacts == Some(Keep(buckets[n], localNodeId, n, false)) && otherNode.noSplit
    }

    ghost method Extend(detNode: KBucketNode, otherNode: KBucketNode)
      requires Linked() && Opened(detNode, otherNode)
      requires numberOfNodesPerKBucket > 0 && Placed(localNodeId, numberOfNodesPerKBucket, buckets)
      modifies this`chain, this`off, this`buckets, this`repr
      ensures Valid() && repr == old(repr) + {detNode, otherNode}
      ensures buckets == SplitLast(localNodeId, old(buckets)) && |off| == old(|off|) + 1
    {
      hide Bit, Placed, SharedBits, Keep;
      SplitPlaced(localNodeId, numberOfNodesPerKBucket, buckets);
      chain, off := chain + [detNode], off + [otherNode];
      repr := repr + {detNode, otherNode};
      buckets := SplitLast(localNodeId, buckets);
      forall d | 0 <= d < |off| ensures Inner(d) {
        assert d < |off| - 1 ==> old(Inner(d));
      }
    }

    /** Split the last leaf of the chain; the side away from the local id may not split again. */
    method Split(node: KBucketNode, bitIndex: nat)
      requires Valid() && |off| == bitIndex && node == chain[bitIndex]
      modifies this`chain, this`off, this`buckets, this`repr, node
      ensures Valid() && fresh(repr - old(repr))
      ensures buckets == SplitLast(localNodeId, old(buckets)) && |off| == bitIndex + 1
    {
      hide Bit, Placed, SharedBits, Keep;
      node.left := new KBucketNode();
      node.right := new KBucketNode();
      Distribute(node, node.contacts.value, localNodeId, bitIndex);
      node.contacts := None;
      var detNode := DetermineNode(node, localNodeId, bitIndex);
      var otherNode := if node.left == detNode then node.right else node.left;
      otherNode.noSplit := true;
      forall d | 0 <= d < |off| ensures Inner(d) {
        assert old(Inner(d));
      }
      Extend(detNode, otherNode);
    }

    /**
      * Add a contact whose id may have any length. Every split happens at a depth where some identifier
      * still has bits, so they end, unless the contact is stuck: then they never do (SplitsForever).
      */
    method Add(contact: Peer) returns (r: Result<Event, KBucketError>)
      requires Valid()
      requires contact.id.Some? ==> !Stuck(localNodeId, numberOfNodesPerKBucket, Contents(buckets), contact.id.value)
      modifies this`chain, this`off, this`buckets, this`repr, repr
      ensures Valid() && fresh(repr - old(repr))
      ensures r.Err? <==> contact.id.None?
      ensures r.Err? ==> r.error == NoId && buckets == old(buckets)
      ensures r.Ok? ==>
                Admits(localNodeId, numberOfNodesPerKBucket, numberOfNodesToPing, old(Contents(buckets)), contact,
                       buckets, r.value)
      ensures OrderKept(old(buckets), buckets, IdOf(contact))
      decreases Deepest(localNodeId, Contents(buckets), IdOf(contact)) - |off|
    {
      hide Admits, Contents, BucketOk, SplitLast, SharedBits, Alike, Bit, Arbiter, Stuck, Deepest, OrderKept;
      if contact.id.None? {
        SameOrder(buckets, IdOf(contact));
        return Err(NoId);
      }
      var node, bitIndex := FindLeaf(contact.id.value);
      ghost var j := Slot(localNodeId, contact.id.value, |off|);
      var index := IndexOf(node, contact.id.value);
      if index >= 0 {
        var e := Update(node, index, contact, j);
        return Ok(e);
      }
      if |node.contacts.value| < numberOfNodesPerKBucket {
        AdmitWithRoom(localNodeId, numberOfNodesPerKBucket, numberOfNodesToPing, buckets, contact);
        AddedOrderKept(buckets, j, contact);
        SetContacts(node, node.contacts.value + [contact], j);
        return Ok(Added(contact));
      }
      if node.noSplit {
        AdmitFull(localNodeId, numberOfNodesPerKBucket, numberOfNodesToPing, buckets, contact);
        var asked := if numberOfNodesToPing < |node.contacts.value| then node.contacts.value[..numberOfNodesToPing]
                     else node.contacts.value;
        SameOrder(buckets, IdOf(contact));
        return Ok(Pinged(asked, contact));
      }
      MaySplit(localNodeId, numberOfNodesPerKBucket, buckets, contact.id.value);
      SplitKeepsContents(localNodeId, buckets);
      SplitOrderKept(localNodeId, buckets, IdOf(contact));
      ghost var was := buckets;
      Split(node, bitIndex);
      ghost var splitOnce := buckets;
      r := Add(contact);
      OrderKeptTwice(was, splitOnce, buckets, IdOf(contact));
    }

    /** For a stuck contact add always comes to a full leaf that may split, and so never returns. */
    lemma {:induction false} AddComesToSplit(id: Bytes)
      requires Valid() && Stuck(localNodeId, numberOfNodesPerKBucket, Contents(buckets), id)
      ensures Slot(localNodeId, id, |off|) == |off|
      ensures var node := Leaf(|off|);
              && node.contacts.Some? && |node.contacts.value| >= numberOfNodesPerKBucket && !node.noSplit
              && forall c :: c in node.contacts.value ==> IdOf(c) != id
      ensures Stuck(localNodeId, numberOfNodesPerKBucket, Contents(SplitLast(localNodeId, buckets)), id)
    {
      hide Stuck;
      StuckMustSplit(localNodeId, numberOfNodesPerKBucket, buckets, id);
      SplitKeepsContents(localNodeId, buckets);
    }

    // ------------------------------------------------------------------------- walks over the tree

    ghost function NodeAt(spot: Spot): KBucketNode
      requires Linked() && SpotOk(buckets, spot)
      reads this
    {
      match spot
      case OnChain(d) => chain[d]
      case Off(d) => off[d]
    }

    /** The stack of nodes, and at most one of them on the chain, at depth bitIndex. */
    ghost predicate Stacked(nodes: seq<KBucketNode>, spots: seq<Spot>, bitIndex: nat)
      requires Linked()
      reads this
    {
      && |nodes| == |spots| && SpotsOk(buckets, spots) && bitIndex <= |off|
      && (forall i :: 0 <= i < |spots| ==> nodes[i] == NodeAt(spots[i]))
      && (forall i :: 0 <= i < |spots| && spots[i].OnChain? ==> spots[i].depth == bitIndex)
      && (forall i, j :: 0 <= i < j < |spots| ==> !(spots[i].OnChain? && spots[j].OnChain?))
    }

    /** An inner node is met at the depth the running bit index says; its children take its place. */
    lemma {:induction false} OpenInner(nodes: seq<KBucketNode>, spots: seq<Spot>, bitIndex: nat, q: Bytes)
      requires Valid() && nodes != [] && Stacked(nodes, spots, bitIndex)
      requires nodes[|nodes| - 1].contacts.None?
      ensures spots[|spots| - 1] == OnChain(bitIndex) && bitIndex < |off| && Inner(bitIndex)
      ensures var rest, restSpots := nodes[..|nodes| - 1], spots[..|spots| - 1];
              var other, matching := Other(localNodeId, q, bitIndex), Matching(localNodeId, q, bitIndex);
              && SpotsOk(buckets, restSpots) && SpotOk(buckets, other) && SpotOk(buckets, matching)
              && NodeAt(matching) == DetermineNode(chain[bitIndex], q, bitIndex)
              && NodeAt(other) ==
                 (if chain[bitIndex].left == NodeAt(matching) then chain[bitIndex].right else chain[bitIndex].left)
              && nodes[|nodes| - 1] == chain[bitIndex] && chain[bitIndex].left != null && chain[bitIndex].right != null
              && Stacked(rest + [NodeAt(other), NodeAt(matching)], restSpots + [other, matching], bitIndex + 1)
              && Pending(localNodeId, buckets, q, restSpots + [other, matching]) ==
                 Pending(localNodeId, buckets, q, spots)
    {
      hide Placed, Bit, Pending;
      assert bitIndex < |off| ==> Inner(bitIndex);
      var restSpots := spots[..|spots| - 1];
      assert spots == restSpots + [spots[|spots| - 1]];
      Expand(localNodeId, buckets, q, restSpots, bitIndex);
    }

    lemma {:induction false} TakeLeaf(nodes: seq<KBucketNode>, spots: seq<Spot>, bitIndex: nat, q: Bytes)
      requires Valid() && nodes != [] && Stacked(nodes, spots, bitIndex)
      requires nodes[|nodes| - 1].contacts.Some?
      ensures var rest, restSpots := nodes[..|nodes| - 1], spots[..|spots| - 1];
              && Stacked(rest, restSpots, bitIndex)
              && Below(localNodeId, buckets, q, spots[|spots| - 1]) == nodes[|nodes| - 1].contacts.value
              && Pending(localNodeId, buckets, q, spots) ==
                 nodes[|nodes| - 1].contacts.value + Pending(localNodeId, buckets, q, restSpots)
    {
      hide Placed, Bit;
      assert bitIndex < |off| ==> Inner(bitIndex);
    }

    lemma {:induction false} RootOnly(q: Bytes)
      requires Valid()
      ensures Stacked([root], [OnChain(0)], 0)
      ensures Pending(localNodeId, buckets, q, [OnChain(0)]) == Walk(localNodeId, buckets, q, 0)
      ensures NearestOnTop(localNodeId, buckets, q, [OnChain(0)])
    {
      FromTheRoot(localNodeId, buckets, q);
    }

    /** The empty stack leaves nothing to come. */
    lemma {:induction false} NothingPending(spots: seq<Spot>, q: Bytes)
      requires Valid() && spots == []
      ensures SpotsOk(buckets, spots) && Pending(localNodeId, buckets, q, spots) == []
    {
    }

    /** All contacts, from left to right. */
    method ToArray() returns (result: seq<Peer>)
      requires Valid()
      ensures result == LeftToRight(localNodeId, buckets)
    {
      hide Placed, Pending, TreeOk;
      result := [];
      var stack := [root];
      ghost var spots, depth: nat := [OnChain(0)], 0;
      RootOnly([]);
      while stack != []
        invariant Stacked(stack, spots, depth)
        invariant result + Pending(localNodeId, buckets, [], spots) == LeftToRight(localNodeId, buckets)
        decreases |off| - depth, |stack|
      {
        var node := stack[|stack| - 1];
        if node.contacts.None? {
          OpenInner(stack, spots, depth, []);
          var right: KBucketNode, left: KBucketNode := node.right, node.left;
          stack := stack[..|stack| - 1] + [right, left];
          spots := spots[..|spots| - 1] + [Other(localNodeId, [], depth), Matching(localNodeId, [], depth)];
          depth := depth + 1;
        } else {
          TakeLeaf(stack, spots, depth, []);
          result := result + node.contacts.value;
          stack, spots := stack[..|stack| - 1], spots[..|spots| - 1];
        }
      }
      NothingPending(spots, []);
    }

    /** The number of contacts, without listing them. */
    method Count() returns (count: nat)
      requires Valid()
      ensures count == |Contents(buckets)|
    {
      hide Placed, Pending, TreeOk;
      count := 0;
      var nodes := [root];
      ghost var spots, depth: nat := [OnChain(0)], 0;
      RootOnly([]);
      while nodes != []
        invariant Stacked(nodes, spots, depth)
        invariant count + |Pending(localNodeId, buckets, [], spots)| == |LeftToRight(localNodeId, buckets)|
        decreases |off| - depth, |nodes|
      {
        var node := nodes[|nodes| - 1];
        if node.contacts.None? {
          OpenInner(nodes, spots, depth, []);
          var right: KBucketNode, left: KBucketNode := node.right, node.left;
          nodes := nodes[..|nodes| - 1] + [right, left];
          spots := spots[..|spots| - 1] + [Other(localNodeId, [], depth), Matching(localNodeId, [], depth)];
          depth := depth + 1;
        } else {
          TakeLeaf(nodes, spots, depth, []);
          count := count + |node.contacts.value|;
          nodes, spots := nodes[..|nodes| - 1], spots[..|spots| - 1];
        }
      }
      NothingPending(spots, []);
      WalkIsContents(localNodeId, numberOfNodesPerKBucket, buckets, []);
    }

    /** The contacts met so far and those on the stack are all contacts, the nearest first. */
    ghost predicate Searching(nodes: seq<KBucketNode>, spots: seq<Spot>, bitIndex: nat, contacts: seq<Peer>, id: Bytes)
      requires Linked()
      reads this
    {
      && Stacked(nodes, spots, bitIndex)
      && contacts + Pending(localNodeId, buckets, id, spots) == Walk(localNodeId, buckets, id, 0)
      && (OneLength(Contents(buckets)) ==>
            && NoFarther(contacts, Pending(localNodeId, buckets, id, spots), id)
            && NearestOnTop(localNodeId, buckets, id, spots))
    }

    lemma {:induction false} SearchStarts(id: Bytes)
      requires Valid()
      ensures Searching([root], [OnChain(0)], 0, [], id)
    {
      hide Placed, TreeOk;
      RootOnly(id);
    }

    lemma {:induction false} SearchOpens(nodes: seq<KBucketNode>, spots: seq<Spot>, bitIndex: nat, contacts: seq<Peer>,
                                         id: Bytes)
      requires Valid() && nodes != [] && Searching(nodes, spots, bitIndex, contacts, id)
      requires nodes[|nodes| - 1].contacts.None?
      ensures |spots| == |nodes|
      ensures var node, rest := nodes[|nodes| - 1], nodes[..|nodes| - 1];
              var other, matching := Other(localNodeId, id, bitIndex), Matching(localNodeId, id, bitIndex);
              && bitIndex < |off| && node.left != null && node.right != null
              && SpotOk(buckets, other) && SpotOk(buckets, matching)
              && NodeAt(matching) == DetermineNode(node, id, bitIndex)
              && NodeAt(other) == (if node.left == NodeAt(matching) then node.right else node.left)
              && Searching(rest + [NodeAt(other), NodeAt(matching)], spots[..|spots| - 1] + [other, matching],
                           bitIndex + 1, contacts, id)
    {
      hide Placed, TreeOk, Pending, NearestOnTop, Walk, Bit, Distance, Matching, Other, Below, OneLength;
      OpenInner(nodes, spots, bitIndex, id);
      ghost var restSpots := spots[..|spots| - 1];
      assert spots == restSpots + [spots[|spots| - 1]];
      if OneLength(Contents(buckets)) {
        ExpandNearest(localNodeId, numberOfNodesPerKBucket, buckets, id, restSpots, bitIndex);
      }
    }

    lemma {:induction false} SearchTakes(nodes: seq<KBucketNode>, spots: seq<Spot>, bitIndex: nat, contacts: seq<Peer>,
                                         id: Bytes)
      requires Valid() && nodes != [] && Searching(nodes, spots, bitIndex, contacts, id)
      requires nodes[|nodes| - 1].contacts.Some?
      ensures |spots| == |nodes|
      ensures Searching(nodes[..|nodes| - 1], spots[..|spots| - 1], bitIndex,
                        contacts + nodes[|nodes| - 1].contacts.value, id)
    {
      hide Placed, TreeOk, Pending, NearestOnTop, Walk, Distance, Below, OneLength;
      TakeLeaf(nodes, spots, bitIndex, id);
      ghost var restSpots := spots[..|spots| - 1];
      assert spots == restSpots + [spots[|spots| - 1]];
      if OneLength(Contents(buckets)) {
        TopIsNearest(localNodeId, buckets, id, restSpots, spots[|spots| - 1], contacts);
      }
    }

    lemma {:induction false} SearchEnds(nodes: seq<KBucketNode>, spots: seq<Spot>, bitIndex: nat, contacts: seq<Peer>,
                                        id: Bytes, n: Option<nat>)
      requires Valid() && Searching(nodes, spots, bitIndex, contacts, id)
      requires nodes == [] || (n.Some? && |contacts| >= n.value)
      ensures AsFarAs(contacts, n)
      ensures OneLength(Contents(buckets)) ==>
                Take(SortByDistance(contacts, id), n) == Take(SortByDistance(LeftToRight(localNodeId, buckets), id), n)
    {
      hide Placed, TreeOk, Pending, NearestOnTop, SortByDistance, Walk, Take, Distance, LeftToRight, Below, OneLength;
      if nodes == [] {
        NothingPending(spots, id);
      }
      ghost var left := Pending(localNodeId, buckets, id, spots);
      WalkIsContents(localNodeId, numberOfNodesPerKBucket, buckets, id);
      PartOfWalk(contacts, left, Walk(localNodeId, buckets, id, 0));
      if OneLength(Contents(buckets)) {
        FoundNearest(localNodeId, numberOfNodesPerKBucket, buckets, id, contacts, left, n);
      }
    }

    /** Stored contacts, each id once, and n of them or all. */
    ghost predicate AsFarAs(contacts: seq<Peer>, n: Option<nat>)
      reads this
    {
      && DistinctIds(contacts) && (forall c :: c in contacts ==> c in Contents(buckets))
      && ((n.Some? && |contacts| >= n.value) || |contacts| == |Contents(buckets)|)
    }

    /**
      * Up to n stored contacts, or all of them, in order of distance to any id; the walk stops as soon as it
      * has met n. When the stored ids have one length they are the n nearest.
      */
    method Closest(id: Bytes, n: Option<int>) returns (r: Result<seq<Peer>, KBucketError>)
      requires Valid()
      ensures r.Err? <==> n.Some? && n.value <= 0
      ensures r.Ok? ==>
                && Ascending(r.value, id) && DistinctIds(r.value)
                && (forall c :: c in r.value ==> c in Contents(buckets))
                && |r.value| == if n.Some? then Min(n.value, |Contents(buckets)|) else |Contents(buckets)|
      ensures r.Ok? && OneLength(Contents(buckets)) ==>
                r.value == Take(SortByDistance(LeftToRight(localNodeId, buckets), id), n)
    {
      hide Placed, TreeOk, Searching, SortByDistance, Take, LeftToRight, Matching, Other, OneLength, AsFarAs, Ascending,
        DistinctIds;
      if n.Some? && n.value <= 0 {
        return Err(NotPositive);
      }
      var contacts: seq<Peer> := [];
      var nodes, bitIndex := [root], 0;
      ghost var spots := [OnChain(0)];
      SearchStarts(id);
      while nodes != [] && (n.None? || |contacts| < n.value)
        invariant Searching(nodes, spots, bitIndex, contacts, id)
        decreases |off| - bitIndex, |nodes|
      {
        var node := nodes[|nodes| - 1];
        if node.contacts.None? {
          SearchOpens(nodes, spots, bitIndex, contacts, id);
          var detNode: KBucketNode := DetermineNode(node, id, bitIndex);
          var otherNode: KBucketNode := if node.left == detNode then node.right else node.left;
          nodes := nodes[..|nodes| - 1] + [otherNode, detNode];
          spots := spots[..|spots| - 1] + [Other(localNodeId, id, bitIndex), Matching(localNodeId, id, bitIndex)];
          bitIndex := bitIndex + 1;
        } else {
          SearchTakes(nodes, spots, bitIndex, contacts, id);
          contacts := contacts + node.contacts.value;
          nodes, spots := nodes[..|nodes| - 1], spots[..|spots| - 1];
        }
      }
      r := Ok(Take(SortByDistance(contacts, id), n));
      SearchEnds(nodes, spots, bitIndex, contacts, id, n);
      SortedTake(contacts, id, n);
    }

    lemma {:induction false} SortedTake(contacts: seq<Peer>, id: Bytes, n: Option<nat>)
      requires Valid() && AsFarAs(contacts, n)
      ensures var r := Take(SortByDistance(contacts, id), n);
              && Ascending(r, id) && DistinctIds(r) && (forall c :: c in r ==> c in Contents(buckets))
              && |r| == if n.Some? then Min(n.value, |Contents(buckets)|) else |Contents(buckets)|
    {
      hide SortByDistance, Distance, Linked, TreeOk, Placed;
      SortSorts(contacts, id);
      SortDistinct(contacts, id);
      forall c ensures c in SortByDistance(contacts, id) <==> c in contacts {
        SortIn(contacts, id, c);
      }
      SetOfSeq(contacts);
      SubsetSize((set c | c in contacts), Contents(buckets));
    }
  }
}
