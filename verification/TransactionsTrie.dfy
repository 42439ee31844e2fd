/** The root of a block's transactions: item i is put at the RLP encoding of i. */
module TransactionsTrie {
  import opened Base
  import opened Rlp
  import opened RlpCodec
  import opened TrieModel
  import opened TrieUnique
  import opened TrieStore
  import opened TrieRoots
  import opened Trie

  /** Serialized transactions: never empty, and no more than an array can index. */
  ghost predicate Serialized(txs: seq<Bytes>) {
    |txs| <= LIMIT && forall tx :: tx in txs ==> 0 < |tx| < LIMIT
  }

  function IndexKey(i: nat): Key {
    Unpack(Encode(Str(IntegerBytes(i))))
  }

  lemma {:induction false} IndexSized(i: nat)
    requires i < LIMIT
    ensures Sized(Str(IntegerBytes(i))) && |IndexKey(i)| <= 34
  {
    BigEndianLength(i, 8);
    Power256Eight();
    StringSize(IntegerBytes(i));
  }

  lemma {:induction false} IndexKeyInjective(i: nat, j: nat)
    requires i < LIMIT && j < LIMIT && IndexKey(i) == IndexKey(j)
    ensures i == j
  {
    IndexSized(i);
    IndexSized(j);
    PackUnpack(Encode(Str(IntegerBytes(i))));
    PackUnpack(Encode(Str(IntegerBytes(j))));
    EncodeInjective(Str(IntegerBytes(i)), Str(IntegerBytes(j)));
    IntegerBytesInjective(i, j);
  }

  ghost predicate InRange(order: seq<nat>, n: nat) {
    forall j :: 0 <= j < |order| ==> order[j] < n
  }

  /** The puts of the listed items, in the listed order. */
  ghost function Puts(txs: seq<Bytes>, order: seq<nat>): seq<Op>
    requires InRange(order, |txs|)
  {
    if order == [] then []
    else
      var front, last := order[..|order| - 1], order[|order| - 1];
      Puts(txs, front) + [Op.Put(IndexKey(last), txs[last])]
  }

  ghost function Upto(n: nat): (order: seq<nat>)
    ensures InRange(order, n) && forall i :: 0 <= i < n ==> i in order
  {
    if n == 0 then [] else Upto(n - 1) + [n - 1]
  }

  /** The map the trie should hold: item i at key i, and nothing else. */
  ghost predicate Indexed(m: map<Key, Bytes>, txs: seq<Bytes>, present: seq<nat>)
    requires InRange(present, |txs|)
  {
    && (forall j :: 0 <= j < |present| ==> IndexKey(present[j]) in m && m[IndexKey(present[j])] == txs[present[j]])
    && (forall q :: q in m ==> exists j :: 0 <= j < |present| && q == IndexKey(present[j]))
  }

  lemma {:induction false} IndexedPut(m: map<Key, Bytes>, txs: seq<Bytes>, present: seq<nat>, i: nat)
    requires Serialized(txs) && InRange(present, |txs|) && i < |txs| && Indexed(m, txs, present)
    ensures Indexed(m[IndexKey(i) := txs[i]], txs, present + [i])
  {
    hide IndexKey;
    var m', present' := m[IndexKey(i) := txs[i]], present + [i];
    forall j | 0 <= j < |present'| ensures IndexKey(present'[j]) in m' &&
      m'[IndexKey(present'[j])] == txs[present'[j]] {
      if IndexKey(present'[j]) == IndexKey(i) {
        IndexKeyInjective(present'[j], i);
      }
    }
    forall q | q in m' ensures exists j :: 0 <= j < |present'| && q == IndexKey(present'[j]) {
      if q == IndexKey(i) {
        assert present'[|present|] == i;
      } else {
        var j :| 0 <= j < |present| && q == IndexKey(present[j]);
        assert present'[j] == present[j];
      }
    }
  }

  lemma {:induction false} EffectOfPut(ops: seq<Op>, k: Key, v: Bytes)
    requires v != []
    ensures Effect(ops + [Op.Put(k, v)]) == Effect(ops)[k := v]
  {
    assert (ops + [Op.Put(k, v)])[..|ops|] == ops;
  }

  lemma {:induction false} PutsEffect(txs: seq<Bytes>, order: seq<nat>)
    requires Serialized(txs) && InRange(order, |txs|)
    ensures Indexed(Effect(Puts(txs, order)), txs, order)
  {
    hide IndexKey;
    if order != [] {
      hide Indexed, Effect;
      var front, last := order[..|order| - 1], order[|order| - 1];
      PutsEffect(txs, front);
      assert txs[last] in txs;
      EffectOfPut(Puts(txs, front), IndexKey(last), txs[last]);
      IndexedPut(Effect(Puts(txs, front)), txs, front, last);
      assert order == front + [last];
    }
  }

  lemma {:induction false} PutsAdmissible(txs: seq<Bytes>, order: seq<nat>)
    requires Serialized(txs) && InRange(order, |txs|)
    ensures Admissible(Puts(txs, order)) && FitsAll(Puts(txs, order))
  {
    hide IndexKey;
    if order != [] {
      var front, last := order[..|order| - 1], order[|order| - 1];
      PutsAdmissible(txs, front);
      IndexSized(last);
      assert txs[last] in txs;
    }
  }

  lemma {:induction false} SameIndexedMap(m: map<Key, Bytes>, m': map<Key, Bytes>, txs: seq<Bytes>, p: seq<nat>,
                                          p': seq<nat>)
    requires forall i :: i in p <==> i in p'
    requires InRange(p, |txs|) && InRange(p', |txs|)
    requires Indexed(m, txs, p) && Indexed(m', txs, p')
    ensures m == m'
  {
    hide IndexKey;
    forall q ensures q in m <==> q in m'
             ensures q in m ==> m[q] == m'[q] {
      if q in m {
        var j :| 0 <= j < |p| && q == IndexKey(p[j]);
        assert p[j] in p';
      }
      if q in m' {
        var j :| 0 <= j < |p'| && q == IndexKey(p'[j]);
        assert p'[j] in p;
      }
    }
  }

  /** Putting every item once or more, in any order, gives one and the same tree. */
  lemma {:induction false} OrderIndependence(txs: seq<Bytes>, order: seq<nat>)
    requires Serialized(txs) && InRange(order, |txs|) && forall i :: 0 <= i < |txs| ==> i in order
    ensures Run(Puts(txs, order)) == Run(Puts(txs, Upto(|txs|)))
  {
    hide IndexKey, Indexed, Effect, Run, Admissible;
    PutsEffect(txs, order);
    PutsEffect(txs, Upto(|txs|));
    PutsAdmissible(txs, order);
    PutsAdmissible(txs, Upto(|txs|));
    SameIndexedMap(Effect(Puts(txs, order)), Effect(Puts(txs, Upto(|txs|))), txs, order, Upto(|txs|));
    HistoryIndependence(Puts(txs, order), Puts(txs, Upto(|txs|)));
  }

  /** The tree of a list of transactions. */
  ghost function TreeOf(txs: seq<Bytes>): Tree {
    TreeOfFirst(txs, |txs|)
  }

  ghost function TreeOfFirst(txs: seq<Bytes>, n: nat): Tree
    requires n <= |txs|
  {
    Run(Puts(txs, Upto(n)))
  }

  /** The tree holds exactly item i at the path of index i, and nothing else. */
  lemma {:induction false} Faithful(txs: seq<Bytes>, q: Key)
    requires Serialized(txs)
    ensures Canonical(TreeOf(txs)) && Fits(TreeOf(txs), LIMIT)
    ensures forall i :: 0 <= i < |txs| && q == IndexKey(i) ==> Lookup(TreeOf(txs), q) == txs[i]
    ensures (forall i :: 0 <= i < |txs| ==> q != IndexKey(i)) ==> Lookup(TreeOf(txs), q) == []
  {
    hide IndexKey, Canonical, Fits, Run, Effect, Admissible, FitsAll, Lookup, Uniform, Puts, Indexed, Denotes;
    var ops := Puts(txs, Upto(|txs|));
    PutsEffect(txs, Upto(|txs|));
    PutsAdmissible(txs, Upto(|txs|));
    RunRefinesMap(ops);
    RunFits(ops);
    DenotesIndexed(TreeOf(txs), Effect(ops), txs, Upto(|txs|), q);
  }

  lemma {:induction false} DenotesIndexed(t: Tree, m: map<Key, Bytes>, txs: seq<Bytes>, order: seq<nat>, q: Key)
    requires InRange(order, |txs|) && Indexed(m, txs, order) && Denotes(t, m)
    requires forall i :: 0 <= i < |txs| ==> i in order
    ensures forall i :: 0 <= i < |txs| && q == IndexKey(i) ==> Lookup(t, q) == txs[i]
    ensures (forall i :: 0 <= i < |txs| ==> q != IndexKey(i)) ==> Lookup(t, q) == []
  {
    hide IndexKey, Lookup;
    forall i | 0 <= i < |txs| && q == IndexKey(i) ensures Lookup(t, q) == txs[i] {
      assert i in order;
    }
  }

  /** Without a collision among their nodes, equal roots mean equal lists. */
  lemma {:induction false} RootDeterminesList(hash: HashFunction, txs: seq<Bytes>, txs': seq<Bytes>)
    requires Serialized(txs) && Serialized(txs')
    requires CollisionFree(hash, Encodings(hash, TreeOf(txs)) + Encodings(hash, TreeOf(txs')))
    ensures RootOf(hash, TreeOf(txs)) == RootOf(hash, TreeOf(txs')) <==> txs == txs'
  {
    hide IndexKey, CollisionFree, RootOf, Canonical, Fits, Encodings, TreeOf;
    Faithful(txs, []);
    Faithful(txs', []);
    RootIsMap(hash, TreeOf(txs), TreeOf(txs'));
    if RootOf(hash, TreeOf(txs)) == RootOf(hash, TreeOf(txs')) {
      if |txs| < |txs'| {
        MissingItem(txs, txs');
      } else if |txs'| < |txs| {
        MissingItem(txs', txs);
      } else {
        forall i | 0 <= i < |txs| ensures txs[i] == txs'[i] {
          Faithful(txs, IndexKey(i));
          Faithful(txs', IndexKey(i));
        }
      }
    }
  }

  lemma {:induction false} MissingItem(short: seq<Bytes>, long: seq<Bytes>)
    requires Serialized(short) && Serialized(long) && |short| < |long|
    ensures !SameMap(TreeOf(short), TreeOf(long)) && !SameMap(TreeOf(long), TreeOf(short))
  {
    hide IndexKey, TreeOf;
    var q := IndexKey(|short|);
    Faithful(short, q);
    Faithful(long, q);
    forall i | 0 <= i < |short| ensures q != IndexKey(i) {
      if q == IndexKey(i) {
        IndexKeyInjective(|short|, i);
      }
    }
    assert long[|short|] in long;
    assert Lookup(TreeOf(short), q) != Lookup(TreeOf(long), q);
  }

  lemma {:induction false} NextPut(txs: seq<Bytes>, n: nat)
    requires Serialized(txs) && n < |txs|
    ensures TreeOfFirst(txs, n + 1) == Insert(TreeOfFirst(txs, n), IndexKey(n), txs[n])
  {
    hide IndexKey, Insert;
    var ops, op := Puts(txs, Upto(n)), Op.Put(IndexKey(n), txs[n]);
    assert Upto(n + 1)[..|Upto(n + 1)| - 1] == Upto(n);
    assert (ops + [op])[..|ops|] == ops;
    assert txs[n] in txs;
  }

  lemma {:induction false} NothingPut(txs: seq<Bytes>)
    ensures TreeOfFirst(txs, 0) == Empty
  {
  }

  /** Everything that may be written while the items are put one after the other is among the strings. */
  ghost predicate Covers(hash: HashFunction, strings: set<Bytes>, txs: seq<Bytes>) {
    forall i :: 0 <= i <= |txs| ==> Encodings(hash, TreeOfFirst(txs, i)) <= strings
  }

  lemma {:induction false} FewerCollisions(hash: HashFunction, some: set<Bytes>, all: set<Bytes>)
    requires CollisionFree(hash, all) && some <= all
    ensures CollisionFree(hash, some)
  {
  }

  /** The first n items of a list were put into the trie. */
  ghost predicate HoldsItems(trie: MerklePatriciaTrie, hash: HashFunction, txs: seq<Bytes>, n: nat)
    reads trie
  {
    n <= |txs| && trie.tree == TreeOfFirst(txs, n) && trie.hash == hash && !trie.useKeyHashing && trie.Valid()
  }

  /** Put item i at the encoding of i. */
  method PutItem(trie: MerklePatriciaTrie, hash: HashFunction, txs: seq<Bytes>, i: nat, ghost strings: set<Bytes>)
    requires Serialized(txs) && i < |txs| && Covers(hash, strings, txs) && CollisionFree(hash, strings)
    requires HoldsItems(trie, hash, txs, i) && trie.puts <= strings
    modifies trie
    ensures HoldsItems(trie, hash, txs, i + 1) && trie.puts <= strings
  {
    hide Insert, Encodings, CollisionFree, RootOf, Encode, EncodeAll, Rooted, Holds, Canonical, Uniform, Shaped, Lookup,
      TreeOfFirst, Unpack, IntegerBytes, MerklePatriciaTrie.Known;
    FewerCollisions(hash, trie.puts, strings);
    IndexSized(i);
    NextPut(txs, i);
    assert txs[i] in txs;
    var index := IntegerToBytes(i);
    var key := EncodeItem(Str(index));
    trie.Put(key, txs[i]);
  }

  /**
    * The root of a list of transactions, built in a trie of its own or in an empty one that is handed in.
    * The strings are those the trie holds and may write.
    */
  method GenTransactionsTrieRoot(hash: HashFunction, txs: seq<Bytes>, emptyTrie: MerklePatriciaTrie?,
                                 ghost strings: set<Bytes>)
    returns (trie: MerklePatriciaTrie, root: Bytes)
    requires Serialized(txs) && Covers(hash, strings, txs) && CollisionFree(hash, strings)
    requires emptyTrie != null ==>
               HoldsItems(emptyTrie, hash, [], 0) && emptyTrie.tree == Empty && emptyTrie.puts <= strings
    modifies emptyTrie
    ensures if emptyTrie == null then fresh(trie) else trie == emptyTrie
    ensures trie.Valid() && trie.NoCollisions()
    ensures trie.tree == TreeOf(txs) && trie.root == root == RootOf(hash, TreeOf(txs))
  {
    hide CollisionFree, RootOf, Rooted, Holds, Canonical, Uniform, Shaped, Serialized, Covers, TreeOfFirst,
      MerklePatriciaTrie.Known;
    NothingPut(txs);
    if emptyTrie == null {
      trie := new MerklePatriciaTrie(hash, false);
    } else {
      trie := emptyTrie;
    }
    for i := 0 to |txs|
      invariant HoldsItems(trie, hash, txs, i) && trie.puts <= strings
    {
      PutItem(trie, hash, txs, i, strings);
    }
    FewerCollisions(hash, trie.puts, strings);
    root := trie.root;
  }
}
