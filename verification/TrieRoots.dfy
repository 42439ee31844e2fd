/** What two roots say about each other: equal roots, equal trees, equal maps. */
module TrieRoots {
  import opened Base
  import opened TrieModel
  import opened TrieDelete
  import opened TrieUnique
  import opened TrieStore

  lemma {:induction false} HeldByOwnEncodings(hash: HashFunction, puts: set<Bytes>, t: Tree)
    requires Encodings(hash, t) <= puts
    ensures Held(hash, puts, t) && Stored(hash, puts, t)
  {
    hide Encoding;
    match t
    case Empty =>
    case Leaf(_, _) =>
    case Extension(_, c) => HeldByOwnEncodings(hash, puts, c);
    case Branch(cs, _) =>
      forall i | 0 <= i < |cs| ensures Held(hash, puts, cs[i]) && Stored(hash, puts, cs[i]) {
        assert Encodings(hash, cs[i]) <= EncodingsBelow(hash, t);
        HeldByOwnEncodings(hash, puts, cs[i]);
      }
  }

  lemma {:induction false} RootIsTree(hash: HashFunction, s: Tree, t: Tree)
    requires Fits(s, LIMIT) && Fits(t, LIMIT)
    requires CollisionFree(hash, Encodings(hash, s) + Encodings(hash, t))
    ensures RootOf(hash, s) == RootOf(hash, t) <==> s == t
  {
    hide Encoding, RootOf, CollisionFree, Fits, Stored;
    var all := Encodings(hash, s) + Encodings(hash, t);
    HeldByOwnEncodings(hash, all, s);
    HeldByOwnEncodings(hash, all, t);
    RootInjective(hash, all, s, t);
  }

  /** Equal roots mean equal maps, and the other way round. */
  lemma {:induction false} RootIsMap(hash: HashFunction, s: Tree, t: Tree)
    requires Canonical(s) && Canonical(t) && Fits(s, LIMIT) && Fits(t, LIMIT)
    requires CollisionFree(hash, Encodings(hash, s) + Encodings(hash, t))
    ensures RootOf(hash, s) == RootOf(hash, t) <==> SameMap(s, t)
  {
    hide Encodings, RootOf, CollisionFree, Canonical, Fits;
    RootIsTree(hash, s, t);
    if SameMap(s, t) {
      Unique(s, t);
    }
  }

  lemma {:induction false} FitsDelete(t: Tree, k: Key, n: nat)
    requires Fits(t, n)
    ensures Fits(Delete(t, k), n)
  {
    FitsRemove(t, k, n);
  }

  /** del leaves the root of the map without k exactly when the tree is deletable and collapsible at k. */
  lemma {:induction false} RootOfDelete(hash: HashFunction, t: Tree, k: Key, rest: Tree)
    requires Canonical(t) && Fits(t, LIMIT) && Canonical(rest) && Fits(rest, LIMIT)
    requires TakesAway(rest, t, k)
    requires CollisionFree(hash, Encodings(hash, Delete(t, k)) + Encodings(hash, rest))
    ensures RootOf(hash, Delete(t, k)) == RootOf(hash, rest) <==> Deletable(t, k) && Collapsible(t, k)
  {
    hide Encodings, RootOf, CollisionFree, Canonical, Fits, Lookup, Delete, Deletable, Collapsible;
    FitsDelete(t, k, LIMIT);
    DeleteIsCanonical(t, k);
    RootIsTree(hash, Delete(t, k), rest);
    if Deletable(t, k) && Collapsible(t, k) {
      Unique(Delete(t, k), rest);
    }
  }

  ghost predicate FitsAll(ops: seq<Op>) {
    forall op :: op in ops ==> |op.key| <= LIMIT && (op.Put? ==> |op.value| < LIMIT)
  }

  lemma {:induction false} RunFits(ops: seq<Op>)
    requires FitsAll(ops)
    ensures Fits(Run(ops), LIMIT)
  {
    if ops != [] {
      var front, op := ops[..|ops| - 1], ops[|ops| - 1];
      RunFits(front);
      assert op in ops;
      if Deletes(op) {
        FitsDelete(Run(front), op.key, LIMIT);
      } else {
        RunShaped(front);
        FitsInsert(Run(front), op.key, op.value, LIMIT);
      }
    }
  }

  /** Two admissible runs reach the same root exactly when they leave the same map. */
  lemma {:induction false} RootForgetsHistory(hash: HashFunction, ops: seq<Op>, ops': seq<Op>)
    requires Admissible(ops) && FitsAll(ops) && Admissible(ops') && FitsAll(ops')
    requires CollisionFree(hash, Encodings(hash, Run(ops)) + Encodings(hash, Run(ops')))
    ensures RootOf(hash, Run(ops)) == RootOf(hash, Run(ops')) <==> Effect(ops) == Effect(ops')
  {
    hide RootOf, CollisionFree, Encodings, Canonical, Fits, Lookup, Run, Effect, Admissible, FitsAll, Denotes, Right;
    RunRefinesMap(ops);
    RunRefinesMap(ops');
    RunFits(ops);
    RunFits(ops');
    RootIsMap(hash, Run(ops), Run(ops'));
    HistoryIndependence(ops, ops');
    if RootOf(hash, Run(ops)) == RootOf(hash, Run(ops')) {
      Unique(Run(ops), Run(ops'));
    }
  }
}
