/**
  * What a k-bucket tree holds. Inner nodes form one chain along the local id, so the leaves are a
  * row of buckets: bucket d holds the contacts that share exactly d leading bits with the local id,
  * and the last bucket holds those that share at least as many bits as there are buckets before it
  * (section 2.4 of the Kademlia paper).
  */
module KBucketModel {
  import opened Base
  import opened XorMetric

  datatype Peer = Peer(id: Option<Bytes>, address: Option<string>, tcpPort: Option<nat>, vectorClock: Option<int>)

  function IdOf(p: Peer): Bytes {
    if p.id.Some? then p.id.value else []
  }

  /** Of two contacts with one id, the one with the larger vector clock; else the candidate. */
  function Arbiter(incumbent: Peer, candidate: Peer): (kept: Peer)
    ensures kept == candidate || kept == incumbent
    ensures incumbent.vectorClock.None? || candidate.vectorClock.None? ==> kept == candidate
    ensures incumbent.vectorClock.Some? && candidate.vectorClock.Some? ==>
              && kept.vectorClock.value >= incumbent.vectorClock.value
              && kept.vectorClock.value >= candidate.vectorClock.value
              && (incumbent.vectorClock == candidate.vectorClock ==> kept == candidate)
  {
    if incumbent.vectorClock.Some? && candidate.vectorClock.Some? &&
       incumbent.vectorClock.value > candidate.vectorClock.value then incumbent else candidate
  }

  type Buckets = seq<seq<Peer>>

  function Slot(local: Bytes, id: Bytes, last: nat): nat {
    if SharedBits(local, id) < last && !Alike(local, id) then SharedBits(local, id) else last
  }

  lemma {:induction false} SlotMeans(local: Bytes, id: Bytes, last: nat)
    ensures var j := Slot(local, id, last);
            j <= last && Agree(local, id, j) && (j < last ==> Bit(local, j) != Bit(id, j))
  {
    AlikeAgree(local, id);
  }

  lemma {:induction false} SlotIs(local: Bytes, id: Bytes, last: nat, j: nat)
    requires j <= last && Agree(local, id, j) && (j < last ==> Bit(local, j) != Bit(id, j))
    ensures Slot(local, id, last) == j
  {
    if j < last {
      SharedIs(local, id, j);
    } else {
      SharedAtLeast(local, id, j);
    }
  }

  ghost predicate DistinctIds(s: seq<Peer>) {
    forall i, j :: 0 <= i < j < |s| ==> IdOf(s[i]) != IdOf(s[j])
  }

  ghost predicate BucketOk(local: Bytes, k: nat, s: seq<Peer>, j: nat, last: nat) {
    && |s| <= k && DistinctIds(s)
    && forall c :: c in s ==> c.id.Some? && Slot(local, IdOf(c), last) == j
  }

  /** Every contact lies in the bucket its bits select, no id is held twice, no bucket is overfull. */
  ghost predicate Placed(local: Bytes, k: nat, bs: Buckets) {
    && bs != []
    && forall j :: 0 <= j < |bs| ==> BucketOk(local, k, bs[j], j, |bs| - 1)
  }

  ghost function Contents(bs: Buckets): set<Peer> {
    set j, c | 0 <= j < |bs| && c in bs[j] :: c
  }

  ghost predicate Known(contacts: set<Peer>, id: Bytes) {
    exists c :: c in contacts && IdOf(c) == id
  }

  /** Two identifiers share equally many bits with the local id. */
  predicate ShareEqually(local: Bytes, a: Bytes, b: Bytes) {
    if Alike(local, a) then Alike(local, b) else !Alike(local, b) && SharedBits(local, a) == SharedBits(local, b)
  }

  /** The contacts at the same logarithmic distance from the local id as id. */
  ghost function Crowd(local: Bytes, contacts: set<Peer>, id: Bytes): set<Peer> {
    set c | c in contacts && ShareEqually(local, IdOf(c), id)
  }

  /** A new id that no depth tells from the local id, while k contacts no depth tells from it are stored already. */
  ghost predicate Stuck(local: Bytes, k: nat, contacts: set<Peer>, id: Bytes) {
    !Known(contacts, id) && Alike(local, id) && |Crowd(local, contacts, id)| >= k
  }

  ghost predicate OneLength(contacts: set<Peer>) {
    forall c, d :: c in contacts && d in contacts ==> |IdOf(c)| == |IdOf(d)|
  }

  datatype Event =
    | Added(peer: Peer)
    | Pinged(asked: seq<Peer>, candidate: Peer)
    | Updated(incumbent: Peer, selection: Peer)
    | Unchanged

  /** p is the most recent contact of its bucket. */
  ghost predicate Newest(local: Bytes, bs: Buckets, p: Peer) {
    bs != [] && var s := bs[Slot(local, IdOf(p), |bs| - 1)]; s != [] && s[|s| - 1] == p
  }

  /**
    * What adding p does, whatever the tree looks like: a known id is arbitrated, a new one is let in
    * exactly while fewer than k contacts share as many bits with the local id as it does, and
    * otherwise the first few of those are to be pinged and nothing changes.
    */
  ghost predicate Admits(local: Bytes, k: nat, toPing: nat, contacts: set<Peer>, p: Peer, bs: Buckets, e: Event) {
    var crowd := Crowd(local, contacts, IdOf(p));
    if Known(contacts, IdOf(p)) then
      forall c :: c in contacts && IdOf(c) == IdOf(p) ==>
        var kept := Arbiter(c, p);
        && Contents(bs) == contacts - {c} + {kept}
        && (if kept == c && c != p then e == Unchanged else e == Updated(c, kept) && Newest(local, bs, kept))
    else if |crowd| < k then
      Contents(bs) == contacts + {p} && e == Added(p) && Newest(local, bs, p)
    else
      && Contents(bs) == contacts && bs != []
      && var s := bs[Slot(local, IdOf(p), |bs| - 1)];
         && (forall c :: c in s <==> c in crowd)
         && e == Pinged(if toPing < |s| then s[..toPing] else s, p)
  }

  lemma {:induction false} InContents(bs: Buckets, j: nat, c: Peer)
    requires j < |bs| && c in bs[j]
    ensures c in Contents(bs)
  {
  }

  /** A contact is found only in the bucket of its id. */
  lemma {:induction false} OnlyInSlot(local: Bytes, k: nat, bs: Buckets, c: Peer)
    requires Placed(local, k, bs) && c in Contents(bs)
    ensures c in bs[Slot(local, IdOf(c), |bs| - 1)] && c.id.Some?
  {
    var j :| 0 <= j < |bs| && c in bs[j];
    assert BucketOk(local, k, bs[j], j, |bs| - 1);
  }

  /** No two stored contacts have one id. */
  lemma {:induction false} IdsDistinct(local: Bytes, k: nat, bs: Buckets, c: Peer, d: Peer)
    requires Placed(local, k, bs) && c in Contents(bs) && d in Contents(bs) && IdOf(c) == IdOf(d)
    ensures c == d
  {
    OnlyInSlot(local, k, bs, c);
    OnlyInSlot(local, k, bs, d);
    var s := bs[Slot(local, IdOf(c), |bs| - 1)];
    assert DistinctIds(s);
    var i :| 0 <= i < |s| && s[i] == c;
    var j :| 0 <= j < |s| && s[j] == d;
  }

  // -------------------------------------------------------------------------- changing one bucket

  lemma {:induction false} ContentsOf(local: Bytes, k: nat, bs: Buckets, j: nat, s: seq<Peer>, c: Peer)
    requires Placed(local, k, bs) && j < |bs| && BucketOk(local, k, s, j, |bs| - 1)
    ensures Placed(local, k, bs[j := s])
    ensures c in Contents(bs[j := s]) <==>
            c in s || (c in Contents(bs) && Slot(local, IdOf(c), |bs| - 1) != j)
  {
    var bs' := bs[j := s];
    if c in Contents(bs') {
      OnlyInSlot(local, k, bs', c);
    }
    if c in Contents(bs) {
      OnlyInSlot(local, k, bs, c);
    }
    if c in s {
      assert c in bs'[j];
    } else if c in Contents(bs) && Slot(local, IdOf(c), |bs| - 1) != j {
      assert c in bs'[Slot(local, IdOf(c), |bs| - 1)];
    }
  }

  lemma {:induction false} AddToBucket(local: Bytes, k: nat, bs: Buckets, p: Peer)
    requires Placed(local, k, bs) && p.id.Some?
    requires var s := bs[Slot(local, IdOf(p), |bs| - 1)]; |s| < k && forall c :: c in s ==> IdOf(c) != IdOf(p)
    ensures var j := Slot(local, IdOf(p), |bs| - 1);
            && Placed(local, k, bs[j := bs[j] + [p]])
            && Contents(bs[j := bs[j] + [p]]) == Contents(bs) + {p}
  {
    var j := Slot(local, IdOf(p), |bs| - 1);
    var s := bs[j] + [p];
    assert BucketOk(local, k, bs[j], j, |bs| - 1);
    assert BucketOk(local, k, s, j, |bs| - 1);
    forall c ensures c in Contents(bs[j := s]) <==> c in Contents(bs) + {p} {
      ContentsOf(local, k, bs, j, s, c);
      ContentsOf(local, k, bs, j, bs[j], c);
      assert bs[j := bs[j]] == bs;
    }
    ContentsOf(local, k, bs, j, s, p);
  }

  function Without(s: seq<Peer>, i: nat): (r: seq<Peer>)
    requires i < |s|
    ensures |r| == |s| - 1 && forall m :: 0 <= m < |r| ==> r[m] == s[if m < i then m else m + 1]
  {
    s[..i] + s[i + 1..]
  }

  lemma {:induction false} WithoutIn(s: seq<Peer>, i: nat, c: Peer)
    requires DistinctIds(s) && i < |s|
    ensures DistinctIds(Without(s, i)) && |Without(s, i)| < |s|
    ensures c in Without(s, i) <==> c in s && IdOf(c) != IdOf(s[i])
  {
    var r := Without(s, i);
    assert forall m :: 0 <= m < |r| ==> r[m] == s[if m < i then m else m + 1];
    if c in s && IdOf(c) != IdOf(s[i]) {
      var m :| 0 <= m < |s| && s[m] == c;
      assert c == r[if m < i then m else m - 1];
    }
  }

  lemma {:induction false} RemoveFromBucket(local: Bytes, k: nat, bs: Buckets, j: nat, i: nat)
    requires Placed(local, k, bs) && j < |bs| && i < |bs[j]|
    ensures BucketOk(local, k, Without(bs[j], i), j, |bs| - 1)
    ensures var bs' := bs[j := Without(bs[j], i)];
            && Placed(local, k, bs') && Contents(bs') == Contents(bs) - {bs[j][i]}
            && !Known(Contents(bs'), IdOf(bs[j][i]))
  {
    hide Without, Slot;
    var s, gone := Without(bs[j], i), bs[j][i];
    assert BucketOk(local, k, bs[j], j, |bs| - 1);
    forall c ensures c in s <==> c in bs[j] && IdOf(c) != IdOf(gone) {
      WithoutIn(bs[j], i, c);
    }
    assert BucketOk(local, k, s, j, |bs| - 1) by {
      WithoutIn(bs[j], i, gone);
    }
    forall c ensures c in Contents(bs[j := s]) <==> c in Contents(bs) && IdOf(c) != IdOf(gone) {
      RemovedOne(local, k, bs, j, s, gone, c);
    }
    InContents(bs, j, gone);
    forall c | c in Contents(bs) && c != gone ensures IdOf(c) != IdOf(gone) {
      if IdOf(c) == IdOf(gone) {
        IdsDistinct(local, k, bs, c, gone);
      }
    }
  }

  lemma {:induction false} RemovedOne(local: Bytes, k: nat, bs: Buckets, j: nat, s: seq<Peer>, gone: Peer, c: Peer)
    requires Placed(local, k, bs) && j < |bs| && BucketOk(local, k, s, j, |bs| - 1) && gone in bs[j]
    requires c in s <==> c in bs[j] && IdOf(c) != IdOf(gone)
    ensures Placed(local, k, bs[j := s])
    ensures c in Contents(bs[j := s]) <==> c in Contents(bs) && IdOf(c) != IdOf(gone)
  {
    ContentsOf(local, k, bs, j, s, c);
    InContents(bs, j, gone);
    OnlyInSlot(local, k, bs, gone);
    assert BucketOk(local, k, bs[j], j, |bs| - 1);
    if c in Contents(bs) {
      OnlyInSlot(local, k, bs, c);
    }
    if c in bs[j] {
      InContents(bs, j, c);
    }
  }

  // ------------------------------------------------------------------------------------ splitting

  /** The contacts whose bit n is that of the local id, or those whose bit n is not, in order. */
  function Keep(s: seq<Peer>, local: Bytes, n: nat, same: bool): seq<Peer> {
    if s == [] then []
    else
      var c := s[|s| - 1];
      Keep(s[..|s| - 1], local, n, same) + if (Bit(IdOf(c), n) == Bit(local, n)) == same then [c] else []
  }

  lemma {:induction false} KeepNext(s: seq<Peer>, i: nat, local: Bytes, n: nat, same: bool)
    requires i < |s|
    ensures Keep(s[..i + 1], local, n, same) ==
            if (Bit(IdOf(s[i]), n) == Bit(local, n)) == same then Keep(s[..i], local, n, same) + [s[i]]
            else Keep(s[..i], local, n, same)
  {
    assert s[..i + 1][..i] == s[..i];
  }

  lemma {:induction false} KeepIn(s: seq<Peer>, local: Bytes, n: nat, same: bool, c: Peer)
    ensures c in Keep(s, local, n, same) <==> c in s && (Bit(IdOf(c), n) == Bit(local, n)) == same
    ensures |Keep(s, local, n, same)| <= |s|
  {
    if s != [] {
      KeepIn(s[..|s| - 1], local, n, same, c);
    }
  }

  /** What is kept of two lists in turn: the order stays. */
  lemma {:induction false} KeepConcat(s: seq<Peer>, t: seq<Peer>, local: Bytes, n: nat, same: bool)
    ensures Keep(s + t, local, n, same) == Keep(s, local, n, same) + Keep(t, local, n, same)
  {
    hide Bit;
    if t == [] {
      assert s + t == s;
    } else {
      assert (s + t)[..|s + t| - 1] == s + t[..|t| - 1];
      KeepConcat(s, t[..|t| - 1], local, n, same);
    }
  }

  lemma {:induction false} KeepDistinct(s: seq<Peer>, local: Bytes, n: nat, same: bool)
    requires DistinctIds(s)
    ensures DistinctIds(Keep(s, local, n, same))
  {
    if s != [] {
      var front := s[..|s| - 1];
      KeepDistinct(front, local, n, same);
      var kept := Keep(front, local, n, same);
      forall i | 0 <= i < |kept| ensures IdOf(kept[i]) != IdOf(s[|s| - 1]) {
        KeepIn(front, local, n, same, kept[i]);
      }
    }
  }

  /** The last bucket makes room: contacts that differ from the local id at its depth stay behind. */
  function SplitLast(local: Bytes, bs: Buckets): Buckets
    requires bs != []
  {
    var n := |bs| - 1;
    bs[..n] + [Keep(bs[n], local, n, false), Keep(bs[n], local, n, true)]
  }

  lemma {:induction false} SplitBucket(local: Bytes, k: nat, bs: Buckets, same: bool)
    requires Placed(local, k, bs)
    ensures var n := |bs| - 1; BucketOk(local, k, Keep(bs[n], local, n, same), if same then n + 1 else n, n + 1)
  {
    var n := |bs| - 1;
    var s := Keep(bs[n], local, n, same);
    assert BucketOk(local, k, bs[n], n, n);
    KeepDistinct(bs[n], local, n, same);
    forall c | c in s ensures c.id.Some? && Slot(local, IdOf(c), n + 1) == if same then n + 1 else n {
      KeepIn(bs[n], local, n, same, c);
      SlotMeans(local, IdOf(c), n);
      SlotIs(local, IdOf(c), n + 1, if same then n + 1 else n);
    }
    if s != [] {
      KeepIn(bs[n], local, n, same, s[0]);
    }
  }

  lemma {:induction false} SplitPlaced(local: Bytes, k: nat, bs: Buckets)
    requires Placed(local, k, bs)
    ensures Placed(local, k, SplitLast(local, bs))
  {
    hide Keep;
    var n, bs' := |bs| - 1, SplitLast(local, bs);
    SplitBucket(local, k, bs, false);
    SplitBucket(local, k, bs, true);
    forall j | 0 <= j < |bs'| ensures BucketOk(local, k, bs'[j], j, n + 1) {
      if j < n {
        assert BucketOk(local, k, bs[j], j, n);
      }
    }
  }

  lemma {:induction false} SplitKeepsContents(local: Bytes, bs: Buckets)
    requires bs != []
    ensures Contents(SplitLast(local, bs)) == Contents(bs)
  {
    hide Keep, Bit;
    var n, bs' := |bs| - 1, SplitLast(local, bs);
    forall c ensures c in Contents(bs') <==> c in Contents(bs) {
      KeepIn(bs[n], local, n, false, c);
      KeepIn(bs[n], local, n, true, c);
      if c in Contents(bs) {
        var j :| 0 <= j < |bs| && c in bs[j];
        assert c in bs'[if j < n then j else if Bit(IdOf(c), n) == Bit(local, n) then n + 1 else n];
      }
      if c in Contents(bs') {
        var j :| 0 <= j < |bs'| && c in bs'[j];
        assert c in bs[if j < n then j else n];
      }
    }
  }

  // ------------------------------------------------------------------------------- the order in a leaf

  /** c was updated less recently than d and shares a leaf with it. */
  ghost predicate Before(bs: Buckets, c: Peer, d: Peer) {
    exists j :: 0 <= j < |bs| && Precedes(bs[j], c, d)
  }

  ghost predicate Precedes(s: seq<Peer>, c: Peer, d: Peer) {
    exists a, b :: 0 <= a < b < |s| && s[a] == c && s[b] == d
  }

  lemma {:induction false} PrecedesLast(s: seq<Peer>, p: Peer, c: Peer, d: Peer)
    requires Precedes(s + [p], c, d) && IdOf(d) != IdOf(p)
    ensures Precedes(s, c, d)
  {
    var a, b :| 0 <= a < b < |s + [p]| && (s + [p])[a] == c && (s + [p])[b] == d;
    assert s[a] == c && s[b] == d;
  }

  lemma {:induction false} PrecedesWithout(s: seq<Peer>, i: nat, c: Peer, d: Peer)
    requires i < |s| && Precedes(Without(s, i), c, d)
    ensures Precedes(s, c, d)
  {
    var r := Without(s, i);
    var a, b :| 0 <= a < b < |r| && r[a] == c && r[b] == d;
    var a', b' := if a < i then a else a + 1, if b < i then b else b + 1;
    assert s[a'] == c && s[b'] == d;
  }

  lemma {:induction false} PrecedesKept(s: seq<Peer>, local: Bytes, n: nat, same: bool, c: Peer, d: Peer)
    requires Precedes(Keep(s, local, n, same), c, d)
    ensures Precedes(s, c, d)
  {
    hide Bit;
    var front, last := s[..|s| - 1], s[|s| - 1];
    var kept := Keep(front, local, n, same);
    var all := Keep(s, local, n, same);
    var a, b :| 0 <= a < b < |all| && all[a] == c && all[b] == d;
    if b < |kept| {
      PrecedesKept(front, local, n, same, c, d);
      var a', b' :| 0 <= a' < b' < |front| && front[a'] == c && front[b'] == d;
      assert s[a'] == c && s[b'] == d;
    } else {
      KeepIn(front, local, n, same, c);
      var a' :| 0 <= a' < |front| && front[a'] == c;
      assert s[a'] == c && s[|s| - 1] == d;
    }
  }

  /** Apart from contacts with the given id, which may have moved to the end, leaves keep their order. */
  ghost predicate OrderKept(bs: Buckets, bs': Buckets, id: Bytes) {
    forall c, d :: Before(bs', c, d) && IdOf(d) != id ==> Before(bs, c, d)
  }

  lemma {:induction false} SameOrder(bs: Buckets, id: Bytes)
    ensures OrderKept(bs, bs, id)
  {
  }

  lemma {:induction false} OrderKeptTwice(bs: Buckets, bs': Buckets, bs'': Buckets, id: Bytes)
    requires OrderKept(bs, bs', id) && OrderKept(bs', bs'', id)
    ensures OrderKept(bs, bs'', id)
  {
  }

  lemma {:induction false} LeafOrderKept(bs: Buckets, j: nat, s: seq<Peer>, id: Bytes)
    requires j < |bs|
    requires forall c, d :: Precedes(s, c, d) && IdOf(d) != id ==> Precedes(bs[j], c, d)
    ensures OrderKept(bs, bs[j := s], id)
  {
    hide Precedes;
    var bs' := bs[j := s];
    forall c, d | Before(bs', c, d) && IdOf(d) != id ensures Before(bs, c, d) {
      var m :| 0 <= m < |bs'| && Precedes(bs'[m], c, d);
      assert Precedes(bs[m], c, d);
    }
  }

  lemma {:induction false} SplitOrderKept(local: Bytes, bs: Buckets, id: Bytes)
    requires bs != []
    ensures OrderKept(bs, SplitLast(local, bs), id)
  {
    hide Precedes, Keep;
    var bs', n := SplitLast(local, bs), |bs| - 1;
    forall c, d | Before(bs', c, d) ensures Before(bs, c, d) {
      var m :| 0 <= m < |bs'| && Precedes(bs'[m], c, d);
      if m >= n {
        PrecedesKept(bs[n], local, n, m == n + 1, c, d);
        assert Precedes(bs[n], c, d);
      } else {
        assert Precedes(bs[m], c, d);
      }
    }
  }

  lemma {:induction false} RenewedOrderKept(bs: Buckets, j: nat, i: nat, p: Peer)
    requires j < |bs| && i < |bs[j]|
    ensures OrderKept(bs, bs[j := Without(bs[j], i) + [p]], IdOf(p))
    ensures OrderKept(bs, bs[j := Without(bs[j], i)], IdOf(p))
  {
    hide Precedes, Without, OrderKept;
    var s := Without(bs[j], i);
    forall c, d | Precedes(s, c, d) ensures Precedes(bs[j], c, d) {
      PrecedesWithout(bs[j], i, c, d);
    }
    forall c, d | Precedes(s + [p], c, d) && IdOf(d) != IdOf(p) ensures Precedes(bs[j], c, d) {
      PrecedesLast(s, p, c, d);
    }
    LeafOrderKept(bs, j, s, IdOf(p));
    LeafOrderKept(bs, j, s + [p], IdOf(p));
  }

  lemma {:induction false} AddedOrderKept(bs: Buckets, j: nat, p: Peer)
    requires j < |bs|
    ensures OrderKept(bs, bs[j := bs[j] + [p]], IdOf(p))
  {
    hide Precedes, OrderKept;
    forall c, d | Precedes(bs[j] + [p], c, d) && IdOf(d) != IdOf(p) ensures Precedes(bs[j], c, d) {
      PrecedesLast(bs[j], p, c, d);
    }
    LeafOrderKept(bs, j, bs[j] + [p], IdOf(p));
  }

  // -------------------------------------------------------------------- who is let in, who must wait

  lemma {:induction false} SetOfSeq(s: seq<Peer>)
    requires DistinctIds(s)
    ensures |set c | c in s| == |s|
  {
    if s != [] {
      var front, last := s[..|s| - 1], s[|s| - 1];
      SetOfSeq(front);
      assert forall c :: c in front ==> IdOf(c) != IdOf(last);
      assert (set c | c in s) == (set c | c in front) + {last};
    }
  }

  lemma {:induction false} SubsetSize(a: set<Peer>, b: set<Peer>)
    requires a <= b
    ensures |a| <= |b|
  {
    if c :| c in a {
      SubsetSize(a - {c}, b - {c});
    }
  }

  /** A bucket before the last holds all contacts that share as many bits as any identifier that belongs there. */
  lemma {:induction false} CrowdIsBucket(local: Bytes, k: nat, bs: Buckets, id: Bytes)
    requires Placed(local, k, bs) && Slot(local, id, |bs| - 1) < |bs| - 1
    ensures var s := bs[Slot(local, id, |bs| - 1)];
            && (forall c :: c in s <==> c in Crowd(local, Contents(bs), id))
            && |Crowd(local, Contents(bs), id)| == |s|
  {
    var j := Slot(local, id, |bs| - 1);
    assert BucketOk(local, k, bs[j], j, |bs| - 1);
    SetOfSeq(bs[j]);
    forall c ensures c in Crowd(local, Contents(bs), id) <==> c in bs[j] {
      if c in Contents(bs) {
        OnlyInSlot(local, k, bs, c);
      }
    }
    assert Crowd(local, Contents(bs), id) == set c | c in bs[j];
  }

  /** While the last bucket has room, so has every distance it covers. */
  lemma {:induction false} CrowdInLast(local: Bytes, k: nat, bs: Buckets, id: Bytes)
    requires Placed(local, k, bs) && Slot(local, id, |bs| - 1) == |bs| - 1
    ensures forall c :: c in Crowd(local, Contents(bs), id) ==> c in bs[|bs| - 1]
    ensures |Crowd(local, Contents(bs), id)| <= |bs[|bs| - 1]|
  {
    var last := |bs| - 1;
    assert BucketOk(local, k, bs[last], last, last);
    SetOfSeq(bs[last]);
    forall c | c in Crowd(local, Contents(bs), id) ensures c in bs[last] {
      OnlyInSlot(local, k, bs, c);
    }
    SubsetSize(Crowd(local, Contents(bs), id), set c | c in bs[last]);
  }

  // -------------------------------------------------------------------------- when splitting ends

  /** The length of the longest stored identifier. */
  ghost function Longest(contacts: set<Peer>): (n: nat)
    ensures forall c :: c in contacts ==> |IdOf(c)| <= n
  {
    if contacts == {} then 0
    else
      var c :| c in contacts;
      Max(|IdOf(c)|, Longest(contacts - {c}))
  }

  /** The depth below which no two of the identifiers at hand differ. */
  ghost function Deepest(local: Bytes, contacts: set<Peer>, id: Bytes): nat {
    8 * Max(|local|, Max(|id|, Longest(contacts)))
  }

  /** The id is new, and the last leaf of the chain, where it belongs, is full: add splits that leaf. */
  ghost predicate MustSplit(local: Bytes, k: nat, bs: Buckets, id: Bytes)
    requires bs != []
  {
    var last := |bs| - 1;
    Slot(local, id, last) == last && |bs[last]| >= k && forall c :: c in bs[last] ==> IdOf(c) != id
  }

  lemma {:induction false} NewInLast(local: Bytes, k: nat, bs: Buckets, id: Bytes)
    requires Placed(local, k, bs) && MustSplit(local, k, bs, id)
    ensures !Known(Contents(bs), id)
  {
    KnownInSlot(local, k, bs, id);
  }

  lemma {:induction false} AlikeBelow(a: Bytes, b: Bytes, n: nat)
    requires Agree(a, b, n) && n >= 8 * Max(|a|, |b|)
    ensures Alike(a, b)
  {
    SharedAtLeast(a, b, n);
  }

  /** Unless the new contact is stuck, a leaf that must split is less deep than the identifiers are long. */
  lemma {:induction false} MaySplit(local: Bytes, k: nat, bs: Buckets, id: Bytes)
    requires Placed(local, k, bs) && MustSplit(local, k, bs, id) && !Stuck(local, k, Contents(bs), id)
    ensures |bs| - 1 < Deepest(local, Contents(bs), id)
  {
    hide Bit, SharedBits, Alike;
    var last := |bs| - 1;
    assert BucketOk(local, k, bs[last], last, last);
    NewInLast(local, k, bs, id);
    if last >= Deepest(local, Contents(bs), id) {
      SlotMeans(local, id, last);
      AlikeBelow(local, id, last);
      forall c | c in bs[last] ensures c in Crowd(local, Contents(bs), id) {
        InContents(bs, last, c);
        SlotMeans(local, IdOf(c), last);
        AlikeBelow(local, IdOf(c), last);
      }
      SetOfSeq(bs[last]);
      SubsetSize((set c | c in bs[last]), Crowd(local, Contents(bs), id));
    }
  }

  /** A stuck contact finds the last leaf full, however often it was split. */
  lemma {:induction false} StuckMustSplit(local: Bytes, k: nat, bs: Buckets, id: Bytes)
    requires Placed(local, k, bs) && Stuck(local, k, Contents(bs), id)
    ensures MustSplit(local, k, bs, id)
  {
    CrowdInLast(local, k, bs, id);
    KnownInSlot(local, k, bs, id);
  }

  function SplitTimes(local: Bytes, bs: Buckets, n: nat): (r: Buckets)
    requires bs != []
    ensures |r| == |bs| + n
  {
    if n == 0 then bs else SplitLast(local, SplitTimes(local, bs, n - 1))
  }

  lemma {:induction false} SplitTimesPlaced(local: Bytes, k: nat, bs: Buckets, n: nat)
    requires Placed(local, k, bs)
    ensures Placed(local, k, SplitTimes(local, bs, n)) && Contents(SplitTimes(local, bs, n)) == Contents(bs)
  {
    hide BucketOk, SplitLast, Contents;
    if n > 0 {
      SplitTimesPlaced(local, k, bs, n - 1);
      SplitPlaced(local, k, SplitTimes(local, bs, n - 1));
      SplitKeepsContents(local, SplitTimes(local, bs, n - 1));
    }
  }

  /** Splitting never ends exactly when the new contact is stuck. */
  lemma {:induction false} SplitsForever(local: Bytes, k: nat, bs: Buckets, id: Bytes)
    requires Placed(local, k, bs)
    ensures (forall n: nat :: MustSplit(local, k, SplitTimes(local, bs, n), id)) <==> Stuck(local, k, Contents(bs), id)
  {
    hide BucketOk, MustSplit, Stuck, SplitTimes, Contents;
    if Stuck(local, k, Contents(bs), id) {
      forall n: nat ensures MustSplit(local, k, SplitTimes(local, bs, n), id) {
        SplitTimesPlaced(local, k, bs, n);
        StuckMustSplit(local, k, SplitTimes(local, bs, n), id);
      }
    } else {
      var n := Deepest(local, Contents(bs), id);
      SplitTimesPlaced(local, k, bs, n);
      if MustSplit(local, k, SplitTimes(local, bs, n), id) {
        MaySplit(local, k, SplitTimes(local, bs, n), id);
      }
    }
  }

  /** With identifiers as long as the local one no contact is ever stuck. */
  lemma {:induction false} OneLengthNeverStuck(local: Bytes, k: nat, contacts: set<Peer>, id: Bytes)
    requires k > 0 && |id| == |local| && forall c :: c in contacts ==> |IdOf(c)| == |local|
    ensures !Stuck(local, k, contacts, id)
  {
    if Stuck(local, k, contacts, id) {
      AlikeIsEqual(local, id);
      var c :| c in Crowd(local, contacts, id);
      AlikeIsEqual(local, IdOf(c));
    }
  }

  /** A concrete failure: local id 00, one contact a leaf, 0000 stored, and 000000 to be added. */
  lemma {:induction false} TwinsAreStuck(p: Peer)
    requires p.id == Some([0, 0])
    ensures Placed([0], 1, [[p]]) && Stuck([0], 1, Contents([[p]]), [0, 0, 0])
  {
    var local: Bytes, id: Bytes := [0], [0, 0, 0];
    ZeroBits(local);
    ZeroBits(IdOf(p));
    ZeroBits(id);
    AlikeAgree(local, IdOf(p));
    AlikeAgree(local, id);
    assert p in [[p]][0];
    assert Contents([[p]]) == {p};
    assert Crowd(local, {p}, id) == {p};
  }

  lemma {:induction false} ZeroBits(id: Bytes)
    requires forall i :: 0 <= i < |id| ==> id[i] == 0
    ensures forall i: nat :: !Bit(id, i)
  {
    forall i: nat ensures !Bit(id, i) {
      ShiftZero(7 - i % 8);
    }
  }

  lemma {:induction false} KnownInSlot(local: Bytes, k: nat, bs: Buckets, id: Bytes)
    requires Placed(local, k, bs)
    ensures Known(Contents(bs), id) <==> exists c :: c in bs[Slot(local, id, |bs| - 1)] && IdOf(c) == id
  {
    if Known(Contents(bs), id) {
      var c :| c in Contents(bs) && IdOf(c) == id;
      OnlyInSlot(local, k, bs, c);
    }
  }

  // ------------------------------------------------------------------------------- the ways to add

  lemma {:induction false} AdmitWithRoom(local: Bytes, k: nat, toPing: nat, bs: Buckets, p: Peer)
    requires Placed(local, k, bs) && p.id.Some?
    requires var s := bs[Slot(local, IdOf(p), |bs| - 1)]; |s| < k && forall c :: c in s ==> IdOf(c) != IdOf(p)
    ensures var j := Slot(local, IdOf(p), |bs| - 1);
            && BucketOk(local, k, bs[j] + [p], j, |bs| - 1)
            && Admits(local, k, toPing, Contents(bs), p, bs[j := bs[j] + [p]], Added(p))
  {
    hide BucketOk, Contents, Crowd;
    var j := Slot(local, IdOf(p), |bs| - 1);
    AddToBucket(local, k, bs, p);
    KnownInSlot(local, k, bs, IdOf(p));
    if j < |bs| - 1 {
      CrowdIsBucket(local, k, bs, IdOf(p));
    } else {
      CrowdInLast(local, k, bs, IdOf(p));
    }
    var bs' := bs[j := bs[j] + [p]];
    assert BucketOk(local, k, bs'[j], j, |bs'| - 1);
  }

  lemma {:induction false} AdmitFull(local: Bytes, k: nat, toPing: nat, bs: Buckets, p: Peer)
    requires Placed(local, k, bs) && p.id.Some? && Slot(local, IdOf(p), |bs| - 1) < |bs| - 1
    requires var s := bs[Slot(local, IdOf(p), |bs| - 1)]; |s| >= k && forall c :: c in s ==> IdOf(c) != IdOf(p)
    ensures var s := bs[Slot(local, IdOf(p), |bs| - 1)];
            Admits(local, k, toPing, Contents(bs), p, bs, Pinged(if toPing < |s| then s[..toPing] else s, p))
  {
    var j := Slot(local, IdOf(p), |bs| - 1);
    KnownInSlot(local, k, bs, IdOf(p));
    CrowdIsBucket(local, k, bs, IdOf(p));
    assert BucketOk(local, k, bs[j], j, |bs| - 1);
  }

  /** The incumbent leaves its place, and whichever contact was selected goes to the end. */
  lemma {:induction false} AdmitKnown(local: Bytes, k: nat, toPing: nat, bs: Buckets, p: Peer, i: nat)
    requires Placed(local, k, bs) && p.id.Some?
    requires var s := bs[Slot(local, IdOf(p), |bs| - 1)]; i < |s| && IdOf(s[i]) == IdOf(p)
    ensures var j := Slot(local, IdOf(p), |bs| - 1);
            var c, kept := bs[j][i], Arbiter(bs[j][i], p);
            var s' := Without(bs[j], i) + [kept];
            && BucketOk(local, k, s', j, |bs| - 1)
            && (if kept == c && c != p then Admits(local, k, toPing, Contents(bs), p, bs, Unchanged)
                else Admits(local, k, toPing, Contents(bs), p, bs[j := s'], Updated(c, kept)))
  {
    hide BucketOk, Contents, Without;
    var j := Slot(local, IdOf(p), |bs| - 1);
    var c, kept, s := bs[j][i], Arbiter(bs[j][i], p), Without(bs[j], i);
    InContents(bs, j, c);
    OnlyInSlot(local, k, bs, c);
    RemoveFromBucket(local, k, bs, j, i);
    var bs1 := bs[j := s];
    KnownInSlot(local, k, bs1, IdOf(p));
    BucketShrinks(local, k, bs, j, i);
    AddToBucket(local, k, bs1, kept);
    var bs2 := bs1[j := s + [kept]];
    assert bs2 == bs[j := s + [kept]];
    assert BucketOk(local, k, bs2[j], j, |bs2| - 1);
    forall d | d in Contents(bs) && IdOf(d) == IdOf(p) ensures d == c {
      IdsDistinct(local, k, bs, d, c);
    }
    if kept == c {
      assert Contents(bs) - {c} + {kept} == Contents(bs);
    }
  }

  lemma {:induction false} BucketShrinks(local: Bytes, k: nat, bs: Buckets, j: nat, i: nat)
    requires Placed(local, k, bs) && j < |bs| && i < |bs[j]|
    ensures |Without(bs[j], i)| < k
  {
    assert BucketOk(local, k, bs[j], j, |bs| - 1);
  }
}
