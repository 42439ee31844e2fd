/** The order in which the k-bucket tree is walked, and why stopping early loses no near contact. */
module NearestContacts {
  import opened Base
  import opened XorMetric
  import opened KBucketModel

  /** The contacts below depth d, the side of the tree that matches q first. */
  function Walk(local: Bytes, bs: Buckets, q: Bytes, d: nat): seq<Peer>
    requires d < |bs|
    decreases |bs| - d
  {
    if d == |bs| - 1 then bs[d]
    else if Bit(q, d) == Bit(local, d) then Walk(local, bs, q, d + 1) + bs[d]
    else bs[d] + Walk(local, bs, q, d + 1)
  }

  /** All contacts from left to right: bits past the end of an identifier are 0, and 0 is left. */
  function LeftToRight(local: Bytes, bs: Buckets): seq<Peer>
    requires bs != []
  {
    Walk(local, bs, [], 0)
  }

  lemma {:induction false} WalkCovers(local: Bytes, bs: Buckets, q: Bytes, d: nat, c: Peer)
    requires d < |bs|
    ensures c in Walk(local, bs, q, d) <==> exists j :: d <= j < |bs| && c in bs[j]
    decreases |bs| - d
  {
    if d < |bs| - 1 {
      WalkCovers(local, bs, q, d + 1, c);
    }
  }

  /** The walk lists every stored contact, and each id once. */
  lemma {:induction false} WalkIsContents(local: Bytes, k: nat, bs: Buckets, q: Bytes)
    requires Placed(local, k, bs)
    ensures (set c | c in Walk(local, bs, q, 0)) == Contents(bs)
    ensures DistinctIds(Walk(local, bs, q, 0))
    ensures |Walk(local, bs, q, 0)| == |Contents(bs)|
  {
    forall c ensures c in Walk(local, bs, q, 0) <==> c in Contents(bs) {
      WalkCovers(local, bs, q, 0, c);
    }
    WalkDistinct(local, k, bs, q, 0);
    SetOfSeq(Walk(local, bs, q, 0));
  }

  lemma {:induction false} WalkDistinct(local: Bytes, k: nat, bs: Buckets, q: Bytes, d: nat)
    requires Placed(local, k, bs) && d < |bs|
    ensures DistinctIds(Walk(local, bs, q, d))
    decreases |bs| - d
  {
    assert BucketOk(local, k, bs[d], d, |bs| - 1);
    if d < |bs| - 1 {
      WalkDistinct(local, k, bs, q, d + 1);
      var rest := Walk(local, bs, q, d + 1);
      forall c, e | c in rest && e in bs[d] ensures IdOf(c) != IdOf(e) {
        WalkCovers(local, bs, q, d + 1, c);
        var j :| d + 1 <= j < |bs| && c in bs[j];
        assert BucketOk(local, k, bs[j], j, |bs| - 1);
      }
    }
  }

  // ------------------------------------------------------------------------------ stable sorting

  function InsertByDistance(c: Peer, s: seq<Peer>, q: Bytes): seq<Peer> {
    if s == [] || Distance(IdOf(c), q) <= Distance(IdOf(s[0]), q) then [c] + s
    else [s[0]] + InsertByDistance(c, s[1..], q)
  }

  /** A stable sort by distance to q. */
  function SortByDistance(s: seq<Peer>, q: Bytes): seq<Peer> {
    if s == [] then [] else InsertByDistance(s[0], SortByDistance(s[1..], q), q)
  }

  ghost predicate Ascending(s: seq<Peer>, q: Bytes) {
    forall i, j :: 0 <= i < j < |s| ==> Distance(IdOf(s[i]), q) <= Distance(IdOf(s[j]), q)
  }

  lemma {:induction false} AscendingFrom(c: Peer, s: seq<Peer>, q: Bytes)
    requires Ascending(s, q) && forall e :: e in s ==> Distance(IdOf(c), q) <= Distance(IdOf(e), q)
    ensures Ascending([c] + s, q)
  {
    hide Distance;
  }

  lemma {:induction false} InsertAdds(c: Peer, s: seq<Peer>, q: Bytes)
    ensures multiset(InsertByDistance(c, s, q)) == multiset(s) + multiset{c}
  {
    hide Distance;
    if s != [] {
      assert s == [s[0]] + s[1..];
      InsertAdds(c, s[1..], q);
    }
  }

  lemma {:induction false} InsertAscending(c: Peer, s: seq<Peer>, q: Bytes)
    requires Ascending(s, q)
    ensures Ascending(InsertByDistance(c, s, q), q)
  {
    hide Distance;
    if s == [] || Distance(IdOf(c), q) <= Distance(IdOf(s[0]), q) {
      AscendingFrom(c, s, q);
    } else {
      InsertAscending(c, s[1..], q);
      var r := InsertByDistance(c, s[1..], q);
      InsertAdds(c, s[1..], q);
      forall e | e in r ensures Distance(IdOf(s[0]), q) <= Distance(IdOf(e), q) {
        assert e in multiset(r);
      }
      AscendingFrom(s[0], r, q);
    }
  }

  lemma {:induction false} SortSorts(s: seq<Peer>, q: Bytes)
    ensures Ascending(SortByDistance(s, q), q)
    ensures multiset(SortByDistance(s, q)) == multiset(s)
  {
    if s != [] {
      SortSorts(s[1..], q);
      InsertAscending(s[0], SortByDistance(s[1..], q), q);
      InsertAdds(s[0], SortByDistance(s[1..], q), q);
      assert s == [s[0]] + s[1..];
    }
  }

  lemma {:induction false} SortIn(s: seq<Peer>, q: Bytes, c: Peer)
    ensures c in SortByDistance(s, q) <==> c in s
    ensures |SortByDistance(s, q)| == |s|
  {
    SortSorts(s, q);
    assert c in multiset(s) <==> c in multiset(SortByDistance(s, q));
    assert |multiset(SortByDistance(s, q))| == |SortByDistance(s, q)|;
  }

  lemma {:induction false} SortDistinct(s: seq<Peer>, q: Bytes)
    requires DistinctIds(s)
    ensures DistinctIds(SortByDistance(s, q)) && |SortByDistance(s, q)| == |s|
  {
    hide SortByDistance;
    SortSorts(s, q);
    var r := SortByDistance(s, q);
    assert |multiset(r)| == |multiset(s)|;
    forall i, j | 0 <= i < j < |r| ensures IdOf(r[i]) != IdOf(r[j]) {
      SortIn(s, q, r[i]);
      SortIn(s, q, r[j]);
      var a :| 0 <= a < |s| && s[a] == r[i];
      var b :| 0 <= b < |s| && s[b] == r[j];
      if a == b {
        TwiceIn(r, i, j);
        OnceIn(s, a);
      }
    }
  }

  lemma {:induction false} TwiceIn(s: seq<Peer>, i: nat, j: nat)
    requires i < j < |s| && s[i] == s[j]
    ensures multiset(s)[s[i]] >= 2
  {
    assert s == s[..j] + s[j..] && s[..j][i] == s[i] && s[j..][0] == s[i];
    assert s[i] in multiset(s[..j]) && s[i] in multiset(s[j..]);
  }

  lemma {:induction false} OnceIn(s: seq<Peer>, i: nat)
    requires DistinctIds(s) && i < |s|
    ensures multiset(s)[s[i]] == 1
  {
    assert s == s[..i] + [s[i]] + s[i + 1..];
    assert s[i] !in s[..i] && s[i] !in s[i + 1..];
  }

  lemma {:induction false} PartOfWalk(met: seq<Peer>, left: seq<Peer>, all: seq<Peer>)
    requires met + left == all && DistinctIds(all)
    ensures DistinctIds(met) && (forall c :: c in met ==> c in all) && (left == [] ==> |met| == |all|)
  {
    assert all[..|met|] == met;
  }

  ghost predicate Nearer(near: seq<Peer>, far: seq<Peer>, q: Bytes) {
    forall a, b :: a in near && b in far ==> Distance(IdOf(a), q) < Distance(IdOf(b), q)
  }

  /** The same with ties. */
  ghost predicate NoFarther(near: seq<Peer>, far: seq<Peer>, q: Bytes) {
    forall a, b :: a in near && b in far ==> Distance(IdOf(a), q) <= Distance(IdOf(b), q)
  }

  lemma {:induction false} InsertStep(c: Peer, first: Peer, rest: seq<Peer>, q: Bytes)
    ensures InsertByDistance(c, [first] + rest, q) ==
            if Distance(IdOf(c), q) <= Distance(IdOf(first), q) then [c] + ([first] + rest)
            else [first] + InsertByDistance(c, rest, q)
  {
    hide Distance;
    assert ([first] + rest)[1..] == rest;
  }

  lemma {:induction false} InsertAtFront(c: Peer, s: seq<Peer>, q: Bytes)
    requires s != [] ==> Distance(IdOf(c), q) <= Distance(IdOf(s[0]), q)
    ensures InsertByDistance(c, s, q) == [c] + s
  {
    hide Distance;
  }

  lemma {:induction false} Append(a: seq<Peer>, b: seq<Peer>, c: seq<Peer>)
    ensures a + b + c == a + (b + c)
  {
  }

  lemma {:induction false} InsertBefore(c: Peer, near: seq<Peer>, far: seq<Peer>, q: Bytes)
    requires far != [] ==> Distance(IdOf(c), q) <= Distance(IdOf(far[0]), q)
    ensures InsertByDistance(c, near + far, q) == InsertByDistance(c, near, q) + far
  {
    hide Distance, InsertByDistance;
    if near == [] {
      assert near + far == far;
      InsertAtFront(c, far, q);
      InsertAtFront(c, near, q);
      assert [c] + near + far == [c] + far;
    } else {
      var first, rest := near[0], near[1..];
      InsertBefore(c, rest, far, q);
      InsertStep(c, first, rest, q);
      InsertStep(c, first, rest + far, q);
      assert near == [first] + rest;
      Append([first], rest, far);
      Append([first], InsertByDistance(c, rest, q), far);
      Append([c], near, far);
    }
  }

  lemma {:induction false} InsertBehind(c: Peer, near: seq<Peer>, far: seq<Peer>, q: Bytes)
    requires Nearer(near, [c], q)
    ensures InsertByDistance(c, near + far, q) == near + InsertByDistance(c, far, q)
  {
    hide Distance, InsertByDistance;
    if near == [] {
      assert near + far == far;
    } else {
      var first, rest := near[0], near[1..];
      assert first in near && c in [c];
      InsertBehind(c, rest, far, q);
      InsertStep(c, first, rest + far, q);
      assert near == [first] + rest && near + far == [first] + (rest + far);
      assert [first] + (rest + InsertByDistance(c, far, q)) == near + InsertByDistance(c, far, q);
    }
  }

  /** Sorting two parts, one of them nearer, sorts each; their order before does not matter. */
  lemma {:induction false} SortParts(near: seq<Peer>, far: seq<Peer>, q: Bytes)
    requires Nearer(near, far, q)
    ensures SortByDistance(near + far, q) == SortByDistance(near, q) + SortByDistance(far, q)
    ensures SortByDistance(far + near, q) == SortByDistance(near, q) + SortByDistance(far, q)
  {
    NearFirst(near, far, q);
    FarFirst(near, far, q);
  }

  /** The sort is stable: of two contacts equally far, the one listed first stays first. */
  lemma {:induction false} NearFirst(near: seq<Peer>, far: seq<Peer>, q: Bytes)
    requires NoFarther(near, far, q)
    ensures SortByDistance(near + far, q) == SortByDistance(near, q) + SortByDistance(far, q)
  {
    hide Distance, InsertByDistance;
    if near == [] {
      assert near + far == far;
    } else {
      NearFirst(near[1..], far, q);
      assert (near + far)[1..] == near[1..] + far;
      forall b | b in SortByDistance(far, q) ensures b in far {
        SortIn(far, q, b);
      }
      assert near[0] in near && forall b :: b in far ==> Distance(IdOf(near[0]), q) <= Distance(IdOf(b), q);
      InsertBefore(near[0], SortByDistance(near[1..], q), SortByDistance(far, q), q);
    }
  }

  lemma {:induction false} FarFirst(near: seq<Peer>, far: seq<Peer>, q: Bytes)
    requires Nearer(near, far, q)
    ensures SortByDistance(far + near, q) == SortByDistance(near, q) + SortByDistance(far, q)
  {
    hide Distance, InsertByDistance;
    if far == [] {
      assert far + near == near;
    } else {
      FarFirst(near, far[1..], q);
      assert (far + near)[1..] == far[1..] + near;
      forall a | a in SortByDistance(near, q) ensures a in near {
        SortIn(near, q, a);
      }
      assert far[0] in far;
      InsertBehind(far[0], SortByDistance(near, q), SortByDistance(far[1..], q), q);
    }
  }

  // ------------------------------------------------------------------------ the walk and distance

  /** Contacts below d share more bits with the local id than those of bucket d. */
  lemma {:induction false} Parting(local: Bytes, k: nat, bs: Buckets, w: Bytes, d: nat, a: Peer, b: Peer)
    requires Placed(local, k, bs) && d < |bs| - 1 && a in Walk(local, bs, w, d + 1) && b in bs[d]
    ensures a in Contents(bs) && b in Contents(bs)
    ensures Agree(IdOf(a), IdOf(b), d)
    ensures Bit(IdOf(a), d) == Bit(local, d) != Bit(IdOf(b), d)
  {
    hide Distance, Slot, Bit, Walk;
    assert BucketOk(local, k, bs[d], d, |bs| - 1);
    WalkCovers(local, bs, w, d + 1, a);
    var j :| d + 1 <= j < |bs| && a in bs[j];
    assert BucketOk(local, k, bs[j], j, |bs| - 1);
    SlotMeans(local, IdOf(a), |bs| - 1);
    SlotMeans(local, IdOf(b), |bs| - 1);
  }

  /** Of two contacts listed one after the other, the first is left of the second or before it in one leaf. */
  lemma {:induction false} LeftBeforeRight(local: Bytes, k: nat, bs: Buckets, d: nat, i: nat, j: nat)
    requires Placed(local, k, bs) && d < |bs| && i < j < |Walk(local, bs, [], d)|
    ensures var c, e := Walk(local, bs, [], d)[i], Walk(local, bs, [], d)[j];
            || Before(bs, c, e)
            || exists m :: Agree(IdOf(c), IdOf(e), m) && !Bit(IdOf(c), m) && Bit(IdOf(e), m)
    decreases |bs| - d
  {
    hide Placed, Bit, Precedes;
    var w := Walk(local, bs, [], d);
    PastTheEnd([], d);
    if d == |bs| - 1 {
      InOneLeaf(bs, d, i, j);
    } else {
      var rest := Walk(local, bs, [], d + 1);
      var r, b := if Bit(local, d) then |bs[d]| else 0, if Bit(local, d) then 0 else |rest|;
      if r <= i && j < r + |rest| {
        LeftBeforeRight(local, k, bs, d + 1, i - r, j - r);
      } else if b <= i && j < b + |bs[d]| {
        InOneLeaf(bs, d, i - b, j - b);
      } else {
        var inner, outer := if Bit(local, d) then w[j] else w[i], if Bit(local, d) then w[i] else w[j];
        Parting(local, k, bs, [], d, inner, outer);
        assert Agree(IdOf(outer), IdOf(inner), d);
      }
    }
  }

  lemma {:induction false} InOneLeaf(bs: Buckets, d: nat, i: nat, j: nat)
    requires d < |bs| && i < j < |bs[d]|
    ensures Before(bs, bs[d][i], bs[d][j])
  {
    assert Precedes(bs[d], bs[d][i], bs[d][j]);
  }

  /**
    * At every inner node at which q still has a bit, the side that matches q holds only nearer contacts
    * than the other side; deeper down all contacts are equally far.
    */
  lemma {:induction false} MatchingSideNearer(local: Bytes, k: nat, bs: Buckets, q: Bytes, w: Bytes, d: nat)
    requires Placed(local, k, bs) && OneLength(Contents(bs)) && d < |bs| - 1
    ensures d < 8 * |q| && Bit(q, d) == Bit(local, d) ==> Nearer(Walk(local, bs, w, d + 1), bs[d], q)
    ensures d < 8 * |q| && Bit(q, d) != Bit(local, d) ==> Nearer(bs[d], Walk(local, bs, w, d + 1), q)
    ensures d >= 8 * |q| ==>
              NoFarther(Walk(local, bs, w, d + 1), bs[d], q) && NoFarther(bs[d], Walk(local, bs, w, d + 1), q)
  {
    hide Placed, Walk, Distance, Bit;
    forall a, b | a in Walk(local, bs, w, d + 1) && b in bs[d]
      ensures if d >= 8 * |q| then Distance(IdOf(a), q) == Distance(IdOf(b), q)
              else if Bit(q, d) == Bit(local, d) then Distance(IdOf(a), q) < Distance(IdOf(b), q)
              else Distance(IdOf(b), q) < Distance(IdOf(a), q) {
      Parting(local, k, bs, w, d, a, b);
      if d >= 8 * |q| {
        EquallyFar(IdOf(a), IdOf(b), q);
      } else if Bit(q, d) == Bit(local, d) {
        NearerAtBit(IdOf(a), IdOf(b), q, d);
      } else {
        assert Agree(IdOf(b), IdOf(a), d);
        NearerAtBit(IdOf(b), IdOf(a), q, d);
      }
    }
  }

  /** Below the last bit of q the walk goes from left to right. */
  lemma {:induction false} WalkPastTarget(local: Bytes, bs: Buckets, q: Bytes, d: nat)
    requires 8 * |q| <= d < |bs|
    ensures Walk(local, bs, q, d) == Walk(local, bs, [], d)
    decreases |bs| - d
  {
    if d < |bs| - 1 {
      WalkPastTarget(local, bs, q, d + 1);
    }
  }

  /** Sorting gives one result for the walk towards q and the walk from left to right, ties included. */
  lemma {:induction false} SortForgetsWalk(local: Bytes, k: nat, bs: Buckets, q: Bytes, d: nat)
    requires Placed(local, k, bs) && OneLength(Contents(bs)) && d < |bs|
    ensures SortByDistance(Walk(local, bs, [], d), q) == SortByDistance(Walk(local, bs, q, d), q)
    decreases |bs| - d
  {
    hide Placed, Bit, SortByDistance, Nearer, NoFarther, OneLength;
    if d >= 8 * |q| {
      WalkPastTarget(local, bs, q, d);
    } else if d < |bs| - 1 {
      SortForgetsWalk(local, k, bs, q, d + 1);
      MatchingSideNearer(local, k, bs, q, [], d);
      MatchingSideNearer(local, k, bs, q, q, d);
      if Bit(q, d) == Bit(local, d) {
        SortParts(Walk(local, bs, [], d + 1), bs[d], q);
        SortParts(Walk(local, bs, q, d + 1), bs[d], q);
      } else {
        SortParts(bs[d], Walk(local, bs, [], d + 1), q);
        SortParts(bs[d], Walk(local, bs, q, d + 1), q);
      }
    }
  }

  /** At most n elements from the front; None is no limit. */
  function Take(s: seq<Peer>, n: Option<nat>): seq<Peer> {
    if n.Some? && n.value < |s| then s[..n.value] else s
  }

  /** Once n contacts were met and no nearer ones are left, the n nearest of all are among those met. */
  lemma {:induction false} StoppingEarly(met: seq<Peer>, left: seq<Peer>, q: Bytes, n: Option<nat>)
    requires NoFarther(met, left, q) && (left == [] || (n.Some? && |met| >= n.value))
    ensures Take(SortByDistance(met, q), n) == Take(SortByDistance(met + left, q), n)
  {
    NearFirst(met, left, q);
    SortIn(met, q, Peer(None, None, None, None));
    if left == [] {
      assert met + left == met;
    }
  }

  /** What the first n of a sorted list are: as many as there are up to n, and no farther than all others. */
  lemma {:induction false} TakenAreNearest(s: seq<Peer>, q: Bytes, n: Option<nat>, near: Peer, other: Peer)
    requires near in Take(SortByDistance(s, q), n) && other in s && other !in Take(SortByDistance(s, q), n)
    ensures near in s && Distance(IdOf(near), q) <= Distance(IdOf(other), q)
    ensures n.Some? && |Take(SortByDistance(s, q), n)| == n.value
  {
    hide Distance;
    var sorted := SortByDistance(s, q);
    SortSorts(s, q);
    SortIn(s, q, near);
    SortIn(s, q, other);
    var i :| 0 <= i < |Take(sorted, n)| && sorted[i] == near;
    var j :| 0 <= j < |sorted| && sorted[j] == other;
  }

  /** Of all stored contacts, none left out is nearer than one returned; a tie needs a target shorter than the ids. */
  lemma {:induction false} NearestOfAll(local: Bytes, k: nat, bs: Buckets, q: Bytes, n: Option<nat>, near: Peer,
                                        other: Peer)
    requires Placed(local, k, bs) && OneLength(Contents(bs))
    requires near in Take(SortByDistance(LeftToRight(local, bs), q), n)
    requires other in Contents(bs) && other !in Take(SortByDistance(LeftToRight(local, bs), q), n)
    ensures near in Contents(bs) && Distance(IdOf(near), q) <= Distance(IdOf(other), q)
    ensures |q| >= |IdOf(near)| ==> Distance(IdOf(near), q) < Distance(IdOf(other), q)
    ensures n.Some? && |Take(SortByDistance(LeftToRight(local, bs), q), n)| == n.value
  {
    hide Distance, SortByDistance, Placed;
    var all := LeftToRight(local, bs);
    WalkIsContents(local, k, bs, []);
    assert forall c :: c in all <==> c in (set e | e in all);
    TakenAreNearest(all, q, n, near, other);
    if |q| >= |IdOf(near)| && Distance(IdOf(near), q) == Distance(IdOf(other), q) {
      OnlyInSlot(local, k, bs, near);
      OnlyInSlot(local, k, bs, other);
      DistanceInjective(IdOf(near), IdOf(other), q);
      IdsDistinct(local, k, bs, near, other);
    }
  }

  // -------------------------------------------------------------------------------- pending nodes

  /** A node on the walk's stack: an inner or last node of the chain at a depth, or a bucket off it. */
  datatype Spot = OnChain(depth: nat) | Off(depth: nat)

  ghost predicate SpotOk(bs: Buckets, spot: Spot) {
    match spot
    case OnChain(d) => d < |bs|
    case Off(d) => d < |bs| - 1
  }

  ghost function Below(local: Bytes, bs: Buckets, q: Bytes, spot: Spot): seq<Peer>
    requires SpotOk(bs, spot)
  {
    match spot
    case OnChain(d) => Walk(local, bs, q, d)
    case Off(d) => bs[d]
  }

  ghost predicate SpotsOk(bs: Buckets, spots: seq<Spot>) {
    forall i :: 0 <= i < |spots| ==> SpotOk(bs, spots[i])
  }

  /** The contacts still to come, the top of the stack first. */
  ghost function Pending(local: Bytes, bs: Buckets, q: Bytes, spots: seq<Spot>): seq<Peer>
    requires SpotsOk(bs, spots)
  {
    if spots == [] then []
    else Below(local, bs, q, spots[|spots| - 1]) + Pending(local, bs, q, spots[..|spots| - 1])
  }

  /** Every node on the stack holds no farther contacts than those under it. */
  ghost predicate NearestOnTop(local: Bytes, bs: Buckets, q: Bytes, spots: seq<Spot>)
    requires SpotsOk(bs, spots)
  {
    spots != [] ==>
      && NoFarther(Below(local, bs, q, spots[|spots| - 1]), Pending(local, bs, q, spots[..|spots| - 1]), q)
      && NearestOnTop(local, bs, q, spots[..|spots| - 1])
  }

  /** The children of the chain node at depth d: the side that matches q, and the other. */
  ghost function Matching(local: Bytes, q: Bytes, d: nat): Spot {
    if Bit(q, d) == Bit(local, d) then OnChain(d + 1) else Off(d)
  }

  ghost function Other(local: Bytes, q: Bytes, d: nat): Spot {
    if Bit(q, d) == Bit(local, d) then Off(d) else OnChain(d + 1)
  }

  lemma {:induction false} OnTop(local: Bytes, bs: Buckets, q: Bytes, rest: seq<Spot>, spot: Spot)
    requires SpotsOk(bs, rest) && SpotOk(bs, spot)
    ensures SpotsOk(bs, rest + [spot])
    ensures Pending(local, bs, q, rest + [spot]) == Below(local, bs, q, spot) + Pending(local, bs, q, rest)
  {
    assert (rest + [spot])[..|rest|] == rest;
  }

  lemma {:induction false} Expand(local: Bytes, bs: Buckets, q: Bytes, rest: seq<Spot>, d: nat)
    requires SpotsOk(bs, rest) && d < |bs| - 1
    ensures var spots := rest + [Other(local, q, d), Matching(local, q, d)];
            && SpotsOk(bs, rest + [OnChain(d)]) && SpotsOk(bs, spots)
            && Pending(local, bs, q, spots) == Pending(local, bs, q, rest + [OnChain(d)])
  {
    hide Pending, Bit, SpotsOk;
    OnTop(local, bs, q, rest, OnChain(d));
    OnTop(local, bs, q, rest, Other(local, q, d));
    OnTop(local, bs, q, rest + [Other(local, q, d)], Matching(local, q, d));
    assert rest + [Other(local, q, d)] + [Matching(local, q, d)] == rest + [Other(local, q, d), Matching(local, q, d)];
  }

  /** Opening an inner node keeps the nearest on top. */
  lemma {:induction false} ExpandNearest(local: Bytes, k: nat, bs: Buckets, q: Bytes, rest: seq<Spot>, d: nat)
    requires Placed(local, k, bs) && OneLength(Contents(bs)) && SpotsOk(bs, rest) && d < |bs| - 1
    requires SpotsOk(bs, rest + [OnChain(d)]) && NearestOnTop(local, bs, q, rest + [OnChain(d)])
    requires SpotsOk(bs, rest + [Other(local, q, d), Matching(local, q, d)])
    ensures NearestOnTop(local, bs, q, rest + [Other(local, q, d), Matching(local, q, d)])
  {
    hide Placed, Bit, Distance, OneLength;
    var spots := rest + [Other(local, q, d), Matching(local, q, d)];
    var under := rest + [Other(local, q, d)];
    assert spots[..|spots| - 1] == under;
    assert under[..|under| - 1] == rest && (rest + [OnChain(d)])[..|rest|] == rest;
    MatchingSideNearer(local, k, bs, q, q, d);
    assert Pending(local, bs, q, under) == Below(local, bs, q, Other(local, q, d)) + Pending(local, bs, q, rest);
    assert Walk(local, bs, q, d) ==
           Below(local, bs, q, Matching(local, q, d)) + Below(local, bs, q, Other(local, q, d));
  }

  lemma {:induction false} TopIsNearest(local: Bytes, bs: Buckets, q: Bytes, rest: seq<Spot>, spot: Spot,
                                        met: seq<Peer>)
    requires SpotsOk(bs, rest) && SpotOk(bs, spot) && SpotsOk(bs, rest + [spot])
    requires NearestOnTop(local, bs, q, rest + [spot]) && NoFarther(met, Pending(local, bs, q, rest + [spot]), q)
    ensures NearestOnTop(local, bs, q, rest)
    ensures NoFarther(met + Below(local, bs, q, spot), Pending(local, bs, q, rest), q)
  {
    hide Distance, Below;
    assert (rest + [spot])[..|rest|] == rest;
    OnTop(local, bs, q, rest, spot);
  }

  lemma {:induction false} FromTheRoot(local: Bytes, bs: Buckets, q: Bytes)
    requires bs != []
    ensures SpotsOk(bs, [OnChain(0)]) && Pending(local, bs, q, [OnChain(0)]) == Walk(local, bs, q, 0)
    ensures NearestOnTop(local, bs, q, [OnChain(0)])
  {
    OnTop(local, bs, q, [], OnChain(0));
    assert [] + [OnChain(0)] == [OnChain(0)] && Walk(local, bs, q, 0) + [] == Walk(local, bs, q, 0);
  }

  /** When the walk stops, the contacts met hold the nearest ones of all that are stored. */
  lemma {:induction false} FoundNearest(local: Bytes, k: nat, bs: Buckets, q: Bytes, met: seq<Peer>, left: seq<Peer>,
                                        n: Option<nat>)
    requires Placed(local, k, bs) && OneLength(Contents(bs)) && met + left == Walk(local, bs, q, 0)
    requires NoFarther(met, left, q) && (left == [] || (n.Some? && |met| >= n.value))
    ensures Take(SortByDistance(met, q), n) == Take(SortByDistance(LeftToRight(local, bs), q), n)
  {
    StoppingEarly(met, left, q, n);
    SortForgetsWalk(local, k, bs, q, 0);
  }

  lemma {:induction false} MixedBits()
    ensures Shift(0, 7) == Shift(1, 7) == 0 && Shift(128, 7) == 1
  {
  }

  lemma {:induction false} MixedBytes()
    ensures Xor(128, 1, 8) == 129 && Xor(1, 1, 8) == 0
  {
    hide Xor, Power2;
    XorSelf(1, 8);
    Power2Eight();
    XorOne(128, 8);
  }

  lemma {:induction false} FirstBit(id: Bytes)
    requires id != []
    ensures Bit(id, 0) <==> Shift(id[0], 7) % 2 == 1
  {
  }

  lemma {:induction false} MixedDistances()
    ensures Distance([128], [1]) == 129 && Distance([1, 0], [1]) == 255
  {
    MixedBytes();
    assert DistanceUpTo([128], [1], 0) == 0 && DistanceUpTo([128], [1], 1) == 129;
    assert DistanceUpTo([1, 0], [1], 0) == 0 && DistanceUpTo([1, 0], [1], 1) == 0;
    assert DistanceUpTo([1, 0], [1], 2) == 255;
  }

  lemma {:induction false} MixedSlots()
    ensures Slot([0], [128], 1) == 0 && Slot([0], [1, 0], 1) == 1
  {
    hide Bit, SharedBits, Alike, Slot, Shift;
    MixedBits();
    FirstBit([0]);
    FirstBit([128]);
    FirstBit([1, 0]);
    SlotIs([0], [128], 1, 0);
    SlotIs([0], [1, 0], 1, 1);
  }

  lemma {:induction false} MixedPlaced(a: Peer, b: Peer)
    requires a.id == Some([128]) && b.id == Some([1, 0])
    ensures Placed([0], 1, [[a], [b]]) && !OneLength(Contents([[a], [b]]))
  {
    hide Slot;
    var bs := [[a], [b]];
    MixedSlots();
    assert BucketOk([0], 1, bs[0], 0, 1) && BucketOk([0], 1, bs[1], 1, 1);
    assert a in bs[0] && b in bs[1];
    assert |IdOf(a)| != |IdOf(b)|;
  }

  lemma {:induction false} MixedWalk(a: Peer, b: Peer)
    ensures Walk([0], [[a], [b]], [1], 0) == [b] + [a] && LeftToRight([0], [[a], [b]]) == [b] + [a]
  {
    hide Bit, Shift;
    MixedBits();
    FirstBit([0]);
    FirstBit([1]);
    var bs := [[a], [b]];
    assert !Bit([], 0) by {
      EmptyBit();
    }
    assert Walk([0], bs, [1], 1) == [b] && Walk([0], bs, [], 1) == [b];
  }

  lemma {:induction false} EmptyBit()
    ensures !Bit([], 0)
  {
  }

  /** Of two contacts only the nearer comes first when sorted. */
  lemma {:induction false} SortOfTwo(a: Peer, b: Peer, q: Bytes)
    requires Distance(IdOf(a), q) < Distance(IdOf(b), q)
    ensures SortByDistance([b], q) == [b] && SortByDistance([b] + [a], q) == [a] + [b]
  {
    hide Distance;
    var all := [b] + [a];
    assert all[1..] == [a] && [a][1..] == [] && [b][1..] == [];
    assert SortByDistance([], q) == [] && SortByDistance([a], q) == [a];
    assert InsertByDistance(b, [], q) == [b] && InsertByDistance(b, [a], q) == [a] + [b];
  }

  /**
    * With ids of different lengths the walk may stop too early: local id 00, 80 and 0100 stored, and the
    * nearest one to 01 wanted. 0100 is met first, but it is farther, for its last byte counts 255.
    */
  lemma {:induction false} MixedLengths(a: Peer, b: Peer)
    requires a.id == Some([128]) && b.id == Some([1, 0])
    ensures var bs := [[a], [b]];
            && Placed([0], 1, bs) && !OneLength(Contents(bs)) && Walk([0], bs, [1], 0) == [b] + [a]
            && Distance(IdOf(a), [1]) < Distance(IdOf(b), [1])
            && Take(SortByDistance([b], [1]), Some(1)) != Take(SortByDistance(LeftToRight([0], bs), [1]), Some(1))
  {
    hide Distance, SortByDistance, Walk, LeftToRight, Placed, OneLength;
    MixedPlaced(a, b);
    MixedWalk(a, b);
    MixedDistances();
    SortOfTwo(a, b, [1]);
    assert ([a] + [b])[..1] == [a];
  }
}
