/** The k-bucket tree with its index of peers by identifier and by address. */
module RoutingTables {
  import opened Base
  import opened XorMetric
  import opened KBucketModel
  import opened NearestContacts
  import opened KBucketTree

  const KBUCKET_SIZE: nat := 16
  const KBUCKET_CONCURRENCY: nat := 3

  function Decimal(n: nat): string {
    if n < 10 then ['0' + n as char] else Decimal(n / 10) + ['0' + (n % 10) as char]
  }

  function EndpointKey(address: string, tcpPort: nat): string {
    address + ":" + Decimal(tcpPort)
  }

  lemma {:induction false} DecimalDigits(n: nat)
    ensures Decimal(n) != "" && forall i :: 0 <= i < |Decimal(n)| ==> '0' <= Decimal(n)[i] <= '9'
  {
    if n >= 10 {
      DecimalDigits(n / 10);
    }
  }

  /** The value a string of decimal digits stands for. */
  function ReadDecimal(s: string): nat
    requires forall i :: 0 <= i < |s| ==> '0' <= s[i] <= '9'
  {
    if s == "" then 0
    else
      assert s[|s| - 1] in s;
      10 * ReadDecimal(s[..|s| - 1]) + (s[|s| - 1] as int - '0' as int)
  }

  lemma {:induction false} DecimalIsRead(n: nat)
    ensures (forall i :: 0 <= i < |Decimal(n)| ==> '0' <= Decimal(n)[i] <= '9') && ReadDecimal(Decimal(n)) == n
    ensures n > 0 ==> Decimal(n)[0] != '0'
  {
    DecimalDigits(n);
    if n >= 10 {
      DecimalIsRead(n / 10);
      assert Decimal(n)[..|Decimal(n)| - 1] == Decimal(n / 10);
    } else {
      assert Decimal(n)[..0] == "";
    }
  }

  lemma {:induction false} NoColonAfter(a: string, s: string)
    requires ':' !in s
    ensures var all := a + ":" + s; forall i :: |a| < i < |all| ==> all[i] != ':'
  {
    var all := a + ":" + s;
    forall i | |a| < i < |all| ensures all[i] != ':' {
      assert all[i] == s[i - |a| - 1];
    }
  }

  lemma {:induction false} LastColon(a: string, b: string, s: string, t: string)
    requires a + ":" + s == b + ":" + t && ':' !in s && ':' !in t
    ensures a == b && s == t
  {
    var all := a + ":" + s;
    assert all[|a|] == ':' && all[|b|] == ':';
    NoColonAfter(a, s);
    NoColonAfter(b, t);
    assert all[..|a|] == a && all[..|b|] == b && all[|a| + 1..] == s && all[|b| + 1..] == t;
  }

  /** An endpoint's key is the address, a colon and the port in decimal, and belongs to no other endpoint. */
  lemma {:induction false} EndpointKeyForm(address: string, port: nat, address': string, port': nat)
    ensures EndpointKey(address, port) == address + ":" + Decimal(port)
    ensures EndpointKey(address, port) == EndpointKey(address', port') <==> address == address' && port == port'
  {
    DecimalIsRead(port);
    DecimalIsRead(port');
    if EndpointKey(address, port) == EndpointKey(address', port') {
      LastColon(address, address', Decimal(port), Decimal(port'));
    }
  }

  function PeerKeys(p: Peer): seq<string> {
    (if p.id.Some? then [UnprefixedHex(p.id.value)] else []) +
    (if p.address.Some? && p.tcpPort.Some? then [EndpointKey(p.address.value, p.tcpPort.value)] else [])
  }

  /** What get, has and remove may be asked for. */
  datatype Query = ById(id: Bytes) | ByKey(key: string) | ByPeer(peer: Peer)

  function QueryKeys(q: Query): seq<string> {
    match q
    case ById(id) => [UnprefixedHex(id)]
    case ByKey(key) => [key]
    case ByPeer(p) => PeerKeys(p)
  }

  lemma {:induction false} HexHasNoColon(id: Bytes)
    ensures ':' !in UnprefixedHex(id)
  {
    if id != [] {
      HexHasNoColon(id[1..]);
    }
  }

  /** An identifier's key is a key of exactly the peers with that identifier. */
  lemma {:induction false} IdKey(id: Bytes, p: Peer)
    ensures UnprefixedHex(id) in PeerKeys(p) <==> p.id == Some(id)
  {
    HexHasNoColon(id);
    if p.address.Some? && p.tcpPort.Some? {
      var key := EndpointKey(p.address.value, p.tcpPort.value);
      assert key[|p.address.value|] == ':';
    }
    if p.id.Some? && UnprefixedHex(id) == UnprefixedHex(p.id.value) {
      HexInjective(id, p.id.value);
    }
  }

  /** An endpoint's key is a key of exactly the peers at that endpoint; a peer's id key comes first. */
  lemma {:induction false} EndpointIsKey(address: string, port: nat, p: Peer)
    ensures EndpointKey(address, port) in PeerKeys(p) <==> p.address == Some(address) && p.tcpPort == Some(port)
    ensures |PeerKeys(p)| == (if p.id.Some? then 1 else 0) + (if p.address.Some? && p.tcpPort.Some? then 1 else 0)
    ensures p.id.Some? ==> PeerKeys(p)[0] == UnprefixedHex(p.id.value)
  {
    if p.address.Some? && p.tcpPort.Some? {
      EndpointKeyForm(address, port, p.address.value, p.tcpPort.value);
    }
    if p.id.Some? {
      HexHasNoColon(p.id.value);
      assert EndpointKey(address, port)[|address|] == ':';
    }
    hide EndpointKey, UnprefixedHex;
  }

  /** The index holds exactly the keys of the stored contacts, each leading to its own contact. */
  ghost predicate Agreement(peers: map<string, Peer>, contacts: set<Peer>) {
    && (forall c, key :: c in contacts && key in PeerKeys(c) ==> key in peers && peers[key] == c)
    && (forall key :: key in peers ==> peers[key] in contacts && key in PeerKeys(peers[key]))
  }

  /** The stored contacts that one of the keys belongs to. */
  ghost function Found(contacts: set<Peer>, keys: seq<string>): set<Peer> {
    set c, key | c in contacts && key in keys && key in PeerKeys(c) :: c
  }

  /** c is the contact of the first key that belongs to any. */
  ghost predicate FirstFound(contacts: set<Peer>, keys: seq<string>, c: Peer) {
    exists i :: 0 <= i < |keys| && c in Found(contacts, [keys[i]]) && Found(contacts, keys[..i]) == {}
  }

  class RoutingTable {
    var peers: map<string, Peer>
    const kbucket: KBucket

    ghost predicate Valid()
      reads this, kbucket, kbucket.repr
    {
      && kbucket.Valid()
      && Agreement(peers, Contents(kbucket.buckets))
      && forall c :: c in Contents(kbucket.buckets) ==> c.id.Some?
    }

    constructor (localNodeId: Bytes, k: Option<nat>, concurrency: Option<nat>)
      requires k.Some? ==> k.value > 0
      ensures Valid() && Contents(kbucket.buckets) == {} && kbucket.localNodeId == localNodeId
      ensures kbucket.numberOfNodesPerKBucket == if k.Some? then k.value else 16
      ensures kbucket.numberOfNodesToPing == if concurrency.Some? then concurrency.value else 3
      ensures fresh(kbucket) && fresh(kbucket.repr)
    {
      kbucket := new KBucket(localNodeId, if k.Some? then k.value else KBUCKET_SIZE,
                             if concurrency.Some? then concurrency.value else KBUCKET_CONCURRENCY);
      peers := map[];
    }

    /** A peer is unknown to the bucket tree unless one of its keys is indexed. */
    method Add(peer: Peer) returns (r: Result<Event, KBucketError>)
      requires Valid()
      requires peer.id.Some? && Found(Contents(kbucket.buckets), PeerKeys(peer)) == {} ==>
                 !Stuck(kbucket.localNodeId, kbucket.numberOfNodesPerKBucket, Contents(kbucket.buckets), peer.id.value)
      modifies this, kbucket, kbucket.repr
      ensures Valid() && fresh(kbucket.repr - old(kbucket.repr))
      ensures old(Found(Contents(kbucket.buckets), PeerKeys(peer))) != {} || peer.id.None? ==>
                Contents(kbucket.buckets) == old(Contents(kbucket.buckets))
      ensures r.Err? <==> peer.id.None? && old(Found(Contents(kbucket.buckets), PeerKeys(peer))) == {}
      ensures peer.id.Some? && old(Found(Contents(kbucket.buckets), PeerKeys(peer))) == {} ==>
                var same := old(Crowd(kbucket.localNodeId, Contents(kbucket.buckets), IdOf(peer)));
                if |same| < kbucket.numberOfNodesPerKBucket then
                  r == Ok(Added(peer)) && Contents(kbucket.buckets) == old(Contents(kbucket.buckets)) + {peer}
                else
                  r.value.Pinged? && Contents(kbucket.buckets) == old(Contents(kbucket.buckets))
    {
      hide Contents, Crowd, Stuck, UnprefixedHex, SharedBits, PeerKeys, Agreement, KBucket.Linked, KBucket.TreeOk,
        Placed, Newest;
      ghost var contacts := Contents(kbucket.buckets);
      var keys := PeerKeys(peer);
      for i := 0 to |keys|
        invariant forall j :: 0 <= j < i ==> keys[j] !in peers
      {
        if keys[i] in peers {
          IndexedMeansFound(peers, contacts, keys, keys[i]);
          return Ok(Unchanged);
        }
      }
      NothingFound(peers, contacts, peer);
      r := kbucket.Add(peer);
      if r.Ok? && r.value.Added? {
        SetAll(keys, peer);
        AgreementAdded(old(peers), contacts, peers, peer);
      }
    }

    /** The handler of the added event. */
    method SetAll(keys: seq<string>, peer: Peer)
      modifies this`peers
      ensures forall key :: key in peers <==> key in keys || key in old(peers)
      ensures forall key :: key in peers ==> peers[key] == if key in keys then peer else old(peers)[key]
    {
      for i := 0 to |keys|
        invariant forall key :: key in peers <==> key in keys[..i] || key in old(peers)
        invariant forall key :: key in peers ==> peers[key] == if key in keys[..i] then peer else old(peers)[key]
      {
        peers := peers[keys[i] := peer];
        assert keys[..i + 1] == keys[..i] + [keys[i]];
      }
      assert keys[..|keys|] == keys;
    }

    /** The handler of the removed event. */
    method DeleteAll(keys: seq<string>)
      modifies this`peers
      ensures forall key :: key in peers <==> key in old(peers) && key !in keys
      ensures forall key :: key in peers ==> peers[key] == old(peers)[key]
    {
      for i := 0 to |keys|
        invariant forall key :: key in peers <==> key in old(peers) && key !in keys[..i]
        invariant forall key :: key in peers ==> peers[key] == old(peers)[key]
      {
        peers := peers - {keys[i]};
        assert keys[..i + 1] == keys[..i] + [keys[i]];
      }
      assert keys[..|keys|] == keys;
    }

    /** get agrees with a search of the stored contacts. */
    method Get(q: Query) returns (peer: Option<Peer>)
      requires Valid()
      ensures peer.None? <==> Found(Contents(kbucket.buckets), QueryKeys(q)) == {}
      ensures peer.Some? ==> FirstFound(Contents(kbucket.buckets), QueryKeys(q), peer.value)
      ensures q.ById? ==> (peer.Some? <==> Known(Contents(kbucket.buckets), q.id))
      ensures q.ById? && peer.Some? ==> IdOf(peer.value) == q.id
      ensures q.ByPeer? && q.peer.id.Some? && Known(Contents(kbucket.buckets), q.peer.id.value) ==>
                peer.Some? && IdOf(peer.value) == q.peer.id.value
      ensures q.ByPeer? && peer.Some? && !(q.peer.id.Some? && Known(Contents(kbucket.buckets), q.peer.id.value)) ==>
                peer.value.address == q.peer.address && peer.value.tcpPort == q.peer.tcpPort
      ensures q.ByPeer? && q.peer.address.Some? && q.peer.tcpPort.Some? && peer.None? ==>
                forall c :: c in Contents(kbucket.buckets) ==>
                  !(c.address == q.peer.address && c.tcpPort == q.peer.tcpPort)
    {
      hide Contents, UnprefixedHex, PeerKeys, KBucket.Linked, KBucket.TreeOk, Placed;
      ghost var contacts := Contents(kbucket.buckets);
      var keys := QueryKeys(q);
      peer := None;
      for i := 0 to |keys|
        invariant forall j :: 0 <= j < i ==> keys[j] !in peers
      {
        if keys[i] in peers {
          IndexedMeansFound(peers, contacts, keys, keys[i]);
          FirstIndexed(peers, contacts, keys, i);
          peer := Some(peers[keys[i]]);
          break;
        }
      }
      if q.ById? {
        FoundById(contacts, q.id);
      }
      if q.ByPeer? {
        FoundByPeer(contacts, q.peer, peer);
      }
    }

    method Has(q: Query) returns (present: bool)
      requires Valid()
      ensures present <==> Found(Contents(kbucket.buckets), QueryKeys(q)) != {}
    {
      var peer := Get(q);
      present := peer.Some?;
    }

    /** remove takes away the peer that get finds, from the tree and from the index. */
    method Remove(q: Query)
      requires Valid()
      modifies this, kbucket, kbucket.repr
      ensures Valid()
      ensures old(Found(Contents(kbucket.buckets), QueryKeys(q))) == {} ==>
                Contents(kbucket.buckets) == old(Contents(kbucket.buckets))
      ensures old(Found(Contents(kbucket.buckets), QueryKeys(q))) != {} ==>
                exists c :: old(FirstFound(Contents(kbucket.buckets), QueryKeys(q), c)) &&
                  Contents(kbucket.buckets) == old(Contents(kbucket.buckets)) - {c}
    {
      hide Contents, UnprefixedHex, PeerKeys, QueryKeys, Agreement, KBucket.Linked, KBucket.TreeOk, Placed;
      var peer := Get(q);
      if peer.Some? && peer.value.id.Some? {
        ghost var contacts := Contents(kbucket.buckets);
        forall c | c in contacts && IdOf(c) == IdOf(peer.value) ensures c == peer.value {
          kbucket.OneContactPerId(c, peer.value);
        }
        var removed := kbucket.Remove(peer.value.id.value);
        DeleteAll(PeerKeys(removed.value));
        AgreementRemoved(old(peers), contacts, peers, peer.value);
      }
    }

    method Count() returns (count: nat)
      requires Valid()
      ensures count == |Contents(kbucket.buckets)|
    {
      count := kbucket.Count();
    }

    method GetAll() returns (all: seq<Peer>)
      requires Valid()
      ensures (set c | c in all) == Contents(kbucket.buckets) && DistinctIds(all)
    {
      all := kbucket.ToArray();
      WalkIsContents(kbucket.localNodeId, kbucket.numberOfNodesPerKBucket, kbucket.buckets, []);
    }
  }

  lemma {:induction false} IndexedMeansFound(peers: map<string, Peer>, contacts: set<Peer>, keys: seq<string>,
                                             key: string)
    requires Agreement(peers, contacts) && key in keys && key in peers
    ensures peers[key] in Found(contacts, keys)
  {
  }

  lemma {:induction false} FirstIndexed(peers: map<string, Peer>, contacts: set<Peer>, keys: seq<string>, i: nat)
    requires Agreement(peers, contacts) && i < |keys| && keys[i] in peers
    requires forall j :: 0 <= j < i ==> keys[j] !in peers
    ensures FirstFound(contacts, keys, peers[keys[i]]) && peers[keys[i]] in contacts
  {
    hide PeerKeys;
    assert keys[i] in [keys[i]];
    forall c, key | c in contacts && key in keys[..i] ensures key !in PeerKeys(c) {
    }
  }

  /** A peer none of whose keys is indexed shares no key, and so no identifier, with a stored contact. */
  lemma {:induction false} NothingFound(peers: map<string, Peer>, contacts: set<Peer>, peer: Peer)
    requires Agreement(peers, contacts) && forall key :: key in PeerKeys(peer) ==> key !in peers
    requires forall c :: c in contacts ==> c.id.Some?
    ensures Found(contacts, PeerKeys(peer)) == {}
    ensures peer.id.Some? ==> !Known(contacts, IdOf(peer))
  {
    hide UnprefixedHex;
    if peer.id.Some? {
      IdKey(IdOf(peer), peer);
      forall c | c in contacts ensures IdOf(c) != IdOf(peer) {
        IdKey(IdOf(peer), c);
      }
    }
  }

  lemma {:induction false} FoundById(contacts: set<Peer>, id: Bytes)
    requires forall c :: c in contacts ==> c.id.Some?
    ensures Found(contacts, [UnprefixedHex(id)]) != {} <==> Known(contacts, id)
    ensures forall c :: c in Found(contacts, [UnprefixedHex(id)]) ==> IdOf(c) == id
  {
    hide UnprefixedHex, PeerKeys;
    forall c | c in contacts ensures UnprefixedHex(id) in PeerKeys(c) <==> IdOf(c) == id {
      IdKey(id, c);
    }
    assert UnprefixedHex(id) in [UnprefixedHex(id)];
    if c :| c in contacts && IdOf(c) == id {
      assert c in Found(contacts, [UnprefixedHex(id)]);
    }
  }

  /** What the keys of a peer find: the contact with its id if there is one, else one at its endpoint. */
  lemma {:induction false} FoundByPeer(contacts: set<Peer>, p: Peer, found: Option<Peer>)
    requires forall c :: c in contacts ==> c.id.Some?
    requires found.None? ==> Found(contacts, PeerKeys(p)) == {}
    requires found.Some? ==> FirstFound(contacts, PeerKeys(p), found.value)
    ensures p.id.Some? && Known(contacts, p.id.value) ==> found.Some? && IdOf(found.value) == p.id.value
    ensures found.Some? && !(p.id.Some? && Known(contacts, p.id.value)) ==>
              found.value.address == p.address && found.value.tcpPort == p.tcpPort
    ensures p.address.Some? && p.tcpPort.Some? && found.None? ==>
              forall c :: c in contacts ==> !(c.address == p.address && c.tcpPort == p.tcpPort)
  {
    var keys := PeerKeys(p);
    EndpointIsKey("", 0, p);
    forall c | c in contacts
      ensures p.id.Some? ==> (UnprefixedHex(p.id.value) in PeerKeys(c) <==> IdOf(c) == p.id.value)
      ensures p.address.Some? && p.tcpPort.Some? ==>
                (EndpointKey(p.address.value, p.tcpPort.value) in PeerKeys(c) <==>
                 c.address == p.address && c.tcpPort == p.tcpPort) {
      if p.id.Some? {
        IdKey(p.id.value, c);
      }
      if p.address.Some? && p.tcpPort.Some? {
        EndpointIsKey(p.address.value, p.tcpPort.value, c);
      }
    }
    if p.address.Some? && p.tcpPort.Some? {
      EndpointIsKey(p.address.value, p.tcpPort.value, p);
    }
    FoundByKeys(contacts, keys, p, found);
  }

  lemma {:induction false} InFound(contacts: set<Peer>, keys: seq<string>, c: Peer, key: string)
    requires c in contacts && key in keys && key in PeerKeys(c)
    ensures c in Found(contacts, keys)
  {
  }

  lemma {:induction false} FoundByKeys(contacts: set<Peer>, keys: seq<string>, p: Peer, found: Option<Peer>)
    requires keys == PeerKeys(p)
    requires found.None? ==> Found(contacts, keys) == {}
    requires found.Some? ==> FirstFound(contacts, keys, found.value)
    requires forall c :: c in contacts ==>
               && (p.id.Some? ==> (UnprefixedHex(p.id.value) in PeerKeys(c) <==> IdOf(c) == p.id.value))
               && (p.address.Some? && p.tcpPort.Some? ==>
                     (EndpointKey(p.address.value, p.tcpPort.value) in PeerKeys(c) <==>
                      c.address == p.address && c.tcpPort == p.tcpPort))
    ensures p.id.Some? && Known(contacts, p.id.value) ==> found.Some? && IdOf(found.value) == p.id.value
    ensures found.Some? && !(p.id.Some? && Known(contacts, p.id.value)) ==>
              found.value.address == p.address && found.value.tcpPort == p.tcpPort
    ensures p.address.Some? && p.tcpPort.Some? && found.None? ==>
              forall c :: c in contacts ==> !(c.address == p.address && c.tcpPort == p.tcpPort)
  {
    hide UnprefixedHex, EndpointKey;
    if p.id.Some? && Known(contacts, p.id.value) {
      var c :| c in contacts && IdOf(c) == p.id.value;
      assert keys[0] == UnprefixedHex(p.id.value) && keys[0] in PeerKeys(c);
      InFound(contacts, keys, c, keys[0]);
      var i :| 0 <= i < |keys| && found.value in Found(contacts, [keys[i]]) && Found(contacts, keys[..i]) == {};
      if i > 0 {
        assert keys[..i][0] == keys[0];
        InFound(contacts, keys[..i], c, keys[0]);
      }
    } else if found.Some? {
      var i :| 0 <= i < |keys| && found.value in Found(contacts, [keys[i]]) && Found(contacts, keys[..i]) == {};
    } else if p.address.Some? && p.tcpPort.Some? {
      var key := EndpointKey(p.address.value, p.tcpPort.value);
      assert keys[|keys| - 1] == key;
      forall c | c in contacts ensures !(c.address == p.address && c.tcpPort == p.tcpPort) {
        if c.address == p.address && c.tcpPort == p.tcpPort {
          InFound(contacts, keys, c, key);
        }
      }
    }
  }

  lemma {:induction false} AgreementAdded(peers: map<string, Peer>, contacts: set<Peer>, peers': map<string, Peer>,
                                          peer: Peer)
    requires Agreement(peers, contacts) && forall key :: key in PeerKeys(peer) ==> key !in peers
    requires forall key :: key in peers' <==> key in PeerKeys(peer) || key in peers
    requires forall key :: key in peers' ==> peers'[key] == if key in PeerKeys(peer) then peer else peers[key]
    ensures Agreement(peers', contacts + {peer})
  {
    hide PeerKeys;
  }

  lemma {:induction false} AgreementRemoved(peers: map<string, Peer>, contacts: set<Peer>, peers': map<string, Peer>,
                                            peer: Peer)
    requires Agreement(peers, contacts) && peer in contacts
    requires forall key :: key in peers' <==> key in peers && key !in PeerKeys(peer)
    requires forall key :: key in peers' ==> peers'[key] == peers[key]
    ensures Agreement(peers', contacts - {peer})
  {
    hide PeerKeys;
    forall c, key | c in contacts - {peer} && key in PeerKeys(c) ensures key in peers' && peers'[key] == c {
      assert peers[key] == c;
    }
    forall key | key in peers' ensures peers'[key] != peer {
      assert key in PeerKeys(peers[key]);
    }
  }
}
