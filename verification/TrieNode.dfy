/** Trie nodes as they are stored: hex-prefix key encoding and the raw form that RLP prints. */
module TrieNode {
  import opened Base
  import opened Rlp
  import opened TrieModel

  /**
    * A reference is a raw item: the empty string for no child, a string for a hash,
    * or the raw form of the child itself.
    */
  datatype Node =
    | LeafNode(key: Key, value: Bytes)
    | ExtensionNode(key: Key, ref: Item)
    | BranchNode(refs: seq<Item>, value: Bytes)

  datatype NodeError = MissingNode | InvalidNode | BadEncoding(error: Error)

  const NO_REF: Item := Str([])

  /** A reference of length zero counts as no child. */
  predicate Present(ref: Item) {
    match ref
    case Str(b) => b != []
    case List(xs) => xs != []
  }

  function AddHexPrefix(key: Key, terminator: bool): (h: Key)
    ensures |h| % 2 == 0 && h != []
  {
    var flag: Nibble := if terminator then 2 else 0;
    if |key| % 2 == 1 then [flag + 1] + key else [flag, 0] + key
  }

  function RemoveHexPrefix(h: Key): Key {
    if h == [] then []
    else if h[0] % 2 == 1 then h[1..]
    else if |h| == 1 then []
    else h[2..]
  }

  predicate IsTerminator(h: Key) {
    h != [] && h[0] > 1
  }

  /** Two in the first nibble is a leaf, one an odd key; an even key has a zero nibble before it. */
  lemma {:induction false} HexPrefixForm(key: Key, terminator: bool)
    ensures var h := AddHexPrefix(key, terminator);
            && h[0] / 2 == (if terminator then 1 else 0) && h[0] % 2 == |key| % 2
            && (if |key| % 2 == 0 then h[1] == 0 && h[2..] == key else h[1..] == key)
  {
  }

  lemma {:induction false} HexPrefixRoundTrip(key: Key, terminator: bool)
    ensures RemoveHexPrefix(AddHexPrefix(key, terminator)) == key
    ensures IsTerminator(AddHexPrefix(key, terminator)) == terminator
  {
  }

  function EncodedKey(key: Key, terminator: bool): (b: Bytes)
    ensures |b| <= |key| + 1
  {
    Pack(AddHexPrefix(key, terminator))
  }

  /** The path bytes of a node: the flag in the high nibble of the first, then the key, two nibbles a byte. */
  lemma {:induction false} EncodedKeyForm(key: Key, terminator: bool)
    ensures var b, odd, flag := EncodedKey(key, terminator), |key| % 2, if terminator then 2 else 0;
            var first: int := if odd == 1 then key[0] else 0;
            && |b| == 1 + |key| / 2 && b[0] == 16 * (flag + odd) + first
            && forall i :: 0 <= i < |key| / 2 ==>
                 var high: int, low: int := key[odd + 2 * i], key[odd + 2 * i + 1]; b[1 + i] == 16 * high + low
  {
    hide Pack;
    var h, odd := AddHexPrefix(key, terminator), |key| % 2;
    PackAt(h, 0);
    forall i | 0 <= i < |key| / 2
      ensures var high: int, low: int := key[odd + 2 * i], key[odd + 2 * i + 1]; Pack(h)[1 + i] == 16 * high + low {
      PackAt(h, 1 + i);
      assert h[2 * (1 + i)] == key[odd + 2 * i] && h[2 * (1 + i) + 1] == key[odd + 2 * i + 1];
    }
  }

  function Raw(n: Node): Item {
    match n
    case LeafNode(key, value) => List([Str(EncodedKey(key, true)), Str(value)])
    case ExtensionNode(key, ref) => List([Str(EncodedKey(key, false)), ref])
    case BranchNode(refs, value) => List(refs + [Str(value)])
  }

  function Serialize(n: Node): Bytes {
    Encode(Raw(n))
  }

  function DecodeRaw(raw: Item): Result<Node, NodeError> {
    match raw
    case Str(_) => Err(InvalidNode)
    case List(xs) =>
      if |xs| == 17 && xs[16].Str? then Ok(BranchNode(xs[..16], xs[16].bytes))
      else if |xs| == 2 && xs[0].Str? then
        var nibbles := Unpack(xs[0].bytes);
        if !IsTerminator(nibbles) then Ok(ExtensionNode(RemoveHexPrefix(nibbles), xs[1]))
        else if xs[1].Str? then Ok(LeafNode(RemoveHexPrefix(nibbles), xs[1].bytes))
        else Err(InvalidNode)
      else Err(InvalidNode)
  }

  lemma {:induction false} DecodeOfRaw(n: Node)
    requires n.BranchNode? ==> |n.refs| == 16
    ensures DecodeRaw(Raw(n)) == Ok(n)
  {
    match n
    case LeafNode(key, _) =>
      UnpackPack(AddHexPrefix(key, true));
      HexPrefixRoundTrip(key, true);
    case ExtensionNode(key, _) =>
      UnpackPack(AddHexPrefix(key, false));
      HexPrefixRoundTrip(key, false);
    case BranchNode(refs, value) =>
      assert (refs + [Str(value)])[..16] == refs;
  }

  function DecodeNode(encoded: Bytes): Result<Node, NodeError> {
    var d := Decode(encoded);
    if d.Err? then Err(BadEncoding(d.error)) else DecodeRaw(d.value)
  }

  /** A node whose raw form fits RLP's length limit reads back from its serialization. */
  lemma {:induction false} DecodeOfSerialize(n: Node)
    requires n.BranchNode? ==> |n.refs| == 16
    requires Sized(Raw(n))
    ensures DecodeNode(Serialize(n)) == Ok(n)
    ensures Serialize(n)[0] >= 192
  {
    DecodeIsInverse(Serialize(n), Raw(n));
    DecodeOfRaw(n);
    var payload := EncodeAll(Raw(n).items);
    if |payload| >= 56 {
      LongHeader(|payload|, 192, payload);
    }
  }

  lemma {:induction false} SerializeInjective(m: Node, n: Node)
    requires m.BranchNode? ==> |m.refs| == 16
    requires n.BranchNode? ==> |n.refs| == 16
    requires Sized(Raw(m)) && Sized(Raw(n)) && Serialize(m) == Serialize(n)
    ensures m == n
  {
    DecodeOfSerialize(m);
    DecodeOfSerialize(n);
  }
}
