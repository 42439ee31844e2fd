/**
  * Which stems and chunks of the binary tree a run has touched, what that costs, and which account
  * data, code and storage the touched positions stand for (EIP-7864 and EIP-4762).
  */
module WitnessModel {
  import opened Base
  import opened SimpleStateManagers
  import TrieStore

  const BRANCH_READ_COST: nat := 1900
  const BRANCH_WRITE_COST: nat := 3000
  const CHUNK_READ_COST: nat := 200
  const CHUNK_WRITE_COST: nat := 500

  const HEADER_STORAGE_OFFSET: nat := 64
  const CODE_OFFSET: nat := 128
  const NODE_WIDTH: nat := 256
  const CODE_CHUNK_SIZE: nat := 31

  /** 256 to the power of 31. */
  function MainStorageOffset(): (n: nat)
    ensures n > CODE_OFFSET
  {
    Power256AtLeast(CODE_CHUNK_SIZE);
    Power256(CODE_CHUNK_SIZE)
  }

  // ----------------------------------------------------------------------------------- locations

  datatype Location = BasicData | CodeHash | Code(codeOffset: nat) | Storage(slot: nat)

  /** A tree index and the position in that node. */
  datatype Indices = Indices(treeIndex: nat, subIndex: Byte)

  function Split(position: nat): Indices {
    Indices(position / NODE_WIDTH, position % NODE_WIDTH)
  }

  function IndicesForStorageSlot(slot: nat): Indices {
    Split(if slot < CODE_OFFSET - HEADER_STORAGE_OFFSET then
          HEADER_STORAGE_OFFSET + slot else MainStorageOffset() + slot)
  }

  function IndicesForCodeChunk(chunkId: nat): Indices {
    Split(CODE_OFFSET + chunkId)
  }

  function IndicesOf(l: Location): Indices {
    match l
    case BasicData => Indices(0, 0)
    case CodeHash => Indices(0, 1)
    case Code(codeOffset) => IndicesForCodeChunk(codeOffset / CODE_CHUNK_SIZE)
    case Storage(slot) => IndicesForStorageSlot(slot)
  }

  /** Code is touched chunk by chunk, and there is less of it than there are header positions for it. */
  predicate Proper(l: Location) {
    l.Code? ==>
      && l.codeOffset % CODE_CHUNK_SIZE == 0
      && CODE_OFFSET + l.codeOffset / CODE_CHUNK_SIZE < MainStorageOffset()
  }

  datatype WitnessError = NoAttribute | MissingStem

  function Decode(i: Indices): Result<Location, WitnessError> {
    var position := i.treeIndex * NODE_WIDTH + i.subIndex;
    if position == 0 then Ok(BasicData)
    else if position == 1 then Ok(CodeHash)
    else if position < HEADER_STORAGE_OFFSET then Err(NoAttribute)
    else if position < CODE_OFFSET then Ok(Storage(position - HEADER_STORAGE_OFFSET))
    else if position < MainStorageOffset() then Ok(Code((position - CODE_OFFSET) * CODE_CHUNK_SIZE))
    else Ok(Storage(position - MainStorageOffset()))
  }

  /**
    * Positions in the tree of one account: basic data at 0, the code hash at 1, the first 64 storage slots from 64
    * and all others from 256 to the 31, code chunks from 128; 256 positions share a stem.
    */
  lemma {:induction false} IndicesForm(l: Location)
    ensures var i := IndicesOf(l);
            i.treeIndex * 256 + i.subIndex ==
            match l
            case BasicData => 0
            case CodeHash => 1
            case Code(codeOffset) => 128 + codeOffset / 31
            case Storage(slot) => if slot < 64 then 64 + slot else Power256(31) + slot
  {
    hide Power256;
  }

  /** Only the positions from 2 to 63 stand for nothing. */
  lemma {:induction false} DecodeForm(i: Indices)
    ensures Decode(i).Err? <==> 2 <= i.treeIndex * 256 + i.subIndex < 64
    ensures Decode(i).Err? ==> Decode(i).error == NoAttribute
  {
    hide Power256;
  }

  /** Decoding inverts both index functions and the header positions. */
  lemma {:induction false} DecodeOfIndices(l: Location)
    requires Proper(l)
    ensures Decode(IndicesOf(l)) == Ok(l)
  {
    hide Power256;
    match l
    case Code(codeOffset) =>
      assert codeOffset == codeOffset / CODE_CHUNK_SIZE * CODE_CHUNK_SIZE;
    case _ =>
  }

  /** A position that decodes is the position of what it decodes to, but for the first 64 of main storage. */
  lemma {:induction false} IndicesOfDecode(i: Indices)
    requires Decode(i).Ok?
    ensures Proper(Decode(i).value)
    ensures IndicesOf(Decode(i).value) == i <==>
            !(0 <= i.treeIndex * NODE_WIDTH + i.subIndex - MainStorageOffset() < CODE_OFFSET - HEADER_STORAGE_OFFSET)
  {
    hide Power256;
    var position := i.treeIndex * NODE_WIDTH + i.subIndex;
    assert position / NODE_WIDTH == i.treeIndex && position % NODE_WIDTH == i.subIndex;
    var c := position - CODE_OFFSET;
    assert c * CODE_CHUNK_SIZE / CODE_CHUNK_SIZE == c && c * CODE_CHUNK_SIZE % CODE_CHUNK_SIZE == 0;
    var j := IndicesOf(Decode(i).value);
    assert j == i <==> j.treeIndex * NODE_WIDTH + j.subIndex == position;
  }

  // ------------------------------------------------------------------------------- stems and keys

  function LittleEndian(n: nat): Bytes {
    if n < 256 then [n] else [n % 256] + LittleEndian(n / 256)
  }

  function FillLeft(b: Bytes): Bytes {
    if |b| < 32 then Zeros(32 - |b|) + b else b[|b| - 32..]
  }

  function FillRight(b: Bytes): Bytes {
    if |b| < 32 then b + Zeros(32 - |b|) else b[..32]
  }

  /** What is hashed for a stem. */
  function Preimage(address: Address, treeIndex: nat): Bytes {
    FillLeft(address) + FillRight(LittleEndian(treeIndex))
  }

  function StemKey(hash: TrieStore.HashFunction, address: Address, treeIndex: nat): (k: Bytes)
    ensures |k| == 31
  {
    hash(Preimage(address, treeIndex))[..31]
  }

  function LittleToNat(b: Bytes): nat {
    if b == [] then 0 else b[0] + 256 * LittleToNat(b[1..])
  }

  lemma {:induction false} LittleToNatNext(first: Byte, b: Bytes)
    ensures LittleToNat([]) == 0 && LittleToNat([first] + b) == first + 256 * LittleToNat(b)
  {
    assert ([first] + b)[1..] == b;
  }

  lemma {:induction false} FillRightForm(b: Bytes)
    requires |b| <= 32
    ensures FillRight(b) == b + Zeros(32 - |b|) && |FillRight(b)| == 32
  {
    assert |b| == 32 ==> b[..32] == b + Zeros(0);
  }

  lemma {:induction false} PreimageParts(address: Address, treeIndex: nat)
    requires |address| == 20 && |LittleEndian(treeIndex)| <= 32
    ensures var p := Preimage(address, treeIndex);
            && |p| == 64 && p[..12] == Zeros(12) && p[12..32] == address
            && p[32..] == LittleEndian(treeIndex) + Zeros(32 - |LittleEndian(treeIndex)|)
  {
    hide LittleEndian, FillRight;
    FillRightForm(LittleEndian(treeIndex));
    var left, right := Zeros(12) + address, FillRight(LittleEndian(treeIndex));
    assert Preimage(address, treeIndex) == left + right;
    assert left[..12] == Zeros(12) && left[12..] == address;
  }

  /** An address of 20 bytes after 12 zeros, then the tree index in 32 bytes, least significant first. */
  lemma {:induction false} PreimageForm(hash: TrieStore.HashFunction, address: Address, treeIndex: nat)
    requires |address| == 20 && treeIndex < Power256(32)
    ensures var p := Preimage(address, treeIndex);
            && |p| == 64 && p[..12] == Zeros(12) && p[12..32] == address && LittleToNat(p[32..]) == treeIndex
            && StemKey(hash, address, treeIndex) == hash(p)[..31]
  {
    hide Power256, LittleEndian, LittleToNat, Preimage;
    LittleEndianLength(treeIndex, 32);
    PreimageParts(address, treeIndex);
    LittleEndianPadded(treeIndex, 32 - |LittleEndian(treeIndex)|);
  }

  lemma {:induction false} LittleEndianPadded(n: nat, zeros: nat)
    ensures LittleToNat(LittleEndian(n) + Zeros(zeros)) == n
  {
    var b := LittleEndian(n) + Zeros(zeros);
    ZerosToNat(zeros);
    if n >= 256 {
      LittleEndianPadded(n / 256, zeros);
      assert b[1..] == LittleEndian(n / 256) + Zeros(zeros);
    } else {
      assert b[1..] == Zeros(zeros);
    }
  }

  lemma {:induction false} ZerosToNat(n: nat)
    ensures LittleToNat(Zeros(n)) == 0
  {
    if n > 0 {
      assert Zeros(n)[1..] == Zeros(n - 1);
      ZerosToNat(n - 1);
    }
  }

  lemma {:induction false} LittleEndianLength(n: nat, k: nat)
    requires k > 0 && n < Power256(k)
    ensures |LittleEndian(n)| <= k
  {
    if n >= 256 {
      assert k > 1 by {
        assert Power256(1) == 256 * Power256(0) == 256;
      }
      assert Power256(k) == 256 * Power256(k - 1);
      LittleEndianLength(n / 256, k - 1);
    }
  }

  /** Addresses of 20 bytes and tree indices of up to 32 bytes never have the same preimage. */
  lemma {:induction false} PreimageInjective(a: Address, i: nat, b: Address, j: nat)
    requires |a| == |b| == 20 && i < Power256(32) && j < Power256(32) && Preimage(a, i) == Preimage(b, j)
    ensures a == b && i == j
  {
    hide Power256, LittleEndian, LittleToNat, Preimage;
    LittleEndianLength(i, 32);
    LittleEndianLength(j, 32);
    PreimageParts(a, i);
    PreimageParts(b, j);
    LittleEndianPadded(i, 32 - |LittleEndian(i)|);
    LittleEndianPadded(j, 32 - |LittleEndian(j)|);
  }

  datatype Place = Place(address: Address, location: Location)

  function PlaceStem(hash: TrieStore.HashFunction, p: Place): Bytes {
    StemKey(hash, p.address, IndicesOf(p.location).treeIndex)
  }

  function PlaceKey(hash: TrieStore.HashFunction, p: Place): (k: Bytes)
    ensures |k| == 32
  {
    PlaceStem(hash, p) + [IndicesOf(p.location).subIndex]
  }

  lemma {:induction false} PlaceKeyForm(hash: TrieStore.HashFunction, p: Place)
    ensures var i, k := IndicesOf(p.location), PlaceKey(hash, p);
            k[..31] == StemKey(hash, p.address, i.treeIndex) && k[31] == i.subIndex
  {
    hide StemKey, IndicesOf;
  }

  // ----------------------------------------------------------------------------------- the record

  datatype Stem = Stem(address: Address, treeIndex: nat, write: bool)

  datatype Chunk = Chunk(write: bool)

  /** What is committed, and what was touched since. */
  datatype Witness =
    Witness(stems: map<Bytes, Stem>, chunks: map<Bytes, Chunk>,
            stemCache: map<Bytes, Stem>, chunkCache: map<Bytes, Chunk>)

  function Nothing(): Witness {
    Witness(map[], map[], map[], map[])
  }

  function AllStems(w: Witness): map<Bytes, Stem> {
    w.stems + w.stemCache
  }

  function AllChunks(w: Witness): map<Bytes, Chunk> {
    w.chunks + w.chunkCache
  }

  function MarkedStem(s: Stem, isWrite: bool): Stem {
    s.(write := s.write || isWrite)
  }

  function MarkedChunk(c: Chunk, isWrite: bool): Chunk {
    c.(write := c.write || isWrite)
  }

  /** A committed entry is changed where it is; only a new one goes to the cache. */
  function TouchStem(w: Witness, k: Bytes, address: Address, treeIndex: nat, isWrite: bool): Witness {
    if k in w.stemCache then w.(stemCache := w.stemCache[k := MarkedStem(w.stemCache[k], isWrite)])
    else if k in w.stems then w.(stems := w.stems[k := MarkedStem(w.stems[k], isWrite)])
    else w.(stemCache := w.stemCache[k := Stem(address, treeIndex, isWrite)])
  }

  function TouchChunk(w: Witness, k: Bytes, isWrite: bool): Witness {
    if k in w.chunkCache then w.(chunkCache := w.chunkCache[k := MarkedChunk(w.chunkCache[k], isWrite)])
    else if k in w.chunks then w.(chunks := w.chunks[k := MarkedChunk(w.chunks[k], isWrite)])
    else w.(chunkCache := w.chunkCache[k := Chunk(isWrite)])
  }

  function Touch(hash: TrieStore.HashFunction, w: Witness, address: Address, i: Indices, isWrite: bool): Witness {
    var stem := StemKey(hash, address, i.treeIndex);
    TouchChunk(TouchStem(w, stem, address, i.treeIndex, isWrite), stem + [i.subIndex], isWrite)
  }

  function Gas(hash: TrieStore.HashFunction, w: Witness, address: Address, i: Indices, isWrite: bool): nat {
    var stem := StemKey(hash, address, i.treeIndex);
    var chunk := stem + [i.subIndex];
    (if stem !in AllStems(w) then BRANCH_READ_COST else 0) +
    (if isWrite && !(stem in AllStems(w) && AllStems(w)[stem].write) then BRANCH_WRITE_COST else 0) +
    (if chunk !in AllChunks(w) then CHUNK_READ_COST else 0) +
    (if isWrite && !(chunk in AllChunks(w) && AllChunks(w)[chunk].write) then CHUNK_WRITE_COST else 0)
  }

  /** 1900 for a new stem, 3000 for its first write, 200 for a new chunk and 500 for its first write. */
  lemma {:induction false} GasForm(hash: TrieStore.HashFunction, w: Witness, address: Address, i: Indices,
                                   isWrite: bool)
    ensures var stem, stems := StemKey(hash, address, i.treeIndex), w.stems + w.stemCache;
            var chunk, chunks := stem + [i.subIndex], w.chunks + w.chunkCache;
            Gas(hash, w, address, i, isWrite) ==
            (if stem in stems then 0 else 1900)
            + (if isWrite && !(stem in stems && stems[stem].write) then 3000 else 0)
            + (if chunk in chunks then 0 else 200)
            + (if isWrite && !(chunk in chunks && chunks[chunk].write) then 500 else 0)
  {
    hide StemKey;
  }

  function Commit(w: Witness): Witness {
    Witness(AllStems(w), AllChunks(w), map[], map[])
  }

  function Revert(w: Witness): Witness {
    w.(stemCache := map[], chunkCache := map[])
  }

  // --------------------------------------------------------------------------------- the gas paid

  function WrittenStems(m: map<Bytes, Stem>): set<Bytes> {
    set k | k in m && m[k].write
  }

  function WrittenChunks(m: map<Bytes, Chunk>): set<Bytes> {
    set k | k in m && m[k].write
  }

  /** What the stems and chunks of two maps cost: each once for being read, once more for being written. */
  function Cost(stems: map<Bytes, Stem>, chunks: map<Bytes, Chunk>): nat {
    BRANCH_READ_COST * |stems| + BRANCH_WRITE_COST * |WrittenStems(stems)| +
    CHUNK_READ_COST * |chunks| + CHUNK_WRITE_COST * |WrittenChunks(chunks)|
  }

  lemma {:induction false} StemTouched(w: Witness, k: Bytes, address: Address, treeIndex: nat, isWrite: bool)
    ensures var all := AllStems(w);
            AllStems(TouchStem(w, k, address, treeIndex, isWrite)) ==
            if k in all then all[k := MarkedStem(all[k], isWrite)] else all[k := Stem(address, treeIndex, isWrite)]
  {
  }

  lemma {:induction false} ChunkTouched(w: Witness, k: Bytes, isWrite: bool)
    ensures var all := AllChunks(w);
            AllChunks(TouchChunk(w, k, isWrite)) ==
            if k in all then all[k := MarkedChunk(all[k], isWrite)] else all[k := Chunk(isWrite)]
  {
  }

  lemma {:induction false} PutSize<V>(m: map<Bytes, V>, k: Bytes, v: V)
    ensures |m[k := v]| == |m| + if k in m then 0 else 1
  {
    var m' := m[k := v];
    assert |m'.Keys| == |m'| && |m.Keys| == |m|;
    if k in m {
      assert m'.Keys == m.Keys;
    } else {
      assert m'.Keys == m.Keys + {k};
    }
  }

  lemma {:induction false} AddSize(s: set<Bytes>, k: Bytes)
    ensures |s + {k}| == |s| + if k in s then 0 else 1
  {
    if k in s {
      assert s + {k} == s;
    }
  }

  lemma {:induction false} MarkStemCosts(m: map<Bytes, Stem>, k: Bytes, s: Stem, isWrite: bool)
    requires if k in m then s == MarkedStem(m[k], isWrite) else s.write == isWrite
    ensures |m[k := s]| == |m| + (if k in m then 0 else 1)
    ensures |WrittenStems(m[k := s])| == |WrittenStems(m)| + if isWrite && !(k in m && m[k].write) then 1 else 0
  {
    PutSize(m, k, s);
    if isWrite {
      assert WrittenStems(m[k := s]) == WrittenStems(m) + {k};
      AddSize(WrittenStems(m), k);
    } else {
      assert WrittenStems(m[k := s]) == WrittenStems(m);
    }
  }

  lemma {:induction false} MarkChunkCosts(m: map<Bytes, Chunk>, k: Bytes, c: Chunk, isWrite: bool)
    requires if k in m then c == MarkedChunk(m[k], isWrite) else c.write == isWrite
    ensures |m[k := c]| == |m| + (if k in m then 0 else 1)
    ensures |WrittenChunks(m[k := c])| == |WrittenChunks(m)| + if isWrite && !(k in m && m[k].write) then 1 else 0
  {
    PutSize(m, k, c);
    if isWrite {
      assert WrittenChunks(m[k := c]) == WrittenChunks(m) + {k};
      AddSize(WrittenChunks(m), k);
    } else {
      assert WrittenChunks(m[k := c]) == WrittenChunks(m);
    }
  }

  lemma {:induction false} TouchCosts(hash: TrieStore.HashFunction, w: Witness, address: Address, i: Indices,
                                      isWrite: bool)
    ensures var w' := Touch(hash, w, address, i, isWrite);
            Cost(AllStems(w'), AllChunks(w')) == Cost(AllStems(w), AllChunks(w)) + Gas(hash, w, address, i, isWrite)
  {
    hide StemKey, AllStems, AllChunks, TouchStem, TouchChunk, WrittenStems, WrittenChunks;
    var stem := StemKey(hash, address, i.treeIndex);
    var chunk := stem + [i.subIndex];
    var w1 := TouchStem(w, stem, address, i.treeIndex, isWrite);
    StemTouched(w, stem, address, i.treeIndex, isWrite);
    ChunkTouched(w1, chunk, isWrite);
    SameRest(w, stem, address, i.treeIndex, chunk, isWrite);
    var s := if stem in AllStems(w) then MarkedStem(AllStems(w)[stem], isWrite)
             else Stem(address, i.treeIndex, isWrite);
    var c := if chunk in AllChunks(w) then MarkedChunk(AllChunks(w)[chunk], isWrite) else Chunk(isWrite);
    MarkStemCosts(AllStems(w), stem, s, isWrite);
    MarkChunkCosts(AllChunks(w), chunk, c, isWrite);
  }

  lemma {:induction false} SameRest(w: Witness, stem: Bytes, address: Address, treeIndex: nat, chunk: Bytes,
                                    isWrite: bool)
    ensures var w1 := TouchStem(w, stem, address, treeIndex, isWrite);
            AllChunks(w1) == AllChunks(w) && AllStems(TouchChunk(w1, chunk, isWrite)) == AllStems(w1)
  {
  }

  // ----------------------------------------------------------------------------------------- runs

  datatype Op = TouchOp(place: Place, isWrite: bool) | CommitOp | RevertOp

  function Apply(hash: TrieStore.HashFunction, w: Witness, op: Op): Witness {
    match op
    case TouchOp(p, isWrite) => Touch(hash, w, p.address, IndicesOf(p.location), isWrite)
    case CommitOp => Commit(w)
    case RevertOp => Revert(w)
  }

  function Run(hash: TrieStore.HashFunction, ops: seq<Op>): Witness {
    if ops == [] then Nothing() else Apply(hash, Run(hash, ops[..|ops| - 1]), ops[|ops| - 1])
  }

  /** All the gas a run returned. */
  function TotalGas(hash: TrieStore.HashFunction, ops: seq<Op>): nat {
    if ops == [] then 0
    else
      var front, op := ops[..|ops| - 1], ops[|ops| - 1];
      TotalGas(hash, front) +
      if op.TouchOp? then Gas(hash, Run(hash, front), op.place.address, IndicesOf(op.place.location), op.isWrite) else 0
  }

  lemma {:induction false} NextOp(hash: TrieStore.HashFunction, ops: seq<Op>, op: Op)
    ensures Run(hash, ops + [op]) == Apply(hash, Run(hash, ops), op)
    ensures TotalGas(hash, ops + [op]) ==
            TotalGas(hash, ops) +
            if op.TouchOp? then
              Gas(hash, Run(hash, ops), op.place.address, IndicesOf(op.place.location), op.isWrite) else 0
  {
    hide Touch, Gas;
    assert (ops + [op])[..|ops|] == ops;
  }

  lemma {:induction false} ChunkIndices(chunkNum: nat)
    ensures IndicesOf(Code(31 * chunkNum)) == IndicesForCodeChunk(chunkNum)
  {
  }

  /** Without a revert, the gas of a run is the price of the stems and chunks it ends with, whatever the order. */
  lemma {:induction false} GasIsCost(hash: TrieStore.HashFunction, ops: seq<Op>)
    requires RevertOp !in ops
    ensures TotalGas(hash, ops) == Cost(AllStems(Run(hash, ops)), AllChunks(Run(hash, ops)))
  {
    hide Touch, Gas, Cost, StemKey, Commit, AllStems, AllChunks;
    if ops == [] {
      NothingCosts();
    } else {
      var front, op := ops[..|ops| - 1], ops[|ops| - 1];
      GasIsCost(hash, front);
      if op.TouchOp? {
        TouchCosts(hash, Run(hash, front), op.place.address, IndicesOf(op.place.location), op.isWrite);
      } else {
        CommitKeepsAll(Run(hash, front));
      }
    }
  }

  lemma {:induction false} NothingCosts()
    ensures Cost(AllStems(Nothing()), AllChunks(Nothing())) == 0
  {
    assert AllStems(Nothing()) == map[] && AllChunks(Nothing()) == map[];
  }

  lemma {:induction false} CommitKeepsAll(w: Witness)
    ensures AllStems(Commit(w)) == AllStems(w) && AllChunks(Commit(w)) == AllChunks(w)
  {
  }

  /** A run that ends with a commit has paid exactly for the committed maps. */
  lemma {:induction false} CommittedGas(hash: TrieStore.HashFunction, ops: seq<Op>)
    requires ops != [] && ops[|ops| - 1] == CommitOp && RevertOp !in ops
    ensures TotalGas(hash, ops) == Cost(Run(hash, ops).stems, Run(hash, ops).chunks)
  {
    hide Cost, TotalGas, Touch, StemKey;
    GasIsCost(hash, ops);
    CommitKeepsAll(Run(hash, ops[..|ops| - 1]));
  }

  // -------------------------------------------------------------------- what the chunks stand for

  /** The places touched, by whether they are committed. */
  datatype Places = Places(committed: set<Place>, pending: set<Place>)

  function ApplyPlaces(m: Places, op: Op): Places {
    match op
    case TouchOp(p, _) => if p in m.committed then m else m.(pending := m.pending + {p})
    case CommitOp => Places(m.committed + m.pending, {})
    case RevertOp => Places(m.committed, {})
  }

  function RunPlaces(ops: seq<Op>): Places {
    if ops == [] then Places({}, {}) else ApplyPlaces(RunPlaces(ops[..|ops| - 1]), ops[|ops| - 1])
  }

  /** The places a run touches, whether or not they were reverted. */
  function Seen(ops: seq<Op>): set<Place> {
    set op | op in ops && op.TouchOp? :: op.place
  }

  /** No two stems of the touched places collide, and code is touched by whole chunks. */
  ghost predicate Distinct(hash: TrieStore.HashFunction, seen: set<Place>) {
    && (forall p :: p in seen ==> Proper(p.location))
    && forall p, q :: p in seen && q in seen && PlaceStem(hash, p) == PlaceStem(hash, q) ==>
         p.address == q.address && IndicesOf(p.location).treeIndex == IndicesOf(q.location).treeIndex
  }

  /** Places at proper addresses, whose stems collide only where the first 31 bytes of two different hashes do. */
  ghost predicate Addressed(seen: set<Place>) {
    forall p :: p in seen ==>
      Proper(p.location) && |p.address| == 20 && IndicesOf(p.location).treeIndex < Power256(32)
  }

  ghost predicate ShortHashInjective(hash: TrieStore.HashFunction, preimages: set<Bytes>) {
    forall x, y :: x in preimages && y in preimages && hash(x)[..31] == hash(y)[..31] ==> x == y
  }

  /** Stems do not collide where the hashes of what they are made of do not. */
  lemma {:induction false} DistinctStems(hash: TrieStore.HashFunction, seen: set<Place>)
    requires Addressed(seen)
    requires ShortHashInjective(hash, set p | p in seen :: Preimage(p.address, IndicesOf(p.location).treeIndex))
    ensures Distinct(hash, seen)
  {
    hide Preimage, IndicesOf, Proper, Power256;
    forall p, q | p in seen && q in seen && PlaceStem(hash, p) == PlaceStem(hash, q)
      ensures p.address == q.address && IndicesOf(p.location).treeIndex == IndicesOf(q.location).treeIndex {
      PreimageInjective(p.address, IndicesOf(p.location).treeIndex, q.address, IndicesOf(q.location).treeIndex);
    }
  }

  ghost predicate StemOk(hash: TrieStore.HashFunction, stems: map<Bytes, Stem>, p: Place) {
    var k := PlaceStem(hash, p);
    k in stems && stems[k].address == p.address && stems[k].treeIndex == IndicesOf(p.location).treeIndex
  }

  /** The chunk keys are the keys of the places. */
  ghost predicate KeysOf(hash: TrieStore.HashFunction, chunks: map<Bytes, Chunk>, places: set<Place>) {
    && (forall p :: p in places ==> PlaceKey(hash, p) in chunks)
    && (forall k :: k in chunks ==> exists p :: p in places && k == PlaceKey(hash, p))
  }

  /** Every stem is that of a touched place. */
  ghost predicate StemsOf(hash: TrieStore.HashFunction, stems: map<Bytes, Stem>, seen: set<Place>) {
    forall k :: k in stems ==> exists p :: p in seen && k == PlaceStem(hash, p) && StemOk(hash, stems, p)
  }

  /** Every chunk is the chunk of a touched place and has that place's stem: a committed chunk a committed stem. */
  ghost predicate Represents(hash: TrieStore.HashFunction, w: Witness, m: Places, seen: set<Place>) {
    && m.committed <= seen && m.pending <= seen && w.stems.Keys !! w.stemCache.Keys
    && KeysOf(hash, w.chunks, m.committed) && KeysOf(hash, w.chunkCache, m.pending)
    && (forall p :: p in m.committed ==> StemOk(hash, w.stems, p))
    && (forall p :: p in m.pending ==> StemOk(hash, AllStems(w), p))
    && StemsOf(hash, w.stems, seen) && StemsOf(hash, AllStems(w), seen)
  }

  /** Different places have different chunks. */
  lemma {:induction false} KeyInjective(hash: TrieStore.HashFunction, seen: set<Place>, p: Place, q: Place)
    requires Distinct(hash, seen) && p in seen && q in seen && PlaceKey(hash, p) == PlaceKey(hash, q)
    ensures p == q
  {
    hide StemKey, Decode, IndicesOf, Proper;
    var k, l := PlaceKey(hash, p), PlaceKey(hash, q);
    assert k[..31] == PlaceStem(hash, p) && l[..31] == PlaceStem(hash, q);
    assert k[31] == l[31];
    DecodeOfIndices(p.location);
    DecodeOfIndices(q.location);
  }

  lemma {:induction false} FindPlace(hash: TrieStore.HashFunction, chunks: map<Bytes, Chunk>, places: set<Place>,
                                     seen: set<Place>, p: Place)
    requires Distinct(hash, seen) && places <= seen && p in seen && KeysOf(hash, chunks, places)
    ensures PlaceKey(hash, p) in chunks <==> p in places
  {
    hide PlaceKey;
    if PlaceKey(hash, p) in chunks {
      var q :| q in places && PlaceKey(hash, p) == PlaceKey(hash, q);
      KeyInjective(hash, seen, p, q);
    }
  }

  lemma {:induction false} KeysMarked(hash: TrieStore.HashFunction, chunks: map<Bytes, Chunk>, places: set<Place>,
                                      p: Place, c: Chunk)
    requires KeysOf(hash, chunks, places)
    ensures KeysOf(hash, chunks[PlaceKey(hash, p) := c], places + {p})
  {
    hide PlaceKey;
    var chunks' := chunks[PlaceKey(hash, p) := c];
    forall k | k in chunks' ensures exists q :: q in places + {p} && k == PlaceKey(hash, q) {
      if k in chunks {
        var q :| q in places && k == PlaceKey(hash, q);
        assert q in places + {p};
      } else {
        assert p in places + {p};
      }
    }
  }

  lemma {:induction false} ChunkRepresents(hash: TrieStore.HashFunction, w: Witness, m: Places, seen: set<Place>,
                                           p: Place, isWrite: bool)
    requires Distinct(hash, seen) && m.committed <= seen && m.pending <= seen && p in seen
    requires KeysOf(hash, w.chunks, m.committed) && KeysOf(hash, w.chunkCache, m.pending)
    requires m.committed !! m.pending
    ensures var w', m' := TouchChunk(w, PlaceKey(hash, p), isWrite), ApplyPlaces(m, TouchOp(p, isWrite));
            && KeysOf(hash, w'.chunks, m'.committed) && KeysOf(hash, w'.chunkCache, m'.pending)
            && m'.committed !! m'.pending && w'.stems == w.stems && w'.stemCache == w.stemCache
  {
    hide KeysOf, Distinct, PlaceKey;
    FindPlace(hash, w.chunks, m.committed, seen, p);
    FindPlace(hash, w.chunkCache, m.pending, seen, p);
    var k := PlaceKey(hash, p);
    if k in w.chunkCache {
      KeysMarked(hash, w.chunkCache, m.pending, p, MarkedChunk(w.chunkCache[k], isWrite));
      assert m.pending + {p} == m.pending;
    } else if k in w.chunks {
      KeysMarked(hash, w.chunks, m.committed, p, MarkedChunk(w.chunks[k], isWrite));
      assert m.committed + {p} == m.committed;
    } else {
      KeysMarked(hash, w.chunkCache, m.pending, p, Chunk(isWrite));
    }
  }

  /** Two maps of stems with the same addresses and indices, the second with at most one stem more, p's. */
  ghost predicate Extends(hash: TrieStore.HashFunction, stems: map<Bytes, Stem>, more: map<Bytes, Stem>, p: Place) {
    && (forall k :: k in stems ==>
          k in more && more[k].address == stems[k].address && more[k].treeIndex == stems[k].treeIndex)
    && (forall k :: k in more && k !in stems ==> k == PlaceStem(hash, p) && StemOk(hash, more, p))
  }

  lemma {:induction false} StemsExtended(hash: TrieStore.HashFunction, stems: map<Bytes, Stem>, more: map<Bytes, Stem>,
                                         seen: set<Place>, p: Place)
    requires StemsOf(hash, stems, seen) && Extends(hash, stems, more, p) && p in seen
    ensures StemsOf(hash, more, seen) && forall q :: StemOk(hash, stems, q) ==> StemOk(hash, more, q)
  {
    hide PlaceStem;
    forall k | k in more ensures exists q :: q in seen && k == PlaceStem(hash, q) && StemOk(hash, more, q) {
      if k in stems {
        var q :| q in seen && k == PlaceStem(hash, q) && StemOk(hash, stems, q);
        assert StemOk(hash, more, q);
      }
    }
  }

  lemma {:induction false} StemKnown(hash: TrieStore.HashFunction, stems: map<Bytes, Stem>, seen: set<Place>, p: Place)
    requires Distinct(hash, seen) && StemsOf(hash, stems, seen) && p in seen && PlaceStem(hash, p) in stems
    ensures StemOk(hash, stems, p)
  {
    hide PlaceStem;
    var q :| q in seen && PlaceStem(hash, p) == PlaceStem(hash, q) && StemOk(hash, stems, q);
  }

  lemma {:induction false} StemPut(hash: TrieStore.HashFunction, stems: map<Bytes, Stem>, p: Place, s: Stem)
    requires s.address == p.address && s.treeIndex == IndicesOf(p.location).treeIndex
    requires PlaceStem(hash, p) in stems ==> StemOk(hash, stems, p)
    ensures Extends(hash, stems, stems[PlaceStem(hash, p) := s], p) && StemOk(hash, stems[PlaceStem(hash, p) := s], p)
  {
    hide PlaceStem, IndicesOf;
  }

  /** Marking p's stem, or adding it, keeps every other stem what it was. */
  lemma {:induction false} StemsAdvance(hash: TrieStore.HashFunction, stems: map<Bytes, Stem>, s: Stem,
                                        seen: set<Place>, p: Place)
    requires Distinct(hash, seen) && p in seen && StemsOf(hash, stems, seen)
    requires var k := PlaceStem(hash, p);
             if k in stems then s.address == stems[k].address && s.treeIndex == stems[k].treeIndex
             else s.address == p.address && s.treeIndex == IndicesOf(p.location).treeIndex
    ensures var more := stems[PlaceStem(hash, p) := s];
            StemsOf(hash, more, seen) && StemOk(hash, more, p) &&
              forall q :: StemOk(hash, stems, q) ==> StemOk(hash, more, q)
  {
    hide Distinct, StemsOf, PlaceStem, IndicesOf, Extends;
    if PlaceStem(hash, p) in stems {
      StemKnown(hash, stems, seen, p);
    }
    StemPut(hash, stems, p, s);
    StemsExtended(hash, stems, stems[PlaceStem(hash, p) := s], seen, p);
  }

  lemma {:induction false} StemRepresents(hash: TrieStore.HashFunction, w: Witness, m: Places, seen: set<Place>,
                                          p: Place, isWrite: bool)
    requires Distinct(hash, seen) && p in seen && Represents(hash, w, m, seen)
    ensures var w' := TouchStem(w, PlaceStem(hash, p), p.address, IndicesOf(p.location).treeIndex, isWrite);
            && Represents(hash, w', m, seen) && StemOk(hash, AllStems(w'), p)
            && (PlaceStem(hash, p) in w.stems ==> StemOk(hash, w'.stems, p))
            && w'.chunks == w.chunks && w'.chunkCache == w.chunkCache
  {
    hide Distinct, KeysOf, PlaceKey, StemsOf, PlaceStem, IndicesOf, StemOk, StemKey, Proper, AllStems;
    var k, all := PlaceStem(hash, p), AllStems(w);
    var s := if k in all then MarkedStem(all[k], isWrite)
             else Stem(p.address, IndicesOf(p.location).treeIndex, isWrite);
    StemTouched(w, k, p.address, IndicesOf(p.location).treeIndex, isWrite);
    StemsAdvance(hash, all, s, seen, p);
    CommittedIsKnown(w, k);
    if k in w.stems {
      StemsAdvance(hash, w.stems, s, seen, p);
    }
  }

  lemma {:induction false} CommittedIsKnown(w: Witness, k: Bytes)
    requires w.stems.Keys !! w.stemCache.Keys
    ensures k in w.stems ==> k !in w.stemCache && k in AllStems(w) && AllStems(w)[k] == w.stems[k]
    ensures k in AllStems(w) <==> k in w.stems || k in w.stemCache
    ensures k in w.stemCache ==> AllStems(w)[k] == w.stemCache[k]
  {
    assert k !in w.stems.Keys * w.stemCache.Keys;
  }

  lemma {:induction false} TouchRepresents(hash: TrieStore.HashFunction, w: Witness, m: Places, seen: set<Place>,
                                           p: Place, isWrite: bool)
    requires Distinct(hash, seen) && p in seen && Represents(hash, w, m, seen) && m.committed !! m.pending
    ensures var w', m' :=
              Touch(hash, w, p.address, IndicesOf(p.location), isWrite), ApplyPlaces(m, TouchOp(p, isWrite));
            Represents(hash, w', m', seen) && m'.committed !! m'.pending
  {
    hide Distinct, KeysOf, StemsOf, StemOk, TouchStem, TouchChunk, StemKey, IndicesOf;
    var w1 := TouchStem(w, PlaceStem(hash, p), p.address, IndicesOf(p.location).treeIndex, isWrite);
    StemRepresents(hash, w, m, seen, p, isWrite);
    ChunkRepresents(hash, w1, m, seen, p, isWrite);
  }

  lemma {:induction false} CommittedOk(hash: TrieStore.HashFunction, w: Witness, p: Place)
    requires StemOk(hash, w.stems, p) && w.stems.Keys !! w.stemCache.Keys
    ensures StemOk(hash, AllStems(w), p)
  {
    hide PlaceStem;
    assert PlaceStem(hash, p) !in w.stemCache;
  }

  lemma {:induction false} KeysMerged(hash: TrieStore.HashFunction, w: Witness, m: Places)
    requires KeysOf(hash, w.chunks, m.committed) && KeysOf(hash, w.chunkCache, m.pending)
    ensures KeysOf(hash, AllChunks(w), m.committed + m.pending)
  {
    hide PlaceKey;
    forall k | k in AllChunks(w) ensures exists p :: p in m.committed + m.pending && k == PlaceKey(hash, p) {
      if k in w.chunks {
        var p :| p in m.committed && k == PlaceKey(hash, p);
        assert p in m.committed + m.pending;
      } else {
        var p :| p in m.pending && k == PlaceKey(hash, p);
        assert p in m.committed + m.pending;
      }
    }
  }

  lemma {:induction false} CommitRepresents(hash: TrieStore.HashFunction, w: Witness, m: Places, seen: set<Place>)
    requires Represents(hash, w, m, seen)
    ensures Represents(hash, Commit(w), Places(m.committed + m.pending, {}), seen)
  {
    hide StemOk, StemsOf, PlaceKey;
    assert AllStems(Commit(w)) == AllStems(w);
    KeysMerged(hash, w, m);
    forall p | p in m.committed {
      CommittedOk(hash, w, p);
    }
  }

  /** On every run, reverts included, the record stands for the places touched. */
  lemma {:induction false} RunRepresents(hash: TrieStore.HashFunction, ops: seq<Op>, seen: set<Place>)
    requires Seen(ops) <= seen && Distinct(hash, seen)
    ensures Represents(hash, Run(hash, ops), RunPlaces(ops), seen)
    ensures RunPlaces(ops).committed !! RunPlaces(ops).pending
  {
    hide Distinct, Touch, Commit, KeysOf, StemOk, StemsOf;
    if ops == [] {
      NothingRepresents(hash, seen);
    } else {
      hide Represents;
      var front, op := ops[..|ops| - 1], ops[|ops| - 1];
      assert forall o :: o in front ==> o in ops;
      RunRepresents(hash, front, seen);
      var w, m := Run(hash, front), RunPlaces(front);
      match op {
        case TouchOp(p, isWrite) =>
          assert op in ops;
          TouchRepresents(hash, w, m, seen, p, isWrite);
        case CommitOp => CommitRepresents(hash, w, m, seen);
        case RevertOp => RevertRepresents(hash, w, m, seen);
      }
    }
  }

  lemma {:induction false} NothingRepresents(hash: TrieStore.HashFunction, seen: set<Place>)
    ensures Represents(hash, Nothing(), Places({}, {}), seen)
  {
  }

  lemma {:induction false} RevertRepresents(hash: TrieStore.HashFunction, w: Witness, m: Places, seen: set<Place>)
    requires Represents(hash, w, m, seen)
    ensures Represents(hash, Revert(w), Places(m.committed, {}), seen)
  {
    hide StemOk, StemsOf, PlaceKey;
    assert AllStems(Revert(w)) == w.stems;
  }

  // ------------------------------------------------------------------------------------ reading back

  /** What one committed chunk stands for; its stem must be there. */
  function Access(w: Witness, chunkKey: Bytes): Result<Place, WitnessError>
    requires |chunkKey| == 32
  {
    var stemKey := chunkKey[..31];
    if stemKey !in w.stems then Err(MissingStem)
    else
      var stem := w.stems[stemKey];
      match Decode(Indices(stem.treeIndex, chunkKey[31]))
      case Ok(l) => Ok(Place(stem.address, l))
      case Err(e) => Err(e)
  }

  lemma {:induction false} AccessOfPlace(hash: TrieStore.HashFunction, w: Witness, p: Place)
    requires StemOk(hash, w.stems, p) && Proper(p.location)
    ensures Access(w, PlaceKey(hash, p)) == Ok(p)
  {
    hide Decode, StemKey, Proper, IndicesOf;
    assert PlaceKey(hash, p)[..31] == PlaceStem(hash, p);
    DecodeOfIndices(p.location);
    assert IndicesOf(p.location) == Indices(IndicesOf(p.location).treeIndex, IndicesOf(p.location).subIndex);
  }

  /** Reading back never fails, and yields exactly the committed places. */
  lemma {:induction false} AccessesAreCommitted(hash: TrieStore.HashFunction, ops: seq<Op>, k: Bytes, p: Place)
    requires Distinct(hash, Seen(ops))
    ensures var w := Run(hash, ops);
            && (k in w.chunks ==> |k| == 32 && Access(w, k).Ok? && Access(w, k).value in RunPlaces(ops).committed)
            && (p in RunPlaces(ops).committed ==>
                  PlaceKey(hash, p) in w.chunks && Access(w, PlaceKey(hash, p)) == Ok(p))
  {
    hide Run, RunPlaces, PlaceKey, Access, StemsOf, Seen;
    RunRepresents(hash, ops, Seen(ops));
    var w, m := Run(hash, ops), RunPlaces(ops);
    if k in w.chunks {
      var q :| q in m.committed && k == PlaceKey(hash, q);
      AccessOfPlace(hash, w, q);
    }
    if p in m.committed {
      AccessOfPlace(hash, w, p);
    }
  }

  lemma {:induction false} ImageSize(hash: TrieStore.HashFunction, places: set<Place>)
    ensures |set p | p in places :: PlaceKey(hash, p)| <= |places|
  {
    hide PlaceKey;
    if places != {} {
      var p :| p in places;
      ImageSize(hash, places - {p});
      var rest := set q | q in places - {p} :: PlaceKey(hash, q);
      assert (set q | q in places :: PlaceKey(hash, q)) == rest + {PlaceKey(hash, p)};
    }
  }

  /** A list as long as a set that covers it holds each of its elements once. */
  lemma {:induction false} EachOnce(list: seq<Place>, places: set<Place>)
    requires |list| <= |places| && forall p :: p in places ==> p in list
    ensures multiset(list) == multiset(places)
  {
    assert multiset(places) <= multiset(list);
    assert multiset(list) == multiset(places) + (multiset(list) - multiset(places));
    assert |multiset(list)| == |list| && |multiset(places)| == |places|;
  }

  lemma {:induction false} KeysSize(hash: TrieStore.HashFunction, chunks: map<Bytes, Chunk>, places: set<Place>)
    requires KeysOf(hash, chunks, places)
    ensures |chunks| <= |places|
  {
    hide PlaceKey;
    ImageSize(hash, places);
    assert chunks.Keys == set p | p in places :: PlaceKey(hash, p);
    assert |chunks.Keys| == |chunks|;
  }

  lemma {:induction false} CommittedKeys(hash: TrieStore.HashFunction, ops: seq<Op>)
    requires Distinct(hash, Seen(ops))
    ensures KeysOf(hash, Run(hash, ops).chunks, RunPlaces(ops).committed)
  {
    hide Run, RunPlaces, KeysOf, StemsOf, StemOk, Seen, Distinct;
    RunRepresents(hash, ops, Seen(ops));
  }

  /** A list of what all committed chunks stand for holds each committed place once. */
  lemma {:induction false} ListsCommitted(hash: TrieStore.HashFunction, ops: seq<Op>, list: seq<Place>)
    requires Distinct(hash, Seen(ops)) && |list| == |Run(hash, ops).chunks|
    requires forall k :: k in Run(hash, ops).chunks && |k| == 32 && Access(Run(hash, ops), k).Ok? ==>
               Access(Run(hash, ops), k).value in list
    ensures multiset(list) == multiset(RunPlaces(ops).committed)
  {
    hide Run, RunPlaces, PlaceKey, Access, KeysOf, Seen, Distinct;
    CommittedKeys(hash, ops);
    KeysSize(hash, Run(hash, ops).chunks, RunPlaces(ops).committed);
    forall p | p in RunPlaces(ops).committed ensures p in list {
      AccessesAreCommitted(hash, ops, PlaceKey(hash, p), p);
    }
    EachOnce(list, RunPlaces(ops).committed);
  }

  /** A committed chunk that cannot be read back is not left by any run whose stems do not collide. */
  lemma {:induction false} NoFaultyRun(hash: TrieStore.HashFunction, w: Witness, k: Bytes)
    requires k in w.chunks && |k| == 32 && Access(w, k).Err?
    ensures forall ops :: w == Run(hash, ops) ==> !Distinct(hash, Seen(ops))
  {
    hide Run, RunPlaces, Access, Seen, Distinct;
    forall ops | w == Run(hash, ops) ensures !Distinct(hash, Seen(ops)) {
      if Distinct(hash, Seen(ops)) {
        AccessesAreCommitted(hash, ops, k, Place([], BasicData));
      }
    }
  }

  lemma {:induction false} ListsAnyRun(hash: TrieStore.HashFunction, w: Witness, list: seq<Place>)
    requires |list| == |w.chunks|
    requires forall k :: k in w.chunks && |k| == 32 && Access(w, k).Ok? ==> Access(w, k).value in list
    ensures forall ops :: w == Run(hash, ops) && Distinct(hash, Seen(ops)) ==>
              multiset(list) == multiset(RunPlaces(ops).committed)
  {
    hide Run, RunPlaces, Access, Seen, Distinct;
    forall ops | w == Run(hash, ops) && Distinct(hash, Seen(ops))
      ensures multiset(list) == multiset(RunPlaces(ops).committed) {
      ListsCommitted(hash, ops, list);
    }
  }
}
