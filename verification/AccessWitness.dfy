/** The access witness, changed in place as code runs. */
module AccessWitnesses {
  import opened Base
  import opened SimpleStateManagers
  import TrieStore
  import W = WitnessModel

  datatype AccessEventFlags =
    AccessEventFlags(stemRead: bool, stemWrite: bool, chunkRead: bool, chunkWrite: bool, chunkFill: bool)

  const CHUNK_FILL_COST: nat := 6200

  class BinaryTreeAccessWitness {
    const hash: TrieStore.HashFunction
    var stems: map<Bytes, W.Stem>
    var chunks: map<Bytes, W.Chunk>
    var stemCache: map<Bytes, W.Stem>
    var chunkCache: map<Bytes, W.Chunk>

    ghost function State(): W.Witness
      reads this
    {
      W.Witness(stems, chunks, stemCache, chunkCache)
    }

    constructor (hash: TrieStore.HashFunction)
      ensures this.hash == hash && State() == W.Nothing()
    {
      this.hash := hash;
      stems, chunks, stemCache, chunkCache := map[], map[], map[], map[];
    }

    /** Look a stem up in the cache, then among the committed; a new one goes to the cache, a known one is marked. */
    method TouchStem(key: Bytes, address: Address, treeIndex: nat, isWrite: bool) returns (read: bool, written: bool)
      modifies this`stems, this`stemCache
      ensures State() == W.TouchStem(old(State()), key, address, treeIndex, isWrite)
      ensures var all := W.AllStems(old(State()));
              && (read <==> key !in all)
              && (written <==> isWrite && !(key in all && all[key].write))
    {
      read, written := false, false;
      if key !in stemCache && key !in stems {
        read := true;
        stemCache := stemCache[key := W.Stem(address, treeIndex, false)];
      }
      if isWrite {
        if key in stemCache {
          written := !stemCache[key].write;
          stemCache := stemCache[key := stemCache[key].(write := true)];
        } else {
          written := !stems[key].write;
          stems := stems[key := stems[key].(write := true)];
        }
      }
    }

    method TouchChunk(key: Bytes, isWrite: bool) returns (read: bool, written: bool)
      modifies this`chunks, this`chunkCache
      ensures State() == W.TouchChunk(old(State()), key, isWrite)
      ensures var all := W.AllChunks(old(State()));
              && (read <==> key !in all)
              && (written <==> isWrite && !(key in all && all[key].write))
    {
      read, written := false, false;
      if key !in chunkCache && key !in chunks {
        read := true;
        chunkCache := chunkCache[key := W.Chunk(false)];
      }
      if isWrite {
        if key in chunkCache {
          written := !chunkCache[key].write;
          chunkCache := chunkCache[key := chunkCache[key].(write := true)];
        } else {
          written := !chunks[key].write;
          chunks := chunks[key := chunks[key].(write := true)];
        }
      }
    }

    method TouchAddress(address: Address, i: W.Indices, isWrite: bool) returns (flags: AccessEventFlags)
      modifies this
      ensures State() == W.Touch(hash, old(State()), address, i, isWrite)
      ensures GasOf(flags) == W.Gas(hash, old(State()), address, i, isWrite)
    {
      var stemKey := W.StemKey(hash, address, i.treeIndex);
      var stemRead, stemWrite := TouchStem(stemKey, address, i.treeIndex, isWrite);
      var chunkRead, chunkWrite := TouchChunk(stemKey + [i.subIndex], isWrite);
      flags := AccessEventFlags(stemRead, stemWrite, chunkRead, chunkWrite, false);
    }

    static function GasOf(flags: AccessEventFlags): nat {
      (if flags.stemRead then W.BRANCH_READ_COST else 0) +
      (if flags.stemWrite then W.BRANCH_WRITE_COST else 0) +
      (if flags.chunkRead then W.CHUNK_READ_COST else 0) +
      (if flags.chunkWrite then W.CHUNK_WRITE_COST else 0) +
      (if flags.chunkFill then CHUNK_FILL_COST else 0)
    }

    method TouchAddressAndComputeGas(address: Address, i: W.Indices, isWrite: bool) returns (gas: nat)
      modifies this
      ensures State() == W.Touch(hash, old(State()), address, i, isWrite)
      ensures gas == W.Gas(hash, old(State()), address, i, isWrite)
    {
      gas := 0;
      var flags := TouchAddress(address, i, isWrite);
      if flags.stemRead {
        gas := gas + W.BRANCH_READ_COST;
      }
      if flags.stemWrite {
        gas := gas + W.BRANCH_WRITE_COST;
      }
      if flags.chunkRead {
        gas := gas + W.CHUNK_READ_COST;
      }
      if flags.chunkWrite {
        gas := gas + W.CHUNK_WRITE_COST;
      }
      if flags.chunkFill {
        gas := gas + CHUNK_FILL_COST;
      }
    }

    /** Reading and writing the account data, the code hash and a storage slot each touch one place. */
    method TouchPlace(p: W.Place, isWrite: bool) returns (gas: nat)
      requires !p.location.Code?
      modifies this
      ensures State() == W.Apply(hash, old(State()), W.TouchOp(p, isWrite))
      ensures gas == W.Gas(hash, old(State()), p.address, W.IndicesOf(p.location), isWrite)
    {
      match p.location {
        case BasicData => gas := TouchAddressAndComputeGas(p.address, W.Indices(0, 0), isWrite);
        case CodeHash => gas := TouchAddressAndComputeGas(p.address, W.Indices(0, 1), isWrite);
        case Storage(slot) => gas := TouchAddressAndComputeGas(p.address, W.IndicesForStorageSlot(slot), isWrite);
      }
    }

    /** The operations that touching a range of code comes to, chunk by chunk. */
    static function CodeOps(contract: Address, from: nat, to: nat, isWrite: bool): (ops: seq<W.Op>)
      decreases to - from
      ensures |ops| == if from < to then to - from else 0
      ensures forall i :: 0 <= i < |ops| ==> ops[i] == W.TouchOp(W.Place(contract, W.Code(31 * (from + i))), isWrite)
    {
      if from >= to then []
      else
        CodeOps(contract, from, to - 1, isWrite) + [W.TouchOp(W.Place(contract, W.Code(31 * (to - 1))), isWrite)]
    }

    /** One chunk more, after the given operations. */
    method TouchOneChunk(contract: Address, chunkNum: nat, isWrite: bool, ghost ops: seq<W.Op>) returns (gas: nat)
      requires State() == W.Run(hash, ops)
      modifies this
      ensures var all := ops + [W.TouchOp(W.Place(contract, W.Code(31 * chunkNum)), isWrite)];
              State() == W.Run(hash, all) && gas == W.TotalGas(hash, all) - W.TotalGas(hash, ops)
    {
      hide W.Touch, W.Gas, W.Run, W.TotalGas;
      gas := TouchAddressAndComputeGas(contract, W.IndicesForCodeChunk(chunkNum), isWrite);
      W.NextOp(hash, ops, W.TouchOp(W.Place(contract, W.Code(31 * chunkNum)), isWrite));
      W.ChunkIndices(chunkNum);
    }

    /** readAccountCodeChunks and writeAccountCodeChunks: every chunk from that of startPc to that of endPc. */
    method TouchCodeChunks(contract: Address, startPc: nat, endPc: nat, isWrite: bool, ghost ops: seq<W.Op>)
      returns (gas: nat)
      requires State() == W.Run(hash, ops)
      modifies this
      ensures var all := ops + CodeOps(contract, startPc / 31, endPc / 31 + 1, isWrite);
              && State() == W.Run(hash, all)
              && gas == W.TotalGas(hash, all) - W.TotalGas(hash, ops)
    {
      hide W.Run, W.TotalGas, State;
      gas := 0;
      var first, last := startPc / 31, endPc / 31;
      var chunkNum := first;
      ghost var all := ops;
      assert ops + CodeOps(contract, first, first, isWrite) == ops;
      while chunkNum <= last
        invariant first <= chunkNum && (chunkNum == first || chunkNum <= last + 1)
        invariant all == ops + CodeOps(contract, first, chunkNum, isWrite)
        invariant State() == W.Run(hash, all) && gas == W.TotalGas(hash, all) - W.TotalGas(hash, ops)
      {
        var more := TouchOneChunk(contract, chunkNum, isWrite, all);
        all := all + [W.TouchOp(W.Place(contract, W.Code(31 * chunkNum)), isWrite)];
        gas := gas + more;
        chunkNum := chunkNum + 1;
      }
    }

    method Commit()
      modifies this
      ensures State() == W.Commit(old(State()))
      ensures stems == old(stems) + old(stemCache) && chunks == old(chunks) + old(chunkCache)
      ensures stemCache == map[] && chunkCache == map[]
    {
      stems := stems + stemCache;
      stemCache := map[];
      chunks := chunks + chunkCache;
      chunkCache := map[];
    }

    method Revert()
      modifies this
      ensures State() == W.Revert(old(State()))
      ensures stems == old(stems) && chunks == old(chunks) && stemCache == map[] && chunkCache == map[]
    {
      stemCache := map[];
      chunkCache := map[];
    }

    /**
      * All committed accesses, or the error that stopped the listing. After any run whose stems do not
      * collide there is no error, and each committed place is listed once.
      */
    method Accesses() returns (r: Result<seq<W.Place>, W.WitnessError>)
      requires forall k :: k in chunks ==> |k| == 32
      ensures r.Ok? <==> forall k :: k in chunks ==> W.Access(State(), k).Ok?
      ensures r.Ok? ==> forall p :: p in r.value <==> exists k :: k in chunks && W.Access(State(), k) == Ok(p)
      ensures r.Ok? ==> |r.value| == |chunks|
      ensures forall ops :: State() == W.Run(hash, ops) && W.Distinct(hash, W.Seen(ops)) ==>
                r.Ok? && multiset(r.value) == multiset(W.RunPlaces(ops).committed)
    {
      hide W.Decode, W.Run, W.RunPlaces, W.Seen, W.Distinct;
      var keys := chunks.Keys;
      var list: seq<W.Place> := [];
      while keys != {}
        invariant keys <= chunks.Keys && |list| + |keys| == |chunks.Keys|
        invariant forall k :: k in chunks && k !in keys ==>
                    W.Access(State(), k).Ok? && W.Access(State(), k).value in list
        invariant forall p :: p in list ==> exists k :: k in chunks && W.Access(State(), k) == Ok(p)
        decreases |keys|
      {
        var chunkKey :| chunkKey in keys;
        var stemKey := chunkKey[..31];
        if stemKey !in stems {
          W.NoFaultyRun(hash, State(), chunkKey);
          return Err(W.MissingStem);
        }
        var stem := stems[stemKey];
        var decoded := W.Decode(W.Indices(stem.treeIndex, chunkKey[31]));
        if decoded.Err? {
          W.NoFaultyRun(hash, State(), chunkKey);
          return Err(decoded.error);
        }
        assert W.Access(State(), chunkKey) == Ok(W.Place(stem.address, decoded.value));
        list := list + [W.Place(stem.address, decoded.value)];
        keys := keys - {chunkKey};
      }
      W.ListsAnyRun(hash, State(), list);
      r := Ok(list);
    }

    /** debugWitnessCost: the four totals over the committed maps. */
    method DebugWitnessCost() returns (stemReads: nat, stemWrites: nat, chunkReads: nat, chunkWrites: nat)
      ensures stemReads == 1900 * |stems| && stemWrites == 3000 * |set k | k in stems && stems[k].write|
      ensures chunkReads == 200 * |chunks| && chunkWrites == 500 * |set k | k in chunks && chunks[k].write|
      ensures stemReads + stemWrites + chunkReads + chunkWrites == W.Cost(stems, chunks)
    {
      var s := CountStems();
      var c := CountChunks();
      stemReads, stemWrites := |stems| * W.BRANCH_READ_COST, s * W.BRANCH_WRITE_COST;
      chunkReads, chunkWrites := |chunks| * W.CHUNK_READ_COST, c * W.CHUNK_WRITE_COST;
    }

    method CountStems() returns (writes: nat)
      ensures writes == |W.WrittenStems(stems)|
    {
      writes := 0;
      var keys := stems.Keys;
      ghost var done: set<Bytes> := {};
      while keys != {}
        invariant keys <= stems.Keys && done == (set k | k in stems && stems[k].write && k !in keys) && writes == |done|
        decreases |keys|
      {
        var k :| k in keys;
        if stems[k].write {
          writes := writes + 1;
          done := done + {k};
        }
        keys := keys - {k};
      }
      assert done == W.WrittenStems(stems);
    }

    method CountChunks() returns (writes: nat)
      ensures writes == |W.WrittenChunks(chunks)|
    {
      writes := 0;
      var keys := chunks.Keys;
      ghost var done: set<Bytes> := {};
      while keys != {}
        invariant keys <= chunks.Keys && done == (set k | k in chunks && chunks[k].write && k !in keys) &&
                  writes == |done|
        decreases |keys|
      {
        var k :| k in keys;
        if chunks[k].write {
          writes := writes + 1;
          done := done + {k};
        }
        keys := keys - {k};
      }
      assert done == W.WrittenChunks(chunks);
    }
  }
}
