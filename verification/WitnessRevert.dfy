/** When a revert brings the access witness back, and when marks of writes outlive it. */
module WitnessReverts {
  import opened Base
  import opened SimpleStateManagers
  import opened WitnessModel
  import TrieStore

  /** What a run makes of a witness. */
  function RunFrom(hash: TrieStore.HashFunction, w: Witness, ops: seq<Op>): Witness {
    if ops == [] then w else Apply(hash, RunFrom(hash, w, ops[..|ops| - 1]), ops[|ops| - 1])
  }

  ghost predicate OnlyTouches(ops: seq<Op>) {
    forall i :: 0 <= i < |ops| ==> ops[i].TouchOp?
  }

  ghost predicate WritesStem(hash: TrieStore.HashFunction, ops: seq<Op>, k: Bytes) {
    exists i :: 0 <= i < |ops| && ops[i].TouchOp? && ops[i].isWrite && PlaceStem(hash, ops[i].place) == k
  }

  ghost predicate WritesChunk(hash: TrieStore.HashFunction, ops: seq<Op>, k: Bytes) {
    exists i :: 0 <= i < |ops| && ops[i].TouchOp? && ops[i].isWrite && PlaceKey(hash, ops[i].place) == k
  }

  /** New entries are kept apart from the committed ones. */
  ghost predicate Apart(w: Witness) {
    w.stemCache.Keys !! w.stems.Keys && w.chunkCache.Keys !! w.chunks.Keys
  }

  /** The committed stems after some touches are those from before, the written ones marked. */
  ghost predicate StemsMarked(hash: TrieStore.HashFunction, w: Witness, ops: seq<Op>, r: Witness) {
    && r.stemCache.Keys !! r.stems.Keys && r.stems.Keys == w.stems.Keys
    && forall k :: k in w.stems ==> r.stems[k] == MarkedStem(w.stems[k], WritesStem(hash, ops, k))
  }

  ghost predicate ChunksMarked(hash: TrieStore.HashFunction, w: Witness, ops: seq<Op>, r: Witness) {
    && r.chunkCache.Keys !! r.chunks.Keys && r.chunks.Keys == w.chunks.Keys
    && forall k :: k in w.chunks ==> r.chunks[k] == MarkedChunk(w.chunks[k], WritesChunk(hash, ops, k))
  }

  lemma {:induction false} NoMarks(hash: TrieStore.HashFunction, w: Witness)
    requires Apart(w)
    ensures StemsMarked(hash, w, [], w) && ChunksMarked(hash, w, [], w)
  {
  }

  lemma {:induction false} MarksOf(hash: TrieStore.HashFunction, w: Witness, ops: seq<Op>)
    requires Apart(w) && OnlyTouches(ops)
    ensures StemsMarked(hash, w, ops, RunFrom(hash, w, ops)) && ChunksMarked(hash, w, ops, RunFrom(hash, w, ops))
  {
    hide StemsMarked, ChunksMarked, Apply;
    if ops == [] {
      NoMarks(hash, w);
    } else {
      var front, op := ops[..|ops| - 1], ops[|ops| - 1];
      MarksOf(hash, w, front);
      var r := RunFrom(hash, w, front);
      MarkStem(hash, w, front, op, r);
      MarkChunk(hash, w, front, op, r);
      assert front + [op] == ops;
    }
  }

  /** Of the committed entries a touch changes at most its own. */
  lemma {:induction false} StemTouch(r: Witness, stem: Bytes, address: Address, treeIndex: nat, isWrite: bool)
    ensures var r' := TouchStem(r, stem, address, treeIndex, isWrite);
            && r'.chunks == r.chunks && r'.chunkCache == r.chunkCache
            && (r.stemCache.Keys !! r.stems.Keys ==>
                  && r'.stems.Keys == r.stems.Keys && r'.stemCache.Keys !! r'.stems.Keys
                  && forall k :: k in r.stems ==> r'.stems[k] == MarkedStem(r.stems[k], isWrite && k == stem))
  {
    var r' := TouchStem(r, stem, address, treeIndex, isWrite);
    if r.stemCache.Keys !! r.stems.Keys {
      assert stem in r.stemCache ==> stem !in r.stems;
      assert r'.stems.Keys == r.stems.Keys;
    }
  }

  lemma {:induction false} ChunkTouch(r: Witness, chunk: Bytes, isWrite: bool)
    ensures var r' := TouchChunk(r, chunk, isWrite);
            && r'.stems == r.stems && r'.stemCache == r.stemCache
            && (r.chunkCache.Keys !! r.chunks.Keys ==>
                  && r'.chunks.Keys == r.chunks.Keys && r'.chunkCache.Keys !! r'.chunks.Keys
                  && forall k :: k in r.chunks ==> r'.chunks[k] == MarkedChunk(r.chunks[k], isWrite && k == chunk))
  {
    var r' := TouchChunk(r, chunk, isWrite);
    if r.chunkCache.Keys !! r.chunks.Keys {
      assert chunk in r.chunkCache ==> chunk !in r.chunks;
      assert r'.chunks.Keys == r.chunks.Keys;
    }
  }

  lemma {:induction false} MarkStem(hash: TrieStore.HashFunction, w: Witness, ops: seq<Op>, op: Op, r: Witness)
    requires StemsMarked(hash, w, ops, r) && op.TouchOp?
    ensures StemsMarked(hash, w, ops + [op], Apply(hash, r, op))
  {
    hide StemKey, IndicesOf, WritesStem, PlaceStem, PlaceKey, TouchStem, TouchChunk, Apply;
    TouchIsBoth(hash, r, op);
    var r' := Apply(hash, r, op);
    var stem, treeIndex := PlaceStem(hash, op.place), IndicesOf(op.place.location).treeIndex;
    StemTouch(r, stem, op.place.address, treeIndex, op.isWrite);
    ChunkTouch(TouchStem(r, stem, op.place.address, treeIndex, op.isWrite), PlaceKey(hash, op.place), op.isWrite);
    forall k | k in w.stems ensures r'.stems[k] == MarkedStem(w.stems[k], WritesStem(hash, ops + [op], k)) {
      OneMore(hash, ops, op, k);
    }
  }

  lemma {:induction false} MarkChunk(hash: TrieStore.HashFunction, w: Witness, ops: seq<Op>, op: Op, r: Witness)
    requires ChunksMarked(hash, w, ops, r) && op.TouchOp?
    ensures ChunksMarked(hash, w, ops + [op], Apply(hash, r, op))
  {
    hide StemKey, IndicesOf, WritesChunk, PlaceStem, PlaceKey, TouchStem, TouchChunk, Apply;
    TouchIsBoth(hash, r, op);
    var r' := Apply(hash, r, op);
    var stem, treeIndex := PlaceStem(hash, op.place), IndicesOf(op.place.location).treeIndex;
    StemTouch(r, stem, op.place.address, treeIndex, op.isWrite);
    ChunkTouch(TouchStem(r, stem, op.place.address, treeIndex, op.isWrite), PlaceKey(hash, op.place), op.isWrite);
    forall k | k in w.chunks ensures r'.chunks[k] == MarkedChunk(w.chunks[k], WritesChunk(hash, ops + [op], k)) {
      OneMore(hash, ops, op, k);
    }
  }

  lemma {:induction false} TouchIsBoth(hash: TrieStore.HashFunction, r: Witness, op: Op)
    requires op.TouchOp?
    ensures var i := IndicesOf(op.place.location);
            Apply(hash, r, op) ==
            TouchChunk(TouchStem(r, PlaceStem(hash, op.place), op.place.address, i.treeIndex, op.isWrite),
                       PlaceKey(hash, op.place), op.isWrite)
  {
    hide TouchChunk, TouchStem, StemKey, IndicesOf;
  }

  lemma {:induction false} OneMore(hash: TrieStore.HashFunction, ops: seq<Op>, op: Op, k: Bytes)
    requires op.TouchOp?
    ensures WritesStem(hash, ops + [op], k) <==>
            WritesStem(hash, ops, k) || (op.isWrite && k == PlaceStem(hash, op.place))
    ensures WritesChunk(hash, ops + [op], k) <==>
            WritesChunk(hash, ops, k) || (op.isWrite && k == PlaceKey(hash, op.place))
  {
    hide PlaceStem, PlaceKey;
    var all := ops + [op];
    assert all[|ops|] == op && forall i :: 0 <= i < |ops| ==> all[i] == ops[i];
  }

  /** A write to the place leaves no new mark on what is committed. */
  ghost predicate LeavesNoMark(hash: TrieStore.HashFunction, w: Witness, p: Place) {
    && (PlaceStem(hash, p) in w.stems ==> w.stems[PlaceStem(hash, p)].write)
    && (PlaceKey(hash, p) in w.chunks ==> w.chunks[PlaceKey(hash, p)].write)
  }

  lemma {:induction false} MarkShows(hash: TrieStore.HashFunction, w: Witness, ops: seq<Op>, r: Witness, p: Place)
    requires StemsMarked(hash, w, ops, r) && ChunksMarked(hash, w, ops, r)
    requires TouchOp(p, true) in ops && !LeavesNoMark(hash, w, p)
    ensures r.stems != w.stems || r.chunks != w.chunks
  {
    hide PlaceStem, PlaceKey;
    var stem, chunk := PlaceStem(hash, p), PlaceKey(hash, p);
    assert WritesStem(hash, ops, stem) && WritesChunk(hash, ops, chunk);
    if stem in w.stems && !w.stems[stem].write {
      assert r.stems[stem].write;
    } else {
      assert r.chunks[chunk].write;
    }
  }

  lemma {:induction false} NoMarkShows(hash: TrieStore.HashFunction, w: Witness, ops: seq<Op>, r: Witness)
    requires StemsMarked(hash, w, ops, r) && ChunksMarked(hash, w, ops, r)
    requires forall p :: TouchOp(p, true) in ops ==> LeavesNoMark(hash, w, p)
    ensures r.stems == w.stems && r.chunks == w.chunks
  {
    hide PlaceStem, PlaceKey;
    forall k | k in w.stems ensures r.stems[k] == w.stems[k] {
      if i :| 0 <= i < |ops| && ops[i].TouchOp? && ops[i].isWrite && PlaceStem(hash, ops[i].place) == k {
        assert ops[i] == TouchOp(ops[i].place, true);
      }
    }
    forall k | k in w.chunks ensures r.chunks[k] == w.chunks[k] {
      if i :| 0 <= i < |ops| && ops[i].TouchOp? && ops[i].isWrite && PlaceKey(hash, ops[i].place) == k {
        assert ops[i] == TouchOp(ops[i].place, true);
      }
    }
  }

  /**
    * A revert undoes any run of touches exactly when each of its writes goes to a stem and a chunk that
    * are not committed or were already written when they were committed.
    */
  lemma {:induction false} RevertRestores(hash: TrieStore.HashFunction, w: Witness, ops: seq<Op>)
    requires Apart(w) && OnlyTouches(ops)
    ensures Revert(RunFrom(hash, w, ops)) == Revert(w) <==>
            forall p :: TouchOp(p, true) in ops ==> LeavesNoMark(hash, w, p)
  {
    hide PlaceStem, PlaceKey, RunFrom, StemsMarked, ChunksMarked, LeavesNoMark;
    MarksOf(hash, w, ops);
    if p :| TouchOp(p, true) in ops && !LeavesNoMark(hash, w, p) {
      MarkShows(hash, w, ops, RunFrom(hash, w, ops), p);
    } else {
      NoMarkShows(hash, w, ops, RunFrom(hash, w, ops));
    }
  }

  lemma {:induction false} RunIsApart(hash: TrieStore.HashFunction, ops: seq<Op>)
    ensures Apart(Run(hash, ops))
  {
    if ops != [] {
      hide TouchStem, TouchChunk, StemKey, IndicesOf, PlaceStem, PlaceKey;
      var front, op := ops[..|ops| - 1], ops[|ops| - 1];
      RunIsApart(hash, front);
      if op.TouchOp? {
        var r, stem, treeIndex := Run(hash, front), PlaceStem(hash, op.place), IndicesOf(op.place.location).treeIndex;
        TouchIsBoth(hash, r, op);
        StemTouch(r, stem, op.place.address, treeIndex, op.isWrite);
        ChunkTouch(TouchStem(r, stem, op.place.address, treeIndex, op.isWrite), PlaceKey(hash, op.place), op.isWrite);
      }
    }
  }

  lemma {:induction false} RunInParts(hash: TrieStore.HashFunction, before: seq<Op>, ops: seq<Op>)
    ensures Run(hash, before + ops) == RunFrom(hash, Run(hash, before), ops)
  {
    hide Apply;
    if ops == [] {
      assert before + ops == before;
    } else {
      RunInParts(hash, before, ops[..|ops| - 1]);
      assert (before + ops)[..|before + ops| - 1] == before + ops[..|ops| - 1];
    }
  }

  /** The same for the touches that follow any run, up to the revert. */
  lemma {:induction false} RevertAfterRun(hash: TrieStore.HashFunction, before: seq<Op>, ops: seq<Op>)
    requires OnlyTouches(ops)
    ensures Revert(Run(hash, before + ops)) == Revert(Run(hash, before)) <==>
            forall p :: TouchOp(p, true) in ops ==> LeavesNoMark(hash, Run(hash, before), p)
  {
    hide Run, RunFrom, LeavesNoMark, OnlyTouches;
    RunIsApart(hash, before);
    RunInParts(hash, before, ops);
    RevertRestores(hash, Run(hash, before), ops);
  }

  /** A place is read and committed, then written: after the revert it counts as written. */
  lemma {:induction false} MarkOutlivesRevert(hash: TrieStore.HashFunction, p: Place)
    ensures var read := [TouchOp(p, false), CommitOp];
            var reverted := read + [TouchOp(p, true), RevertOp];
            && PlaceKey(hash, p) in Run(hash, read).chunks && !Run(hash, read).chunks[PlaceKey(hash, p)].write
            && PlaceKey(hash, p) in Run(hash, reverted).chunks && Run(hash, reverted).chunks[PlaceKey(hash, p)].write
  {
    hide StemKey, IndicesOf, Run;
    var read := [TouchOp(p, false), CommitOp];
    RunOfFour(hash, TouchOp(p, false), CommitOp, TouchOp(p, true), RevertOp);
    assert read + [TouchOp(p, true), RevertOp] == [TouchOp(p, false), CommitOp, TouchOp(p, true), RevertOp];
  }

  lemma {:induction false} RunOfFour(hash: TrieStore.HashFunction, a: Op, b: Op, c: Op, d: Op)
    ensures Run(hash, [a, b]) == Apply(hash, Apply(hash, Nothing(), a), b)
    ensures Run(hash, [a, b, c, d]) == Apply(hash, Apply(hash, Run(hash, [a, b]), c), d)
  {
    hide Apply;
    assert [a, b, c, d][..3] == [a, b, c] && [a, b, c][..2] == [a, b] && [a, b][..1] == [a] && [a][..0] == [];
    assert Run(hash, []) == Nothing();
    assert Run(hash, [a]) == Apply(hash, Nothing(), a);
  }
}
