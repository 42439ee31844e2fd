# A model of ts-ethereum's state, trie and accounting cores

ts-ethereum is an Ethereum execution client. This project models, in Dafny, the parts of it whose
correctness depends on the interplay of many steps, and proves what those parts are for:

- **Merkle Patricia trie** (Appendix D of the Ethereum Yellow Paper). `TrieModel`, `TrieDelete` and
  `TrieUnique` are the tree a root denotes, with put, del and the finite map they refine. `TrieNode` and
  `TrieStore` are the nodes, their RLP form and the hash-addressed store. `TrieSpine` is the path from
  the root to a node, `TrieSteps` what one step of a put, a del or a save does to it, and `Trie` the class
  with its walk, splits, collapses and the bottom-up saving of the stack. `TrieRoots` and
  `TransactionsTrie` say what a root determines.
- **RLP** (Appendix B of the Yellow Paper). `Rlp` is the format, `RlpCodec` the loops over buffers and
  hexadecimal digits that compute it.
- **Kademlia routing table.** `XorMetric`, `KBucketModel` and `NearestContacts` are distance, buckets and
  the walk; `KBucket` is the tree of nodes changed in place, and `RoutingTable` the index over it.
- **Checkpoints.** `CopyStack` is a stack of full copies. `SimpleStateManager` keeps such copies, `UndoLog`
  with `TransientStorage` undoes a log that means such a stack, and `JournalModel` with `Journal` undoes
  diffs tagged with heights. These mean a stack of snapshots, whose warm sets are such copies too
  (`JournalModel.WarmMeansCopies`); touched accounts differ, because RIPEMD-160 survives a revert.
- **Ether and gas.** `EvmModel` says what nested frames do to the accounts without mentioning checkpoints;
  `Evm` runs them with checkpoints, late credits and a cached account. `RunTx` charges, settles and pays
  out one transaction.
- **Binary tree** (EIP-7864). `BinaryTreeCode` is chunked code against the scan of the whole code;
  `WitnessModel` with `AccessWitness` the gas and meaning of touched positions, and `WitnessRevert` what a
  revert undoes.
- **Blob gas price** (EIP-4844). `FakeExponential`.

A class changes its fields in place as the source does, and each of its methods says which function of
the old state the new state is; the theorems are about those functions and about runs of them. What the
functions themselves compute is stated without them as well, byte by byte, bit by bit or account by account:
the lemmas whose names end in `Form`, and those beside them, such as `EvmModel.TransferMoves`,
`RunTxs.LeastGasSpent`, `FakeExponentials.AboveTaylorSum` and `TrieStore.LeafExample`. Every lemma spells
out its own induction.

## What turned out different from what the names and comments say

- A branch node ignores `value(null)` (packages/merkel-trie/src/node/branch.ts:24-30), so deleting a key whose
  value sits on a branch leaves the value. The collapse test counts children only, so a branch with a
  value and one child loses its value, and a branch with a value whose only child is deleted stays, where
  the map alone would have a leaf (`TrieDelete.DeleteLeavesBranch`: 12 and 1234, delete 1234).
  `TrieDelete.DeleteIsExact` states for every tree, canonical or not, exactly when the map left is right,
  `TrieDelete.DeleteIsCanonical` and `TrieRoots.RootOfDelete` exactly when the tree and the root of a
  canonical tree are too. With hashed keys they always are.
- Bits past the end of an identifier count as 0, so identifiers of different lengths can agree at every
  depth. `KBucket.add` splits without end exactly if its contact is new, agrees with the local id at every
  depth, and so do k stored contacts (`KBucketModel.SplitsForever`; local id 00, k = 1, 0000 and then 000000:
  `KBucketModel.TwinsAreStuck`). With ids as long as the local one that never happens
  (`KBucketModel.OneLengthNeverStuck`).
- With stored ids of different lengths `KBucket.closest` may stop before it has met a nearer contact
  (`NearestContacts.MixedLengths`). With ids of one length it never does, whatever the length of the target.
- `TransientStorage.clear` leaves the index stack as it is, so a checkpoint open across a clear no longer
  reverts what came after (`UndoLog.WriteOutlivesRevert`, `UndoLog.ClearMeans`). The clear that the
  outermost message of a transaction makes never meets that case (`UndoLog.OutermostMessage`).
- An outermost creation by a sender who cannot afford its value throws with the nonce spent and the
  checkpoint open (`Evms.EVM.RunCall`). A creation started by code never does.
- The question in the comment of `Journal.revert` about heights such as 4, 3, 4 has an answer: the two
  entries that stay belong to the enclosing frame, and exactly the entries since the checkpoint are undone
  (`JournalModel.RevertRestores`).
- With EIP-7702 active a sender with code is never rejected, although the comment in
  packages/vm/src/runTx.ts:446-451 says that one without a delegation is. The model follows the code.
- Marks that a write leaves on committed witness entries survive a revert
  (`WitnessReverts.MarkOutlivesRevert`); `WitnessReverts.RevertAfterRun` says exactly when a revert
  restores the witness.

## Assumptions

- A hash is any function to 32 bytes. Where a result needs it, the lemma or method requires that the
  encodings it names do not collide with one another or with the encoding of the empty string.
- Trie keys and values stay below 2^53 in length, and RLP lengths below 2^64.
- Bytecode is not interpreted. A frame is given by the calls, creations and the ending it comes to, with a
  continuation for either answer of each call; execution gas and refund are parameters, within the limit.
- The upfront cost of a transaction is gas limit times gas price plus value, and the effective priority fee
  is the smaller of the priority fee and what the highest fee leaves above the base fee. Intrinsic gas is a
  parameter.
- Accounts are values: the model reads and writes them, and no two holders share one. In the source the
  account that `_reduceSenderBalance` debits is the stored object. Where the debit throws out of `runCall`,
  the copy at the checkpoint left open holds the negative balance, and the model the balance before.

## Model

| member | source | states |
|---|---|---|
| `TrieModel.LookupInsert` | packages/merkel-trie/src/mpt.ts:618-720 | put changes the value at exactly its key, for keys of any lengths, one a prefix of another included |
| `TrieModel.CanonicalInsert` | packages/merkel-trie/src/mpt.ts:656-717 | put keeps a tree canonical: no extension above an extension or leaf, no needless branch, no empty extension key, no empty value |
| `TrieModel.ShapedInsert` | packages/merkel-trie/src/mpt.ts:656-717 | put keeps the shape that the walk relies on, canonical or not |
| `TrieModel.UniformInsert` | packages/merkel-trie/src/mpt.ts:656-717 | put keeps all keys at one length |
| `TrieDelete.LookupRemove` | packages/merkel-trie/src/mpt.ts:806-869 | through every collapse case del takes away its key and leaves every other key as it was, where the guard condition allows it, on trees that are canonical or not |
| `TrieDelete.WrongRemoval` | packages/merkel-trie/src/mpt.ts:806-829 | where the guard condition fails some key reads wrongly afterwards, and the lemma names it, on trees that are canonical or not |
| `TrieDelete.DeleteIsExact` | packages/merkel-trie/src/mpt.ts:726-870 | on every tree a run can reach, del leaves the map without its key if and only if its path ends neither at a branch that keeps its value, nor at a leaf whose parent has a value and would be left with one child, nor at a root branch that holds other keys |
| `TrieDelete.DeleteKeepsBranchValue` | packages/merkel-trie/src/node/branch.ts:24-30 | the concrete failure: with values at 12, 1234 and 1256, deleting 12 leaves its value, because a null passed to value() is ignored |
| `TrieDelete.RemoveCanonical` | packages/merkel-trie/src/mpt.ts:806-869 | a removal at any depth of a canonical tree leaves a canonical tree if and only if, where its path ends at a leaf below a branch, another child stays beside it |
| `TrieDelete.DeleteIsCanonical` | packages/merkel-trie/src/mpt.ts:726-870 | del leaves the map without its key in its one canonical tree if and only if both conditions hold |
| `TrieDelete.DeleteLeavesBranch` | packages/merkel-trie/src/mpt.ts:825-869 | the concrete failure: with values at 12 and 1234, deleting 1234 gives the map of one value at 12 but leaves an extension above a branch without children |
| `TrieDelete.DeleteUniform` | packages/merkel-trie/src/mpt.ts:1127-1132 | for keys of one non-zero length, as hashed keys are, del is always exact and leaves a canonical tree with keys of that length |
| `TrieDelete.RemoveUniform` | packages/merkel-trie/src/mpt.ts:806-869 | the same for a removal at any depth, with no parent, a branch or an extension above and any kind of child left over |
| `TrieUnique.Unique` | packages/merkel-trie/src/mpt.ts:618-915 | two canonical trees with the same map are the same tree |
| `TrieUnique.RunDenotesMap` | packages/merkel-trie/src/mpt.ts:239-347 | a run of put and del, with keys of any lengths, denotes the finite map it describes after every step if and only if each deletion meets a tree that meets the guard condition at its key, canonical or not |
| `TrieUnique.RunRefinesMap` | packages/merkel-trie/src/mpt.ts:239-347 | a run of put and del, with keys of any lengths, has the canonical tree of the finite map it describes after every step if and only if each deletion meets a tree that meets both conditions at its key |
| `TrieUnique.PutsAreAdmissible` | packages/merkel-trie/src/mpt.ts:239-304 | runs that never delete are such runs, for keys of any lengths, one a prefix of another included |
| `TrieUnique.UniformIsAdmissible` | packages/merkel-trie/src/mpt.ts:1127-1132 | runs over keys of one non-zero length, as hashed keys are, are such runs whatever they delete |
| `TrieUnique.HistoryIndependence` | packages/merkel-trie/src/mpt.ts:239-347 | two such runs reach the same tree if and only if they describe the same map, whatever their order, key lengths and detours |
| `TrieRoots.RootIsMap` | packages/merkel-trie/src/mpt.ts:926-959 | canonical trees have equal roots if and only if they have equal maps, when none of their encodings collide |
| `TrieRoots.RootOfDelete` | packages/merkel-trie/src/mpt.ts:726-870 | on every canonical tree del leaves the root of the map without its key if and only if both conditions hold |
| `TrieRoots.RootForgetsHistory` | packages/merkel-trie/src/mpt.ts:239-347 | two runs whose deletions each meet both conditions reach the same root if and only if they describe the same map |
| `TrieNode.HexPrefixRoundTrip` | packages/merkel-trie/src/util/hex.ts:8-47 | removing the hex prefix gives back the key, and the flag says whether it was a leaf |
| `TrieNode.HexPrefixForm` | packages/merkel-trie/src/util/hex.ts:8-22 | what the prefix is: its first nibble is 2 for a leaf and 0 for an extension, one more for a key of odd length, and a zero nibble follows it for a key of even length, then the key |
| `TrieNode.EncodedKeyForm` | packages/merkel-trie/src/node/extensionOrLeafNodeBase.ts:45-51 | the path of a serialized node byte by byte: 16 times flag and parity, plus the first nibble of an odd key, then two nibbles a byte |
| `TrieNode.DecodeOfSerialize` | packages/merkel-trie/src/node/util.ts:13-39 | decoding the serialization of a node gives back the node, for leaf, extension and branch |
| `TrieNode.DecodeOfRaw` | packages/merkel-trie/src/node/util.ts:13-25 | decoding the raw form gives back the node |
| `TrieNode.SerializeInjective` | packages/merkel-trie/src/node/extensionOrLeafNodeBase.ts:45-51 | different nodes have different serializations |
| `TrieStore.FollowReference` | packages/merkel-trie/src/mpt.ts:582-608 | a child is reached through its reference whether it is inlined below 32 bytes or stored under its hash |
| `TrieStore.EncodingForm` | packages/merkel-trie/src/mpt.ts:926-959 | a node is stored as the RLP list of its path and its value or child, or of its sixteen children and its value |
| `TrieStore.ReferenceForm` | packages/merkel-trie/src/mpt.ts:926-959 | a child shorter than 32 bytes is referred to by itself and any other by its hash, the root always by its hash, that of an empty trie by the hash of 80 |
| `TrieStore.LeafExample` | packages/merkel-trie/src/mpt.ts:563-577 | a value 61 under the nibbles 1 and 2 alone has the root that is the hash of c4 82 20 12 61 |
| `TrieStore.FollowRoot` | packages/merkel-trie/src/mpt.ts:582-608 | the root hash of a stored tree leads to the node of that tree |
| `TrieStore.RootedGrows` | packages/merkel-trie/src/mpt.ts:926-955 | a tree stored once stays fully readable while the store only grows |
| `TrieStore.EncodingInjective` | packages/merkel-trie/src/mpt.ts:926-959 | equal encodings mean equal trees, inlined and hashed children mixed |
| `TrieStore.RootInjective` | packages/merkel-trie/src/mpt.ts:879-915 | equal roots mean equal trees, and the empty trie's root is no other tree's |
| `TrieStore.NodeFits` | packages/merkel-trie/src/mpt.ts:926-933 | every node of a bounded tree stays within the lengths RLP can encode |
| `TrieSpine.FoundValue` | packages/merkel-trie/src/mpt.ts:212-229 | the node the walk ends at holds the looked-up value exactly when nothing of the key remains |
| `TrieSpine.InsertBelow` | packages/merkel-trie/src/mpt.ts:879-915 | inserting at the end of a path and rebuilding the nodes above is inserting in the whole tree |
| `TrieSpine.RemoveBelow` | packages/merkel-trie/src/mpt.ts:879-915 | removing at the end of a path and rebuilding the nodes above is removing in the whole tree |
| `Trie.MerklePatriciaTrie.constructor` | packages/merkel-trie/src/mpt.ts:93-147 | a new trie is valid, empty and without collisions |
| `Trie.MerklePatriciaTrie.Lookup` | packages/merkel-trie/src/mpt.ts:582-608 | follows a raw node or a hash, and reports missing nodes and bad encodings |
| `Trie.MerklePatriciaTrie.MatchNibbles` | packages/merkel-trie/src/mpt.ts:425-435 | a node key matches exactly when it is a prefix of what is left of the target |
| `Trie.MerklePatriciaTrie.OnFound` | packages/merkel-trie/src/mpt.ts:379-470 | at each node the walk stops where the model's path ends, or goes on to the one child on the path |
| `Trie.MerklePatriciaTrie.FindPath` | packages/merkel-trie/src/mpt.ts:355-511 | the node, the rest of the key and the stack are those of the model's path through the current tree |
| `Trie.MerklePatriciaTrie.FormatNode` | packages/merkel-trie/src/mpt.ts:926-959 | inlines below 32 bytes except at the top, otherwise queues the encoding under its hash |
| `Trie.MerklePatriciaTrie.SaveStack` | packages/merkel-trie/src/mpt.ts:879-915 | rebuilding a stack bottom-up stores the whole tree the stack stands for and sets its root, in the form that EncodingForm and EncodedKeyForm give to the bytes |
| `Trie.MerklePatriciaTrie.MatchingNibbleLength` | packages/merkel-trie/src/util/nibbles.ts:74-80 | the length of the longest common prefix |
| `Trie.MerklePatriciaTrie.CreateInitialNode` | packages/merkel-trie/src/mpt.ts:563-577 | the first put stores a tree of one leaf |
| `Trie.MerklePatriciaTrie.SplitNode` | packages/merkel-trie/src/mpt.ts:671-717 | splitting a leaf or an extension leaves a stack that stands for the tree with the key inserted |
| `Trie.MerklePatriciaTrie.UpdateNode` | packages/merkel-trie/src/mpt.ts:618-720 | after every case of an update the root is that of the tree with the key inserted |
| `Trie.MerklePatriciaTrie.ProcessBranchNode` | packages/merkel-trie/src/mpt.ts:727-790 | which node and key a collapsing branch leaves, for every kind of parent and remaining child |
| `Trie.MerklePatriciaTrie.CollapseBranch` | packages/merkel-trie/src/mpt.ts:828-860 | a branch with one child left is merged away, and the stack stands for the tree that results |
| `Trie.MerklePatriciaTrie.DeleteNode` | packages/merkel-trie/src/mpt.ts:726-870 | the root afterwards is that of the tree with the key removed, or of the empty trie when the node has no parent |
| `Trie.MerklePatriciaTrie.Get` | packages/merkel-trie/src/mpt.ts:212-229 | answers the value of the current tree at the key, or null |
| `Trie.MerklePatriciaTrie.PathForm` | packages/merkel-trie/src/mpt.ts:1127-1132 | the path of a key is the high and the low nibble of each byte of the key, or of its hash when keys are hashed |
| `Trie.MerklePatriciaTrie.Put` | packages/merkel-trie/src/mpt.ts:239-304 | the new tree has the value at exactly its key, an empty value deletes, only parts of the new tree are written, and every root set before keeps its tree |
| `Trie.MerklePatriciaTrie.Del` | packages/merkel-trie/src/mpt.ts:312-347 | the new tree is the old one with the key removed; its map is exact if and only if the guard condition holds, whatever the old tree; from a canonical tree it is canonical if and only if the other condition holds; every root set before keeps its tree |
| `Trie.MerklePatriciaTrie.SetRoot` | packages/merkel-trie/src/mpt.ts:173-188 | any 32 bytes become the root and other lengths are refused; a root ever reached brings back exactly the tree it had, and no argument the empty one |
| `TransactionsTrie.IndexKeyInjective` | packages/rlp/src/utils.ts:93-113 | different list positions have different keys |
| `TransactionsTrie.OrderIndependence` | packages/block/src/helpers.ts:198-207 | putting the items in any order, repeats included, gives one tree |
| `TransactionsTrie.Faithful` | packages/block/src/helpers.ts:198-207 | the tree holds item i at the RLP encoding of i and nothing at any other key |
| `TransactionsTrie.RootDeterminesList` | packages/block/src/helpers.ts:198-207 | equal roots if and only if equal lists of transactions, when no encodings collide |
| `TransactionsTrie.GenTransactionsTrieRoot` | packages/block/src/helpers.ts:198-207 | the loop of puts, on a new trie or an empty one that is handed in, returns the root of the tree that Faithful describes, with item 0 at 80 |
| `Rlp.DecodeOfEncode` | packages/rlp/src/decode.ts:44-130 | decoding an encoded value with any tail behind it gives the value and the tail, for every nested value with lengths below 2^64 |
| `Rlp.DecodeAllOfEncodeAll` | packages/rlp/src/decode.ts:93-129 | the same for the items of a list |
| `Rlp.EncodeOfDecode` | packages/rlp/src/decode.ts:44-130 | whatever a decoding step accepts is the encoding of what it returns, followed by the remainder |
| `Rlp.DecodeIsInverse` | packages/rlp/src/decode.ts:9-35 | a non-empty byte string is accepted as x if and only if it is the encoding of x, so each value has one accepted encoding |
| `Rlp.PrefixFree` | packages/rlp/src/encode.ts:4-30 | no encoding is a proper prefix of another |
| `Rlp.EncodeInjective` | packages/rlp/src/encode.ts:4-20 | different values have different encodings |
| `Rlp.EncodeForm` | packages/rlp/src/encode.ts:4-30 | a byte below 128 is its own encoding, other strings and lists get 128 or 192 plus a length below 56, longer ones 183 or 247 plus the number of bytes of the length, which is written without a leading zero |
| `Rlp.PayloadForm` | packages/rlp/src/encode.ts:5-13 | the payload of a list is the encodings of its items in order |
| `Rlp.StringRefusals` | packages/rlp/src/decode.ts:50-91 | which string inputs are refused and with which error: too short, a byte that needs no prefix, a length with a leading zero or below 56 |
| `Rlp.ListRefusals` | packages/rlp/src/decode.ts:92-129 | the same for lists, whose other refusals are those of their items |
| `Rlp.WholeRefusals` | packages/rlp/src/decode.ts:9-35 | the empty input is the empty string, a remainder is refused, and any other error is that of the step |
| `RlpCodec.EncodeItem` | packages/rlp/src/encode.ts:4-20 | the recursion with its output loop computes the encoding |
| `RlpCodec.EncodeLength` | packages/rlp/src/encode.ts:22-30 | the hexadecimal route through the length gives the header |
| `RlpCodec.HexIsBigEndian` | packages/rlp/src/utils.ts:70-80 | the padded hexadecimal digits of a number are its shortest big-endian bytes |
| `RlpCodec.ParseHexIsToNat` | packages/rlp/src/utils.ts:12-16 | parsing the hexadecimal form of bytes gives the number they denote |
| `RlpCodec.HexToBytes` | packages/rlp/src/utils.ts:25-52 | the pairwise loop packs the digits into bytes |
| `RlpCodec.BytesToHex` | packages/rlp/src/utils.ts:4-10 | the loop writes the two digits of every byte |
| `RlpCodec.ConcatBytes` | packages/rlp/src/utils.ts:54-64 | filling the result buffer piece by piece concatenates the pieces |
| `RlpCodec.IntegerToBytes` | packages/rlp/src/utils.ts:103-108 | an integer becomes bytes that denote it and start with no zero, so zero becomes the empty string |
| `RlpCodec.IntegerBytesShortest` | packages/rlp/src/utils.ts:103-108 | these bytes denote the integer in big-endian order and have no leading zero, which fixes them |
| `RlpCodec.IntegerBytesInjective` | packages/rlp/src/utils.ts:103-108 | different integers have different bytes |
| `RlpCodec.ReadLength` | packages/rlp/src/decode.ts:37-42 | a length field is refused with a leading zero, otherwise read as a big-endian number |
| `RlpCodec.DecodeItem` | packages/rlp/src/decode.ts:44-130 | the recursive decoder with its loops over the inner remainder computes the decoding step, errors included |
| `RlpCodec.DecodeInput` | packages/rlp/src/decode.ts:9-35 | the empty input decodes to the empty string, a remainder is an error |
| `XorMetric.XorBits` | packages/kademlia/src/bucket.ts:73-85 | a bit of the exclusive or is set exactly where the operands differ, and none above |
| `XorMetric.DistanceBetween` | packages/kademlia/src/bucket.ts:73-85 | the two loops compute the distance, a byte only one identifier has counting 255 |
| `XorMetric.DistanceDigits` | packages/kademlia/src/bucket.ts:73-85 | the distance in base 256: digit n is the exclusive or of the n-th bytes, and 255 where only one identifier has one |
| `XorMetric.ByteOfBits` | packages/kademlia/src/bucket.ts:197-215 | bit i of an identifier is the bit of weight 2^(7 - i % 8) in byte i / 8 |
| `XorMetric.NearerAtBit` | packages/kademlia/src/bucket.ts:73-85 | the first bit where two identifiers differ decides which is nearer to a target of any length that has that bit |
| `XorMetric.EquallyFar` | packages/kademlia/src/bucket.ts:73-85 | two identifiers of one length are equally far from a target of any length if and only if they agree on all bits it has |
| `XorMetric.DistanceInjective` | packages/kademlia/src/bucket.ts:73-85 | different identifiers of one length are at different distances from a target at least as long |
| `XorMetric.TrailingZeros` | packages/kademlia/src/bucket.ts:197-215 | identifiers that differ only in zero bytes at the end take the same side at every depth |
| `KBucketModel.SplitKeepsContents` | packages/kademlia/src/bucket.ts:265-280 | a split loses and adds no contact |
| `KBucketModel.SplitPlaced` | packages/kademlia/src/bucket.ts:265-280 | after a split every contact lies in the leaf its bits select, without duplicates or overfull leaves |
| `KBucketModel.SplitOrderKept` | packages/kademlia/src/bucket.ts:265-280 | a split leaves the contacts of each leaf in the order they had |
| `KBucketModel.AddedOrderKept` | packages/kademlia/src/bucket.ts:123-127 | so does a new contact, which is put last |
| `KBucketModel.MaySplit` | packages/kademlia/src/bucket.ts:142-143 | unless the new contact is stuck, a full leaf that must split is less deep than the identifiers have bits |
| `KBucketModel.SplitsForever` | packages/kademlia/src/bucket.ts:104-144 | for ids of any lengths every split leaves the last leaf full for the new contact, without end, if and only if the contact is new, agrees with the local id at every depth, and so do k stored ones |
| `KBucketModel.OneLengthNeverStuck` | packages/kademlia/src/bucket.ts:104-144 | with ids as long as the local one that never happens |
| `KBucketModel.TwinsAreStuck` | packages/kademlia/src/bucket.ts:104-144 | the concrete failure: local id 00 and one contact a leaf, 0000 stored and 000000 to be added |
| `KBucketModel.CrowdIsBucket` | packages/kademlia/src/bucket.ts:123-141 | a leaf off the chain is full exactly when k contacts share that many bits with the local id |
| `KBucketModel.AdmitWithRoom` | packages/kademlia/src/bucket.ts:123-127 | a new contact in a leaf with room is let in as the most recent, and fewer than k contacts share its distance |
| `KBucketModel.AdmitFull` | packages/kademlia/src/bucket.ts:129-141 | a full leaf that may not split changes nothing and asks its oldest contacts to be pinged |
| `KBucketModel.AdmitKnown` | packages/kademlia/src/bucket.ts:321-336 | of two contacts with one id the arbiter's choice is kept, at the end of its leaf |
| `KBucketModel.IdsDistinct` | packages/kademlia/src/bucket.ts:117-121 | no id is held twice |
| `NearestContacts.WalkIsContents` | packages/kademlia/src/bucket.ts:286-302 | a walk lists every stored contact once |
| `NearestContacts.LeftBeforeRight` | packages/kademlia/src/bucket.ts:286-302 | of two contacts in the list from left to right the first is older in the same leaf, or has a 0 where the ids first differ and the other a 1 |
| `NearestContacts.MatchingSideNearer` | packages/kademlia/src/bucket.ts:163-168 | for stored ids of one length, at every inner node at which the target has a bit, the side that matches it holds only nearer contacts than the other side; deeper down all are equally far |
| `NearestContacts.ExpandNearest` | packages/kademlia/src/bucket.ts:163-168 | opening an inner node keeps the stack ordered with no farther contacts on top |
| `NearestContacts.SortSorts` | packages/kademlia/src/bucket.ts:175-178 | the sort is a permutation in order of distance |
| `NearestContacts.NearFirst` | packages/kademlia/src/bucket.ts:175-178 | the sort is stable: a part listed first and no farther stays first |
| `NearestContacts.SortForgetsWalk` | packages/kademlia/src/bucket.ts:175-178 | sorting by distance to a target of any length gives one result, ties included, for the walk towards it and the walk from left to right |
| `NearestContacts.FoundNearest` | packages/kademlia/src/bucket.ts:149-178 | stopping once n contacts were met loses nothing: the n nearest of all are among them |
| `NearestContacts.NearestOfAll` | packages/kademlia/src/bucket.ts:149-178 | no stored contact left out is nearer than one returned, none even as near unless the target is shorter than the ids, and then exactly n are returned |
| `NearestContacts.MixedLengths` | packages/kademlia/src/bucket.ts:149-178 | the concrete failure with ids of different lengths: the walk meets 0100 first and stops, though 80 is nearer to 01 |
| `KBucketTree.KBucket.constructor` | packages/kademlia/src/bucket.ts:40-51 | a new tree is valid and holds nothing |
| `KBucketTree.KBucket.DetermineNode` | packages/kademlia/src/bucket.ts:197-215 | right exactly if the id has that bit set; bits past its end count as 0 |
| `KBucketTree.KBucket.FindLeaf` | packages/kademlia/src/bucket.ts:109-114 | the walk ends at the leaf of the id's bucket, and its bit index is that leaf's depth |
| `KBucketTree.KBucket.IndexOf` | packages/kademlia/src/bucket.ts:235-240 | finds the id in the leaf, or says that it is not there |
| `KBucketTree.KBucket.Get` | packages/kademlia/src/bucket.ts:220-230 | answers a contact exactly if one with that id is stored anywhere |
| `KBucketTree.KBucket.Remove` | packages/kademlia/src/bucket.ts:245-260 | takes away exactly the contact with the id, wherever it is stored |
| `KBucketTree.KBucket.Update` | packages/kademlia/src/bucket.ts:321-336 | keeps the arbiter's choice and reports what happened |
| `KBucketTree.KBucket.Distribute` | packages/kademlia/src/bucket.ts:269-272 | each contact goes to the child on the side of its bit, in order |
| `KBucketTree.KBucket.Split` | packages/kademlia/src/bucket.ts:265-280 | inner nodes stay a single chain along the local id, and a leaf may split exactly if it ends that chain |
| `KBucketTree.KBucket.Add` | packages/kademlia/src/bucket.ts:104-144 | for ids of any lengths, unless the contact is stuck: a new id is let in exactly while fewer than k contacts share as many bits with the local id, whatever the tree looks like; otherwise nothing changes and the oldest of those are to be pinged |
| `KBucketTree.KBucket.AddComesToSplit` | packages/kademlia/src/bucket.ts:104-144 | for a stuck contact the walk ends at a full leaf that may split, and the contact is stuck after the split again |
| `KBucketTree.KBucket.OpenInner` | packages/kademlia/src/bucket.ts:163-168 | an inner node is always popped at the depth that the running bit index says |
| `KBucketTree.KBucket.ToArray` | packages/kademlia/src/bucket.ts:286-302 | lists the contacts from left to right |
| `KBucketTree.KBucket.Count` | packages/kademlia/src/bucket.ts:183-191 | the number of contacts stored |
| `KBucketTree.KBucket.SearchEnds` | packages/kademlia/src/bucket.ts:154-177 | once the walk has met n contacts or run out of nodes, the n nearest of those met are the n nearest of all |
| `KBucketTree.KBucket.Closest` | packages/kademlia/src/bucket.ts:149-178 | for a target of any length up to n distinct stored contacts in order of distance, or all of them; when the stored ids have one length they are the first n of all contacts sorted by distance; an error exactly if n is not positive |
| `RoutingTables.IdKey` | packages/kademlia/src/routing-table.ts:73-82 | the key of an id belongs to exactly the peers with that id, never to an address |
| `RoutingTables.EndpointKeyForm` | packages/kademlia/src/routing-table.ts:79-81 | the key of an endpoint is the address, a colon and the port in decimal digits, and no two endpoints share one |
| `RoutingTables.DecimalIsRead` | packages/kademlia/src/routing-table.ts:79-81 | those digits denote the port and have no leading zero |
| `RoutingTables.EndpointIsKey` | packages/kademlia/src/routing-table.ts:73-82 | the key of an endpoint belongs to exactly the peers at that endpoint, a peer has one key for its id, which comes first, and one for its endpoint, and no other |
| `RoutingTables.FoundByPeer` | packages/kademlia/src/routing-table.ts:98-104 | what is found for a peer is the contact with its id if that is stored, otherwise one at its endpoint, and nothing only if neither is stored |
| `RoutingTables.RoutingTable.Add` | packages/kademlia/src/routing-table.ts:88-93 | refused if any key of the peer is known; otherwise let in as the tree decides, with the index kept in agreement, for ids of any lengths unless the peer is stuck in the tree |
| `RoutingTables.RoutingTable.SetAll` | packages/kademlia/src/routing-table.ts:35-40 | the added handler indexes every key of the peer and nothing else |
| `RoutingTables.RoutingTable.DeleteAll` | packages/kademlia/src/routing-table.ts:42-47 | the removed handler forgets every key of the peer and nothing else |
| `RoutingTables.RoutingTable.Get` | packages/kademlia/src/routing-table.ts:98-104 | answers the stored contact of the first key that belongs to any, as a search of the stored contacts would |
| `RoutingTables.RoutingTable.Has` | packages/kademlia/src/routing-table.ts:133-135 | true exactly if some stored contact has one of the keys |
| `RoutingTables.RoutingTable.Remove` | packages/kademlia/src/routing-table.ts:123-128 | takes the contact that get finds out of the tree and the index |
| `RoutingTables.RoutingTable.Count` | packages/kademlia/src/routing-table.ts:140-142 | the number of contacts stored |
| `RoutingTables.RoutingTable.GetAll` | packages/kademlia/src/routing-table.ts:109-111 | exactly the stored contacts, each once |
| `CopyStack.RevertRestores` | packages/state-manager/src/simpleStateManager.ts:142-155 | whatever a bracketed run does in between, revert brings back the stack of copies at the checkpoint |
| `CopyStack.CommitKeeps` | packages/state-manager/src/simpleStateManager.ts:145-149 | commit keeps the top copy and forgets the checkpoint only |
| `CopyStack.UndoneRun` | packages/state-manager/src/simpleStateManager.ts:142-155 | a run that opens a checkpoint, does anything balanced and reverts ends where it began |
| `CopyStack.CopiesKept` | packages/state-manager/src/simpleStateManager.ts:142-155 | copies below the floor of a run are never changed |
| `SimpleStateManagers.SimpleStateManager.constructor` | packages/state-manager/src/simpleStateManager.ts:45-51 | starts with one empty copy of accounts, code and storage |
| `SimpleStateManagers.SimpleStateManager.CheckpointSync` | packages/state-manager/src/simpleStateManager.ts:64-79 | copies the top of all three stacks |
| `SimpleStateManagers.SimpleStateManager.Commit` | packages/state-manager/src/simpleStateManager.ts:145-149 | drops the copy below the top, or the only copy when there is one |
| `SimpleStateManagers.SimpleStateManager.Revert` | packages/state-manager/src/simpleStateManager.ts:151-155 | drops the top of all three stacks |
| `SimpleStateManagers.SimpleStateManager.PutAccount` | packages/state-manager/src/simpleStateManager.ts:85-90 | changes one account of the top copy only |
| `SimpleStateManagers.SimpleStateManager.PutCode` | packages/state-manager/src/simpleStateManager.ts:107-115 | stores the code and brings the account's code hash in line, creating the account if need be |
| `SimpleStateManagers.SimpleStateManager.PutStorage` | packages/state-manager/src/simpleStateManager.ts:129-138 | changes one slot of the top copy only |
| `UndoLog.PutMeans` | packages/evm/src/transientStorage.ts:52-81 | a logged write changes the current copy only, as it would in a stack of copies |
| `UndoLog.RevertMeans` | packages/evm/src/transientStorage.ts:103-116 | undoing the log back to the last index shows the copy taken there, and every older one stays reachable |
| `UndoLog.RunMeans` | packages/evm/src/transientStorage.ts:34-116 | on every bracketed run the log means what a stack of full copies means, with the indices rising and within the log |
| `UndoLog.GetAgrees` | packages/evm/src/transientStorage.ts:34-44 | after any bracketed run get answers what the stack of copies answers |
| `UndoLog.RevertRestoresReads` | packages/evm/src/transientStorage.ts:96-116 | whatever happens between a checkpoint and its revert, every location reads as before |
| `UndoLog.ClearMeans` | packages/evm/src/transientStorage.ts:135-138 | after a clear every bracketed run reads as if all copies had been cleared, if and only if no open checkpoint was taken after a change, because the index stack is left alone |
| `UndoLog.WriteOutlivesRevert` | packages/evm/src/transientStorage.ts:93-138 | with a change below the last checkpoint, what is written after a clear is still read after the revert to that checkpoint |
| `UndoLog.OutermostMessage` | packages/evm/src/evm.ts:1131-1197 | the clear inside the outermost message meets the condition whatever its frames did, and the message leaves the transient storage as new, committed or reverted |
| `UndoLog.ClearInsideCheckpoint` | packages/evm/src/transientStorage.ts:135-138 | the concrete failure: write, checkpoint, clear, write, and the revert that follows undoes nothing |
| `TransientStorages.TransientStorage.Get` | packages/evm/src/transientStorage.ts:34-44 | reads the stored value or 32 zero bytes |
| `TransientStorages.TransientStorage.Put` | packages/evm/src/transientStorage.ts:52-81 | refuses wrong lengths, otherwise logs the old value and stores the new one |
| `TransientStorages.TransientStorage.Commit` | packages/evm/src/transientStorage.ts:86-91 | forgets the last index, or reports that there is none |
| `TransientStorages.TransientStorage.Checkpoint` | packages/evm/src/transientStorage.ts:96-98 | remembers the length of the log |
| `TransientStorages.TransientStorage.Revert` | packages/evm/src/transientStorage.ts:103-116 | the backward loop undoes the log down to the last index and drops what it undid |
| `TransientStorages.TransientStorage.Clear` | packages/evm/src/transientStorage.ts:135-138 | empties the storage and the log and leaves the indices |
| `JournalModel.TouchMeans` | packages/evm/src/journal.ts:110-128 | a touch shows in the current state only, but a touch of RIPEMD-160 through every revert |
| `JournalModel.RipemdIsThird` | packages/utils/src/constants.ts:79-80 | the address kept touched is 3 in 40 hexadecimal digits |
| `JournalModel.WarmSlotMeans` | packages/evm/src/journal.ts:319-342 | warming a slot, with its address if need be, changes the current state only |
| `JournalModel.UndoneInSteps` | packages/evm/src/journal.ts:153-193 | undoing to one height and then to a lower one is undoing to the lower one at once, and what is left ends one below |
| `JournalModel.RevertMeans` | packages/evm/src/journal.ts:147-198 | revert brings back the copy of the matching checkpoint |
| `JournalModel.RunMeans` | packages/evm/src/journal.ts:110-205 | on every well-nested run the height-tagged diffs mean a stack of snapshots, the heights change by one, and the last is the journal's height |
| `JournalModel.WarmMeansCopies` | packages/evm/src/journal.ts:110-205 | on every nested run the warm addresses and slots are those of a stack of full copies |
| `JournalModel.EntriesKept` | packages/evm/src/journal.ts:147-198 | while a checkpoint is open the entries before it are untouched and all later ones carry its height or more |
| `JournalModel.RevertRestores` | packages/evm/src/journal.ts:147-198 | a checkpoint, any nested run and the revert: warm addresses and slots, entries and height are exactly as before, and touched too but for RIPEMD-160; so exactly the entries since the checkpoint are undone, those of committed inner frames included |
| `Journals.Journal.TouchAddress` | packages/evm/src/journal.ts:105-128 | adds a new address to touched and to the last diff |
| `Journals.Journal.Checkpoint` | packages/evm/src/journal.ts:138-145 | raises the height and opens a diff |
| `Journals.Journal.Commit` | packages/evm/src/journal.ts:129-136 | lowers the height and opens a diff |
| `Journals.Journal.UndoDiff` | packages/evm/src/journal.ts:162-191 | the three loops take back the addresses, the slots and the touches of one diff |
| `Journals.Journal.Revert` | packages/evm/src/journal.ts:147-198 | the backward loop undoes every diff down to the first below the journal's height |
| `Journals.Journal.CleanJournal` | packages/evm/src/journal.ts:199-205 | back to an empty journal with one diff at height 0 |
| `Journals.Journal.AddWarmedAddress` | packages/evm/src/journal.ts:274-286 | warms a new address and records it |
| `Journals.Journal.AddWarmedStorage` | packages/evm/src/journal.ts:319-342 | warms a new slot, and its address, and records both |
| `Journals.Journal.IsWarmedAddress` | packages/evm/src/journal.ts:263-268 | true exactly if the address is warm in this run or always |
| `Journals.Journal.IsWarmedStorage` | packages/evm/src/journal.ts:293-312 | true exactly if the slot is warm in this run or always |
| `Journals.Journal.AddAlwaysWarmSlot` | packages/evm/src/journal.ts:244-257 | makes one slot always warm |
| `EvmModel.CallConserves` | packages/evm/src/evm.ts:383-570 | however frames nest, succeed and fail, a call leaves the sum of balances unchanged but for what a selfdestruct to itself burns; a failed call leaves the accounts as they were |
| `EvmModel.CreateConserves` | packages/evm/src/evm.ts:572-944 | the same for a creation with its collision, size, deposit and overflow failures |
| `EvmModel.RunConserves` | packages/evm/src/interpreter.ts:1071-1349 | the same for any run of a frame's calls, creations and selfdestruct |
| `EvmModel.MessageConserves` | packages/evm/src/evm.ts:1110-1200 | a whole message conserves ether, and when it fails only the nonce of the outermost sender has moved |
| `EvmModel.NothingBurned` | packages/evm/src/interpreter.ts:1290-1332 | nothing is burned unless a selfdestruct names its own account, whatever it burns for others |
| `EvmModel.MessageKeepsTotal` | packages/evm/src/evm.ts:1131-1200 | without such a selfdestruct a whole message leaves the sum of balances unchanged, whatever fails in it |
| `EvmModel.RunKeeps` | packages/evm/src/interpreter.ts:1126-1133 | accounts are never dropped, so the account read again after a successful call is there |
| `EvmModel.TransferMoves` | packages/evm/src/evm.ts:440-488 | account by account: a transfer takes the value from the sender and gives it to the receiver, with nonces and code left alone, exactly if the sender has it and the receiver stays within 2^256 - 1 |
| `EvmModel.BirthMoves` | packages/evm/src/evm.ts:586-700 | the same for a creation, exactly if the code is not oversized, the address has no nonce, code or storage and can hold the value; the new nonce is 1 from Spurious Dragon on |
| `EvmModel.DepositStores` | packages/evm/src/evm.ts:860-931 | returned code that is paid for becomes the code of its account and of no other; unpaid code fails the creation, but at Chainstart |
| `EvmModel.CreateCodeRuns` | packages/evm/src/evm.ts:766-934 | the code of a creation runs for the new account, from the world in which that is born, and the creation undoes everything if that fails or what it returns is not kept |
| `EvmModel.DestroyMoves` | packages/evm/src/interpreter.ts:1290-1332 | a selfdestruct empties the account into the beneficiary, or burns or keeps the balance when that is the account itself |
| `EvmModel.PlainCall` | packages/evm/src/interpreter.ts:1071-1138 | a call by code to quiet code, which is none, a precompile or code that ends at once: it succeeds exactly if depth, balance and the receiver allow it and the code does not fail, and moves the value to the called account, to itself by callcode, and nowhere by a delegated call |
| `EvmModel.CalledCodeDestroys` | packages/evm/src/interpreter.ts:971-1069 | called code works on the account called, but on the account of the caller when reached by callcode or a delegated call: a selfdestruct in it empties that one |
| `EvmModel.TowerFits` | packages/evm/src/interpreter.ts:1087-1094 | nested calls run to their end if and only if the depth of the innermost is within the stack limit |
| `EvmModel.MessageDepth` | packages/evm/src/evm.ts:546-557 | the same for a message, counted from its own depth |
| `EvmModel.StartRaisesNonce` | packages/evm/src/evm.ts:1105-1122 | only the sender of an outermost message is charged a nonce |
| `EvmModel.PlainMessage` | packages/evm/src/evm.ts:383-570 | a message to quiet code, account by account: when it succeeds, and then who has lost and gained the value; when it fails only the nonce has moved |
| `EvmModel.PlainCreation` | packages/evm/src/evm.ts:572-944 | the same for a creation whose code is missing or ends at once, with the code it leaves behind |
| `Evms.EVM.ReduceSenderBalance` | packages/evm/src/evm.ts:1318-1333 | debits the sender, or reports insufficient balance and changes nothing |
| `Evms.EVM.AddToBalance` | packages/evm/src/evm.ts:1335-1350 | credits the receiver, or reports an overflow past 2^256 - 1 and changes nothing |
| `Evms.EVM.TransferValue` | packages/evm/src/evm.ts:440-488 | ends as the transfer of TransferMoves from the caller to the receiver, also when they are the same; the credit runs even after a failed debit |
| `Evms.EVM.ExecuteCall` | packages/evm/src/evm.ts:383-570 | ends as the model of a call does |
| `Evms.EVM.Welcome` | packages/evm/src/evm.ts:593-700 | refuses oversized code, a taken address and an overflowing balance, otherwise the account is born with the value |
| `Evms.EVM.MoveToNewborn` | packages/evm/src/evm.ts:586-700 | moves the value from the creator to the newborn account, and throws exactly if the creator cannot afford it |
| `Evms.EVM.StoreCode` | packages/evm/src/evm.ts:766-934 | the outcomes of paying for the returned code, the one forgiven at Chainstart included |
| `Evms.EVM.ExecuteCreate` | packages/evm/src/evm.ts:572-944 | ends as the model of a creation does |
| `Evms.EVM.CloseCheckpoint` | packages/evm/src/evm.ts:1175-1200 | an error takes the accounts back to the checkpoint, except an unpaid code deposit at Chainstart |
| `Evms.EVM.RunCall` | packages/evm/src/evm.ts:1041-1211 | with all its checkpoints, late credits and cached accounts a message leaves the accounts the checkpoint-free model says, keeps the sum of balances unless a selfdestruct burns its own, and never touches an older copy; it throws exactly for a creation that cannot be afforded; a message to quiet code succeeds exactly if the caller has the value, the receiver can hold it and the code does not fail, and then the caller has lost and the receiver gained it |
| `Evms.Interpreter.BaseCall` | packages/evm/src/interpreter.ts:1071-1138 | checks the cached balance, which is the balance, runs the message and reads the account again |
| `Evms.Interpreter.Create` | packages/evm/src/interpreter.ts:1143-1251 | checks balance and nonce, spends the nonce before the checkpoint, and starts a creation it can afford |
| `Evms.Interpreter.SelfDestruct` | packages/evm/src/interpreter.ts:1290-1332 | moves the whole balance to the beneficiary, or with itself as beneficiary burns it or leaves it |
| `Evms.Interpreter.Run` | packages/evm/src/evm.ts:946-1035 | a frame's calls and creations in turn, with the cached account always equal to the stored one, come to what the model says |
| `RunTxs.GasSpent` | packages/vm/src/runTx.ts:773-812 | the gas paid for is at least the floor and at most the larger of gas used and floor, and the discount is at most the refund and at most used / quotient |
| `RunTxs.LeastGasSpent` | packages/vm/src/runTx.ts:785-812 | it is the least amount with these properties: the refund is given in full up to its cap |
| `RunTxs.FloorForm` | packages/vm/src/runTx.ts:366-382 | the floor is the base cost and the price of the tokens, and nothing before EIP-7623; blobs cost their gas at the price of blob gas |
| `RunTxs.TokensForm` | packages/vm/src/runTx.ts:366-372 | each zero byte adds one token and each other byte four |
| `RunTxs.PriceForm` | packages/vm/src/runTx.ts:559-574 | a fee-market transaction pays the base fee and the largest tip within both its limits, any other its gas price; the miner gets the part above the base fee once there is one, and all of it before |
| `RunTxs.ChargedForm` | packages/vm/src/runTx.ts:582-592 | in advance the sender and nobody else pays the gas limit and the blobs |
| `RunTxs.SettledForm` | packages/vm/src/runTx.ts:814-860 | afterwards what was not spent goes back to the sender and the fee to the miner, who may be the same, and nothing else changes |
| `RunTxs.PaymentForm` | packages/vm/src/runTx.ts:579-860 | a whole payment to quiet code, account by account: gas paid for, blobs and value from the sender, the value to the receiver, the fee to the miner; the value stays where it was if the code fails or the receiver cannot hold it |
| `RunTxs.CreationForm` | packages/vm/src/runTx.ts:579-860 | the same for a transaction that creates an account, with the code it stores |
| `RunTxs.SpentWithinLimit` | packages/vm/src/runTx.ts:384-396 | the gas paid for never exceeds the transaction's gas limit |
| `RunTxs.AcceptableAffords` | packages/vm/src/runTx.ts:465-532 | the checks against the highest fees together cover the actual fees, the blobs and the value, so no balance goes below zero |
| `RunTxs.SettlementConserves` | packages/vm/src/runTx.ts:567-591 | the sum of balances drops by exactly the burned base fee of the gas paid for, the blob cost and what frames burned, also when sender and miner are the same account |
| `RunTxs.VM.FloorCost` | packages/vm/src/runTx.ts:366-382 | one token for a zero byte of calldata and four for any other, priced on top of the base cost |
| `RunTxs.VM.Validate` | packages/vm/src/runTx.ts:384-546 | accepts exactly the acceptable transactions, and each error means what it says |
| `RunTxs.VM.TotalGasSpent` | packages/vm/src/runTx.ts:767-812 | the capped refund first, then the floor: the amount that GasSpent bounds and LeastGasSpent fixes |
| `RunTxs.VM.BuyGas` | packages/vm/src/runTx.ts:579-591 | debits the whole gas limit and the blobs in advance |
| `RunTxs.VM.PayOut` | packages/vm/src/runTx.ts:814-860 | gives the sender back what was not spent, then credits the miner |
| `RunTxs.VM.RunTx` | packages/vm/src/runTx.ts:84-292 | a rejected transaction, by the block gas limit, its type or the checks above, changes nothing; an accepted one leaves the settled accounts, with the gas paid for between floor and limit and the sum of balances as stated above |
| `RunTxs.VM.CheckType` | packages/vm/src/runTx.ts:201-229 | a typed transaction needs access lists, and a fee-market one EIP-1559 |
| `BinaryTreeCode.GetValidJumpDestinations` | packages/evm/src/interpreter.ts:597-624 | marks exactly the JUMPDEST bytes that are no operand, and records the value of every push |
| `BinaryTreeCode.OwedForm` | packages/utils/src/binaryTree.ts:211-227 | an opcode from 60 to 7f owes as many operand bytes as it is above 5f, and each of them owes one less |
| `BinaryTreeCode.JumpForm` | packages/evm/src/interpreter.ts:605-620 | a jump lands on 5b and a push is any opcode from 60 to 7f, neither inside an operand |
| `BinaryTreeCode.PushedForm` | packages/evm/src/interpreter.ts:607-615 | the value of a push is its operand in big-endian order, with an operand cut off by the end of the code multiplied by 256 for every byte that is missing |
| `BinaryTreeCode.BytesToExecData` | packages/utils/src/binaryTree.ts:211-227 | counts at every position how much of an operand is still to come |
| `BinaryTreeCode.ChunkifyBinaryTreeCode` | packages/utils/src/binaryTree.ts:201-239 | one 32-byte chunk per 31 bytes of padded code, its first byte the operand bytes still owed, capped at 31 |
| `BinaryTreeCode.ChunkFindsJumps` | packages/utils/src/binaryTree.ts:229-239 | scanning a chunk on its own from the offset in its first byte finds exactly the jump destinations of the whole code in it, the cap included |
| `BinaryTreeCode.BodiesAreCode` | packages/utils/src/binaryTree.ts:205-208 | the bodies of the chunks concatenate to the zero-padded code |
| `WitnessModel.DecodeOfIndices` | packages/evm/src/binaryTreeAccessWitness.ts:56-98 | decoding inverts the index functions for account data, code hash, code chunks and storage slots |
| `WitnessModel.IndicesOfDecode` | packages/utils/src/binaryTree.ts:147-179 | a position that decodes is that of the location it stands for, if and only if it is not among the first 64 of main storage |
| `WitnessModel.IndicesForm` | packages/utils/src/binaryTree.ts:147-179 | the positions: 0 and 1 for account data and code hash, 64 on for the first 64 slots, 128 on for code chunks, 256^31 on for other slots |
| `WitnessModel.DecodeForm` | packages/evm/src/binaryTreeAccessWitness.ts:56-98 | a position has no meaning exactly from 2 to 63 |
| `WitnessModel.PreimageForm` | packages/utils/src/binaryTree.ts:22-45 | a stem is the front of the hash of 64 bytes: the address behind 12 zeros, then the tree index in little-endian order |
| `WitnessModel.PlaceKeyForm` | packages/utils/src/binaryTree.ts:127-139 | a chunk key is the stem and the index below it |
| `WitnessModel.DistinctStems` | packages/utils/src/binaryTree.ts:22-45 | for 20-byte addresses and tree indices below 2^256 no two stems collide unless the first 31 bytes of the hashes of two different inputs do |
| `WitnessModel.TouchCosts` | packages/evm/src/binaryTreeAccessWitness.ts:241-336 | the gas of one touch is what the price of all touched stems and chunks grows by |
| `WitnessModel.GasForm` | packages/evm/src/binaryTreeAccessWitness.ts:241-336 | 1900 for a stem that is new, 3000 for its first write, 200 and 500 for a chunk |
| `WitnessModel.GasIsCost` | packages/evm/src/binaryTreeAccessWitness.ts:241-376 | over any run without a revert the gas returned is 1900 and 3000 for every stem read and written plus 200 and 500 for every chunk |
| `WitnessModel.CommittedGas` | packages/evm/src/binaryTreeAccessWitness.ts:383-411 | after a final commit that is the price of the committed maps |
| `WitnessModel.KeyInjective` | packages/utils/src/binaryTree.ts:127-139 | different places have different chunk keys when no stems collide |
| `WitnessModel.RunRepresents` | packages/evm/src/binaryTreeAccessWitness.ts:276-381 | in every run, reverts included, every chunk belongs to a touched place and has that place's stem, a committed chunk a committed one |
| `WitnessModel.AccessesAreCommitted` | packages/evm/src/binaryTreeAccessWitness.ts:416-441 | listing the accesses never fails and yields exactly the committed places |
| `AccessWitnesses.BinaryTreeAccessWitness.TouchAddress` | packages/evm/src/binaryTreeAccessWitness.ts:276-336 | looks in the cache and then among the committed, marks a known entry in place, and flags what is new |
| `AccessWitnesses.BinaryTreeAccessWitness.TouchAddressAndComputeGas` | packages/evm/src/binaryTreeAccessWitness.ts:241-274 | adds up the price of the flags |
| `AccessWitnesses.BinaryTreeAccessWitness.TouchCodeChunks` | packages/evm/src/binaryTreeAccessWitness.ts:171-207 | touches every chunk from that of the first to that of the last position |
| `AccessWitnesses.BinaryTreeAccessWitness.TouchPlace` | packages/evm/src/binaryTreeAccessWitness.ts:121-219 | reading or writing account data, code hash or a slot touches its one place |
| `AccessWitnesses.BinaryTreeAccessWitness.Commit` | packages/evm/src/binaryTreeAccessWitness.ts:366-376 | moves the caches into the committed maps |
| `AccessWitnesses.BinaryTreeAccessWitness.Revert` | packages/evm/src/binaryTreeAccessWitness.ts:378-381 | empties the caches and nothing else |
| `WitnessReverts.RevertRestores` | packages/evm/src/binaryTreeAccessWitness.ts:241-381 | a revert undoes any touches exactly when each of their writes goes to a stem and a chunk that are not committed or were already written |
| `WitnessReverts.RevertAfterRun` | packages/evm/src/binaryTreeAccessWitness.ts:241-381 | the same for the touches that follow any run of reads, writes, commits and reverts |
| `WitnessReverts.MarkOutlivesRevert` | packages/evm/src/binaryTreeAccessWitness.ts:286-336 | the concrete failure: read and commit, then write and revert, and the chunk counts as written |
| `AccessWitnesses.BinaryTreeAccessWitness.Accesses` | packages/evm/src/binaryTreeAccessWitness.ts:416-441 | after any run whose stems do not collide, lists every committed place once; in any state it fails exactly if a chunk has no stem or no meaning |
| `AccessWitnesses.BinaryTreeAccessWitness.DebugWitnessCost` | packages/evm/src/binaryTreeAccessWitness.ts:383-411 | the four totals add up to the price of the committed maps |
| `FakeExponentials.FakeExponential` | packages/block/src/helpers.ts:138-154 | the loop terminates for every numerator and positive denominator: first denominator * i passes the numerator, then the accumulator falls; its result is the one that ValueTrace describes and the Taylor sum bounds on both sides |
| `FakeExponentials.Shrinks` | packages/block/src/helpers.ts:146-151 | once denominator * i exceeds the numerator the accumulator strictly falls |
| `FakeExponentials.AtLeastFactor` | packages/block/src/helpers.ts:138-154 | the result is at least the factor |
| `FakeExponentials.Monotone` | packages/block/src/helpers.ts:138-154 | the result never falls when the factor or the numerator grows |
| `FakeExponentials.BelowTaylorSum` | packages/block/src/helpers.ts:135-154 | the result never exceeds factor times the exact Taylor sum of the exponential over as many terms as the loop adds |
| `FakeExponentials.AboveTaylorSum` | packages/block/src/helpers.ts:135-154 | nor does it fall short by much: with x = numerator / denominator, for every n the first n terms times factor and denominator exceed the sum of the accumulators by at most n times the first n terms, and rounding the quotient loses less than 1 |
| `FakeExponentials.ValueTrace` | packages/block/src/helpers.ts:143-153 | the accumulators one by one, from factor * denominator: each next one is the whole quotient of the last times numerator by denominator * i, until that is 0, and the result is the whole quotient of their sum by the denominator |
| `FakeExponentials.SeriesForm` | packages/block/src/helpers.ts:135-137 | the sums meant are those of x^n / n! |
| `FakeExponentials.ComputeBlobGasPrice` | packages/block/src/helpers.ts:162-175 | the same with the hardfork's parameters, 1 and 3338477 where it has none |

## Left out

- Trie node pruning, `verifyPrunedIntegrity`, key prefixes, root persistence, `skipKeyTransform`, proofs, value paging, locks and the database's checkpoints and caches: they do not change what a root denotes.
- The asynchronous walker: the walk of `findPath` is a loop over the node, or the error, that `lookupNode` gives.
- Sharing of trie nodes between the stack and the store: nodes on the stack are values that are replaced, where the source edits objects; the stack grows by appending, where the source fills an array indexed by progress and then drops the holes.
- Trie.MerklePatriciaTrie.Lookup: a branch slot or value that holds a list where a byte string belongs is an error, where the source keeps it as it is; no stored node has that form.
- RLP input given as text or as a JavaScript number that is not an integer; only byte strings, lists and integers are modelled.
- TransactionsTrie.GenTransactionsTrieRoot: a trie handed in by the caller is empty and without key hashing, as the name of the parameter says.
- Rounding: `KBucket.distance` is an exact integer, where the source folds into a double.
- Custom distance and arbiter functions, contacts changed after they were added, the iterator and the bucket summaries of the k-bucket tree.
- Events are return values; listeners outside the routing table, timers, bans, pings and the network are left out.
- `Journal.accessList` and preimages, `cleanup`, and `cleanJournal` inside an open checkpoint.
- The caches of the original storage, and the Merkle and RPC state managers.
- Precompiles, EOF, the opcode table, gas schedules and the gas of EIP-6800; `skipBalance`.
- Evms.EVM.ExecuteCall: delegated calls to an address without an account, which only an outermost message can make.
- Evms.EVM.RunCall: an outermost delegated call to an address without an account.
- Loading code and the delegation of EIP-7702: a frame's code is given; authorization lists change nonces and code, not balances, and their refund is part of the given refund.
- RunTxs.VM.RunTx: the options that skip checks, the chain id and hardfork checks, the warming of access lists, and the clean-up of destroyed and touched empty accounts at the end.
- Block events, bloom filters and receipts.
- `merge` of two witnesses and the generation of an execution witness.
- AccessWitnesses.BinaryTreeAccessWitness.Accesses: the order of the list is left open, where the source follows insertion order.
- Encoding of the binary tree's basic data, stem generation for code, hashing, signatures and KZG.
