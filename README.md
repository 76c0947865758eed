# A verified model of a hypercore-style append-only log

This project models, in Dafny, the core of an append-only log of the
hypercore family. The log's blocks are bound together by a flat-tree Merkle
tree whose roots are signed. The model has five parts:

- **Tree signables** (`Caps`, over `Bytes`). These are the exact byte strings
  a writer signs for a tree:
  - `treeSignable`: the 32-byte `TREE` namespace, the 32-byte tree hash, then
    length and fork as little-endian 64-bit integers (80 bytes);
  - `treeSignableLegacy`: the same without the namespace (48 bytes).

  Both are written, as in the source, through an encoder state that advances
  a cursor over a fixed-size buffer.
- **The Merkle tree** (`FlatTree`, `MerkleNodes`, `Merkle`, `MerkleProof`,
  `MerkleVerify`, `MerkleSeek`, `MerkleAudit`, `MerkleReorg`,
  `MerkleRoundTrip`).
  - Flat-tree indexing.
  - A tree object holding roots and stored nodes, and a batch object that
    appends blocks, adds delivered nodes, truncates and commits into its
    tree.
  - Proof planning and assembly (block, upgrade and additional nodes), and
    proof verification into a batch.
  - Byte seeks, byte offsets and ranges; older roots; upgradeability of a
    length; clearing; the audit helper; and the lowest-common-ancestor reorg.
  - Hashes are symbolic terms, so two hashes are equal exactly when they hash
    the same structure. This idealises collision resistance.
- **The oplog** (`Oplog`). One storage file with:
  - two 4096-byte header slots, written alternately, each with a version
    counter;
  - entries from byte 8192 on.

  Every record is framed as a 4-byte checksum, a 4-byte word holding twice
  the payload length plus a "more entries of this batch follow" flag, and
  the payload. Opening picks the newest slot that checks out, then replays
  whole batches up to the first frame that does not. A torn or corrupted
  batch is dropped entirely. Flushing a header writes the other slot and
  logically empties the entry region.
- **Core bookkeeping** (`CoreEngine`). A core's header holds:
  - the tree length, byteLength, fork and signature;
  - the reorg hint list (at most four, kept in ancestor order);
  - an ordered key/value list of user data.

  The core's operations are append, truncate, verify (block and upgrade),
  reorg and user data. Each reports an update status and a drop/append
  range.
- **The bitfield** (`Bitfield`). A sparse set of bits kept as pages of
  32-bit words in a map from page number to array, with set/get, flush to
  storage and reopen.

The tree, oplog, core and bitfield follow the behaviour their test suites
specify. The scenario members (`BasicAppend`, `AppendTruncate`, `SetAndGet`,
...) replay most of those tests step by step through the modelled
operations and prove the expectations they check. The tests that are not
replayed, and the expectations a scenario leaves to the general lemmas, are
listed under "## Left out".

Storage I/O is a byte sequence plus, where a test injects a failure, a
failure flag. The checksum and the signature check are function parameters.
Where the Dafny contract needs a property of the checksum (that it notices a
changed byte), that property is a precondition.

## Model

| member | source | states |
|---|---|---|
| Caps.TreeSignable | lib/caps.js:19-26 | the 80-byte buffer filled through the encoder equals `Signable(hash, length, fork)` |
| Caps.TreeSignableLegacy | lib/caps.js:28-34 | the 48-byte buffer filled through the encoder equals `SignableLegacy(hash, length, fork)` |
| Caps.EncodeState.Raw | lib/caps.js:21-22 | raw bytes land at the cursor, the cursor advances by their length, and every other byte of the buffer is kept |
| Caps.EncodeState.Uint64Encode | lib/caps.js:23-24 | 8 little-endian bytes of `n` land at the cursor, the cursor advances by 8, and the rest is kept |
| Caps.SignableLayout | lib/caps.js:19-26 | the signable is 80 bytes: TREE at 0..32, the hash at 32..64, the length at 64..72 and the fork at 72..80, both as LE uint64 |
| Caps.SignableLegacyLayout | lib/caps.js:28-34 | the legacy signable is 48 bytes: the hash, then the length and the fork as LE uint64 |
| Caps.SignableExtendsLegacy | lib/caps.js:19-34 | the new signable is exactly the TREE namespace followed by the legacy signable |
| Caps.SignableSharedPrefix | lib/caps.js:11-21 | every new-format signable starts with the same 32-byte namespace |
| Caps.ReadSignableRoundTrip | lib/caps.js:19-26 | decoding a signable gives back the hash, the length and the fork |
| Caps.ReadSignableLegacyRoundTrip | lib/caps.js:28-34 | decoding a legacy signable gives back the hash, the length and the fork |
| Caps.SignableInjective | lib/caps.js:19-34 | two signables (of either format) are equal if and only if their (hash, length, fork) are equal |
| Bytes.FromToLittleEndian | lib/caps.js:23-24 | reading back the little-endian encoding of `n` in `width` bytes gives `n` |
| Bytes.Uint64Injective | lib/caps.js:23-24 | two uint64 encodings are equal if and only if the numbers are |
| FlatTree.IndexBijective | test/browser/merkle-tree.spec.ts:508-536 | a flat-tree index determines its depth and offset, and the reverse |
| FlatTree.Children | test/browser/merkle-tree.spec.ts:508-536 | the children of an odd index sit one level lower, split its span in two, are siblings and have it as parent |
| FlatTree.ParentChildren | test/browser/merkle-tree.spec.ts:508-536 | every index is the left or the right child of its parent, with its sibling as the other child |
| FlatTree.FullRootsInjective | test/browser/merkle-tree.spec.ts:508-536 | two lengths with the same full roots are equal |
| FlatTree.FoldAligned | test/browser/merkle-tree.spec.ts:553-561 | appending the aligned subtree `x` to the roots of the length before it and merging gives the roots of the length it ends at |
| MerkleNodes.RootsSize | test/browser/merkle-tree.spec.ts:377-393 | the roots' sizes add up to the byte length of the blocks |
| MerkleNodes.RootsBinding | test/browser/merkle-tree.spec.ts:350-375 | two block sequences with the same tree hash are equal |
| MerkleNodes.NodeAtBinding | test/browser/merkle-tree.spec.ts:199-215 | two trees that agree on a node agree on every block under it |
| Merkle.MerkleTree.constructor | test/browser/merkle-tree.spec.ts:553-561 | an opened empty tree has length, byteLength and fork 0, no roots and no nodes |
| Merkle.MerkleTree.Get | test/browser/merkle-tree.spec.ts:415-424 | a node is found exactly when it is stored; a stored node is the true node over the blocks; a complete tree has every node inside its length |
| Merkle.MerkleTree.GetRoots | test/browser/merkle-tree.spec.ts:426-462 | `getRoots(len)` gives the full roots of `len`, equal to the roots the tree had at that length, and the current roots at the current length; missing nodes or a length beyond the tree give an error |
| Merkle.MerkleTree.Upgradeable | test/browser/merkle-tree.spec.ts:464-506 | a length is upgradeable if and only if every full root of it is stored; a complete tree can upgrade to every length up to its own |
| Merkle.UpgradeableCloneScenario | test/browser/merkle-tree.spec.ts:464-506 | a clone holding nodes {3, 8} can upgrade to lengths 0, 4 and 5 and not to 1, 2 or 3 |
| Merkle.SmallRoots | test/browser/merkle-tree.spec.ts:491-505 | the full roots of lengths 1..5 are [0], [1], [1, 4], [3] and [3, 8] |
| Merkle.MerkleTree.MissingNodes | test/browser/merkle-tree.spec.ts:6-18 | the count of missing ancestors of an index stops at the first stored or spanning ancestor; for a complete tree it is 0 |
| Merkle.MerkleTree.Clear | test/browser/merkle-tree.spec.ts:415-424 | after clearing, length, byteLength and fork are 0, there are no roots or nodes, and every `get` fails |
| Merkle.Batch.constructor | test/browser/merkle-tree.spec.ts:350-360 | a batch starts from its tree's length, byteLength, fork, roots and blocks, with no staged nodes |
| Merkle.Batch.Append | test/browser/merkle-tree.spec.ts:553-561 | appending a block grows length by one and byteLength by its size, stores its leaf, keeps the staged nodes, and keeps the roots equal to the roots of the blocks |
| Merkle.MergeStep | test/browser/merkle-tree.spec.ts:350-375 | merging the two last sibling roots into their parent keeps the tiling, the merged span and the total size |
| Merkle.Batch.AddNodes | test/browser/merkle-tree.spec.ts:199-215 | delivered nodes join the staged nodes and nothing else changes; sound nodes keep the batch sound |
| Merkle.Batch.SetFork | test/browser/merkle-tree.spec.ts:538-551 | only the fork changes |
| Merkle.Batch.Truncate | test/browser/merkle-tree.spec.ts:538-551 | truncating beyond the length is an error that changes nothing; otherwise the length, fork, ancestors, nodes and blocks are cut to the new length, and soundness and completeness are kept |
| Merkle.TruncatedSound | test/browser/merkle-tree.spec.ts:538-551 | the nodes kept below the new length are still the true nodes of the cut blocks |
| Merkle.TruncatedComplete | test/browser/merkle-tree.spec.ts:538-551 | after a cut every node inside the new length is still available |
| Merkle.GrownSound | test/browser/merkle-tree.spec.ts:350-375 | roots computed for grown blocks are the roots of those blocks, and the stored nodes stay true |
| Merkle.CollectedHonest | test/browser/merkle-tree.spec.ts:426-462 | roots collected from the store for a shorter length are the roots of that prefix |
| Merkle.Batch.Commit | test/browser/merkle-tree.spec.ts:350-375 | the tree takes the batch's length, byteLength, fork, roots, blocks and staged nodes; sound and complete batches commit sound and complete trees |
| MerkleProof.ProofPlan | test/browser/merkle-tree.spec.ts:20-104 | a plan only has a block part for a block request and an upgrade part for an upgrade request; without an upgrade there are no additional nodes; a bad request is `BadArgument` |
| MerkleProof.PlanBlockOnly | test/browser/merkle-tree.spec.ts:20-32 | block 4 asking for 2 uncle levels in a 10-block tree proves nodes [10, 13] and nothing else |
| MerkleProof.SubstituteBlockFour | test/browser/merkle-tree.spec.ts:34-50 | the root 7 above block 4 is replaced by the block's own uncle path, so the block proof carries [10, 13, 3] |
| MerkleProof.PlanUpgradeFull | test/browser/merkle-tree.spec.ts:34-50 | block 4 plus an upgrade 0→10 proves [10, 13, 3] with upgrade [17] |
| MerkleProof.PlanUpgradeAdditional | test/browser/merkle-tree.spec.ts:52-68 | block 4 plus an upgrade 0→8 proves [10, 13, 3], no upgrade nodes and additional [17] |
| MerkleProof.UnclesOfBlockZero | test/browser/merkle-tree.spec.ts:70-86 | the right uncles of block 0 are [2, 5, 11] |
| MerkleProof.PlanUpgradeFromExisting | test/browser/merkle-tree.spec.ts:70-86 | block 1 plus an upgrade 1→10 proves no block nodes and upgrade [5, 11, 17] |
| MerkleProof.PlanUpgradeFromExistingAdditional | test/browser/merkle-tree.spec.ts:88-104 | block 1 plus an upgrade 1→6 proves upgrade [5, 9] and additional [13, 17] |
| MerkleProof.SubstitutePosition | test/browser/merkle-tree.spec.ts:34-50 | the substituted root is taken out of the candidate list at some position, and the rest keep their order |
| MerkleProof.PlanInside | test/browser/merkle-tree.spec.ts:20-104 | every node a valid plan asks for lies inside the tree's length |
| MerkleProof.Prove | test/browser/merkle-tree.spec.ts:20-104 | a proof lays out exactly the planned nodes with the tree's fork; a bad plan is its error; a complete tree always proves a valid request; a sound tree's proof carries true nodes |
| MerkleProof.Assemble | test/browser/merkle-tree.spec.ts:20-104 | the proof is laid out from the plan; a missing node is the only error, and a complete tree has none |
| MerkleVerify.CombineHonest | test/browser/merkle-tree.spec.ts:199-215 | hashing two true siblings gives their true parent |
| MerkleVerify.CombineBinds | test/browser/merkle-tree.spec.ts:199-215 | if a combined hash matches the true parent, both children are the true children |
| MerkleVerify.ClimbShape | test/browser/merkle-tree.spec.ts:199-215 | climbing from a node succeeds exactly when the uncles have the node's uncle indices |
| MerkleVerify.ClimbHonest | test/browser/merkle-tree.spec.ts:199-215 | climbing with true uncles reaches the true ancestor |
| MerkleVerify.ClimbBinds | test/browser/merkle-tree.spec.ts:199-215 | a climb that reaches a true ancestor's hash started from a true node with true uncles |
| MerkleVerify.ServeIndices | test/browser/merkle-tree.spec.ts:217-232 | served nodes have exactly the wanted indices |
| MerkleVerify.VerifyTree | test/browser/merkle-tree.spec.ts:199-215 | a block proof's result is its climb; the path nodes it yields are true whenever the root it reaches is |
| MerkleVerify.VerifyUpgrade | test/browser/merkle-tree.spec.ts:234-261 | an upgrade verifies only when its nodes are the wanted ones and its additional nodes follow on from `start + length`; it then extends the batch past them to `UpgradeEnd`, with the proof's fork and a signature `accepts` takes over that tree; a faithful upgrade always verifies and gives the source's whole log |
| MerkleVerify.AppendAdditional | test/browser/merkle-tree.spec.ts:234-261 | the additional nodes are appended exactly when each starts where the batch ends; the batch then ends where the last one ends, and honest ones extend an honest batch to the whole source log |
| MerkleVerify.Verify | test/browser/merkle-tree.spec.ts:199-261 | errors are InvalidProof, MissingNode or InvalidSignature; an accepted batch has the length `Target` (the end of the additional nodes for an upgrade), the proof's fork and an accepted signature; a verified block below the length is the tree's block; a delivered proof always verifies, to the source's whole log when it carries an upgrade |
| MerkleRoundTrip.ProvedUpgradeDelivered | test/browser/merkle-tree.spec.ts:199-261 | the proof a source tree builds for an upgrade from the clone's length to any `len` up to its own length is a delivered proof of the source's blocks |
| MerkleRoundTrip.UpgradeRoundTrip | test/browser/merkle-tree.spec.ts:199-261 | proving an upgrade from a clone's length to any `len` up to the source's length, verifying it and committing gives the clone the source's blocks, length, byteLength, roots and fork |
| MerkleRoundTrip.CommitAll | test/browser/merkle-tree.spec.ts:234-261 | committing a batch that holds the source's blocks makes the tree equal to the source |
| MerkleRoundTrip.HashBinding | test/browser/merkle-tree.spec.ts:350-375 | two trees have the same hash if and only if they hold the same blocks |
| MerkleRoundTrip.TreeHashScenario | test/browser/merkle-tree.spec.ts:350-375 | equal trees hash equally; a batch hashes like its tree until it appends; the appended hash differs and becomes the tree's hash on commit; the second tree catches up the same way |
| MerkleSeek.Seek | test/browser/merkle-tree.spec.ts:377-413 | a seek beyond byteLength is `BadArgument`; a complete tree never misses a node; the result is the block holding the byte and the byte's offset inside it |
| MerkleSeek.LinearSeek | test/browser/merkle-tree.spec.ts:400-410 | the test's linear scan over the leaves finds the block at the byte |
| MerkleSeek.SeekAgreesWithScan | test/browser/merkle-tree.spec.ts:390-398 | for every byte below byteLength, the tree seek and the linear scan give the same block and offset |
| MerkleSeek.ByteOffset | test/browser/merkle-tree.spec.ts:199-215 | an index starting beyond the length is `BadArgument`; the offset is the byte length of the blocks before the node |
| MerkleSeek.ByteRange | test/browser/merkle-tree.spec.ts:217-232 | an index ending beyond the length is `BadArgument`; the range is the node's byte offset and the size of its blocks |
| MerkleAudit.AuditRootsMeans | test/browser/merkle-tree.spec.ts:508-521 | the audit accepts the roots exactly when their indices are the full roots and every root checks out |
| MerkleAudit.CheckSound | test/browser/merkle-tree.spec.ts:523-536 | every true node of a sound tree checks out |
| MerkleAudit.AuditSound | test/browser/merkle-tree.spec.ts:339-347 | the audit passes on a sound and complete tree |
| MerkleAudit.CheckDetects | test/browser/merkle-tree.spec.ts:523-536 | a parent whose stored child is not the true child fails the check |
| MerkleReorg.CommonPrefixUnique | test/browser/merkle-tree.spec.ts:538-551 | the number of ancestors is unique |
| MerkleReorg.FirstDiverging | test/browser/merkle-tree.spec.ts:538-551 | walking the remote roots finds the first root the local store does not hold, with the shared prefix before it |
| MerkleReorg.Reorg | test/browser/merkle-tree.spec.ts:538-551 | the ancestors found by asking the remote for nodes are the length of the common prefix of the local and the remote blocks |
| MerkleReorg.CommitReorg | test/browser/merkle-tree.spec.ts:538-551 | committing a reorg gives the tree the remote's blocks, length, roots and byteLength, with the new fork, keeping only nodes below the ancestors |
| MerkleReorg.ReorgCommit | test/browser/merkle-tree.spec.ts:263-348 | after a reorg and commit, the ancestors are the common prefix and the local tree equals the remote, at the remote's fork |
| MerkleReorg.SmallGapScenario | test/browser/merkle-tree.spec.ts:263-270 | a tree of 8 against a remote of 10 has exactly 8 ancestors |
| MerkleReorg.BiggerGapScenario | test/browser/merkle-tree.spec.ts:272-279 | a tree of 1 against a remote of 20 has exactly 1 ancestor |
| MerkleReorg.ShorterRemoteScenario | test/browser/merkle-tree.spec.ts:281-288 | a tree of 10 against a remote of 5 has exactly 5 ancestors |
| MerkleReorg.SimpleForkScenario | test/browser/merkle-tree.spec.ts:290-310 | two trees of 5 that each append a different block have exactly 5 ancestors |
| MerkleReorg.LongForkScenario | test/browser/merkle-tree.spec.ts:312-337 | the same fork followed by 100 equal blocks on each side still has exactly 5 ancestors |
| Oplog.Encode | test/browser/oplog.spec.ts:351-370 | a frame is 8 bytes longer than its payload and ends with the payload |
| Oplog.DecodeEncoded | test/browser/oplog.spec.ts:38-85 | decoding a frame written anywhere in a file gives back its payload, its partial flag and the offset after it |
| Oplog.DecodeDetects | test/browser/oplog.spec.ts:386-423 | a byte change in a frame that changes its checksum makes the frame unreadable |
| Oplog.EncodeBatch | test/browser/oplog.spec.ts:351-370 | a batch takes 8 bytes plus its payload per entry |
| Oplog.ReadBatch | test/browser/oplog.spec.ts:386-423 | a read batch is never empty and ends exactly at its framed size |
| Oplog.Replay | test/browser/oplog.spec.ts:249-300 | replay extends the entries read so far, and the bytes it passes equal the framed size of what it adds |
| Oplog.ScanReplay | test/browser/oplog.spec.ts:249-300 | the frame-by-frame scan with a pending batch gives the same entries and end as batch-by-batch replay |
| Oplog.Recover | test/browser/oplog.spec.ts:200-247 | opening fails only with `Corruption`; otherwise the header is the newest valid slot and byteLength is the framed size of the entries |
| Oplog.RecoverRefused | test/browser/oplog.spec.ts:229-242 | opening fails if and only if neither slot checks out and the header region is not blank |
| Oplog.RecoverEmpty | test/browser/oplog.spec.ts:38-47 | an empty file opens with no header and no entries |
| Oplog.Newest | test/browser/oplog.spec.ts:114-147 | the current header is the valid slot with the higher version, slot 0 on a tie, and none when neither is valid |
| Oplog.NextSlot | test/browser/oplog.spec.ts:114-147 | the next header write goes to the slot that is not current |
| Oplog.SlotWritten | test/browser/oplog.spec.ts:114-147 | a slot written with a version and a header reads back as that version and header |
| Oplog.SlotKept | test/browser/oplog.spec.ts:149-198 | a write outside a slot leaves what that slot reads unchanged |
| Oplog.RecoverFlushed | test/browser/oplog.spec.ts:62-69 | after a header flush the file opens with the new header, the next version in the other slot, and no entries |
| Oplog.FlushedSlots | test/browser/oplog.spec.ts:114-147 | after a flush the current header is the one just written, in the other slot |
| Oplog.FlushedOther | test/browser/oplog.spec.ts:149-198 | a flush leaves the slot it does not write unchanged |
| Oplog.AppendRecovered | test/browser/oplog.spec.ts:71-79 | a batch written at the end of a recovered file opens as the old entries followed by the batch |
| Oplog.AppendSynced | test/browser/oplog.spec.ts:351-384 | an append to a tight file opens as the old entries plus the batch and leaves the file tight |
| Oplog.TornUnread | test/browser/oplog.spec.ts:265-275 | the torn frame the test writes is never read as a batch |
| Oplog.TornIgnored | test/browser/oplog.spec.ts:277-283 | a torn frame after the entries does not change what the file opens to |
| Oplog.TailOverwritten | test/browser/oplog.spec.ts:285-295 | a valid entry written over an unreadable tail opens as the old entries plus that entry |
| Oplog.LastByteCorrupted | test/browser/oplog.spec.ts:407-418 | corrupting the last byte of a batch in a way the checksum detects reopens the file as it was before the whole batch |
| Oplog.BatchCorrupted | test/browser/oplog.spec.ts:407-418 | a batch whose last byte is corrupted that way does not read at all |
| Oplog.LongFrameUnread | test/browser/oplog.spec.ts:178-184 | a slot whose length word claims more than the slot holds does not read |
| Oplog.VersionByteFlipped | test/browser/oplog.spec.ts:216-235 | changing the first version byte of a valid slot, under a checksum that notices single-byte changes, makes that slot unreadable |
| Oplog.OtherSlotWins | test/browser/oplog.spec.ts:178-193 | when a write spoils one slot and the other is valid, the file opens with the other slot's header and the same entries |
| Oplog.CurrentOfOne | test/browser/oplog.spec.ts:216-227 | with one slot unreadable, the other is current |
| Oplog.ScanEntries | test/browser/oplog.spec.ts:277-283 | the loop over frames computes the specification scan from byte 8192 |
| Oplog.OpenFile | test/browser/oplog.spec.ts:237-242 | opening fails exactly when recovery does, with `Corruption`; otherwise it returns the recovered header and entries and a file cut after them that recovers the same |
| Oplog.WriteBatch | test/browser/oplog.spec.ts:351-384 | the batch is written at 8192 + byteLength and byteLength grows by its framed size; on a tight file the result opens with the batch appended |
| Oplog.Log.constructor | test/browser/oplog.spec.ts:44 | a new log over a file has no header and no entries; over an empty file it is in step with storage |
| Oplog.Log.Open | test/browser/oplog.spec.ts:51-60 | an unrecoverable file is `Corruption` and changes nothing; otherwise the log takes the recovered header and entries, in step with storage |
| Oplog.Log.Flush | test/browser/oplog.spec.ts:302-349 | a failing write is `WriteFailed` and changes nothing; otherwise the other slot holds the new header with the next version, the entries are emptied, and the slot not written is unchanged |
| Oplog.Log.Append | test/browser/oplog.spec.ts:351-370 | the batch is framed at the end of the entries; length and byteLength grow by the batch; an in-step log stays in step |
| OplogScenarios.BasicAppend | test/browser/oplog.spec.ts:38-85 | a reader sees header "h" with [a, b], then "i" with no entries, then "i" with [c] |
| OplogScenarios.AlternatingHeaders | test/browser/oplog.spec.ts:114-147 | four flushes use slots 0, 1, 0, 1, and each reopen shows the last header |
| OplogScenarios.OneCorruptedHeader | test/browser/oplog.spec.ts:149-198 | headers 1, 2 and 3 each read back; after "hello world" is written over slot 0, the file opens with header 2 |
| OplogScenarios.HeaderInvalidChecksum | test/browser/oplog.spec.ts:200-247 | header "b" reads back; after slot 1's version byte is spoiled "a" wins; after slot 0's is spoiled too, opening fails with `Corruption` |
| OplogScenarios.MalformedEntry | test/browser/oplog.spec.ts:249-300 | the byteLength after [a, b] is 18; a torn frame there is ignored, and a later append of c reads as [a, b, c] |
| OplogScenarios.HeaderWriteFails | test/browser/oplog.spec.ts:302-349 | a failing header write is an error and the log still opens with its header and [a, b]; the retried flush opens with the new header and no entries |
| OplogScenarios.MultiAppend | test/browser/oplog.spec.ts:351-384 | a batch of four gives length 4 and byteLength 32+1+2+3+1 and reads back in order |
| OplogScenarios.AtomicAppend | test/browser/oplog.spec.ts:386-423 | length 5 and byteLength 40+1+1+2+3+1; after the last byte is corrupted, the log reopens with length 1 and [0] |
| OplogScenarios.HelloWorldUnread | test/browser/oplog.spec.ts:178-184 | slot 0 does not read after "hello world" is written at offset 0 |
| OplogScenarios.SecondFlip | test/browser/oplog.spec.ts:229-242 | spoiling both slots' version bytes leaves a file that does not open |
| CoreEngine.Status | test/browser/core.spec.ts:200-318 | the status has the low bit set exactly on an append and the high bit exactly on a truncation |
| CoreEngine.AddHint | test/browser/core.spec.ts:46-105 | the hint list never exceeds four entries and ends with the new hint |
| CoreEngine.AddHintAppends | test/browser/core.spec.ts:56-78 | with room and no larger ancestors, a hint is simply appended |
| CoreEngine.AddHintOrdered | test/browser/core.spec.ts:80-96 | adding a hint keeps the list ordered by ancestors, drops the oldest beyond the cap, and drops the hints with more ancestors than the new one |
| CoreEngine.ReorgHintsScenario | test/browser/core.spec.ts:56-82 | the hints after the first three truncations are [(0,1,3)], [(0,1,3), (1,2,3)] and [(2,3,2)] |
| CoreEngine.ReorgHintsCapScenario | test/browser/core.spec.ts:84-96 | a fifth hint with equal ancestors pushes the oldest out, leaving four |
| CoreEngine.UpsertLookup | test/browser/core.spec.ts:107-125 | after setting a key, looking it up gives the new value (or none after a delete), and every other key is unchanged |
| CoreEngine.UpsertUnique | test/browser/core.spec.ts:107-125 | user-data keys stay unique |
| CoreEngine.UpsertKeysReplace | test/browser/core.spec.ts:124-125 | replacing an existing key keeps the key order |
| CoreEngine.UpsertKeysAdd | test/browser/core.spec.ts:115-119 | a new key goes at the end |
| CoreEngine.UpsertKeysRemove | test/browser/core.spec.ts:121-122 | deleting a key removes just that key from the order |
| CoreEngine.UpsertAt | test/browser/core.spec.ts:107-125 | the list after an upsert: appended, unchanged, replaced in place, or with the entry removed |
| CoreEngine.UserDataScenario | test/browser/core.spec.ts:107-125 | the four edits of the test give exactly the lists it expects |
| CoreEngine.PrefixExtends | test/browser/core.spec.ts:7-44 | after an append the stored blocks are the old blocks followed by the batch |
| CoreEngine.PrefixBelow | test/browser/core.spec.ts:46-105 | after a truncation the stored blocks are the old prefix up to the new length |
| CoreEngine.Core.constructor | test/browser/core.spec.ts:320-333 | a new core has an empty tree, no hints, no user data and no blocks |
| CoreEngine.Core.Reopen | test/browser/core.spec.ts:98-104 | a reopened core has the stored header and blocks |
| CoreEngine.Core.Append | test/browser/core.spec.ts:7-44 | returns the old length as the first seq number; length and byteLength grow by the batch; the blocks are appended; the update is status 0b01 with range (start old length, length of the batch) |
| CoreEngine.Core.AddReorgHint | test/browser/core.spec.ts:46-105 | the hint list becomes `AddHint` of the old list |
| CoreEngine.Core.Truncate | test/browser/core.spec.ts:46-105 | truncating beyond the length is `BadArgument` and changes nothing (as is the model-only `MissingNode` over a kept block the core does not hold, see "## Left out"); otherwise length, fork, signature and the kept blocks' byteLength, a new hint, and status 0b10 with a drop range |
| CoreEngine.Core.Verify | test/browser/core.spec.ts:135-164 | an invalid proof or signature is an error; a stale upgrade does nothing; a fresh upgrade or block is applied with its update |
| CoreEngine.Core.Reorg | test/browser/core.spec.ts:282-315 | a reorg's ancestors beyond either length is an error; otherwise the core takes the remote's length, byteLength, fork and signature, keeps the blocks below the ancestors, adds a hint and reports the drop |
| CoreEngine.Core.Rewind | test/browser/core.spec.ts:282-315 | the core takes the new length, fork and signature, keeps blocks below the ancestors and adds the hint |
| CoreEngine.Core.UserData | test/browser/core.spec.ts:107-125 | the user data becomes the upsert of the old list, and nothing else changes |
| CoreEngine.Place | test/browser/core.spec.ts:7-44 | writing a batch at a position stores each block at its index and keeps the rest |
| CoreEngine.Served | test/browser/core.spec.ts:183-192 | whatever length was requested, the upgrade a writer serves carries its own length, byteLength and signature |
| CoreEngine.VerifyBackToBack | test/browser/core.spec.ts:166-198 | two upgrades verified one after the other leave the clone at the writer's length, byteLength and signature |
| CoreScenarios.AppendWalk | test/browser/core.spec.ts:7-44 | seq numbers 0 and 2, then length 3, byteLength 13 and blocks hello, world, hej |
| CoreScenarios.AppendTruncate | test/browser/core.spec.ts:46-105 | the lengths, byteLengths, forks and hint lists after each truncation, and the reopened header, are those the test expects |
| CoreScenarios.FirstCut | test/browser/core.spec.ts:49-61 | after append and truncate(3, 1): length 3, byteLength 12, fork 1, hints [(0,1,3)] |
| CoreScenarios.SecondCut | test/browser/core.spec.ts:63-78 | after append and truncate(3, 2): fork 2 and hints [(0,1,3), (1,2,3)] |
| CoreScenarios.ThirdCut | test/browser/core.spec.ts:80-82 | truncate(2, 3) leaves hints [(2,3,2)] |
| CoreScenarios.AppendAndCut | test/browser/core.spec.ts:84-94 | append one block and truncate back to 2 adds the hint for the new fork |
| CoreScenarios.SameAncestorHints | test/browser/core.spec.ts:84-96 | the four later truncations leave exactly four hints |
| CoreScenarios.Sizes | test/browser/core.spec.ts:58-59 | hello and world take 10 bytes, with fo 12 |
| CoreScenarios.UserDataWalk | test/browser/core.spec.ts:107-132 | the four edits give the expected lists, and a reopened core sees the last one |
| CoreScenarios.VerifyWalk | test/browser/core.spec.ts:135-164 | the clone reaches length 2 with the writer's signature, and verifying block 1 appends it |
| CoreScenarios.ParallelUpgrades | test/browser/core.spec.ts:166-198 | after two upgrades the clone has length 4 and the writer's signature |
| CoreScenarios.WriterUpdates | test/browser/core.spec.ts:200-318 | the writer's updates are 0b01 (0, 4), 0b10 drop (1, 3), 0b01 (1, 1) and 0b10 drop (1, 1) |
| CoreScenarios.CloneUpdates | test/browser/core.spec.ts:200-318 | the clone's updates are 0b01 (1, 1) with b, 0b00 (3, 1) with d, 0b11 drop (1, 3) and 0b10 drop (1, 1) |
| CoreScenarios.CloneProofs | test/browser/core.spec.ts:224-255 | the clone accepts block 1 with an upgrade to the writer's four blocks, then block 3 alone (as core.spec.ts:248-251 verifies it), with the expected updates |
| Bitfield.SetWord | test/browser/bitfield.spec.ts:5-21 | setting a bit in a word makes it test as the value |
| Bitfield.Located | test/browser/bitfield.spec.ts:23-44 | page, word and bit together determine the index |
| Bitfield.Write | test/browser/bitfield.spec.ts:5-21 | after a write the index reads as the value and every other index reads as before; setting true allocates the page |
| Bitfield.WriteBlank | test/browser/bitfield.spec.ts:5-21 | writing into a freshly allocated blank page is the same as writing into a missing page |
| Bitfield.ReplayLatest | test/browser/bitfield.spec.ts:23-44 | after a sequence of writes each index reads as the last value written to it |
| Bitfield.SetTrueMembers | test/browser/bitfield.spec.ts:23-44 | after setting a set of indices, an index reads true if and only if it was set |
| Bitfield.Bitfield.Open | test/browser/bitfield.spec.ts:57-62 | an opened bitfield's contents are the stored pages |
| Bitfield.Bitfield.Set | test/browser/bitfield.spec.ts:5-21 | the contents become `Write` of the old contents, and stored pages are untouched |
| Bitfield.Bitfield.Allocate | test/browser/bitfield.spec.ts:12-15 | a missing page is added blank and marked dirty |
| Bitfield.Bitfield.Flip | test/browser/bitfield.spec.ts:5-21 | flipping a bit in a present page is `Write` and marks the page dirty |
| Bitfield.Bitfield.Flush | test/browser/bitfield.spec.ts:46-55 | storage becomes the contents and nothing is dirty |
| Bitfield.SetAndGet | test/browser/bitfield.spec.ts:5-21 | 42 reads false, then true; 42000000 reads false, true, then false |
| Bitfield.Reload | test/browser/bitfield.spec.ts:46-63 | after a flush and reopen, 142, 40000 and 1424242424 read true |
| Bitfield.SetAndFlush | test/browser/bitfield.spec.ts:50-54 | the flushed storage holds 142, 40000 and 1424242424 |

## Left out

- MerkleAudit.Check: when exactly one child of a parent is stored, the model's check returns false. The source passes a null child to `crypto.parent`, which throws (merkle-tree.spec.ts:528-531).
- Caps.TreeSignable: lengths and forks are accepted up to 2^64 - 1. The source's JavaScript numbers lose precision above 2^53.
- Caps.TreeSignable: the hash is taken as exactly 32 bytes. The source does not check the hash's length.
- The `TREE` namespace is a fixed but unspecified 32-byte constant. Its BLAKE2b derivation (`crypto.namespace`) and `caps.replicate` are not modelled, because the hash function is outside the model.
- lib/common.js is not part of this model.
- Hashing is modelled by symbolic terms (collision-free by construction). Checksums and signature checks are function parameters.
- The custom header and entry encodings of the oplog (oplog.spec.ts:87-112) are not modelled. The log stores raw bytes.
- The oplog "reset storage" test (oplog.spec.ts:25-36) only deletes a file on disk and has no counterpart.
- OplogScenarios.HeaderWriteFails and CoreScenarios.UserDataWalk use one- or two-byte stand-ins for some strings ("header" as [104], "header two" as [104, 50], "world" as [119], "verden" as [118]). MerkleReorg.Numbered writes the block `"#" + i` as the two bytes [35, i], for the fewer than 256 blocks the tests create. The operations are proved for all byte strings.
- MerkleReorg.Reorg: the local tree is required to be complete, and the remote's roots and the answers to its node requests are taken as honest (they are those of the remote log). The checks of the upgrade proof and of each answer's hash proof, and the rejection of a dishonest remote, are not modelled in the reorg; `MerkleVerify.Verify` models them for proofs.
- The tests "verify proof #1" and "verify proof #2" (merkle-tree.spec.ts:199-232) and "upgrade edgecase when no roots need upgrade" (merkle-tree.spec.ts:234-261) are not replayed on their concrete trees. The first two also carry hash and seek requests, which are not modelled. What they check of the upgrade (the clone takes the tree's length and byte length) is stated for every pair of trees by `MerkleRoundTrip.UpgradeRoundTrip`.
- The "basic tree seeks" test (merkle-tree.spec.ts:377-413) is not replayed on its concrete tree. `MerkleSeek` states what the seeks return for every log.
- MerkleReorg.LongForkScenario checks the ancestor count only. The lengths and the audit before and after the flush (merkle-tree.spec.ts:337-347) hold through `MerkleReorg.ReorgCommit` and the audit lemmas, not through the scenario.
- OplogScenarios.MalformedEntry and OplogScenarios.HeaderWriteFails open the log before the first flush, where the tests flush a never-opened log. Flushing needs the slot state the open establishes.
- OplogScenarios.AtomicAppend assumes the checksum notices the corrupting byte (`Detects`). OplogScenarios.HeaderInvalidChecksum assumes the checksum notices any single-byte change (`ByteDetects`). A CRC-32 has both properties, but the checksum is a parameter here.
- Storage failures are a boolean flag on `Log.Flush`. Other I/O errors, file locking and closing are not modelled.
- CoreEngine.Core.Verify: the tree's verdict on the proof and the signature's verdict are booleans passed in. They are not recomputed through `MerkleVerify.Verify`.
- CoreEngine.Core.Truncate: the signature is an arbitrary byte string. It is not tied to `Caps.Signable`.
- CoreEngine.Core.Truncate: the core holds its blocks in a map and has no Merkle tree. It therefore requires every kept block below the new length to be held, failing with `MissingNode` otherwise, and sums the new byteLength from those blocks. The source reads the byte length from the tree's roots at the new length and has no such error; every truncate in its tests runs on a writer that holds all its blocks.
- CoreEngine.Core.Reopen: the header is persisted as a copy of the header value. The core does not write it through `Oplog.Log`, so the reopen tests rely on that copy, not on the oplog's proven flush/open round trip.
- The `from` (peer) argument of `onupdate` is not modelled. The update carries status, range and value only.
- The proof generator's seek proofs (merkle-tree.spec.ts:106-197) and hash requests are not modelled. Proofs cover block, upgrade and additional nodes.
- MerkleSeek.SeekAgreesWithScan is stated for logs without empty blocks. With empty blocks the tree seek and the linear scan may stop at different blocks for the same byte.
- merkle-tree.spec.ts:370 calls `t.notDeepEqual` on an undefined `t`, and :545 uses an undefined `index`. The model states what those lines evidently intend: the batch hash differs, and the hash request names the wanted node.
- Bitfield.Bitfield.Open loads every stored page eagerly. The random draws of bitfield.spec.ts:23-44 are replaced by `SetTrueMembers`, which holds for every sequence of indices.
- The mutex, replication, sessions, encryption, streams, preload and extension behaviour belong to context files and are not part of this model.
