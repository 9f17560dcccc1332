# Concurrent Merkle trees, and what is built on them

A Dafny model of the compressed-asset stack: the concurrent Merkle tree library, the on-chain program that
wraps it, the asset program above that, the indexers that rebuild the tree from its events, the reference
tree of the tests, and the gumball machine's dispenser.

The tree library stores only a ring buffer of change logs and one rightmost path. The centre of the project
is that this structure behaves, in every run and for every argument, like a much simpler machine:
`VersionedTree.Tree`, all versions of a plain array of 2^depth leaves, of which the last `capacity` may still
be named by a caller's root. The class `MerkleRolls.MerkleRoll` keeps such a tree as ghost state; every
method's contract says that roll and answer change as the plain tree does. What the library promises is then
proved about the plain tree, and carried upwards layer by layer.

## How it is put together

| file | contents |
|---|---|
| `Bits.dfy` | shifts, masks, leading and trailing zeros on natural numbers; the critical bit |
| `Merkle.dfy` | nodes, the free hash, the recursive tree, proofs |
| `VersionedTree.dfy` | the plain machine and the exact answer of every operation |
| `Replay.dfy`, `Ring.dfy` | what replaying logs does to a proof; the ring buffer as a window of versions |
| `ChangeLogs.dfy`, `MerkleRoll.dfy` | the library's objects, updated in place, refining the plain machine |
| `Guarantees.dfy`, `Answers.dfy`, `Concurrency.dfy`, `Runs.dfy` | soundness, stale and inferred proofs, every answer said of the leaves, many writers, whole runs |
| `Canopy.dfy`, `Gummyroll.dfy`, `InstructionAnswers.dfy`, `Instructions.dfy` | the program: canopy, events, instructions, what they answer and tell, and their runs |
| `Events.dfy`, `Ingester.dfy`, `ProofService.dfy` | the latest-wins table and the proofs served from it |
| `SdkIndexer.dfy`, `Backfiller.dfy` | the versioned table, proofs inferred up to a gap, `validateTree` |
| `Pipeline.dfy` | served proof, other instructions, then the replacement |
| `Bubblegum.dfy`, `AssetRuns.dfy` | assets, vouchers and tokens; the asset program's tree among direct calls by others |
| `ReferenceTree.dfy`, `Lockstep.dfy` | the tests' tree, and roll and tree side by side |
| `Dispenser.dfy` | the shuffle of the gumball machine |

## Reading the model

- Hashing is a free constructor: two nodes are equal exactly when they were made from equal parts. A leaf
  handed in by a caller may be any node, also an inner one; proofs have the fixed length of the tree, which
  is why that does no harm.
- A panic, a failed assertion or an arithmetic overflow aborts the call without effect (`Aborted`). The
  assertion at `merkle_roll.rs:398` comes after the writes; the model evaluates it before them.
- A failed instruction of a program leaves the account as it was, canopy included.
- That overflow aborts is an assumption about the build: `contracts/programs/gummyroll/Cargo.toml:24-25` asks for overflow
  checks in the profile of a workspace member, and `contracts/Cargo.toml` sets none for the workspace. It matters for
  `(1 << max_depth) + index` in the canopy lookup, and there only for an index of 2^32 - 2^depth or more; below that the
  sum fits 32 bits and the lookup behaves as modelled in any build.
- `hide` statements only tell the verifier which definitions a proof does not need.

## Where the code does something else than it says

- A proof is said to survive MAX_SIZE later updates (`merkle_roll.rs:20-22`). With more than one slot it survives
  MAX_SIZE - 1: `Concurrency.OneMoreWriterMayFail` gives a write that is rejected after MAX_SIZE updates although its
  leaf never changed, and `Concurrency.WritersFromOneRootAllSucceed` says that MAX_SIZE writers (so MAX_SIZE - 1 before
  the last) are fine. With a single slot it does survive MAX_SIZE, that is one, since an unknown root makes that slot be
  replayed. `Guarantees.JustEvictedProofExact` covers both: exactly when a proof that old is still accepted.
- On a full tree `set_leaf` and `prove_leaf` accept index 2^depth for leaf 0, and no other index past the end
  (`Guarantees.IndexPastTheEndWritesLeafZero`, `WriteLandsExactly`, `ProveLandsExactly`). `fill_empty_or_append` does not
  bound its index: on a full tree every 2^depth + k and so on fills leaf k if that is empty (`AliasFillsEmptyLeaf`, and
  `FillLandsExactly`: nothing else happens). The program stops all this before the library is reached: the canopy lookup
  goes out of bounds (`Gummyroll.CompleteProof`).
- `append` is called an operation that always succeeds (`merkle_roll.rs:147`); it has two errors,
  and `VersionedTree.Append` has them too.
- A proof inferred up to a gap gets the root computed from the same proof (`db.ts:654-659`), so the check after it never
  fails, and a proof is returned for any leaf hash. Its root is that of version g if and only if the hash is the leaf of
  version g (`Database.GetInferredProof`); for an asset written after the gap it is the root of no version at all. The
  roll accepts the proof all the same: while version g is in the window, if and only if the hash is the current leaf
  (`SdkIndexer.GappedProofAcceptedOnChain`). `LeafAfterGapAccepted` is such a case, with events 1 and 3 known, 2 missing,
  and a leaf that event 3 wrote.
- `get_proof_and_root` fills up a list with missing rows by absolute level. That is right for leaves; for an inner node
  the reply is right if and only if no row is missing (`ProofService.GetProofAndRoot`).
- `initialize_indices_chunk` and `add_config_lines` raise `remaining` also after sales, over slots that hold
  sold items. Their contracts say: from then on every draw is a new item if and only if nothing had been sold
  or `remaining` was not raised. `Dispenser.SellTwice` sells one item twice.

## Model

| member | source | states |
|---|---|---|
| Bits.CritBitExact | lib/concurrent-merkle-tree/src/state.rs:50-66 | shift and leading zeros yield the one level at which the paths of two leaves are siblings; none if they are the same leaf |
| Bits.PredecessorPath | lib/concurrent-merkle-tree/src/merkle_roll.rs:160-188 | the paths of n-1 and n run side by side up to the lowest set bit of n and together above it |
| Bits.IsPow2Exact | lib/concurrent-merkle-tree/src/merkle_roll.rs:14-18 | `x & (x-1) == 0` recognises exactly the powers of two |
| Bits.AndMask | lib/concurrent-merkle-tree/src/merkle_roll.rs:374-379 | masking with 2^k - 1 is reduction modulo 2^k |
| Merkle.EmptyNodeCachedIsEmptyNode | lib/concurrent-merkle-tree/src/utils.rs:10-23 | the cached empty nodes are the empty nodes whenever the cache holds only unset or right entries |
| Merkle.Recompute | lib/concurrent-merkle-tree/src/utils.rs:26-32 | the loop yields the root that leaf and proof claim |
| Merkle.FillInProof | lib/concurrent-merkle-tree/src/utils.rs:45-57 | a short proof is completed with empty nodes, a long one panics |
| Merkle.ProofExact | lib/concurrent-merkle-tree/src/utils.rs:26-32 | leaf and proof recompute the tree's root if and only if they are the tree's own |
| Merkle.RootIsInjective | lib/concurrent-merkle-tree/src/merkle_roll.rs:299-308 | two leaf arrays with one root are equal, so that a root found in the buffer names its leaves |
| Merkle.WriteKeepsOtherNodes | lib/concurrent-merkle-tree/src/state.rs:40-48 | a write changes no node off its own path |
| Merkle.EmptySubtree | lib/concurrent-merkle-tree/src/utils.rs:5-7 | a subtree past the used leaves is the empty node of its level |
| ChangeLogs.ChangeLog.ReplaceAndRecomputePath | lib/concurrent-merkle-tree/src/state.rs:40-48 | the slot afterwards holds index, path and root of climbing from the leaf with the proof |
| ChangeLogs.ChangeLog.UpdateProofOrLeaf | lib/concurrent-merkle-tree/src/state.rs:50-66 | patches exactly the proof node, or the leaf, that the log replaces; panics exactly on aliases |
| Replay.ReplayBringsUpTo | lib/concurrent-merkle-tree/src/merkle_roll.rs:276-291 | replaying the logs of k versions brings every touched level of a proof to the later version and leaves the others |
| Replay.VerdictOfReplay | lib/concurrent-merkle-tree/src/merkle_roll.rs:334-346 | the verdict on the replayed proof is the verdict on the leaves |
| Ring.RingBack | lib/concurrent-merkle-tree/src/merkle_roll.rs:300-303 | the wrapping subtraction with the mask finds the slot of the version i steps earlier |
| Ring.RingEqual | lib/concurrent-merkle-tree/src/merkle_roll.rs:300-306 | within one turn of the ring no slot repeats |
| Ring.StoreKeepsWindow | lib/concurrent-merkle-tree/src/merkle_roll.rs:369-388 | storing the log of a write keeps the ring the window of the last versions |
| Ring.LogOfWrite | lib/concurrent-merkle-tree/src/merkle_roll.rs:385-388 | the log computed from a current proof is that of the new version |
| Ring.RightmostPatched | lib/concurrent-merkle-tree/src/merkle_roll.rs:390-396 | a write left of the end keeps the rightmost path the path of the last leaf |
| Ring.RightmostReplaced | lib/concurrent-merkle-tree/src/merkle_roll.rs:397-403 | a write at the end makes its own path the rightmost one |
| Ring.AppendedSibling | lib/concurrent-merkle-tree/src/merkle_roll.rs:165-189 | the appended leaf's siblings from the rightmost path, the lowest set bit and empty nodes alone |
| Ring.AppendStep | lib/concurrent-merkle-tree/src/merkle_roll.rs:165-189 | each round of the append loop hashes to the next node of the new and of the old path |
| Ring.ReplayEffect | lib/concurrent-merkle-tree/src/merkle_roll.rs:259-296 | a whole walk, from a matching slot or over the full buffer, has the effect of the versions it stands for |
| Ring.FullPassOverOneVersion | lib/concurrent-merkle-tree/src/merkle_roll.rs:323-328 | with a buffer size of one, the pass over unused slots amounts to the only version's log |
| MerkleRolls.MerkleRoll.constructor | lib/concurrent-merkle-tree/src/merkle_roll.rs:45-53 | a zeroed account |
| MerkleRolls.MerkleRoll.Initialize | lib/concurrent-merkle-tree/src/merkle_roll.rs:55-73 | from a zeroed account: the plain tree with all leaves empty |
| MerkleRolls.MerkleRoll.GetChangeLog | lib/concurrent-merkle-tree/src/merkle_roll.rs:100-102 | the log of the newest version |
| MerkleRolls.MerkleRoll.UpdateInternalCounters | lib/concurrent-merkle-tree/src/merkle_roll.rs:374-382 | the counters of one more version |
| MerkleRolls.MerkleRoll.FindRootInChangelog | lib/concurrent-merkle-tree/src/merkle_roll.rs:299-308 | finds a root if and only if a version in the window has it, and then the newest such version |
| MerkleRolls.MerkleRoll.WalkRing | lib/concurrent-merkle-tree/src/merkle_roll.rs:276-291 | the loop ends, and has applied the slots from the start to the active one |
| MerkleRolls.MerkleRoll.FastForwardProof | lib/concurrent-merkle-tree/src/merkle_roll.rs:259-296 | proof and leaf are brought up to the newest version; panics exactly on aliases |
| MerkleRolls.MerkleRoll.CheckValidLeaf | lib/concurrent-merkle-tree/src/merkle_roll.rs:311-346 | answers as the plain tree judges; an accepted proof has become the current path |
| MerkleRolls.MerkleRoll.TryApplyProof | lib/concurrent-merkle-tree/src/merkle_roll.rs:351-371 | the plain tree's write if the proof is accepted, else no change |
| MerkleRolls.MerkleRoll.UpdateBuffersFromProof | lib/concurrent-merkle-tree/src/merkle_roll.rs:385-406 | from a current proof: one more version, and the root of its leaves |
| MerkleRolls.MerkleRoll.SetLeaf | lib/concurrent-merkle-tree/src/merkle_roll.rs:226-252 | tree and answer are those of the plain machine, for every argument |
| MerkleRolls.MerkleRoll.ProveLeaf | lib/concurrent-merkle-tree/src/merkle_roll.rs:104-130 | likewise, and nothing changes |
| MerkleRolls.MerkleRoll.InitializeTreeFromAppend | lib/concurrent-merkle-tree/src/merkle_roll.rs:134-145 | the first append is a write at position 0 and never meets the error |
| MerkleRolls.MerkleRoll.Append | lib/concurrent-merkle-tree/src/merkle_roll.rs:148-197 | tree and answer are those of the plain machine |
| MerkleRolls.ClimbFromRightmost | lib/concurrent-merkle-tree/src/merkle_roll.rs:159-189 | one pass turns the rightmost path into root and path of the array with the new leaf, and into that leaf's own rightmost path |
| MerkleRolls.MerkleRoll.FillEmptyOrAppend | lib/concurrent-merkle-tree/src/merkle_roll.rs:202-222 | tree and answer are those of the plain machine |
| MerkleRolls.MerkleRoll.StoredState | lib/concurrent-merkle-tree/src/merkle_roll.rs:24-33 | newest root, empty suffix and rightmost path of a valid roll, in terms of the leaves |
| VersionedTree.WriteIsWellformed | lib/concurrent-merkle-tree/src/merkle_roll.rs:369-406 | a write at an admissible index keeps every invariant of the plain machine |
| VersionedTree.CurrentProofAccepted | lib/concurrent-merkle-tree/src/merkle_roll.rs:311-346 | root, leaf and path of the newest version are always accepted |
| Guarantees.SetLeafIsSound | lib/concurrent-merkle-tree/src/merkle_roll.rs:226-252 | whatever root and proof: success means the leaf was the previous leaf, only it changed, and the root is the new one; failure changes nothing |
| Guarantees.ProveLeafIsSound | lib/concurrent-merkle-tree/src/merkle_roll.rs:104-130 | success means the leaf is in the tree now |
| Guarantees.AppendIsSound | lib/concurrent-merkle-tree/src/merkle_roll.rs:148-197 | an append fails only for an empty leaf or a full tree, and fills the first free position |
| Guarantees.FillNeverOverwrites | lib/concurrent-merkle-tree/src/merkle_roll.rs:202-222 | success means exactly one leaf that was empty became the new leaf: the first free one, or the one the index stands for, by an alias only on a full tree |
| Guarantees.FillLandsExactly | lib/concurrent-merkle-tree/src/merkle_roll.rs:202-222 | which of the two it was, and where every index past the end lands |
| Guarantees.AliasFillsEmptyLeaf | lib/concurrent-merkle-tree/src/merkle_roll.rs:202-222 | on a full tree every index that stands for an empty leaf fills it |
| Guarantees.MatchHasSameLeaves | lib/concurrent-merkle-tree/src/merkle_roll.rs:299-308 | the newest matching root stands for the same leaves as the version meant |
| Guarantees.StaleProofVerdict | lib/concurrent-merkle-tree/src/merkle_roll.rs:311-346 | a proof from any version in the window, even mixed with current nodes, is accepted if and only if the leaf has its old value, else the leaf is reported modified |
| Guarantees.StaleSetLeafVerdict | lib/concurrent-merkle-tree/src/merkle_roll.rs:226-252 | the exact answer to a write from any version in the window, for every index and every tree: out of bounds, aliased, accepted, or leaf modified |
| Guarantees.StaleSetLeafExact | lib/concurrent-merkle-tree/src/merkle_roll.rs:226-252 | where no alias was used it succeeds if and only if the leaf has its old value |
| Guarantees.InferredProofExact | lib/concurrent-merkle-tree/src/merkle_roll.rs:320-345 | with an unknown root, for any window: accepted if and only if the leaf is current, no alias is replayed, and every node no replayed write reaches is current |
| Guarantees.JustEvictedProofExact | lib/concurrent-merkle-tree/src/merkle_roll.rs:277-291 | exactly when a proof from the version just pushed out of the window still works: the root is back, or the window is one slot, or the write no longer replayed is harmless to it |
| Guarantees.IndexPastTheEndWritesLeafZero | lib/concurrent-merkle-tree/src/merkle_roll.rs:235-251 | on a full tree, index 2^depth replaces leaf 0 |
| Guarantees.WriteLandsExactly | lib/concurrent-merkle-tree/src/merkle_roll.rs:235-251 | every other successful write lands on the leaf its index names |
| Guarantees.ProveLandsExactly | lib/concurrent-merkle-tree/src/merkle_roll.rs:112-129 | the same for proofs |
| Answers.StaleProveLeafVerdict | lib/concurrent-merkle-tree/src/merkle_roll.rs:104-130 | the exact answer to a proof from any version in the window, even mixed with current nodes, for every index: out of bounds, aborted, accepted if and only if the leaf is current, or leaf modified |
| Answers.InferredProveLeafExact | lib/concurrent-merkle-tree/src/merkle_roll.rs:104-130 | with a root of no version: accepted if and only if the leaf and every node no replayed write reaches are current; else which of the two errors it is |
| Answers.InferredSetLeafExact | lib/concurrent-merkle-tree/src/merkle_roll.rs:226-252 | the same for a write, with its effect |
| Answers.FillAnswers | lib/concurrent-merkle-tree/src/merkle_roll.rs:202-222 | every answer of a fill, for every root, proof and index: only a leaf that a replayed write has taken makes it append; an unknown root, a wrong proof and an alias are refused |
| Answers.UnknownRootIsNotFilled | lib/concurrent-merkle-tree/src/merkle_roll.rs:202-222 | a fill with a root of no version in the window fails and changes nothing |
| Answers.TakenLeafIsNotFilled | lib/concurrent-merkle-tree/src/merkle_roll.rs:213-218 | a leaf taken before the version named by the root, and not written since: the proof is invalid, and no append is tried |
| Answers.StaleFillVerdict | lib/concurrent-merkle-tree/src/merkle_roll.rs:202-222 | a fill with a proof from any version in the window, even mixed: exactly when it is filled, appended, aborted or refused, and with which error |
| Answers.CutProofRestored | lib/concurrent-merkle-tree/src/utils.rs:45-57 | filling up a proof cut to k nodes restores it if and only if everything cut off was an empty node |
| Answers.CutProofAccepted | lib/concurrent-merkle-tree/src/merkle_roll.rs:104-130 | a current proof cut to k nodes is accepted if and only if the siblings from level k on are empty nodes |
| Concurrency.WritersFromOneRootAllSucceed | contracts/programs/gummyroll/src/lib.rs:271-274 | up to `capacity` replace instructions on distinct leaves, all with root and uncached proof nodes of the same tree, all succeed, and the result is the simultaneous update |
| Concurrency.OrderOfWritersIsIrrelevant | contracts/programs/gummyroll/src/lib.rs:271-274 | whatever their order |
| Concurrency.NextWriterSucceeds | contracts/programs/gummyroll/src/lib.rs:367-403 | one more of them still succeeds while fewer than `capacity` came before |
| Concurrency.WithoutCanopy | contracts/programs/gummyroll/src/lib.rs:127-162 | with no cached level the instructions are the library's operations, so all this holds of those too |
| Concurrency.OneMoreWriterMayFail | lib/concurrent-merkle-tree/src/merkle_roll.rs:20-22 | after `capacity` updates a proof of an unchanged leaf can be rejected |
| Concurrency.CompetingFillsBecomeAppends | contracts/programs/gummyroll/src/lib.rs:490-523 | up to `capacity` insertions at one free position from the same tree all succeed, as consecutive leaves in call order |
| Runs.StepKeepsTree | lib/concurrent-merkle-tree/src/merkle_roll.rs:104-252 | every operation keeps the invariants; only a success changes the tree, by one write |
| Runs.RunOnlyAddsVersions | lib/concurrent-merkle-tree/src/merkle_roll.rs:104-252 | a run never rewrites history nor moves the first free position back |
| Runs.Execute | lib/concurrent-merkle-tree/src/merkle_roll.rs:104-252 | over any run of operations the roll is the plain tree and answers as it does |
| Runs.RunFromScratch | lib/concurrent-merkle-tree/src/merkle_roll.rs:45-252 | from a zeroed account, any run: newest root, empty suffix and rightmost path are those of the leaf array |
| Canopy.NumbersAreDistinct | contracts/programs/gummyroll/src/state/mod.rs:38-63 | number and place of a node determine each other |
| Canopy.EventNodes | contracts/programs/gummyroll/src/state/mod.rs:38-63 | the event of a version carries that version's nodes on one path, under their numbers, and the index and number of its write |
| Canopy.SequenceNumbersNeverDecrease | lib/concurrent-merkle-tree/src/merkle_roll.rs:381-381 | a later version's event never has a smaller number, up to the last number of 64 bits |
| Canopy.CachedPathLengthExact | contracts/programs/gummyroll/src/lib.rs:81-107 | exactly the lengths 2^(p+1) - 2 with p at most the depth are accepted, as p levels |
| Canopy.ZeroedCanopyAgrees | contracts/programs/gummyroll/src/lib.rs:278-304 | a zeroed canopy agrees with the empty tree |
| Canopy.UpdateCanopy | contracts/programs/gummyroll/src/lib.rs:109-125 | after the event of a write the canopy agrees with the new tree; without an event nothing is written |
| Canopy.FillInProofFromCanopy | contracts/programs/gummyroll/src/lib.rs:127-162 | yields exactly the siblings of the cached levels, keeps the agreement, panics exactly past the end of the tree |
| Gummyrolls.Gummyroll.InitEmptyGummyroll | contracts/programs/gummyroll/src/lib.rs:278-304 | succeeds exactly for known sizes and whole levels of canopy, with an empty tree, an agreeing canopy, and the event of version 0 |
| Gummyrolls.Gummyroll.ReplaceLeaf | contracts/programs/gummyroll/src/lib.rs:367-403 | tree and result are those of the plain tree with the proof completed by current nodes; the canopy agrees afterwards, and is untouched by failures |
| Gummyrolls.Gummyroll.VerifyLeaf | contracts/programs/gummyroll/src/lib.rs:441-462 | verifies if and only if the plain tree accepts the completed proof, that is if and only if the leaf is current for a caller with any version in the window (`VerifyingOnAnOldView`) |
| Gummyrolls.Gummyroll.Append | contracts/programs/gummyroll/src/lib.rs:469-484 | needs both authorities; tree and result as the plain append |
| Gummyrolls.Gummyroll.InsertOrAppend | contracts/programs/gummyroll/src/lib.rs:490-523 | tree and result as the plain fill-or-append with the completed proof |
| Gummyrolls.Gummyroll.TransferAuthority | contracts/programs/gummyroll/src/lib.rs:407-438 | only the authority changes authority and append authority, each as named or not at all |
| Gummyrolls.CanopyCompletesStaleProof | contracts/programs/gummyroll/src/lib.rs:367-403 | lower nodes from any version in the window and upper nodes from the current canopy: the replacement succeeds if and only if the leaf is what the caller saw |
| InstructionAnswers.LeafReplacedAnswers | contracts/programs/gummyroll/src/lib.rs:367-403 | every answer of a replacement with its proof completed; success means exactly the leaf at the index changed and the event names it, the sequence number and every node on its path |
| InstructionAnswers.LeafAppendedAnswers | contracts/programs/gummyroll/src/lib.rs:469-484 | every answer of an append; the event names the first free leaf |
| InstructionAnswers.LeafInsertedAnswers | contracts/programs/gummyroll/src/lib.rs:490-523 | every answer of an insertion; the event names the one of its two places that was filled |
| InstructionAnswers.EventTellsTheLeaf | contracts/programs/gummyroll/src/lib.rs:489-523 | after any successful instruction the leaves are the old ones with the new leaf at the event's index |
| InstructionAnswers.InsertingOnAnOldView | contracts/programs/gummyroll/src/lib.rs:490-523 | an insertion by a caller who saw any version in the window: filled at its index, appended, or refused with which error |
| InstructionAnswers.VerifyingOnAnOldView | contracts/programs/gummyroll/src/lib.rs:441-462 | a verification by a caller who saw any version in the window passes if and only if the leaf is what the caller saw |
| Instructions.StepIsOrderly | contracts/programs/gummyroll/src/lib.rs:367-523 | every instruction keeps indices unaliased and positions gapless, and publishes one event if and only if it succeeds |
| Instructions.Run | contracts/programs/gummyroll/src/lib.rs:367-523 | over any run the emitted events are those of the versions, each once, in order |
| Instructions.RunFromScratch | contracts/programs/gummyroll/src/lib.rs:278-523 | from a new account: exactly the events of all versions, each once, in order |
| Events.AllEventsDetermineNodes | contracts/programs/gummyroll/src/state/mod.rs:38-63 | knowing all events up to n, a node is what the newest event touching it says, or empty |
| Events.GetRequiredNodesForProof | nft_api/src/main.rs:390-404 | from the number of any node of the tree: the numbers of its siblings on the way up, then the root's |
| Events.NumberHasLeaf | nft_api/src/main.rs:127-133 | every number of the tree is that of a node above some leaf |
| Ingester.ClItems.Ingest | nft_ingester/src/parsers/gummyroll.rs:118-165 | the table after the upserts of one event |
| Ingester.EventRecorded | nft_ingester/src/parsers/gummyroll.rs:118-165 | one more event: every node's row is that of the newest arrived event touching it |
| Ingester.TableRecords | nft_ingester/src/parsers/gummyroll.rs:118-165 | the same over any sequence of arrivals |
| Ingester.TablesConverge | nft_ingester/src/parsers/gummyroll.rs:118-165 | the table depends only on which events have arrived, not on order or repetition |
| Ingester.FillingOverwrites | nft_ingester/src/parsers/gummyroll.rs:118-165 | with `filling` set, the event's rows get its hashes and number whatever was known; level and leaf of known rows and all other rows stay |
| ProofService.CompleteTableIsTheTree | nft_ingester/src/parsers/gummyroll.rs:118-165 | with all events arrived, each row, or an empty node for a missing one, is the tree's node |
| ProofService.GetProofAndRoot | nft_api/src/main.rs:335-388 | the reply is the right list, rows or empty nodes by level, if and only if no row is missing or the node is a leaf |
| ProofService.AnswerFits | nft_api/src/main.rs:343-386 | an answer has no more rows than were asked for, and a complete one is the requested list, level by level |
| ProofService.ServedNodesAreCurrent | nft_api/src/main.rs:335-421 | with all events arrived the list is the current path and root, each node with its own level and number |
| ProofService.ServeAssetProof | nft_api/src/main.rs:234-273 | the reply is the leaf's current path, and hashing the leaf with it gives the current root |
| SdkIndexer.Database.UpdateChangeLogs | contracts/sdk/indexer/db.ts:62-99 | the table after one event; the event numbered 0 is skipped |
| SdkIndexer.DbKeeps | contracts/sdk/indexer/db.ts:62-99 | after any arrivals the table holds exactly the nodes of the known events, per version |
| SdkIndexer.Database.EmptyNodeAt | contracts/sdk/indexer/db.ts:256-266 | the memoised empty nodes are the empty nodes |
| SdkIndexer.FirstGapIsG | contracts/sdk/indexer/db.ts:440-463 | knowing 1..g and not g+1, the gap query answers g whatever lies beyond |
| SdkIndexer.Database.GenerateRoot | contracts/sdk/indexer/db.ts:675-686 | the root that leaf and proof claim |
| SdkIndexer.Database.GenerateProof | contracts/sdk/indexer/db.ts:578-662 | the path of version g; read or recomputed root; exactly when no proof is returned |
| SdkIndexer.Database.GetInferredProof | contracts/sdk/indexer/db.ts:440-519 | with events 1..g known and g the first gap: the path of version g; the root, which is that of version g if and only if the hash is its leaf; exactly when no proof is returned |
| SdkIndexer.NodeUpTo | contracts/sdk/indexer/db.ts:609-636 | the newest row up to g is the node of version g, a missing one an empty node |
| SdkIndexer.RootAnsweredLast | contracts/sdk/indexer/db.ts:638-644 | the popped row is the root's, and no other is of its level |
| SdkIndexer.GappedProofAcceptedOnChain | lib/concurrent-merkle-tree/src/merkle_roll.rs:226-371 | every such proof, for any leaf hash, is accepted while version g is in the window if and only if the hash is the current leaf |
| SdkIndexer.LeafAfterGapAccepted | contracts/sdk/indexer/db.ts:477-519 | a leaf written after the gap: the inferred root is that of no version, and the proof is accepted |
| Backfiller.ValidateTree | contracts/sdk/indexer/backfiller.ts:10-51 | accepts if and only if every node reached from the left of its level is the hash of its children |
| Backfiller.LeftFilledIsFullyChecked | contracts/sdk/indexer/backfiller.ts:10-51 | on a table filled from the left that is every stored node |
| Backfiller.AcceptedIsTheTree | contracts/sdk/indexer/backfiller.ts:10-51 | on a table filled from the left that holds every node's parent, acceptance means exactly that the table, empty nodes for missing rows, is the Merkle tree of its own leaves |
| Backfiller.AcceptedWithTheRoot | contracts/sdk/indexer/backfiller.ts:10-51 | so with the right root stored, acceptance means exactly that every node of the tree is right |
| Backfiller.WriteGrowsFromLeft | lib/concurrent-merkle-tree/src/merkle_roll.rs:390-403 | accepted writes never skip a position |
| Backfiller.CompletePrefixIsLeftFilled | contracts/sdk/indexer/db.ts:268-295 | the table of a complete prefix of events is filled from the left |
| Backfiller.CompletePrefixStoresParents | contracts/sdk/indexer/db.ts:268-295 | and holds every node's parent |
| Backfiller.CompletePrefixIsTheTree | contracts/sdk/indexer/db.ts:268-295 | and, with empty nodes for missing rows, is the tree of that version |
| Backfiller.ValidateCompletePrefix | contracts/sdk/indexer/backfiller.ts:10-51 | so `validateTree` accepts it |
| Pipeline.ServedProofOutlivesWrites | contracts/programs/gummyroll/src/lib.rs:367-403 | a served proof cut to the uncached levels stays good for fewer than `capacity` writes, if and only if its leaf is unchanged |
| Pipeline.ServeThenReplace | nft_api/src/main.rs:234-273 | the same end to end: tables, service, any instructions, then the replacement |
| Pipeline.IndexAll | nft_ingester/src/parsers/gummyroll.rs:118-165 | both indexers fed with emitted events, in any order and with repetitions, end with the tables the other results speak of |
| Pipeline.RunAndIndex | contracts/sdk/indexer/db.ts:62-99 | any run of instructions, any arrivals: the tables hold what the known events carry |
| Bubblegums.ToNodeIsInjective | contracts/programs/bubblegum/src/state/leaf_schema.rs:107-128 | a leaf hash determines its schema and is never the empty leaf |
| Bubblegums.Bubblegum.CreateTree | contracts/programs/bubblegum/src/lib.rs:327-347 | a new empty tree whose authority is the program's signer for it and whose creator may append |
| Bubblegums.Bubblegum.MintV1 | contracts/programs/bubblegum/src/lib.rs:349-399 | succeeds exactly for the creator while there is room; adds the asset with the next nonce |
| Bubblegums.Bubblegum.Transfer | contracts/programs/bubblegum/src/lib.rs:401-448 | exactly when owner or delegate signed and the tree accepts; the asset was in the tree as claimed and has the new owner |
| Bubblegums.Bubblegum.Delegate | contracts/programs/bubblegum/src/lib.rs:450-494 | exactly when the owner signed and the tree accepts; only the delegate changes |
| Bubblegums.Bubblegum.Burn | contracts/programs/bubblegum/src/lib.rs:496-533 | exactly when owner or delegate signed and the tree accepts; the asset is burnt |
| Bubblegums.Bubblegum.Redeem | contracts/programs/bubblegum/src/lib.rs:535-570 | exactly when the owner signed and the tree accepts (then there is no voucher yet); the asset is out against a voucher |
| Bubblegums.Bubblegum.CancelRedeem | contracts/programs/bubblegum/src/lib.rs:572-604 | exactly when the voucher's owner signed and the tree accepts; the asset is back in its place and the voucher closed |
| Bubblegums.Bubblegum.DecompressV1 | contracts/programs/bubblegum/src/lib.rs:606-789 | exactly for an open voucher, its owner and its metadata; the voucher is closed and one decompression recorded |
| Bubblegums.Bubblegum.EveryAssetIsAccountedFor | contracts/programs/bubblegum/src/lib.rs:349-789 | nonce count is the tree's first free position; each minted asset is one of leaf, open voucher, decompressed, burnt; its leaf is its schema's hash or empty; it is decompressed at most once |
| Bubblegums.ReplacedAsset | contracts/programs/bubblegum/src/utils.rs:12-38 | an accepted replacement of a schema's hash is at the position of its nonce, and the asset was in the tree |
| Bubblegums.ActingOnAnOldView | contracts/programs/bubblegum/src/lib.rs:401-570 | with root and proof of any version in the window the tree accepts if and only if the asset is still in the tree as seen |
| Bubblegums.Execute | contracts/programs/bubblegum/src/lib.rs:349-789 | over any run state and answers are what the single instructions say; every asset keeps its identity, never returns from its end, and never changes unless one of the wallets holding it signed |
| AssetRuns.CallDirectly | contracts/programs/gummyroll/src/lib.rs:367-523 | a direct call of the tree program that the tree's authority did not sign changes nothing |
| AssetRuns.Process | contracts/programs/bubblegum/src/lib.rs:349-789 | over any mixture of asset instructions and such calls the assets, vouchers and tree are what the asset instructions alone leave |
| AssetRuns.CreateAndProcess | contracts/programs/bubblegum/src/lib.rs:327-347 | the same from the creation of the tree on: the authority that matters is the one the creation sets |
| ReferenceTrees.MerkleTree.New | lib/merkle-tree-reference/src/lib.rs:43-52 | panics exactly without a leaf; otherwise a valid tree over the leaves, padded to the next power of two |
| ReferenceTrees.MerkleTree.BuildRoot | lib/merkle-tree-reference/src/lib.rs:55-87 | the queue loop ends with the recursive root of the smallest tree with room for the leaves, and links every node |
| ReferenceTrees.MerkleTree.GetProofOfLeaf | lib/merkle-tree-reference/src/lib.rs:91-108 | the authentication path of the leaf, or a panic past the end |
| ReferenceTrees.MerkleTree.UpdateRootFromLeaf | lib/merkle-tree-reference/src/lib.rs:111-135 | rehashing one path makes every node right again |
| ReferenceTrees.MerkleTree.AddLeaf | lib/merkle-tree-reference/src/lib.rs:145-148 | only that leaf changes and the tree stays valid; a panic past the end |
| ReferenceTrees.MerkleTree.RemoveLeaf | lib/merkle-tree-reference/src/lib.rs:150-153 | the same with an empty leaf |
| ReferenceTrees.MerkleTree.GetLeaf | lib/merkle-tree-reference/src/lib.rs:155-157 | the leaf at the index |
| Lockstep.RunBoth | lib/concurrent-merkle-tree/tests/tests.rs:30-56 | over any run, with the successful writes' own arguments given to the reference tree, both have the same root after every operation, that of the plain leaf array |
| Lockstep.ReplaceWithReferenceProof | lib/concurrent-merkle-tree/tests/tests.rs:105-115 | a replacement with the reference tree's root, leaf and proof always succeeds |
| Dispenser.DrawsConserve | contracts/programs/gumball-machine/src/lib.rs:203-227 | whatever the entropy, drawn and remaining items are together what was there, and drawn ones lie behind |
| Dispenser.BalancedSales | contracts/programs/gumball-machine/src/lib.rs:203-338 | so nothing is sold twice, and when nothing remains exactly the first items have been sold |
| Dispenser.DrawSlots | contracts/programs/gumball-machine/src/lib.rs:221-227 | what every slot holds after one draw |
| Dispenser.DrawsBySlot | contracts/programs/gumball-machine/src/lib.rs:203-338 | the items handed out by many draws, and those that remain slot by slot, from the picks traced back alone |
| Dispenser.UnpickedSlot | contracts/programs/gumball-machine/src/lib.rs:203-338 | a slot no earlier draw picked still holds its item |
| Dispenser.GumballMachine.InitializeIndicesChunk | contracts/programs/gumball-machine/src/lib.rs:454-491 | the next slots are numbered; when `remaining` is raised; and then no sold item can be drawn if and only if none had been sold or it was not raised |
| Dispenser.GumballMachine.AddConfigLines | contracts/programs/gumball-machine/src/lib.rs:494-519 | counts of the items put up for sale, the panics, and the same condition for drawing a sold item |
| Dispenser.GumballMachine.ShuffleAndFetch | contracts/programs/gumball-machine/src/lib.rs:203-227 | one draw, in place: the item handed out, and what every slot holds afterwards |
| Dispenser.GumballMachine.FindAndMint | contracts/programs/gumball-machine/src/lib.rs:285-338 | exactly when a sale is refused; otherwise how many items, and each of them: the one in the slot its draw picks unless an earlier draw of the sale picked that slot, and then the one the picks trace back to; the sales stay in order |
| Dispenser.Sell | contracts/programs/gumball-machine/src/lib.rs:259-340 | over any run of sales no item twice, and all items once nothing remains |
| Dispenser.SetUpAndSell | contracts/programs/gumball-machine/src/lib.rs:454-519 | the same from a new machine, with or without config lines, set up chunk by chunk |
| Dispenser.RaisedRepeatsExactly | contracts/programs/gumball-machine/src/lib.rs:221-227 | after `remaining` is raised, a draw repeats a sold item exactly when it picks a sold slot |
| Dispenser.RaisedIsSafeExactly | contracts/programs/gumball-machine/src/lib.rs:486-489 | no draw can repeat an item if and only if nothing was sold or `remaining` was not raised |
| Dispenser.SellTwice | contracts/programs/gumball-machine/src/lib.rs:454-491 | a machine with two items: set up, one sold, set up again, and that item is sold again |

## Left out

- `initialize_with_root` and `init_gummyroll_with_root`: they leave the first log's path unset and do not check that
  the leaves to the right are empty, so runs start from `initialize` on a zeroed account.
- MerkleRolls.MerkleRoll.Initialize: does not model a second call on a tree in use; the program never makes one, since
  the account must be all zeros.
- Depth 0: the library's size check admits it, but a log then has no path node to hold a leaf, and reading it panics.
- Accounts, signer seeds, cross-program calls, serialisation, event wrapping and rent: an instruction is a guarded
  step; an asset's address is a pair of tree and nonce.
- Hashing itself, and the hashes of metadata and creators, which are numbers.
- Several trees in one table, and the transaction and slot columns: tables here are those of one tree. What a whole
  backfill leaves, events with `filling` set and rows of sequence number 0 mixed with new events, is not followed.
- ProofService.ServeAssetProof: does not model the leaf hash in the reply, which is looked up through other tables.
- Events.GetRequiredNodesForProof: does not model numbers that are no node of the tree.
- SQL, HTTP and log parsing. A query's answer is a parameter, constrained by what the query asks for (`IsAnswer`,
  `IsDbAnswer`, `IsMaxSeq`, `IsFirstGap`); rows of equal level may come in any order. A database answer with fewer
  rows than the tree's root, and the lookup of a leaf's nonce by its hash, are not modelled.
- `digital_asset_types/src/dapi/change_logs.rs`: never fills its result when every row is present.
- `backfill_tree_from_seq_1` and `fetch_and_plug_gaps`: stubs.
- Fetching missing transactions in the backfiller: network calls.
- Shared pointers in the reference tree: its nodes are entries of a list, pointers are positions in it, in the order of
  creation that the identifiers follow.
- Lockstep.RunBoth: does not repeat a write at an index past the end at that index, where the reference tree would panic,
  but at the leaf it lands on; and a fill asks the newest log which of its two places it got.
- Dispenser.GumballMachine.AddConfigLines: does not model where the bytes of the lines go (a line count is used as a
  byte offset there), nor the authority.
- Dispenser.GumballMachine.FindAndMint: does not model the check for single-instruction transactions, payment, and the
  minted metadata; entropy is any function of `remaining`.
- Bubblegums.Bubblegum.DecompressV1: does not model the token and metadata programs, whose steps succeed or fail as a
  parameter says. `compress` is a stub.
- `archive/`, payments, header updates, user interfaces, command-line tools and generated clients.
