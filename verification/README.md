# A verified model of SuwappuDB's execution, commitment and recovery core

SuwappuDB executes blocks of intents optimistically in parallel, commits to the resulting balances with a 256-ary
trie, keeps a DAG of blocks, and recovers by replaying stored blocks or by restoring snapshots. This Dafny project
models those parts and proves what each of them is for:

- **Parallel execution** (`Occ`, `OccMachine`, `OccProof`, `MvStore`, `BlockExecutor`, with `Ledger` as the sequential
  reference). One atomic step is one locked store operation of one transaction, and the scheduler may pick any
  unfinished transaction at any time. Every run of every block, under every interleaving and whether or not the hot-address breaker
  trips, delivers the outcomes and balances of running the intents one after the other; it needs at most one
  validation pass per transaction and cannot deadlock. `BlockExecutors.ExecuteWithRegistry` is the loop itself, over a
  mutable store, proved against the sequential reference.
- **State trie** (`Trie`, `TrieProof`, `StateRoot`). The trie refines a finite map and has a canonical form; honest
  proofs are always accepted; an accepted proof is true of the tree or yields an explicit hash collision. Hashing is a
  parameter, a function from byte strings to 32 bytes, and nothing is assumed about it.
- **DAG store** (`Graph`, `Dag`). Breadth-first paths are shortest, the depth-first search finds exactly the reachable
  cycles, validation accepts exactly the well-formed stores, the children index is the inverse of the parent relation
  exactly when no re-insertion drops a parent, and the two closures are dual exactly when every parent ever named is still an
  ancestor.
- **Persistence** (`ByteCodec`, `Parsing`, `BlockCodec`, `BlockStore`, `Replay`, `Snapshot`). Both byte formats are canonical and
  prefix-free; a tip hash determines a whole chain; replay accepts exactly the consistent logs and reproduces a recorded
  live run; a snapshot restores both state columns and is byte-identical when taken again.
- **Bridge and bundles** (`Bridge`, `Bundle`, `Calls`, `Supply`). Two implementations of transfer and two designs of rollback are
  compared exactly, contract calls are shown to run the bundles that their contracts generate, and overflow is impossible
  in every run if and only if the total supply is at most half of `u128::MAX`.

Source forms are kept: the version store, the state, the bridge, the trie, the DAG store, the block store and the
decoder's cursor are classes whose methods are proved against functions; loops stay loops.

Where the code and its comments differ, the model follows the code:

- The comment at `crates/suwappudb-bridge/src/occ/block_executor.rs:90-96` says that a tripped breaker degrades the remaining pending
  transactions; the code clears every write and runs the whole block again in order.
- The comments at `crates/suwappudb-state/src/dag.rs:194-196` and 222-224 say that a closure never includes its start.
  It does exactly when the start lies on a cycle (`AncestorsOf`, `DescendantsOf`); `SelfParentExample` is such a store. In stores
  that validation accepts the start is never an ancestor of itself, and never a descendant of itself if every parent ever
  named is still an ancestor; `StaleCycleExample` is an accepted store in which it is one, and `NoOwnDescendantsIff` the exact
  condition on the history.
- The comment at `crates/suwappudb-state/src/dag.rs:246-249` takes a block outside every tip's ancestor closure to be reorged out. In
  an accepted store a block can be outside because of a stale index entry; `TipsCoverIff` gives the exact condition and
  `UncoveredExample` the store.
- The comment at `crates/suwappudb-bridge/src/bundle/executor.rs:46-48` says that a reverted bundle leaves the state exactly as it was. Balances are
  restored, but addresses without an entry get a zero entry, which changes the state root; `RevertIsExactIff` and
  `RevertKeepsRootIff` give the exact condition and `RevertLeavesEntries` the bundle.
- The step format documents that a proof step never lists its own byte (`crates/suwappudb-state/src/tree/types.rs:56-57`), but the
  verifier does not check it. `OwnByteMatters` gives the input and `AbsenceIsSoundIff` the exact condition.

## Model

| member | source | states |
|---|---|---|
| `OccProof.RunInv` | crates/suwappudb-bridge/src/occ/block_executor.rs:169-266 | the executor's invariant (logs backed by the store, runs reproducible, columns match what was published, first `passes` transactions settled) holds in every configuration of every run |
| `OccProof.Serializability` | crates/suwappudb-bridge/src/occ/block_executor.rs:134-302 | under every interleaving, a finished run delivers exactly the outcomes and balances of executing the block sequentially |
| `OccProof.Convergence` | crates/suwappudb-bridge/src/occ/block_executor.rs:161-236 | at most `n` validation passes, so the `2n + 4` cap is never reached, and at most `n(n-1)/2` aborts |
| `OccProof.SettledPrefix` | crates/suwappudb-bridge/src/occ/block_executor.rs:202-223 | after the `k`-th pass the first `k` transactions are valid and are never scheduled or aborted again, unless the breaker restarts the block |
| `OccProof.SchedulerIsFree` | crates/suwappudb-bridge/src/occ/block_executor.rs:177-200 | any unfinished pending transaction may take the next step, publishing in any order, so no interleaving is left out |
| `OccProof.CountersAreExact` | crates/suwappudb-bridge/src/occ/block_executor.rs:161-223 | in every run, `passes` counts the validations and `aborts` the transactions they found stale |
| `OccProof.PassIsExact` | crates/suwappudb-bridge/src/occ/block_executor.rs:202-223 | a pass aborts exactly the transactions that are not current in the store it ends with |
| `OccProof.BreakerTripsIff` | crates/suwappudb-bridge/src/occ/block_executor.rs:224-266 | a pass collapses the block exactly if some address is hot, and then everything starts over; otherwise exactly the stale transactions are rescheduled |
| `OccProof.HotIff` | crates/suwappudb-bridge/src/occ/block_executor.rs:224-236 | an address is hot if and only if at least two stale transactions, at least a quarter of the pending ones, wrote it |
| `OccProof.AcceptedRunIsReproducible` | crates/suwappudb-bridge/src/occ/txn.rs:59-80 | in every reachable store, a transaction whose version indexes check out would on re-execution make the same reads and writes with the same outcome, although values are never compared |
| `OccProof.BreakerIsTransparent` | crates/suwappudb-bridge/src/occ/block_executor.rs:225-266 | any two finished runs of a block, collapsed or not, end with the same version store and the same transaction records, fixed by the block and the start state alone |
| `OccProof.EveryRunIsBounded` | crates/suwappudb-bridge/src/occ/block_executor.rs:169-266 | no scheduler can take more than a number of steps fixed by the block |
| `OccProof.NoDeadlock` | crates/suwappudb-bridge/src/occ/block_executor.rs:169-266 | an unfinished configuration always has a next step |
| `OccProof.PassSurvivorsAreCurrent` | crates/suwappudb-bridge/src/occ/block_executor.rs:202-223 | clearing stale transactions in ascending order leaves every survivor valid in the store the pass ends with |
| `OccMachine.StepKeepsInv` | crates/suwappudb-bridge/src/occ/block_executor.rs:307-627 | one read, settlement or published write of one transaction keeps the invariant for all of them and uses up work |
| `MvStores.MvStore.Read` | crates/suwappudb-bridge/src/occ/mv_store.rs:83-94 | the highest version strictly below the reader, else the state's balance, with its source |
| `MvStores.MvStore.Write` | crates/suwappudb-bridge/src/occ/mv_store.rs:101-104 | inserts or overwrites one version and nothing else |
| `MvStores.MvStore.ClearWrites` | crates/suwappudb-bridge/src/occ/mv_store.rs:112-118 | removes every version of one transaction and every address left empty |
| `MvStores.HighestBelow` | crates/suwappudb-bridge/src/occ/mv_store.rs:126-131 | a writer of the address strictly below the bound, with no other writer between it and the bound; none if there is none |
| `MvStores.MvStore.Highest` | crates/suwappudb-bridge/src/occ/mv_store.rs:140-151 | the balance of the last of one address's versions, found in any iteration order |
| `MvStores.MvStore.Finalise` | crates/suwappudb-bridge/src/occ/mv_store.rs:140-151 | one balance per touched address: its last version |
| `MvStores.ReadRefines` | crates/suwappudb-bridge/src/occ/mv_store.rs:83-94 | reading the nested map is reading one column per transaction |
| `MvStores.WriteRefines` | crates/suwappudb-bridge/src/occ/mv_store.rs:101-104 | writing the nested map is writing one column |
| `MvStores.ClearRefines` | crates/suwappudb-bridge/src/occ/mv_store.rs:112-118 | clearing an index empties exactly its column |
| `MvStores.ValidRefines` | crates/suwappudb-bridge/src/occ/txn.rs:59-80 | validation against the nested map and against the columns agree |
| `MvStores.FinaliseRefines` | crates/suwappudb-bridge/src/occ/mv_store.rs:140-151 | applying the final versions to the start state gives the view after the last transaction |
| `MvStores.StoreIsItsColumns` | crates/suwappudb-bridge/src/occ/mv_store.rs:112-118 | stores without empty entries are equal exactly when their columns are |
| `BlockExecutors.StepOn` | crates/suwappudb-bridge/src/occ/block_executor.rs:335-550 | the next locked operation of a transaction, done on the shared store, is the machine's step |
| `BlockExecutors.RunPending` | crates/suwappudb-bridge/src/occ/block_executor.rs:177-200 | under any scheduling the parallel phase ends with all pending transactions done and the invariant kept |
| `BlockExecutors.ValidateAll` | crates/suwappudb-bridge/src/occ/block_executor.rs:202-223 | the pass clears and reports exactly the stale transactions, and tallies their writes per address |
| `BlockExecutors.FindHot` | crates/suwappudb-bridge/src/occ/block_executor.rs:224-236 | the least address with at least two conflicts and a quarter of the pending transactions, or none if there is none |
| `BlockExecutors.Schedule` | crates/suwappudb-bridge/src/occ/block_executor.rs:151-266 | the loop performs a complete run of the machine, reports that run's passes, aborts and hot address, and leaves the one tidy version store of sequential execution |
| `OccProof.HotWasLeast` | crates/suwappudb-bridge/src/occ/block_executor.rs:224-236 | in every run, the hot address of a collapsed configuration was the least over the threshold at a validation pass of that very run, which is returned |
| `BlockExecutors.ExecuteWithRegistry` | crates/suwappudb-bridge/src/occ/block_executor.rs:134-302 | state and outcomes are those of sequential execution, the reported root is the root of the new state, and the report describes a complete run, within the bounds: its passes, its aborts, and the address one of its passes collapsed at, for every scheduling |
| `Calls.UnknownCallsAreTransfers` | crates/suwappudb-bridge/src/occ/block_executor.rs:429-432 | a block runs the same when calls of unknown targets are replaced by transfers of the value from caller to target |
| `Calls.DeploymentsDoNothing` | crates/suwappudb-bridge/src/occ/block_executor.rs:321-334 | module deployments are committed and change nothing |
| `Calls.RuntimeStepsAreSkipped` | crates/suwappudb-bridge/src/occ/block_executor.rs:471-480 | a call skips the steps that need the Move runtime |
| `Calls.TransferStepsPay` | crates/suwappudb-bridge/src/occ/block_executor.rs:471-475 | either shape of transfer step moves its amount from its first to its second account |
| `Calls.CallRunsBundleIff` | crates/suwappudb-bridge/src/occ/block_executor.rs:416-550 | a contract call anywhere in a block has the outcome and balances of the bundle executor on the transfer steps of the bundle generated from the block-start state, if and only if no self-transfer overflows on the way or the payments stop at a receiver anyway |
| `Calls.CallRunsBundle` | crates/suwappudb-bridge/src/occ/block_executor.rs:416-550 | so it always does when the supply is at most half of `u128::MAX` |
| `ByteCodec.RankIsLexicographic` | crates/suwappudb-bridge/src/occ/block_executor.rs:207-211 | addresses are ordered as byte arrays: the first byte that differs decides |
| `TrieProof.GetAfterUpdate` | crates/suwappudb-state/src/tree/ops.rs:297-334 | an update changes the lookup of its own key only |
| `TrieProof.TreeRefinesMap` | crates/suwappudb-state/src/tree/ops.rs:28-52 | a tree built by updates is well-formed and looks up exactly as the map the updates leave |
| `TrieProof.LookupsDetermineTree` | crates/suwappudb-state/src/tree/ops.rs:297-334 | well-formed trees with the same lookups are structurally equal |
| `TrieProof.CanonicalForm` | crates/suwappudb-state/src/tree/ops.rs:28-59 | two update sequences build the same tree if and only if they leave the same map |
| `Trie.StateTree.Extend` | crates/suwappudb-state/src/tree/ops.rs:28-34 | inserting entries one by one gives the tree after that sequence of updates |
| `Trie.Verify` | crates/suwappudb-state/src/tree/ops.rs:108-160 | the loops return exactly the recursive acceptance condition on path, slot, depth and rebuilt root |
| `TrieProof.ProofCompleteness` | crates/suwappudb-state/src/tree/ops.rs:79-160 | the collected proof of any address, present or absent, in any tree, empty or not, is accepted |
| `TrieProof.CollectedSteps` | crates/suwappudb-state/src/tree/ops.rs:403-436 | every step of a collected proof names its byte and the commitments of exactly the other children of the node reached, so never its own byte |
| `TrieProof.CollectedAll` | crates/suwappudb-state/src/tree/ops.rs:403-436 | there is a step for every internal node on the way |
| `TrieProof.FoldRebuilds` | crates/suwappudb-state/src/tree/ops.rs:403-436 | folding the collected path rebuilds the node's commitment |
| `TrieProof.ProofSoundness` | crates/suwappudb-state/src/tree/ops.rs:108-160 | an accepted claim is true of the tree (canonical balance, or absence for paths whose last step omits its own byte), or two different inputs with one hash are returned |
| `TrieProof.AbsenceIsSoundIff` | crates/suwappudb-state/src/tree/ops.rs:108-160 | every address for which an accepted absence path is accepted is absent, if and only if the path's last step omits its own byte, or a collision is returned |
| `TrieProof.AbsenceIsExact` | crates/suwappudb-state/src/tree/ops.rs:108-160 | the tree has no node at the end of an accepted absence path if and only if its last step omits its own byte, or a collision is returned |
| `TrieProof.OwnByteMatters` | crates/suwappudb-state/src/tree/types.rs:46-59 | for any present address, a step that lists its own byte is accepted as absence |
| `TrieProof.PreimageKinds` | crates/suwappudb-state/src/tree/commit.rs:31-36 | the three domain tags separate empty, leaf and internal nodes, and each preimage determines its content |
| `TrieProof.InternalInjective` | crates/suwappudb-state/src/tree/commit.rs:103-130 | the concatenated child chunks determine the children map |
| `TrieProof.ChunkPosition` | crates/suwappudb-state/src/tree/commit.rs:112-124 | children are hashed in ascending byte order: the chunk of a byte follows one chunk per smaller child |
| `TrieProof.LeafBytes` | crates/suwappudb-state/src/tree/commit.rs:106-111 | a leaf is hashed as its tag and sixteen digits of the balance, the most significant first |
| `Trie.TagBytes` | crates/suwappudb-state/src/tree/commit.rs:31-36 | the three tags, byte for byte |
| `TrieProof.NonceIsNotBound` | crates/suwappudb-state/src/tree/commit.rs:103-111 | changing only the nonce of a claim never changes the verdict |
| `TrieProof.RootBindsBalances` | crates/suwappudb-state/src/tree/commit.rs:103-130 | trees with equal roots hold the same balances, or a collision is returned |
| `StateRoots.EqualRootsEqualStates` | crates/suwappudb-state/src/tree/ops.rs:36-59 | balance maps with equal state roots are equal, or a collision is returned |
| `StateRoots.ComputeRoot` | crates/suwappudb-state/src/tree/ops.rs:36-59 | rebuilding the tree from the state, in any iteration order, gives one root |
| `Graphs.FindPath` | crates/suwappudb-state/src/dag.rs:119-157 | a path exactly if the target is reachable; it follows the links, repeats nothing and is of minimum length |
| `Graphs.Reconstruct` | crates/suwappudb-state/src/dag.rs:133-144 | walking back-pointers terminates and yields a real path whose length is the search depth |
| `Graphs.Explore` | crates/suwappudb-state/src/dag.rs:198-244 | lists every transitive relative once and nothing else |
| `Graphs.Dfs` | crates/suwappudb-state/src/dag.rs:306-329 | a reported cycle is reachable; otherwise everything newly visited is closed and cycle-free and the stack is restored |
| `Graphs.HasCycleFrom` | crates/suwappudb-state/src/dag.rs:299-329 | true if and only if a cycle is reachable |
| `Dag.DagStore.Put` | crates/suwappudb-state/src/dag.rs:82-90 | replaces the block, adds exactly the named links, lists every child once, and keeps both maps equal to those of the whole insertion history |
| `Dag.DagStore.PathBetween` | crates/suwappudb-state/src/dag.rs:119-157 | a shortest path along parent links exactly if one exists |
| `Dag.DagStore.AncestorsOf` | crates/suwappudb-state/src/dag.rs:198-220 | every block reachable by one or more parent links, once; the start exactly if it lies on a cycle, so never in a store that validation accepts |
| `Dag.DagStore.DescendantsOf` | crates/suwappudb-state/src/dag.rs:226-244 | every block reachable by one or more index links, once; the start exactly if it lies on a cycle of the index, so never if the history can be ranked |
| `Dag.DagStore.Tips` | crates/suwappudb-state/src/dag.rs:251-257 | exactly the stored blocks without children |
| `Dag.DagStore.Validate` | crates/suwappudb-state/src/dag.rs:263-296 | accepts exactly the stores whose parents all exist at strictly smaller height; either error is true of some stored block, and the cycle check never fires after the height check |
| `Dag.IndexIsHistory` | crates/suwappudb-state/src/dag.rs:82-90 | a child is indexed under a parent exactly if some insertion named it |
| `Dag.ListedOnce` | crates/suwappudb-state/src/dag.rs:79-90 | however often a block is inserted, each of its parents lists it once |
| `Dag.IndexIsExactIff` | crates/suwappudb-state/src/dag.rs:82-90 | the index is the inverse of the parent relation if and only if no re-insertion dropped a parent |
| `Dag.DroppedParentExample` | crates/suwappudb-state/src/dag.rs:82-90 | re-inserting a block without its parent leaves a stale index entry |
| `Dag.DualityIff` | crates/suwappudb-state/src/dag.rs:198-244 | for every sequence of insertions, ancestors and descendants are dual if and only if every parent an insertion ever named is still an ancestor |
| `Dag.AncestorHasDescendant` | crates/suwappudb-state/src/dag.rs:198-244 | one direction holds whatever was re-inserted: an ancestor always has its descendant |
| `Dag.ClosureDuality` | crates/suwappudb-state/src/dag.rs:198-244 | an exact index makes the closures dual |
| `Dag.DualityFails` | crates/suwappudb-state/src/dag.rs:82-90 | after a block is re-inserted without its only parent, it is a descendant of that parent but the parent is not its ancestor |
| `Dag.DualThoughInexact` | crates/suwappudb-state/src/dag.rs:82-90 | dropping a parent that stays an ancestor makes the index inexact but leaves the closures dual |
| `Dag.StartIsNoAncestor` | crates/suwappudb-state/src/dag.rs:194-220 | in a well-formed store no block is among its own ancestors |
| `Dag.StartIsNoDescendant` | crates/suwappudb-state/src/dag.rs:222-244 | nor among its own descendants, if every parent ever named is still an ancestor |
| `Dag.NoOwnDescendantsIff` | crates/suwappudb-state/src/dag.rs:222-244 | no block is among its own descendants if and only if some ranking puts every parent ever named below the block that named it |
| `Dag.SelfParentExample` | crates/suwappudb-state/src/dag.rs:194-244 | a block that lists itself as parent is in both of its own closures |
| `Dag.StaleCycleExample` | crates/suwappudb-state/src/dag.rs:222-244 | in a well-formed store, stale index entries can make a block its own descendant |
| `Dag.WellFormedIsAcyclic` | crates/suwappudb-state/src/dag.rs:263-296 | parents at strictly smaller height rule out cycles |
| `Dag.TipsCoverIff` | crates/suwappudb-state/src/dag.rs:246-257 | in a well-formed store every block is a tip or an ancestor of one, if and only if the index gives children only to blocks that are somebody's parent |
| `Dag.TipsCoverStore` | crates/suwappudb-state/src/dag.rs:246-257 | in a well-formed store with an exact index every block is a tip or an ancestor of one |
| `Dag.UncoveredExample` | crates/suwappudb-state/src/dag.rs:246-257 | in a well-formed store, a block whose only child was re-inserted without it is neither a tip nor an ancestor of one |
| `BlockCodec.StoredForm` | crates/suwappudb-bridge/src/recovery/store.rs:261-351 | the written bytes decode to the block if and only if its lengths fit 32 bits |
| `BlockCodec.DecodeBlock` | crates/suwappudb-bridge/src/recovery/store.rs:278-301 | returns `b` exactly for the encoding of `b`, with lengths that fit; anything else is refused |
| `BlockCodec.Cursor.Bytes` | crates/suwappudb-bridge/src/recovery/store.rs:404-412 | delivers the next bytes and advances past them, or refuses |
| `BlockCodec.Cursor.NextIntent` | crates/suwappudb-bridge/src/recovery/store.rs:353-390 | reads one intent as the parser specifies, for every tag |
| `BlockCodec.Cursor.NextIntents` | crates/suwappudb-bridge/src/recovery/store.rs:288-291 | reads as many intents as announced, in order, or refuses |
| `BlockCodec.BlockLayout` | crates/suwappudb-bridge/src/recovery/store.rs:261-276 | where each field of a stored block is, and that the hashed form has its tag in place of the version byte |
| `BlockCodec.TransferLayout` | crates/suwappudb-bridge/src/recovery/store.rs:303-310 | where each field of an encoded transfer is |
| `BlockCodec.CallLayout` | crates/suwappudb-bridge/src/recovery/store.rs:311-327 | where each field of an encoded call is |
| `BlockCodec.DeployLayout` | crates/suwappudb-bridge/src/recovery/store.rs:328-350 | where each field of an encoded deployment is |
| `BlockCodec.ConstantBytes` | crates/suwappudb-bridge/src/recovery/block.rs:42-66 | the hash tag and the parent of genesis, byte for byte |
| `BlockCodec.NameIff` | crates/suwappudb-state/src/vm/executor.rs:43-66 | which byte strings are module names |
| `ByteCodec.BigEndianDigit` | crates/suwappudb-bridge/src/recovery/store.rs:417-425 | byte `i` of a big-endian number is its base-256 digit, the most significant first |
| `BlockCodec.IntentRoundTripIff` | crates/suwappudb-bridge/src/recovery/store.rs:303-390 | parsing an encoded intent gives the intent back and leaves what follows, if and only if its lengths are below 2^32 |
| `BlockCodec.IntentExact` | crates/suwappudb-bridge/src/recovery/store.rs:353-390 | an accepted intent was encoded by exactly the bytes consumed |
| `BlockCodec.DecodesIffEncodes` | crates/suwappudb-bridge/src/recovery/store.rs:261-301 | bytes decode to `b` if and only if they are the encoding of `b` and its lengths fit |
| `BlockCodec.RoundTripIff` | crates/suwappudb-bridge/src/recovery/store.rs:261-301 | decoding an encoded block succeeds with that block exactly when no length saturates |
| `BlockCodec.EncodingIsPrefixFree` | crates/suwappudb-bridge/src/recovery/store.rs:261-301 | among blocks with lengths below 2^32, no encoding extends another |
| `BlockCodec.PreimageIsInjective` | crates/suwappudb-bridge/src/recovery/block.rs:63-118 | different blocks with lengths below 2^32 are hashed from different bytes |
| `BlockCodec.PreimageShowsHeader` | crates/suwappudb-bridge/src/recovery/block.rs:63-72 | whatever the lengths, the hashed bytes determine height, parent and state root |
| `BlockCodec.SaturatedLengthsCollide` | crates/suwappudb-bridge/src/recovery/block.rs:80-118 | past that bound two different blocks are stored and hashed as the same bytes |
| `BlockCodec.TipDeterminesChain` | crates/suwappudb-bridge/src/recovery/block.rs:42-78 | linked chains with the same tip hash are hashed from the same bytes at every height, and are equal if their lengths are below 2^32, or a collision is returned |
| `BlockStores.InMemoryBlockStore.Put` | crates/suwappudb-bridge/src/recovery/store.rs:114-119 | files the block under its hash and the hash under its height |
| `BlockStores.InMemoryBlockStore.GetByHeight` | crates/suwappudb-bridge/src/recovery/store.rs:125-130 | the block whose hash is filed under the height |
| `BlockStores.InMemoryBlockStore.IterFrom` | crates/suwappudb-bridge/src/recovery/store.rs:144-150 | all blocks filed from a height on, in ascending height order |
| `BlockStores.BlocksInOrder` | crates/suwappudb-bridge/src/recovery/store.rs:144-150 | iteration visits exactly the heights that lead to a block, in ascending order |
| `Replay.ReplayBlock` | crates/suwappudb-bridge/src/recovery/replay.rs:88-125 | advances past a block that holds, or reports precisely the first check it fails |
| `Replay.ReplayFrom` | crates/suwappudb-bridge/src/recovery/replay.rs:67-129 | succeeds if and only if heights are contiguous, parents are linked and every recorded root is that of sequential execution; otherwise reports the first fault and where the state stopped |
| `Replay.LogOfHeldChain` | crates/suwappudb-bridge/src/recovery/replay.rs:73-101 | replayed from any height, a stored linked chain is read from that height on, each block at the next height and linked to the one before, the first to the block below |
| `Replay.OrphansNameGenesis` | crates/suwappudb-bridge/src/recovery/replay.rs:74-85 | with nothing stored below the first height, the first block must name the parent of genesis |
| `Replay.ReplayLeavesNoGap` | crates/suwappudb-bridge/src/recovery/replay.rs:88-94 | a store of blocks filed under their own heights that replays has no gap from the first height on |
| `Replay.RecordIsIntact` | crates/suwappudb-bridge/src/recovery/replay.rs:67-129 | what a live run records passes every check from any height on, starting at the state the run had there, and leads to its last state |
| `Replay.RecordAndReplay` | crates/suwappudb-bridge/src/recovery/replay.rs:193-225 | replaying a recorded live run from any height, on the state it had there, succeeds and ends in the live state whatever both schedulers did, unless two recorded blocks collide |
| `Replay.ReplayedChainsAgree` | crates/suwappudb-bridge/src/recovery/replay.rs:67-129 | two logs that replay from genesis to the same tip hash are hashed from the same bytes at every height, and hold the same blocks if their lengths are below 2^32, or a collision is returned |
| `Snapshots.SortedEntries` | crates/suwappudb-state/src/snapshot.rs:193-200 | whatever order the entries arrive in, the sorted listing is the same |
| `Snapshots.FromState` | crates/suwappudb-state/src/snapshot.rs:193-224 | the bytes are a function of the two columns |
| `Snapshots.ParseV2Body` | crates/suwappudb-state/src/snapshot.rs:37-87 | accepts exactly the encodings of contents whose counts and lengths fit, and returns those contents |
| `Snapshots.RestoreIntoState` | crates/suwappudb-state/src/snapshot.rs:285-343 | applies exactly the decoded entries of either version and counts them; malformed input changes nothing |
| `Snapshots.SnapshotDecodesIff` | crates/suwappudb-state/src/snapshot.rs:285-343 | exactly the encodings of either version are accepted, and V1 restores no blobs |
| `Snapshots.BodyLayout` | crates/suwappudb-state/src/snapshot.rs:193-224 | where the counts and entries of a V2 body are |
| `Snapshots.EntryLayout` | crates/suwappudb-state/src/snapshot.rs:206-220 | where the fields of a balance and of a blob entry are |
| `Snapshots.MagicBytes` | crates/suwappudb-state/src/snapshot.rs:18-28 | both magics, byte for byte |
| `ByteCodec.LittleEndianDigit` | crates/suwappudb-state/src/snapshot.rs:193-224 | byte `i` of a little-endian number is its base-256 digit, the least significant first |
| `Snapshots.V2DecodesIffEncodes` | crates/suwappudb-state/src/snapshot.rs:37-87 | a V2 body decodes to contents if and only if it is their encoding |
| `Snapshots.V1DecodesIffEncodes` | crates/suwappudb-state/src/snapshot.rs:295-319 | a V1 body decodes to balances if and only if it is their encoding |
| `Snapshots.StrictPrefixIsRejected` | crates/suwappudb-state/src/snapshot.rs:37-87 | cutting an accepted V2 snapshot anywhere makes it unacceptable |
| `Snapshots.V1PrefixIsAcceptedIff` | crates/suwappudb-state/src/snapshot.rs:295-319 | a V1 snapshot cut short is accepted if and only if the cut falls between two entries |
| `Snapshots.SetBalancesOverrides` | crates/suwappudb-state/src/snapshot.rs:274-343 | restoring overrides the listed addresses and leaves all others in place |
| `Snapshots.ListingIsUnique` | crates/suwappudb-state/src/snapshot.rs:193-200 | a map has only one listing in ascending address order |
| `Snapshots.SnapshotAndRestore` | crates/suwappudb-state/src/snapshot.rs:193-343 | restoring a snapshot into an empty state gives both columns back, and snapshotting again gives identical bytes |
| `Bridges.State.SetBalance` | crates/suwappudb-state/src/lib.rs:166-175 | sets one balance and nothing else |
| `Bridges.State.SetBytes` | crates/suwappudb-state/src/store.rs:128-134 | sets one blob; an empty blob removes the entry |
| `Bridges.Bridge.Submit` | crates/suwappudb-bridge/src/lib.rs:179-225 | accepts a transfer exactly if it can be paid and received, moves the amount from sender to receiver and nothing else, refuses calls and deployments, and changes nothing on refusal |
| `Bridges.Bridge.TransferInternal` | crates/suwappudb-bridge/src/lib.rs:293-327 | zero and self transfers always succeed without effect; others behave as submitted ones |
| `Bridges.TransfersAgree` | crates/suwappudb-bridge/src/occ/block_executor.rs:335-405 | executor and bridge transfers leave the same balances, and the same verdict if and only if it is not an overflowing self-transfer |
| `Bridges.ExecutorAgreesWithBridge` | crates/suwappudb-bridge/src/lib.rs:179-225 | for every block of transfer intents and every registry, executing it and submitting it one by one leave the same balances |
| `Bridges.OutcomesAgreeIff` | crates/suwappudb-bridge/src/lib.rs:192-213 | an intent of such a block gets the same outcome from both if and only if it is not an overflowing self-transfer |
| `Bridges.StatesEqualIff` | crates/suwappudb-bridge/src/occ/block_executor.rs:373-384 | for every block of transfer intents the two states are equal, entry for entry, if and only if every account that sends nothing to itself has an entry after submission |
| `Bridges.IdleTransferDiffers` | crates/suwappudb-bridge/src/occ/block_executor.rs:373-384 | on an empty state, sending nothing to oneself leaves a zero entry in one and nothing in the other |
| `Bridges.SelfTransferDiffers` | crates/suwappudb-bridge/src/lib.rs:198-205 | the input on which they differ |
| `Bundles.CollectSnapshot` | crates/suwappudb-bridge/src/bundle/executor.rs:277-312 | the balances of exactly the addresses the bundle's steps name |
| `Bundles.RestoreSnapshot` | crates/suwappudb-bridge/src/bundle/executor.rs:314-326 | writes the saved balances back over the state |
| `Bundles.Execute` | crates/suwappudb-bridge/src/bundle/executor.rs:49-94 | all steps applied in order, or the index and reason of the first refusal with every balance restored |
| `Bundles.RevertRestores` | crates/suwappudb-bridge/src/bundle/executor.rs:314-326 | writing the saved balances back over any partly executed bundle restores every balance |
| `Bundles.RuntimeStepsAreRefused` | crates/suwappudb-bridge/src/bundle/executor.rs:64-75 | a bundle with a Move call or a deployment is refused at or before it, and names the missing runtime exactly if it is such a step that was refused |
| `Bundles.RuntimeStepLeavesEntry` | crates/suwappudb-bridge/src/bundle/executor.rs:265-312 | reverting such a step leaves a zero entry under the address in the last 20 bytes of its account |
| `Bundles.RevertIsExactIff` | crates/suwappudb-bridge/src/bundle/executor.rs:46-94 | a reverted bundle leaves the state exactly as it was if and only if every address it names had an entry |
| `Bundles.RevertKeepsRootIff` | crates/suwappudb-bridge/src/bundle/executor.rs:314-326 | the state root survives a revert if and only if every address the bundle names had an entry, or a collision is returned |
| `Bundles.RevertLeavesEntries` | crates/suwappudb-bridge/src/bundle/executor.rs:277-326 | a refused transfer between unknown accounts leaves two zero entries in an empty state |
| `Bundles.RollbackDesignsAgreeIff` | crates/suwappudb-bridge/src/bundle/executor.rs:49-94 | for transfer bundles the call overlay and save-and-restore agree on acceptance, reason and balances if and only if the overlay meets no overflowing self-transfer or the payments stop at a receiver anyway, both read off the start balances and the payments |
| `Bundles.RollbackDesignsDisagree` | crates/suwappudb-bridge/src/occ/block_executor.rs:447-550 | the bundle on which they disagree: sending oneself everything from an account above half of `u128::MAX` |
| `Bundles.RollbackDesignsAgree` | crates/suwappudb-bridge/src/occ/block_executor.rs:447-550 | for transfer bundles within half of `u128::MAX`, the call overlay and save-and-restore accept or refuse alike, for the same reason, with the same balances |
| `Bundles.BundleConserves` | crates/suwappudb-bridge/src/bundle/executor.rs:49-94 | a bundle keeps the total supply, committed or reverted |
| `Supply.BlockConserves` | crates/suwappudb-bridge/src/occ/block_executor.rs:335-405 | every prefix of every block keeps the total supply |
| `Supply.NoOverflowEver` | crates/suwappudb-bridge/src/occ/block_executor.rs:363-377 | with supply at most half of `u128::MAX`, no intent of any later block is refused with an overflow |
| `Supply.OverflowFreeIff` | crates/suwappudb-bridge/src/occ/block_executor.rs:363-377 | no run of any length overflows if and only if the supply is at most half of `u128::MAX` |

## Left out

- Threads and locks: a run is a sequence of locked store operations in any order; what happens inside one operation is atomic, as the mutex makes it.
- The order in which one transaction publishes its writes is left to the scheduler, which covers the fixed order of plain transfers.
- Contract generators are pure functions of their call context; their code is not part of this model.
- `execute_with_move_runtime`, Move calls and module deployment inside bundles: the foreign VM is not part of this model. Bundles refuse those steps, and calls skip them, as the code does without a runtime.
- `Bridge::credit` and `debit`, which mint to and burn from one account with an overflow or balance check, and `write_bytes`, which sets one blob: not modelled.
- Verkle and IPA commitments, anchor signing, and the concrete hash function: opaque cryptography.
- redb-backed stores, snapshot files, JSON, timestamps, `SnapshotManager`, storage errors: input and output.
- Plain lookups are not modelled: `latest`, `len` and `get_by_hash` of the block store, and `blocks_at_height` and `max_height_block` of the DAG store, which scan for a given or the greatest height.
- The mempool, L1 reader, L2 sync, server and metrics.
- Nonces and the VM projections of a balance slot: a slot is its canonical balance, except in trie proofs, where the nonce is present and shown not to be bound.
- The text of error messages in snapshot parsing and DAG validation: only acceptance, and which DAG check failed, are modelled.
- The order in which breadth-first closures list blocks: only the set, without repetition, is stated.
- Snapshots.FromState: requires counts and lengths below 2^32, because the code panics otherwise.
