/**
 Recovery by replay: the stored blocks are executed again and checked against what they record.
 */
module Replay {
  import opened Types
  import opened Ledger
  import opened ByteCodec
  import opened Trie
  import opened TrieProof
  import opened StateRoots
  import opened Bridges
  import opened BlockExecutors
  import opened BlockCodec
  import opened BlockStores

  datatype RecoveryError =
    | HeightGap(expectedHeight: nat, gotHeight: U64)
    | ParentHashMismatch(height: U64, gotParent: BlockHash, expectedParent: BlockHash)
    | StateRootMismatch(height: U64, recorded: Commitment, computed: Commitment)

  // ---------------------------------------------------------------------------------------------
  // What a recorded log has to satisfy
  // ---------------------------------------------------------------------------------------------

  /** Blocks to replay from a height on, the hash that precedes them, and the state they start from. */
  datatype Log = Log(blocks: seq<Block>, from: nat, before: BlockHash, start: Balances, registry: Registry)

  function IntentLists(blocks: seq<Block>): (r: seq<seq<Intent>>)
    ensures |r| == |blocks|
  {
    seq(|blocks|, i requires 0 <= i < |blocks| => blocks[i].intents)
  }

  /** A state after the first `k` of some inputs. */
  function Folded<S, X>(step: (S, X) -> S, start: S, xs: seq<X>, k: nat): S
    requires k <= |xs|
  {
    if k == 0 then start else step(Folded(step, start, xs, k - 1), xs[k - 1])
  }

  lemma {:induction false} FoldedFrom<S, X>(step: (S, X) -> S, start: S, xs: seq<X>, k: nat, j: nat)
    requires k + j <= |xs|
    ensures Folded(step, Folded(step, start, xs, k), xs[k..], j) == Folded(step, start, xs, k + j)
  {
    if j > 0 {
      FoldedFrom(step, start, xs, k, j - 1);
      assert xs[k..][j - 1] == xs[k + j - 1];
    }
  }

  /** What one block does to the balances. */
  function Runner(registry: Registry): (Balances, seq<Intent>) -> Balances {
    (s, intents) => RunBlock(s, intents, registry).0
  }

  /** The balances after running the first `k` lists of intents sequentially, block by block. */
  function AfterLists(start: Balances, registry: Registry, lists: seq<seq<Intent>>, k: nat): Balances
    requires k <= |lists|
  {
    Folded(Runner(registry), start, lists, k)
  }

  function AfterBlocks(log: Log, k: nat): Balances
    requires k <= |log.blocks|
  {
    AfterLists(log.start, log.registry, IntentLists(log.blocks), k)
  }

  /** Block `i` has the next height, names the previous hash, and records the root that running it leads to. */
  ghost predicate BlockHolds(h: Hash, log: Log, i: nat)
    requires i < |log.blocks|
  {
    && log.blocks[i].height == log.from + i
    && log.blocks[i].parent == ParentHash(h, log.blocks, log.before, i)
    && log.blocks[i].stateRoot == StateRoot(h, AfterBlocks(log, i + 1))
  }

  ghost predicate Intact(h: Hash, log: Log, k: nat)
    requires k <= |log.blocks|
  {
    forall i {:trigger BlockHolds(h, log, i)} :: 0 <= i < k ==> BlockHolds(h, log, i)
  }

  /** Block `k` is the first one that does not hold, `e` says why, and `slots` is where replay stopped. */
  ghost predicate FirstFault(h: Hash, log: Log, k: nat, e: RecoveryError, slots: Balances) {
    && k < |log.blocks| && Intact(h, log, k)
    && var b, parent := log.blocks[k], ParentHash(h, log.blocks, log.before, k);
       match e
       case HeightGap(expected, got) =>
         expected == log.from + k != got == b.height && slots == AfterBlocks(log, k)
       case ParentHashMismatch(height, got, expected) =>
         && height == b.height == log.from + k
         && got == b.parent != expected == parent && slots == AfterBlocks(log, k)
       case StateRootMismatch(height, recorded, computed) =>
         && height == b.height == log.from + k && b.parent == parent
         && recorded == b.stateRoot != computed == StateRoot(h, slots) && slots == AfterBlocks(log, k + 1)
  }

  /** The hash that must precede height `from`; all zeros at genesis, or when the store has nothing there. */
  function HashBefore(h: Hash, byHash: ByHash, byHeight: ByHeight, from: U64): BlockHash {
    if from == 0 then GenesisParent()
    else match BlockAt(byHash, byHeight, from - 1)
         case Some(b) => HashOf(h, b)
         case None => GenesisParent()
  }

  function LogFrom(h: Hash, byHash: ByHash, byHeight: ByHeight, from: U64, start: Balances, registry: Registry): Log {
    Log(BlocksFrom(byHash, byHeight, from), from, HashBefore(h, byHash, byHeight, from), start, registry)
  }

  // ---------------------------------------------------------------------------------------------
  // Replay
  // ---------------------------------------------------------------------------------------------

  /** The first `i` blocks hold, `slots` are the balances after them, and `prev` is the hash the next one must name. */
  ghost predicate Reached(h: Hash, log: Log, i: nat, slots: Balances, prev: BlockHash) {
    && i <= |log.blocks| && Intact(h, log, i)
    && slots == AfterBlocks(log, i) && prev == ParentHash(h, log.blocks, log.before, i)
  }

  lemma ReachNext(h: Hash, log: Log, i: nat, slots: Balances, prev: BlockHash)
    requires Reached(h, log, i, slots, prev) && i < |log.blocks|
    ensures var b := log.blocks[i];
            var after := RunBlock(slots, b.intents, log.registry).0;
            && after == AfterBlocks(log, i + 1)
            && (BlockHolds(h, log, i) <==>
                  b.height == log.from + i && b.parent == prev && b.stateRoot == StateRoot(h, after))
            && (BlockHolds(h, log, i) ==> Reached(h, log, i + 1, after, HashOf(h, b)))
  {
  }

  /** Check block `i` and execute it again. */
  method ReplayBlock(h: Hash, state: State, ghost log: Log, i: nat, b: Block, expected: nat, prev: BlockHash,
                     registry: Registry)
    returns (e: Option<RecoveryError>)
    requires state.Valid() && Reached(h, log, i, state.slots, prev)
    requires i < |log.blocks| && b == log.blocks[i] && expected == log.from + i && registry == log.registry
    modifies state
    ensures state.Valid() && state.blobs == old(state.blobs)
    ensures e.None? ==> Reached(h, log, i + 1, state.slots, HashOf(h, b))
    ensures e.Some? ==> !BlockHolds(h, log, i) && FirstFault(h, log, i, e.value, state.slots)
  {
    ReachNext(h, log, i, state.slots, prev);
    if b.height != expected {
      return Some(HeightGap(expected, b.height));
    }
    if b.parent != prev {
      return Some(ParentHashMismatch(b.height, b.parent, prev));
    }
    var report := ExecuteWithRegistry(h, state, b.intents, registry);
    if report.stateRoot != b.stateRoot {
      return Some(StateRootMismatch(b.height, b.stateRoot, report.stateRoot));
    }
    var liveRoot := ComputeRoot(h, state.slots);
    if liveRoot != b.stateRoot {
      return Some(StateRootMismatch(b.height, b.stateRoot, liveRoot));
    }
    e := None;
  }

  method PreviousHash(h: Hash, store: InMemoryBlockStore, from: U64) returns (prev: BlockHash)
    ensures prev == HashBefore(h, store.byHash, store.byHeight, from)
  {
    if from == 0 {
      return GenesisParent();
    }
    var parent := store.GetByHeight(from - 1);
    match parent
    case Some(b) => prev := HashOf(h, b);
    case None => prev := GenesisParent();
  }

  /** Replay the blocks of a log in order, up to the first fault. */
  method ReplayBlocks(h: Hash, state: State, blocks: seq<Block>, from: nat, before: BlockHash, registry: Registry)
    returns (r: Result<(), RecoveryError>)
    requires state.Valid()
    modifies state
    ensures state.Valid() && state.blobs == old(state.blobs)
    ensures var log := Log(blocks, from, before, old(state.slots), registry);
            && (r.Ok? <==> Intact(h, log, |log.blocks|))
            && (r.Ok? ==> state.slots == AfterBlocks(log, |log.blocks|))
            && (r.Err? ==> exists k :: FirstFault(h, log, k, r.error, state.slots))
  {
    ghost var log := Log(blocks, from, before, state.slots, registry);
    var prev := before;
    for i := 0 to |blocks|
      invariant state.Valid() && state.blobs == old(state.blobs)
      invariant Reached(h, log, i, state.slots, prev)
    {
      var e := ReplayBlock(h, state, log, i, blocks[i], from + i, prev, registry);
      if e.Some? {
        assert !Intact(h, log, |log.blocks|);
        return Err(e.value);
      }
      prev := HashOf(h, blocks[i]);
    }
    r := Ok(());
  }

  /**
   Replay every stored block from a height on. It succeeds exactly when heights are contiguous, parent links are
   intact and every recorded root is the root of sequential execution; otherwise it reports the first fault.
   */
  method ReplayFrom(h: Hash, store: InMemoryBlockStore, state: State, registry: Registry, from: U64)
    returns (r: Result<(), RecoveryError>)
    requires state.Valid()
    modifies state
    ensures state.Valid() && state.blobs == old(state.blobs)
    ensures var log := LogFrom(h, store.byHash, store.byHeight, from, old(state.slots), registry);
            && (r.Ok? <==> Intact(h, log, |log.blocks|))
            && (r.Ok? ==> state.slots == AfterBlocks(log, |log.blocks|))
            && (r.Err? ==> exists k :: FirstFault(h, log, k, r.error, state.slots))
  {
    var blocks := store.IterFrom(from);
    var before := PreviousHash(h, store, from);
    r := ReplayBlocks(h, state, blocks, from, before, registry);
  }

  // ---------------------------------------------------------------------------------------------
  // Recording
  // ---------------------------------------------------------------------------------------------

  /** The block a live run appends after `before` for a list of intents that led to `root`. */
  ghost function NextBlock(h: Hash, before: seq<Block>, root: Commitment, intents: seq<Intent>): Block
    requires |before| < HEIGHTS
  {
    Block(|before|, ParentHash(h, before, GenesisParent(), |before|), root, intents)
  }

  /** The chain a live run records, block by block. */
  ghost function Recorded(h: Hash, start: Balances, registry: Registry, lists: seq<seq<Intent>>, k: nat): (r: seq<Block>)
    requires k <= |lists| <= HEIGHTS
    ensures |r| == k
  {
    if k == 0 then []
    else
      var before := Recorded(h, start, registry, lists, k - 1);
      before + [NextBlock(h, before, StateRoot(h, AfterLists(start, registry, lists, k)), lists[k - 1])]
  }

  ghost predicate IsNext(h: Hash, chain: seq<Block>, i: nat, root: Commitment, intents: seq<Intent>)
    requires i < |chain|
  {
    && chain[i].height == i && chain[i].parent == ParentHash(h, chain, GenesisParent(), i)
    && chain[i].stateRoot == root && chain[i].intents == intents
  }

  lemma AppendKeepsBlock(h: Hash, chain: seq<Block>, b: Block, i: nat, root: Commitment, intents: seq<Intent>)
    requires i < |chain| && IsNext(h, chain, i, root, intents)
    ensures IsNext(h, chain + [b], i, root, intents)
  {
  }

  lemma AppendedBlock(h: Hash, before: seq<Block>, root: Commitment, intents: seq<Intent>)
    requires |before| < HEIGHTS
    ensures IsNext(h, before + [NextBlock(h, before, root, intents)], |before|, root, intents)
  {
  }

  lemma {:induction false} RecordedBlock(h: Hash, start: Balances, registry: Registry, lists: seq<seq<Intent>>, k: nat,
                                         i: nat)
    requires i < k <= |lists| <= HEIGHTS
    ensures IsNext(h, Recorded(h, start, registry, lists, k), i,
                   StateRoot(h, AfterLists(start, registry, lists, i + 1)), lists[i])
    decreases k
  {
    var before := Recorded(h, start, registry, lists, k - 1);
    var root := StateRoot(h, AfterLists(start, registry, lists, i + 1));
    if i < k - 1 {
      RecordedBlock(h, start, registry, lists, k - 1, i);
      var last := NextBlock(h, before, StateRoot(h, AfterLists(start, registry, lists, k)), lists[k - 1]);
      AppendKeepsBlock(h, before, last, i, root, lists[i]);
    } else {
      AppendedBlock(h, before, root, lists[i]);
    }
  }

  /** The blocks of a chain all hash differently. */
  ghost predicate HashesDiffer(h: Hash, chain: seq<Block>) {
    forall i, j :: 0 <= i < j < |chain| ==> HashOf(h, chain[i]) != HashOf(h, chain[j])
  }

  /** Blocks of a recorded chain that hash alike exhibit a collision. */
  lemma RepeatedHashIsCollision(h: Hash, chain: seq<Block>)
    requires forall i :: 0 <= i < |chain| ==> chain[i].height == i
    ensures HashesDiffer(h, chain)
         || exists i, j :: 0 <= i < j < |chain| && IsCollision(h, (HashPreimage(chain[i]), HashPreimage(chain[j])))
  {
    if !HashesDiffer(h, chain) {
      var i, j :| 0 <= i < j < |chain| && HashOf(h, chain[i]) == HashOf(h, chain[j]);
      if HashPreimage(chain[i]) == HashPreimage(chain[j]) {
        PreimageShowsHeader(chain[i], chain[j]);
      }
      assert IsCollision(h, (HashPreimage(chain[i]), HashPreimage(chain[j])));
    }
  }

  lemma RecordedCollides(h: Hash, start: Balances, registry: Registry, lists: seq<seq<Intent>>)
    requires |lists| <= HEIGHTS
    ensures var chain := Recorded(h, start, registry, lists, |lists|);
            || HashesDiffer(h, chain)
            || exists i, j :: 0 <= i < j < |chain| && IsCollision(h, (HashPreimage(chain[i]), HashPreimage(chain[j])))
  {
    var chain := Recorded(h, start, registry, lists, |lists|);
    forall i | 0 <= i < |chain| ensures chain[i].height == i {
      RecordedBlock(h, start, registry, lists, |lists|, i);
    }
    RepeatedHashIsCollision(h, chain);
  }

  /** The store holds a chain: one block per height, found through its hash. */
  ghost predicate Holds(h: Hash, byHash: ByHash, byHeight: ByHeight, chain: seq<Block>) {
    && |chain| <= HEIGHTS
    && (forall k: U64 :: k in byHeight <==> k < |chain|)
    && forall i :: 0 <= i < |chain| ==> BlockAt(byHash, byHeight, i) == Some(chain[i])
  }

  lemma {:induction false} HeldChain(h: Hash, byHash: ByHash, byHeight: ByHeight, chain: seq<Block>, k: nat)
    requires Holds(h, byHash, byHeight, chain) && k <= |chain|
    ensures BlocksFrom(byHash, byHeight, k) == chain[k..]
    decreases |chain| - k
  {
    if k == |chain| {
      NothingBetween(byHash, byHeight, k, HEIGHTS);
    } else {
      HeldChain(h, byHash, byHeight, chain, k + 1);
      assert chain[k..] == [chain[k]] + chain[k + 1..];
    }
  }

  /** What is stored under each height is the hash of its block, and leads back to it while no hashes repeat. */
  ghost predicate Stores(h: Hash, byHash: ByHash, byHeight: ByHeight, chain: seq<Block>) {
    HashesDiffer(h, chain) ==>
      && Holds(h, byHash, byHeight, chain)
      && forall i :: 0 <= i < |chain| ==> byHeight[i] == HashOf(h, chain[i])
  }

  lemma PrefixDiffers(h: Hash, chain: seq<Block>, b: Block)
    requires HashesDiffer(h, chain + [b])
    ensures HashesDiffer(h, chain)
    ensures forall i :: 0 <= i < |chain| ==> HashOf(h, chain[i]) != HashOf(h, b)
  {
    var longer := chain + [b];
    forall i, j | 0 <= i < j < |chain| ensures HashOf(h, chain[i]) != HashOf(h, chain[j]) {
      assert HashOf(h, longer[i]) != HashOf(h, longer[j]);
    }
    forall i | 0 <= i < |chain| ensures HashOf(h, chain[i]) != HashOf(h, b) {
      assert HashOf(h, longer[i]) != HashOf(h, longer[|chain|]);
    }
  }

  lemma PutStores(h: Hash, byHash: ByHash, byHeight: ByHeight, chain: seq<Block>, b: Block)
    requires Stores(h, byHash, byHeight, chain) && b.height == |chain|
    ensures Stores(h, byHash[HashOf(h, b) := b], byHeight[b.height := HashOf(h, b)], chain + [b])
  {
    var longer, hash := chain + [b], HashOf(h, b);
    if HashesDiffer(h, longer) {
      PrefixDiffers(h, chain, b);
      forall i | 0 <= i < |longer| ensures BlockAt(byHash[hash := b], byHeight[b.height := hash], i) == Some(longer[i]) {
        if i < |chain| {
          assert BlockAt(byHash, byHeight, i) == Some(chain[i]);
        }
      }
    }
  }

  /** Execute a list of intents on the live state and store a block with the resulting root. */
  method RecordBlock(h: Hash, state: State, store: InMemoryBlockStore, registry: Registry, ghost chain: seq<Block>,
                     height: U64, prev: BlockHash, intents: seq<Intent>)
    returns (hash: BlockHash, ghost chain': seq<Block>)
    requires state.Valid() && Stores(h, store.byHash, store.byHeight, chain)
    requires height == |chain| && prev == ParentHash(h, chain, GenesisParent(), height)
    modifies state, store
    ensures state.Valid() && state.slots == RunBlock(old(state.slots), intents, registry).0
    ensures chain' == chain + [NextBlock(h, chain, StateRoot(h, state.slots), intents)]
    ensures hash == ParentHash(h, chain', GenesisParent(), height + 1)
    ensures Stores(h, store.byHash, store.byHeight, chain')
  {
    var report := ExecuteWithRegistry(h, state, intents, registry);
    var block := Block(height, prev, report.stateRoot, intents);
    PutStores(h, store.byHash, store.byHeight, chain, block);
    store.Put(h, block);
    hash, chain' := HashOf(h, block), chain + [block];
  }

  /** A live run that has executed the first `k` lists. */
  ghost predicate Recording(h: Hash, start: Balances, registry: Registry, lists: seq<seq<Intent>>, k: nat,
                            slots: Balances, chain: seq<Block>, prev: BlockHash) {
    && k <= |lists| <= HEIGHTS && slots == AfterLists(start, registry, lists, k)
    && chain == Recorded(h, start, registry, lists, k) && prev == ParentHash(h, chain, GenesisParent(), k)
  }

  lemma RecordingStart(h: Hash, start: Balances, registry: Registry, lists: seq<seq<Intent>>)
    requires |lists| <= HEIGHTS
    ensures Recording(h, start, registry, lists, 0, start, [], GenesisParent())
  {
  }

  lemma AfterNextList(start: Balances, registry: Registry, lists: seq<seq<Intent>>, k: nat)
    requires k < |lists|
    ensures AfterLists(start, registry, lists, k + 1) == RunBlock(AfterLists(start, registry, lists, k), lists[k], registry).0
  {
  }

  lemma RecordedNext(h: Hash, start: Balances, registry: Registry, lists: seq<seq<Intent>>, k: nat, root: Commitment)
    requires k < |lists| <= HEIGHTS && root == StateRoot(h, AfterLists(start, registry, lists, k + 1))
    ensures var before := Recorded(h, start, registry, lists, k);
            Recorded(h, start, registry, lists, k + 1) == before + [NextBlock(h, before, root, lists[k])]
  {
  }

  lemma RecordingNext(h: Hash, start: Balances, registry: Registry, lists: seq<seq<Intent>>, k: nat,
                      slots: Balances, chain: seq<Block>, prev: BlockHash)
    requires Recording(h, start, registry, lists, k, slots, chain, prev) && k < |lists|
    ensures var after := RunBlock(slots, lists[k], registry).0;
            var longer := chain + [NextBlock(h, chain, StateRoot(h, after), lists[k])];
            Recording(h, start, registry, lists, k + 1, after, longer, ParentHash(h, longer, GenesisParent(), k + 1))
  {
    AfterNextList(start, registry, lists, k);
    RecordedNext(h, start, registry, lists, k, StateRoot(h, AfterLists(start, registry, lists, k + 1)));
  }

  /** One round of a live run. */
  method RecordNext(h: Hash, state: State, store: InMemoryBlockStore, registry: Registry, lists: seq<seq<Intent>>, k: nat,
                    prev: BlockHash, ghost start: Balances, ghost chain: seq<Block>)
    returns (hash: BlockHash, ghost chain': seq<Block>)
    requires state.Valid() && Recording(h, start, registry, lists, k, state.slots, chain, prev) && k < |lists|
    requires Stores(h, store.byHash, store.byHeight, chain)
    modifies state, store
    ensures state.Valid() && Recording(h, start, registry, lists, k + 1, state.slots, chain', hash)
    ensures Stores(h, store.byHash, store.byHeight, chain')
  {
    RecordingNext(h, start, registry, lists, k, state.slots, chain, prev);
    hash, chain' := RecordBlock(h, state, store, registry, chain, k, prev, lists[k]);
  }

  /** A live run records one block per list of intents. */
  method RecordRun(h: Hash, state: State, store: InMemoryBlockStore, registry: Registry, lists: seq<seq<Intent>>)
    requires state.Valid() && store.byHash == map[] && store.byHeight == map[] && |lists| <= HEIGHTS
    modifies state, store
    ensures state.Valid() && state.slots == AfterLists(old(state.slots), registry, lists, |lists|)
    ensures Stores(h, store.byHash, store.byHeight, Recorded(h, old(state.slots), registry, lists, |lists|))
  {
    var prev := GenesisParent();
    ghost var start, chain := state.slots, [];
    RecordingStart(h, start, registry, lists);
    for k := 0 to |lists|
      invariant state.Valid() && Recording(h, start, registry, lists, k, state.slots, chain, prev)
      invariant Stores(h, store.byHash, store.byHeight, chain)
    {
      prev, chain := RecordNext(h, state, store, registry, lists, k, prev, start, chain);
    }
  }

  /** Block `i` of what replay from a height reads: the chain's own block, at the next height, linked to the one before. */
  lemma LogOfHeldChain(h: Hash, byHash: ByHash, byHeight: ByHeight, chain: seq<Block>, from: U64, start: Balances,
                       registry: Registry, i: nat)
    requires Holds(h, byHash, byHeight, chain) && Linked(h, chain) && from + i < |chain|
    ensures var log := LogFrom(h, byHash, byHeight, from, start, registry);
            && i < |log.blocks| && log.blocks[i] == chain[from + i] && log.blocks[i].height == log.from + i
            && log.blocks[i].parent == ParentHash(h, log.blocks, log.before, i)
  {
    HeldChain(h, byHash, byHeight, chain, from);
    assert LinkedAt(h, chain, from + i);
    if from > 0 {
      assert BlockAt(byHash, byHeight, from - 1) == Some(chain[from - 1]);
    }
  }

  /** With nothing below the first height, replay wants a first block that names the parent of genesis. */
  lemma OrphansNameGenesis(h: Hash, byHash: ByHash, byHeight: ByHeight, from: U64, start: Balances, registry: Registry)
    requires from == 0 || BlockAt(byHash, byHeight, from - 1).None?
    requires var log := LogFrom(h, byHash, byHeight, from, start, registry); log.blocks != [] && BlockHolds(h, log, 0)
    ensures BlocksFrom(byHash, byHeight, from)[0].parent == GenesisParent()
  {
  }

  /** A store that replays has no gaps: from the first height on, what is filed is filed without interruption. */
  lemma ReplayLeavesNoGap(h: Hash, byHash: ByHash, byHeight: ByHeight, from: U64, start: Balances, registry: Registry)
    requires var log := LogFrom(h, byHash, byHeight, from, start, registry); Intact(h, log, |log.blocks|)
    requires forall k: nat :: BlockAt(byHash, byHeight, k).Some? ==> BlockAt(byHash, byHeight, k).value.height == k
    ensures var n := |BlocksFrom(byHash, byHeight, from)|;
            forall k: nat :: from <= k ==> (BlockAt(byHash, byHeight, k).Some? <==> k < from + n)
  {
    var log := LogFrom(h, byHash, byHeight, from, start, registry);
    var heights := BlocksInOrder(byHash, byHeight, from);
    forall i | 0 <= i < |heights| ensures heights[i] == from + i {
      assert BlockHolds(h, log, i);
    }
    forall k: nat | from <= k ensures BlockAt(byHash, byHeight, k).Some? <==> k < from + |heights| {
      if k < from + |heights| {
        assert heights[k - from] == k;
      }
    }
  }

  lemma AfterSuffix(start: Balances, registry: Registry, lists: seq<seq<Intent>>, k: nat, j: nat)
    requires k + j <= |lists|
    ensures AfterLists(AfterLists(start, registry, lists, k), registry, lists[k..], j)
         == AfterLists(start, registry, lists, k + j)
  {
    FoldedFrom(Runner(registry), start, lists, k, j);
  }

  ghost predicate RecordsAt(h: Hash, chain: seq<Block>, start: Balances, registry: Registry, lists: seq<seq<Intent>>, i: nat)
    requires i < |chain| == |lists|
  {
    IsNext(h, chain, i, StateRoot(h, AfterLists(start, registry, lists, i + 1)), lists[i])
  }

  /** The chain is a record of running the lists. */
  ghost predicate Records(h: Hash, chain: seq<Block>, start: Balances, registry: Registry, lists: seq<seq<Intent>>) {
    |chain| == |lists| && forall i {:trigger RecordsAt(h, chain, start, registry, lists, i)} ::
      0 <= i < |chain| ==> RecordsAt(h, chain, start, registry, lists, i)
  }

  lemma RecordedRecords(h: Hash, start: Balances, registry: Registry, lists: seq<seq<Intent>>)
    requires |lists| <= HEIGHTS
    ensures Records(h, Recorded(h, start, registry, lists, |lists|), start, registry, lists)
  {
    var chain := Recorded(h, start, registry, lists, |lists|);
    forall i | 0 <= i < |chain| ensures RecordsAt(h, chain, start, registry, lists, i) {
      RecordedBlock(h, start, registry, lists, |lists|, i);
    }
  }

  /** What is left of a recorded run from height `k` on, with the state the run had there. */
  function LogSuffix(h: Hash, chain: seq<Block>, start: Balances, registry: Registry, lists: seq<seq<Intent>>, k: nat): Log
    requires k <= |chain| == |lists|
  {
    Log(chain[k..], k, ParentHash(h, chain, GenesisParent(), k), AfterLists(start, registry, lists, k), registry)
  }

  lemma SuffixIntents(h: Hash, chain: seq<Block>, start: Balances, registry: Registry, lists: seq<seq<Intent>>, k: nat)
    requires Records(h, chain, start, registry, lists) && k <= |lists|
    ensures IntentLists(chain[k..]) == lists[k..]
  {
    forall j | 0 <= j < |chain[k..]| ensures chain[k..][j].intents == lists[k..][j] {
      assert RecordsAt(h, chain, start, registry, lists, k + j);
    }
  }

  lemma SuffixLists(h: Hash, chain: seq<Block>, start: Balances, registry: Registry, lists: seq<seq<Intent>>, k: nat, i: nat)
    requires Records(h, chain, start, registry, lists) && k + i <= |lists|
    ensures AfterBlocks(LogSuffix(h, chain, start, registry, lists, k), i) == AfterLists(start, registry, lists, k + i)
  {
    SuffixIntents(h, chain, start, registry, lists, k);
    AfterSuffix(start, registry, lists, k, i);
  }

  lemma SuffixBlockHolds(h: Hash, chain: seq<Block>, log: Log, k: nat, i: nat, state: Balances, intents: seq<Intent>)
    requires k + i < |chain| && IsNext(h, chain, k + i, StateRoot(h, state), intents)
    requires log.blocks == chain[k..] && log.from == k && log.before == ParentHash(h, chain, GenesisParent(), k)
    requires state == AfterBlocks(log, i + 1)
    ensures BlockHolds(h, log, i)
  {
    assert log.blocks[i] == chain[k + i];
    assert i > 0 ==> log.blocks[i - 1] == chain[k + i - 1];
  }

  lemma RecordBlockHolds(h: Hash, chain: seq<Block>, start: Balances, registry: Registry, lists: seq<seq<Intent>>, k: nat,
                         i: nat)
    requires Records(h, chain, start, registry, lists) && k + i < |chain|
    ensures BlockHolds(h, LogSuffix(h, chain, start, registry, lists, k), i)
  {
    var state := AfterLists(start, registry, lists, k + i + 1);
    SuffixLists(h, chain, start, registry, lists, k, i + 1);
    assert RecordsAt(h, chain, start, registry, lists, k + i);
    SuffixBlockHolds(h, chain, LogSuffix(h, chain, start, registry, lists, k), k, i, state, lists[k + i]);
  }

  /** What a live run records satisfies everything replay checks, from any height on, and leads to its last state. */
  lemma RecordIsIntact(h: Hash, chain: seq<Block>, start: Balances, registry: Registry, lists: seq<seq<Intent>>, k: nat)
    requires Records(h, chain, start, registry, lists) && k <= |chain|
    ensures var log := LogSuffix(h, chain, start, registry, lists, k);
            && Intact(h, log, |log.blocks|)
            && AfterBlocks(log, |log.blocks|) == AfterLists(start, registry, lists, |lists|)
  {
    var log := LogSuffix(h, chain, start, registry, lists, k);
    assert Intact(h, log, |log.blocks|) by {
      forall i | 0 <= i < |log.blocks| ensures BlockHolds(h, log, i) {
        RecordBlockHolds(h, chain, start, registry, lists, k, i);
      }
    }
    SuffixLists(h, chain, start, registry, lists, k, |lists| - k);
  }

  /** A store that holds a chain hands exactly its suffix to replay. */
  lemma StoredLog(h: Hash, byHash: ByHash, byHeight: ByHeight, chain: seq<Block>, start: Balances, registry: Registry,
                  lists: seq<seq<Intent>>, from: U64)
    requires from <= |chain| == |lists| && Holds(h, byHash, byHeight, chain)
    ensures LogFrom(h, byHash, byHeight, from, AfterLists(start, registry, lists, from), registry)
         == LogSuffix(h, chain, start, registry, lists, from)
  {
    HeldChain(h, byHash, byHeight, chain, from);
    if from > 0 {
      assert BlockAt(byHash, byHeight, from - 1) == Some(chain[from - 1]);
    }
  }

  /**
   Recovery reproduces the live state. Record a live run and replay it from any height, on the state it had there:
   both executions are free to interleave as they like, yet replay succeeds and ends in the live state, unless two of
   the recorded blocks collide.
   */
  method RecordAndReplay(h: Hash, live: State, recovered: State, registry: Registry, lists: seq<seq<Intent>>, from: U64)
    returns (r: Result<(), RecoveryError>)
    requires live.Valid() && recovered.Valid() && live != recovered && from <= |lists| <= HEIGHTS
    requires recovered.slots == AfterLists(live.slots, registry, lists, from)
    modifies live, recovered
    ensures var chain := Recorded(h, old(live.slots), registry, lists, |lists|);
            || (r.Ok? && recovered.slots == live.slots == AfterLists(old(live.slots), registry, lists, |lists|))
            || exists i, j :: 0 <= i < j < |chain| && IsCollision(h, (HashPreimage(chain[i]), HashPreimage(chain[j])))
  {
    ghost var start := live.slots;
    ghost var chain := Recorded(h, start, registry, lists, |lists|);
    var store := new InMemoryBlockStore();
    RecordRun(h, live, store, registry, lists);
    RecordedCollides(h, start, registry, lists);
    if HashesDiffer(h, chain) {
      RecordedRecords(h, start, registry, lists);
      StoredLog(h, store.byHash, store.byHeight, chain, start, registry, lists, from);
      RecordIsIntact(h, chain, start, registry, lists, from);
    }
    r := ReplayFrom(h, store, recovered, registry, from);
  }

  /** Two stores that replay from genesis to the same tip hash hold the same bytes, hence blocks, or exhibit a collision. */
  lemma ReplayedChainsAgree(h: Hash, log: Log, log': Log)
    requires log.from == log'.from == 0 && log.before == log'.before == GenesisParent()
    requires log.blocks != [] && log'.blocks != []
    requires Intact(h, log, |log.blocks|) && Intact(h, log', |log'.blocks|)
    requires HashOf(h, log.blocks[|log.blocks| - 1]) == HashOf(h, log'.blocks[|log'.blocks| - 1])
    ensures match ChainDiscrepancy(log.blocks, log'.blocks)
            case Some(p) => IsCollision(h, p)
            case None =>
              && SameBytes(log.blocks, log'.blocks)
              && ((forall b :: b in log.blocks || b in log'.blocks ==> Fits(b)) ==> log.blocks == log'.blocks)
  {
    IntactIsLinked(h, log);
    IntactIsLinked(h, log');
    TipDeterminesChain(h, log.blocks, log'.blocks);
  }

  lemma IntactIsLinked(h: Hash, log: Log)
    requires log.from == 0 && log.before == GenesisParent() && Intact(h, log, |log.blocks|)
    ensures Linked(h, log.blocks)
  {
    forall i | 0 <= i < |log.blocks| ensures LinkedAt(h, log.blocks, i) {
      assert BlockHolds(h, log, i);
    }
  }
}
