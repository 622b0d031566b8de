/**
 The in-memory block store: blocks by hash, and the hash last stored at each height.
 */
module BlockStores {
  import opened Types
  import opened Trie
  import opened BlockCodec

  type ByHash = map<BlockHash, Block>
  type ByHeight = map<U64, BlockHash>

  const HEIGHTS: nat := 0x1_0000_0000_0000_0000

  function BlockAt(byHash: ByHash, byHeight: ByHeight, k: nat): Option<Block> {
    if k < HEIGHTS && k in byHeight && byHeight[k] in byHash then Some(byHash[byHeight[k]]) else None
  }

  /** The blocks at the stored heights from `k` on, in ascending order. */
  function BlocksFrom(byHash: ByHash, byHeight: ByHeight, k: nat): seq<Block>
    decreases HEIGHTS - k
  {
    if k >= HEIGHTS then []
    else
      var others := BlocksFrom(byHash, byHeight, k + 1);
      match BlockAt(byHash, byHeight, k) case Some(b) => [b] + others case None => others
  }

  /** The blocks are those at the given heights: ascending, from `k` on, and every one that leads to a block. */
  ghost predicate ListsHeights(byHash: ByHash, byHeight: ByHeight, k: nat, blocks: seq<Block>, heights: seq<nat>) {
    && |heights| == |blocks|
    && (forall i :: 0 <= i < |heights| ==> k <= heights[i] && BlockAt(byHash, byHeight, heights[i]) == Some(blocks[i]))
    && (forall i, j :: 0 <= i < j < |heights| ==> heights[i] < heights[j])
    && forall j :: k <= j && BlockAt(byHash, byHeight, j).Some? ==> j in heights
  }

  lemma PrependHeight(byHash: ByHash, byHeight: ByHeight, k: nat, b: Block, blocks: seq<Block>, heights: seq<nat>)
    requires BlockAt(byHash, byHeight, k) == Some(b) && ListsHeights(byHash, byHeight, k + 1, blocks, heights)
    ensures ListsHeights(byHash, byHeight, k, [b] + blocks, [k] + heights)
  {
    forall j | k <= j && BlockAt(byHash, byHeight, j).Some? ensures j in [k] + heights {
      assert j != k ==> j in heights;
    }
  }

  lemma SkipHeight(byHash: ByHash, byHeight: ByHeight, k: nat, blocks: seq<Block>, heights: seq<nat>)
    requires BlockAt(byHash, byHeight, k).None? && ListsHeights(byHash, byHeight, k + 1, blocks, heights)
    ensures ListsHeights(byHash, byHeight, k, blocks, heights)
  {
  }

  /** Iteration lists every block once per height that leads to it, by ascending height. */
  lemma {:induction false} BlocksInOrder(byHash: ByHash, byHeight: ByHeight, k: nat) returns (heights: seq<nat>)
    ensures ListsHeights(byHash, byHeight, k, BlocksFrom(byHash, byHeight, k), heights)
    decreases HEIGHTS - k
  {
    if k >= HEIGHTS {
      heights := [];
    } else {
      heights := BlocksInOrder(byHash, byHeight, k + 1);
      var at := BlockAt(byHash, byHeight, k);
      if at.Some? {
        PrependHeight(byHash, byHeight, k, at.value, BlocksFrom(byHash, byHeight, k + 1), heights);
        heights := [k] + heights;
      } else {
        SkipHeight(byHash, byHeight, k, BlocksFrom(byHash, byHeight, k + 1), heights);
      }
    }
  }

  lemma {:induction false} NothingBetween(byHash: ByHash, byHeight: ByHeight, k: nat, next: nat)
    requires k <= next <= HEIGHTS && forall j: U64 :: k <= j < next ==> j !in byHeight
    ensures BlocksFrom(byHash, byHeight, k) == BlocksFrom(byHash, byHeight, next)
    decreases next - k
  {
    if k < next {
      NothingBetween(byHash, byHeight, k + 1, next);
    }
  }

  predicate IsLeast(s: set<U64>, k: U64) {
    k in s && forall j :: j in s ==> k <= j
  }

  lemma {:induction false} LeastExists(s: set<U64>)
    requires s != {}
    ensures exists k :: IsLeast(s, k)
  {
    var x :| x in s;
    if s == {x} {
      assert IsLeast(s, x);
    } else {
      LeastExists(s - {x});
      var k :| IsLeast(s - {x}, k);
      var low := if k < x then k else x;
      forall j | j in s ensures low <= j {
        assert j == x || j in s - {x};
      }
      assert IsLeast(s, low);
    }
  }

  /** Heights from `k` on that are filed. */
  function HeightsFrom(byHeight: ByHeight, k: nat): set<U64> {
    set j | j in byHeight && j >= k
  }

  lemma NextFiled(byHash: ByHash, byHeight: ByHeight, k: nat, next: U64)
    requires IsLeast(HeightsFrom(byHeight, k), next)
    ensures BlocksFrom(byHash, byHeight, k) == match BlockAt(byHash, byHeight, next)
                                               case Some(b) => [b] + BlocksFrom(byHash, byHeight, next + 1)
                                               case None => BlocksFrom(byHash, byHeight, next + 1)
    ensures HeightsFrom(byHeight, next + 1) == HeightsFrom(byHeight, k) - {next}
  {
    assert forall j: U64 :: j in byHeight && k <= j ==> j in HeightsFrom(byHeight, k);
    NothingBetween(byHash, byHeight, k, next);
  }

  lemma NoneFiled(byHash: ByHash, byHeight: ByHeight, k: nat)
    requires k <= HEIGHTS && HeightsFrom(byHeight, k) == {}
    ensures BlocksFrom(byHash, byHeight, k) == []
  {
    assert forall j: U64 :: j in byHeight && k <= j ==> j in HeightsFrom(byHeight, k);
    NothingBetween(byHash, byHeight, k, HEIGHTS);
  }

  class InMemoryBlockStore {
    var byHash: ByHash
    var byHeight: ByHeight

    constructor ()
      ensures byHash == map[] && byHeight == map[]
    {
      byHash, byHeight := map[], map[];
    }

    method Put(h: Hash, block: Block)
      modifies this
      ensures byHeight == old(byHeight)[block.height := HashOf(h, block)]
      ensures byHash == old(byHash)[HashOf(h, block) := block]
    {
      var hash := HashOf(h, block);
      byHeight := byHeight[block.height := hash];
      byHash := byHash[hash := block];
    }

    method GetByHeight(height: U64) returns (r: Option<Block>)
      ensures r == BlockAt(byHash, byHeight, height)
    {
      if height in byHeight && byHeight[height] in byHash {
        r := Some(byHash[byHeight[height]]);
      } else {
        r := None;
      }
    }

    /** Every block from a height on, walking the ordered height index. */
    method IterFrom(from: U64) returns (blocks: seq<Block>)
      ensures blocks == BlocksFrom(byHash, byHeight, from)
    {
      blocks := [];
      var k: nat := from;
      var todo := HeightsFrom(byHeight, k);
      while todo != {}
        invariant k <= HEIGHTS && todo == HeightsFrom(byHeight, k)
        invariant blocks + BlocksFrom(byHash, byHeight, k) == BlocksFrom(byHash, byHeight, from)
        decreases todo
      {
        LeastExists(todo);
        var next: U64 :| IsLeast(todo, next);
        NextFiled(byHash, byHeight, k, next);
        var found := BlockAt(byHash, byHeight, next);
        if found.Some? {
          blocks := blocks + [found.value];
        }
        k, todo := next + 1, todo - {next};
      }
      NoneFiled(byHash, byHeight, k);
      assert blocks + [] == blocks;
    }
  }
}
