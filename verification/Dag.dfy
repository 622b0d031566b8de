/**
 The DAG store: blocks with any number of parents, and a children index kept in step by `put`.
 */
module Dag {
  import opened Types
  import opened Graphs

  datatype DagBlock = DagBlock(height: nat, stateRoot: Bytes32, parents: seq<BlockHash>, timestamp: nat)

  type Blocks = map<BlockHash, DagBlock>

  /** The parent relation as a graph. */
  function ParentGraph(blocks: Blocks): (g: Graph)
    ensures forall c, p :: p in Succ(g, c) <==> c in blocks && p in blocks[c].parents
  {
    map h | h in blocks :: blocks[h].parents
  }

  /** Append `hash` under a parent, unless it is already listed there. */
  function AddChild(children: Graph, parent: BlockHash, hash: BlockHash): Graph {
    var list := Succ(children, parent);
    children[parent := if hash in list then list else list + [hash]]
  }

  function AddChildren(children: Graph, parents: seq<BlockHash>, hash: BlockHash): Graph {
    if parents == [] then children
    else AddChild(AddChildren(children, parents[..|parents| - 1], hash), parents[|parents| - 1], hash)
  }

  datatype ValidationResult = Valid | MissingParent | HeightNotIncreasing | CycleDetected

  class DagStore {
    var blocks: Blocks
    var children: Graph
    ghost var history: Puts

    /** Both maps are what the puts so far add up to. */
    ghost predicate Consistent()
      reads this
    {
      blocks == BlocksAfter(history) && children == ChildrenAfter(history)
    }

    constructor ()
      ensures Consistent() && history == []
    {
      blocks, children, history := map[], map[], [];
    }

    method Put(hash: BlockHash, block: DagBlock)
      requires Consistent()
      modifies this
      ensures Consistent() && history == old(history) + [(hash, block)]
      ensures blocks == old(blocks)[hash := block]
      ensures forall p, c :: c in Succ(children, p) <==> c in Succ(old(children), p) || (c == hash && p in block.parents)
      ensures forall p :: Distinct(Succ(children, p))
    {
      for i := 0 to |block.parents|
        invariant blocks == old(blocks) && history == old(history)
        invariant children == AddChildren(old(children), block.parents[..i], hash)
      {
        var parent := block.parents[i];
        var list := if parent in children then children[parent] else [];
        if hash !in list {
          list := list + [hash];
        }
        children := children[parent := list];
        assert block.parents[..i + 1][..i] == block.parents[..i];
      }
      assert block.parents[..|block.parents|] == block.parents;
      blocks := blocks[hash := block];
      history := history + [(hash, block)];
      assert history[..|history| - 1] == old(history);
      forall p, c
        ensures c in Succ(children, p) <==> c in Succ(old(children), p) || (c == hash && p in block.parents)
      {
        AddChildrenMembers(old(children), block.parents, hash, p, c);
      }
      forall p ensures Distinct(Succ(children, p)) {
        ListedOnce(history, p);
      }
    }

    /** A shortest path along parent links, if the target can be reached. */
    method PathBetween(from: BlockHash, to: BlockHash) returns (r: Option<seq<BlockHash>>)
      ensures r.Some? <==> Reach(ParentGraph(blocks), from, to)
      ensures r.Some? ==> IsShortest(ParentGraph(blocks), r.value, from, to) && Distinct(r.value)
    {
      r := FindPath(ParentGraph(blocks), from, to);
    }

    /** Everything one or more parent links away, once. The start itself is listed only if it lies on a cycle. */
    method AncestorsOf(start: BlockHash) returns (out: seq<BlockHash>)
      ensures Distinct(out)
      ensures forall a :: a in out <==> ReachPlus(ParentGraph(blocks), start, a)
      ensures start in out <==> ReachPlus(ParentGraph(blocks), start, start)
      ensures WellFormed(blocks) ==> start !in out
    {
      out := Explore(ParentGraph(blocks), start);
      if WellFormed(blocks) {
        StartIsNoAncestor(blocks, start);
      }
    }

    /** Everything below `start` in the children index, once. */
    method DescendantsOf(start: BlockHash) returns (out: seq<BlockHash>)
      ensures Distinct(out)
      ensures forall d :: d in out <==> ReachPlus(children, start, d)
      ensures start in out <==> ReachPlus(children, start, start)
      ensures Consistent() && WellFormed(blocks) && StillAncestors(history) ==> start !in out
      ensures Consistent() && (exists rank :: Ranks(rank, history)) ==> start !in out
    {
      out := Explore(children, start);
      if Consistent() && WellFormed(blocks) && StillAncestors(history) {
        StartIsNoDescendant(history, start);
      }
      if Consistent() && exists rank :: Ranks(rank, history) {
        NoOwnDescendantsIff(history);
        assert !ReachPlus(ChildrenAfter(history), start, start);
      }
    }

    /** Blocks without children. */
    method Tips() returns (tips: set<BlockHash>)
      ensures forall h :: h in tips <==> IsTip(blocks, children, h)
    {
      tips := set h | h in blocks && Succ(children, h) == [];
    }

    /** Parents exist, heights increase, and there is no cycle; the last of these can never be the one that fails. */
    method Validate() returns (r: ValidationResult)
      ensures r.Valid? <==> WellFormed(blocks)
      ensures !r.CycleDetected?
      ensures r.MissingParent? ==> exists h, p :: h in blocks && p in blocks[h].parents && p !in blocks
      ensures r.HeightNotIncreasing? ==>
                exists h, p :: h in blocks && p in blocks[h].parents && p in blocks && blocks[p].height >= blocks[h].height
    {
      var todo := blocks.Keys;
      while todo != {}
        invariant todo <= blocks.Keys
        invariant forall h, p :: h in blocks && h !in todo && p in blocks[h].parents ==> ParentBelow(blocks, h, p)
        decreases todo
      {
        var hash :| hash in todo;
        var parents := blocks[hash].parents;
        for i := 0 to |parents|
          invariant forall k :: 0 <= k < i ==> ParentBelow(blocks, hash, parents[k])
        {
          if parents[i] !in blocks {
            assert parents[i] in blocks[hash].parents && !ParentBelow(blocks, hash, parents[i]);
            return MissingParent;
          }
          if blocks[parents[i]].height >= blocks[hash].height {
            assert parents[i] in blocks[hash].parents && !ParentBelow(blocks, hash, parents[i]);
            return HeightNotIncreasing;
          }
        }
        todo := todo - {hash};
      }
      todo := blocks.Keys;
      while todo != {}
        invariant todo <= blocks.Keys
        decreases todo
      {
        var start :| start in todo;
        var cycle := HasCycleFrom(ParentGraph(blocks), start);
        WellFormedIsAcyclic(blocks, start);
        if cycle {
          return CycleDetected;
        }
        todo := todo - {start};
      }
      r := Valid;
    }
  }

  ghost predicate IsTip(blocks: Blocks, children: Graph, h: BlockHash) {
    h in blocks && Succ(children, h) == []
  }

  /** The parent is stored, strictly lower. */
  ghost predicate ParentBelow(blocks: Blocks, h: BlockHash, p: BlockHash)
    requires h in blocks
  {
    p in blocks && blocks[p].height < blocks[h].height
  }

  ghost predicate WellFormed(blocks: Blocks) {
    forall h, p :: h in blocks && p in blocks[h].parents ==> ParentBelow(blocks, h, p)
  }

  // ---------------------------------------------------------------------------------------------
  // Heights and cycles
  // ---------------------------------------------------------------------------------------------

  lemma {:induction false} HeightsFall(blocks: Blocks, path: seq<BlockHash>, i: nat)
    requires WellFormed(blocks) && IsPath(ParentGraph(blocks), path) && 0 < i < |path|
    ensures path[0] in blocks && path[i] in blocks && blocks[path[i]].height < blocks[path[0]].height
  {
    var g := ParentGraph(blocks);
    assert path[(i - 1) + 1] in Succ(g, path[i - 1]);
    assert ParentBelow(blocks, path[i - 1], path[i]);
    if i > 1 {
      HeightsFall(blocks, path, i - 1);
    }
  }

  /** A cycle would have to climb back up: well-formed stores have none. */
  lemma WellFormedIsAcyclic(blocks: Blocks, start: BlockHash)
    requires WellFormed(blocks)
    ensures !CycleFrom(ParentGraph(blocks), start)
  {
    var g := ParentGraph(blocks);
    forall c, p | Connects(g, p, c, c) ensures |p| < 2 {
      if |p| >= 2 {
        HeightsFall(blocks, p, |p| - 1);
      }
    }
  }

  // ---------------------------------------------------------------------------------------------
  // The children index
  // ---------------------------------------------------------------------------------------------

  type Puts = seq<(BlockHash, DagBlock)>

  /** The store a sequence of puts leads to. */
  function BlocksAfter(puts: Puts): Blocks {
    if puts == [] then map[]
    else
      var last := puts[|puts| - 1];
      BlocksAfter(puts[..|puts| - 1])[last.0 := last.1]
  }

  lemma PutOverwrites(puts: Puts, hash: BlockHash, block: DagBlock)
    ensures BlocksAfter(puts + [(hash, block)]) == BlocksAfter(puts)[hash := block]
  {
    assert (puts + [(hash, block)])[..|puts|] == puts;
  }

  function ChildrenAfter(puts: Puts): Graph {
    if puts == [] then map[]
    else
      var last := puts[|puts| - 1];
      AddChildren(ChildrenAfter(puts[..|puts| - 1]), last.1.parents, last.0)
  }

  /** The index is the exact inverse of the parent relation. */
  ghost predicate Exact(blocks: Blocks, children: Graph) {
    forall p, c :: c in Succ(children, p) <==> p in Succ(ParentGraph(blocks), c)
  }

  lemma {:induction false} AddChildrenMembers(children: Graph, parents: seq<BlockHash>, hash: BlockHash,
                                              p: BlockHash, c: BlockHash)
    ensures c in Succ(AddChildren(children, parents, hash), p) <==> c in Succ(children, p) || (c == hash && p in parents)
  {
    if parents != [] {
      var init := parents[..|parents| - 1];
      AddChildrenMembers(children, init, hash, p, c);
      assert parents == init + [parents[|parents| - 1]];
    }
  }

  lemma {:induction false} AddChildrenOnce(children: Graph, parents: seq<BlockHash>, hash: BlockHash, p: BlockHash)
    requires Distinct(Succ(children, p))
    ensures Distinct(Succ(AddChildren(children, parents, hash), p))
  {
    if parents != [] {
      AddChildrenOnce(children, parents[..|parents| - 1], hash, p);
    }
  }

  /** However often a block is put, each of its parents lists it once. */
  lemma {:induction false} ListedOnce(puts: Puts, p: BlockHash)
    ensures Distinct(Succ(ChildrenAfter(puts), p))
  {
    if puts != [] {
      var init, last := puts[..|puts| - 1], puts[|puts| - 1];
      ListedOnce(init, p);
      AddChildrenOnce(ChildrenAfter(init), last.1.parents, last.0, p);
    }
  }

  /** Some put of `c` in the first `k` named `p` as a parent. */
  ghost predicate Named(puts: Puts, k: nat, p: BlockHash, c: BlockHash)
    requires k <= |puts|
  {
    exists i :: 0 <= i < k && puts[i].0 == c && p in puts[i].1.parents
  }

  /** What the index remembers is the whole history of puts, in whatever order they came. */
  lemma {:induction false} IndexIsHistory(puts: Puts, p: BlockHash, c: BlockHash)
    ensures c in Succ(ChildrenAfter(puts), p) <==> Named(puts, |puts|, p, c)
  {
    if puts != [] {
      var init, last := puts[..|puts| - 1], puts[|puts| - 1];
      IndexIsHistory(init, p, c);
      AddChildrenMembers(ChildrenAfter(init), last.1.parents, last.0, p, c);
      assert forall i :: 0 <= i < |init| ==> init[i] == puts[i];
      if Named(init, |init|, p, c) {
        var i :| 0 <= i < |init| && init[i].0 == c && p in init[i].1.parents;
        assert puts[i].0 == c;
      }
      if Named(puts, |puts|, p, c) {
        var i :| 0 <= i < |puts| && puts[i].0 == c && p in puts[i].1.parents;
        assert i < |init| ==> init[i].0 == c;
      }
    }
  }

  lemma {:induction false} LatestPut(puts: Puts, c: BlockHash) returns (i: nat)
    requires c in BlocksAfter(puts)
    ensures i < |puts| && puts[i].0 == c && puts[i].1 == BlocksAfter(puts)[c]
  {
    var init, last := puts[..|puts| - 1], puts[|puts| - 1];
    if last.0 == c {
      i := |puts| - 1;
    } else {
      i := LatestPut(init, c);
    }
  }

  lemma {:induction false} PutIsStored(puts: Puts, i: nat)
    requires i < |puts|
    ensures puts[i].0 in BlocksAfter(puts)
  {
    if i < |puts| - 1 {
      PutIsStored(puts[..|puts| - 1], i);
    }
  }

  /** No later put of the same hash has dropped a parent that an earlier one named. */
  ghost predicate NothingDropped(puts: Puts) {
    forall i, p :: 0 <= i < |puts| && p in puts[i].1.parents ==> p in Succ(ParentGraph(BlocksAfter(puts)), puts[i].0)
  }

  /** The index is exact if and only if no re-put dropped a parent. */
  lemma IndexIsExactIff(puts: Puts)
    ensures Exact(BlocksAfter(puts), ChildrenAfter(puts)) <==> NothingDropped(puts)
  {
    var blocks, children := BlocksAfter(puts), ChildrenAfter(puts);
    if Exact(blocks, children) {
      forall i, p | 0 <= i < |puts| && p in puts[i].1.parents
        ensures p in Succ(ParentGraph(blocks), puts[i].0)
      {
        assert Named(puts, |puts|, p, puts[i].0);
        IndexIsHistory(puts, p, puts[i].0);
      }
    }
    if NothingDropped(puts) {
      forall p, c ensures c in Succ(children, p) <==> p in Succ(ParentGraph(blocks), c) {
        IndexIsHistory(puts, p, c);
        if Named(puts, |puts|, p, c) {
          var i :| 0 <= i < |puts| && puts[i].0 == c && p in puts[i].1.parents;
        }
        if p in Succ(ParentGraph(blocks), c) {
          var i := LatestPut(puts, c);
          assert Named(puts, |puts|, p, c);
        }
      }
    }
  }

  /** A re-put that drops its parent leaves a child behind: the index then lists a block that no longer claims the parent. */
  lemma DroppedParentExample(p: BlockHash, c: BlockHash, b: DagBlock)
    requires b.parents == [p]
    ensures !Exact(BlocksAfter([(c, b), (c, b.(parents := []))]), ChildrenAfter([(c, b), (c, b.(parents := []))]))
  {
    var puts := [(c, b), (c, b.(parents := []))];
    assert puts[0].1.parents[0] == p;
    assert BlocksAfter(puts)[c].parents == [];
    assert p in puts[0].1.parents && p !in Succ(ParentGraph(BlocksAfter(puts)), puts[0].0);
    IndexIsExactIff(puts);
  }

  lemma ReversePath(g: Graph, r: Graph, path: seq<BlockHash>, x: BlockHash, y: BlockHash)
    requires forall a, b :: b in Succ(g, a) ==> a in Succ(r, b)
    requires Connects(g, path, x, y)
    ensures Connects(r, Reversed(path), y, x)
  {
    var q := Reversed(path);
    forall i | 0 <= i < |q| - 1 ensures q[i + 1] in Succ(r, q[i]) {
      assert path[(|path| - 2 - i) + 1] in Succ(g, path[|path| - 2 - i]);
    }
  }

  // ---------------------------------------------------------------------------------------------
  // Closure duality
  // ---------------------------------------------------------------------------------------------

  /** `a` is an ancestor of `x` exactly when `x` is a descendant of `a`. */
  ghost predicate Dual(g: Graph, children: Graph) {
    forall a, x :: ReachPlus(g, x, a) <==> ReachPlus(children, a, x)
  }

  /** Every parent a put has ever named is still an ancestor, if perhaps no longer a parent. */
  ghost predicate StillAncestors(puts: Puts) {
    forall i, p :: 0 <= i < |puts| && p in puts[i].1.parents ==>
      ReachPlus(ParentGraph(BlocksAfter(puts)), puts[i].0, p)
  }

  /** Current parent links are always in the index. */
  lemma IndexHasParents(puts: Puts, p: BlockHash, c: BlockHash)
    requires p in Succ(ParentGraph(BlocksAfter(puts)), c)
    ensures c in Succ(ChildrenAfter(puts), p)
  {
    var i := LatestPut(puts, c);
    assert Named(puts, |puts|, p, c);
    IndexIsHistory(puts, p, c);
  }

  /** So every ancestor has its descendant, whatever was re-put. */
  lemma AncestorHasDescendant(puts: Puts, a: BlockHash, x: BlockHash)
    requires ReachPlus(ParentGraph(BlocksAfter(puts)), x, a)
    ensures ReachPlus(ChildrenAfter(puts), a, x)
  {
    var g, children := ParentGraph(BlocksAfter(puts)), ChildrenAfter(puts);
    var path :| Connects(g, path, x, a) && |path| >= 2;
    forall c, p | p in Succ(g, c) ensures c in Succ(children, p) {
      IndexHasParents(puts, p, c);
    }
    ReversePath(g, children, path, x, a);
    assert Connects(children, Reversed(path), a, x) && |Reversed(path)| >= 2;
  }

  /** An index link from `p` to `c` means that `p` is still an ancestor of `c`. */
  lemma IndexedIsAncestor(puts: Puts, p: BlockHash, c: BlockHash)
    requires StillAncestors(puts) && c in Succ(ChildrenAfter(puts), p)
    ensures ReachPlus(ParentGraph(BlocksAfter(puts)), c, p)
  {
    IndexIsHistory(puts, p, c);
    var i :| 0 <= i < |puts| && puts[i].0 == c && p in puts[i].1.parents;
  }

  lemma {:induction false} DescendantHasAncestor(puts: Puts, path: seq<BlockHash>, i: nat)
    requires StillAncestors(puts) && IsPath(ChildrenAfter(puts), path) && 0 < i < |path|
    ensures ReachPlus(ParentGraph(BlocksAfter(puts)), path[i], path[0])
  {
    assert path[(i - 1) + 1] in Succ(ChildrenAfter(puts), path[i - 1]);
    IndexedIsAncestor(puts, path[i - 1], path[i]);
    if i > 1 {
      var g := ParentGraph(BlocksAfter(puts));
      DescendantHasAncestor(puts, path, i - 1);
      PlusIsReach(g, path[i - 1], path[0]);
      ReachPlusThenReach(g, path[i], path[i - 1], path[0]);
    }
  }

  /** Closure duality: for every sequence of puts, the closures are dual exactly when named parents stay ancestors. */
  lemma DualityIff(puts: Puts)
    ensures Dual(ParentGraph(BlocksAfter(puts)), ChildrenAfter(puts)) <==> StillAncestors(puts)
  {
    var g, children := ParentGraph(BlocksAfter(puts)), ChildrenAfter(puts);
    if Dual(g, children) {
      forall i, p | 0 <= i < |puts| && p in puts[i].1.parents ensures ReachPlus(g, puts[i].0, p) {
        assert Named(puts, |puts|, p, puts[i].0);
        IndexIsHistory(puts, p, puts[i].0);
        ReachSelf(children, p);
        ReachStep(children, p, p, puts[i].0);
      }
    }
    if StillAncestors(puts) {
      forall a, x ensures ReachPlus(g, x, a) <==> ReachPlus(children, a, x) {
        if ReachPlus(g, x, a) {
          AncestorHasDescendant(puts, a, x);
        }
        if ReachPlus(children, a, x) {
          var path :| Connects(children, path, a, x) && |path| >= 2;
          DescendantHasAncestor(puts, path, |path| - 1);
        }
      }
    }
  }

  /** An exact index is enough, however the store came about. */
  lemma ClosureDuality(blocks: Blocks, children: Graph)
    requires Exact(blocks, children)
    ensures Dual(ParentGraph(blocks), children)
  {
    var g := ParentGraph(blocks);
    forall a, x ensures ReachPlus(g, x, a) <==> ReachPlus(children, a, x) {
      if ReachPlus(g, x, a) {
        var p :| Connects(g, p, x, a) && |p| >= 2;
        ReversePath(g, children, p, x, a);
        assert Connects(children, Reversed(p), a, x) && |Reversed(p)| >= 2;
      }
      if ReachPlus(children, a, x) {
        var p :| Connects(children, p, a, x) && |p| >= 2;
        ReversePath(children, g, p, a, x);
        assert Connects(g, Reversed(p), x, a) && |Reversed(p)| >= 2;
      }
    }
  }

  /** Duality fails when a block is put again without its only parent: the parent keeps a descendant it is no ancestor of. */
  lemma DualityFails(p: BlockHash, c: BlockHash, b: DagBlock)
    requires b.parents == [p]
    ensures var puts := [(c, b), (c, b.(parents := []))];
            && !Dual(ParentGraph(BlocksAfter(puts)), ChildrenAfter(puts))
            && ReachPlus(ChildrenAfter(puts), p, c) && !ReachPlus(ParentGraph(BlocksAfter(puts)), c, p)
  {
    var puts := [(c, b), (c, b.(parents := []))];
    var g, children := ParentGraph(BlocksAfter(puts)), ChildrenAfter(puts);
    assert puts[0].1.parents[0] == p;
    assert Named(puts, |puts|, p, puts[0].0);
    IndexIsHistory(puts, p, c);
    ReachSelf(children, p);
    ReachStep(children, p, p, c);
    assert BlocksAfter(puts)[c].parents == [];
    if ReachPlus(g, c, p) {
      var y := FirstEdge(g, c, p);
    }
  }

  /** `c` first names `q` and its parent `g0`, and is then put again with `q` alone. */
  function DroppedGrandparent(g0: BlockHash, q: BlockHash, c: BlockHash, b: DagBlock): Puts {
    [(q, b.(parents := [g0])), (c, b.(parents := [g0, q])), (c, b.(parents := [q]))]
  }

  lemma DroppedGrandparentStore(g0: BlockHash, q: BlockHash, c: BlockHash, b: DagBlock)
    requires q != c
    ensures var g := ParentGraph(BlocksAfter(DroppedGrandparent(g0, q, c, b))); Succ(g, q) == [g0] && Succ(g, c) == [q]
  {
    var puts := DroppedGrandparent(g0, q, c, b);
    PutOverwrites([], q, puts[0].1);
    PutOverwrites(puts[..1], c, puts[1].1);
    PutOverwrites(puts[..2], c, puts[2].1);
    assert puts == puts[..2] + [puts[2]] && puts[..2] == puts[..1] + [puts[1]] && puts[..1] == [] + [puts[0]];
  }

  /** Duality survives a dropped parent that stays an ancestor: the index is inexact, yet the closures are dual. */
  lemma DualThoughInexact(g0: BlockHash, q: BlockHash, c: BlockHash, b: DagBlock)
    requires g0 != q && q != c
    ensures var puts := DroppedGrandparent(g0, q, c, b);
            && !Exact(BlocksAfter(puts), ChildrenAfter(puts))
            && Dual(ParentGraph(BlocksAfter(puts)), ChildrenAfter(puts))
  {
    var puts := DroppedGrandparent(g0, q, c, b);
    var g := ParentGraph(BlocksAfter(puts));
    DroppedGrandparentStore(g0, q, c, b);
    assert puts[1].1.parents[0] == g0;
    assert g0 in puts[1].1.parents && g0 !in Succ(g, puts[1].0);
    IndexIsExactIff(puts);
    ReachSelf(g, q);
    ReachStep(g, q, q, g0);
    ReachSelf(g, c);
    ReachStep(g, c, c, q);
    PlusIsReach(g, c, q);
    ReachStep(g, c, q, g0);
    assert StillAncestors(puts);
    DualityIff(puts);
  }

  // ---------------------------------------------------------------------------------------------
  // The start of a closure
  // ---------------------------------------------------------------------------------------------

  /** In every store that validation accepts, no block is its own ancestor. */
  lemma StartIsNoAncestor(blocks: Blocks, start: BlockHash)
    requires WellFormed(blocks)
    ensures !ReachPlus(ParentGraph(blocks), start, start)
  {
    WellFormedIsAcyclic(blocks, start);
    ReachSelf(ParentGraph(blocks), start);
  }

  /** Nor its own descendant, if named parents stay ancestors. */
  lemma StartIsNoDescendant(puts: Puts, start: BlockHash)
    requires WellFormed(BlocksAfter(puts)) && StillAncestors(puts)
    ensures !ReachPlus(ChildrenAfter(puts), start, start)
  {
    DualityIff(puts);
    StartIsNoAncestor(BlocksAfter(puts), start);
  }

  /** An order over the whole history: whatever was ever named a parent ranks below the block that named it. */
  ghost predicate Ranks(rank: map<BlockHash, nat>, puts: Puts) {
    forall i, p :: 0 <= i < |puts| && p in puts[i].1.parents ==>
      p in rank && puts[i].0 in rank && rank[p] < rank[puts[i].0]
  }

  lemma {:induction false} RankRises(rank: map<BlockHash, nat>, puts: Puts, path: seq<BlockHash>, i: nat)
    requires Ranks(rank, puts) && IsPath(ChildrenAfter(puts), path) && 0 < i < |path|
    ensures path[0] in rank && path[i] in rank && rank[path[0]] < rank[path[i]]
  {
    assert path[(i - 1) + 1] in Succ(ChildrenAfter(puts), path[i - 1]);
    IndexIsHistory(puts, path[i - 1], path[i]);
    var k :| 0 <= k < |puts| && puts[k].0 == path[i] && path[i - 1] in puts[k].1.parents;
    if i > 1 {
      RankRises(rank, puts, path, i - 1);
    }
  }

  lemma RankedIsAcyclic(rank: map<BlockHash, nat>, puts: Puts, x: BlockHash)
    requires Ranks(rank, puts)
    ensures !ReachPlus(ChildrenAfter(puts), x, x)
  {
    if ReachPlus(ChildrenAfter(puts), x, x) {
      var path :| Connects(ChildrenAfter(puts), path, x, x) && |path| >= 2;
      RankRises(rank, puts, path, |path| - 1);
    }
  }

  /** Every hash the history mentions. */
  ghost function Mentioned(puts: Puts): (r: set<BlockHash>)
    ensures forall i, p :: 0 <= i < |puts| && p in puts[i].1.parents ==> p in r && puts[i].0 in r
  {
    (set i | 0 <= i < |puts| :: puts[i].0) + set i, p | 0 <= i < |puts| && p in puts[i].1.parents :: p
  }

  /** The nodes among `nodes` from which `x` can be reached. */
  ghost function Sources(g: Graph, nodes: set<BlockHash>, x: BlockHash): set<BlockHash> {
    set y | y in nodes && ReachPlus(g, y, x)
  }

  lemma SourcesGrow(g: Graph, nodes: set<BlockHash>, p: BlockHash, c: BlockHash)
    requires c in Succ(g, p) && p in nodes && p !in Sources(g, nodes, p)
    ensures Sources(g, nodes, p) < Sources(g, nodes, c)
  {
    forall y | y in Sources(g, nodes, p) ensures y in Sources(g, nodes, c) {
      PlusIsReach(g, y, p);
      ReachStep(g, y, p, c);
    }
    ReachSelf(g, p);
    ReachStep(g, p, p, c);
    assert p in Sources(g, nodes, c);
  }

  lemma {:induction false} SmallerSubset(s: set<BlockHash>, t: set<BlockHash>)
    requires s < t
    ensures |s| < |t|
  {
    if s != {} {
      var x :| x in s;
      SmallerSubset(s - {x}, t - {x});
    }
  }

  /** No block is ever its own descendant if and only if the history can be ranked. */
  lemma NoOwnDescendantsIff(puts: Puts)
    ensures (forall x :: !ReachPlus(ChildrenAfter(puts), x, x)) <==> exists rank :: Ranks(rank, puts)
  {
    var children := ChildrenAfter(puts);
    if forall x :: !ReachPlus(children, x, x) {
      var nodes := Mentioned(puts);
      var rank := map x | x in nodes :: |Sources(children, nodes, x)|;
      forall i, p | 0 <= i < |puts| && p in puts[i].1.parents
        ensures p in rank && puts[i].0 in rank && rank[p] < rank[puts[i].0]
      {
        assert Named(puts, |puts|, p, puts[i].0);
        IndexIsHistory(puts, p, puts[i].0);
        SourcesGrow(children, nodes, p, puts[i].0);
        SmallerSubset(Sources(children, nodes, p), Sources(children, nodes, puts[i].0));
      }
      assert Ranks(rank, puts);
    }
    if rank :| Ranks(rank, puts) {
      forall x ensures !ReachPlus(children, x, x) {
        RankedIsAcyclic(rank, puts, x);
      }
    }
  }

  /** A block that lists itself as a parent is in both of its own closures. */
  lemma SelfParentExample(x: BlockHash, b: DagBlock)
    requires b.parents == [x]
    ensures ReachPlus(ParentGraph(BlocksAfter([(x, b)])), x, x)
    ensures ReachPlus(ChildrenAfter([(x, b)]), x, x)
  {
    var puts := [(x, b)];
    var g := ParentGraph(BlocksAfter(puts));
    assert BlocksAfter(puts)[x].parents[0] == x;
    ReachSelf(g, x);
    ReachStep(g, x, x, x);
    AncestorHasDescendant(puts, x, x);
  }

  /** Re-puts can turn a link around: the store is well-formed, but stale index entries close a cycle. */
  lemma StaleCycleExample(x: BlockHash, y: BlockHash, low: DagBlock, high: DagBlock)
    requires x != y && low.parents == [] && low.height < high.height
    ensures var puts := [(y, low), (x, high.(parents := [y])), (x, low), (y, high.(parents := [x]))];
            && WellFormed(BlocksAfter(puts)) && ReachPlus(ChildrenAfter(puts), x, x)
  {
    var puts := [(y, low), (x, high.(parents := [y])), (x, low), (y, high.(parents := [x]))];
    var blocks, children := BlocksAfter(puts), ChildrenAfter(puts);
    PutOverwrites([], y, low);
    PutOverwrites(puts[..1], x, puts[1].1);
    PutOverwrites(puts[..2], x, low);
    PutOverwrites(puts[..3], y, puts[3].1);
    assert puts == puts[..3] + [puts[3]] && puts[..3] == puts[..2] + [puts[2]];
    assert puts[..2] == puts[..1] + [puts[1]] && puts[..1] == [] + [puts[0]];
    assert blocks == map[y := high.(parents := [x]), x := low];
    assert puts[1].1.parents[0] == y && puts[3].1.parents[0] == x;
    assert Named(puts, |puts|, y, puts[1].0) && Named(puts, |puts|, x, puts[3].0);
    IndexIsHistory(puts, y, x);
    IndexIsHistory(puts, x, y);
    ReachSelf(children, x);
    ReachStep(children, x, x, y);
    PlusIsReach(children, x, y);
    ReachStep(children, x, y, x);
  }

  // ---------------------------------------------------------------------------------------------
  // Tips
  // ---------------------------------------------------------------------------------------------

  ghost function Above(blocks: Blocks, h: BlockHash): set<BlockHash>
    requires h in blocks
  {
    set x | x in blocks && blocks[x].height > blocks[h].height
  }

  /** `h` is a tip, or an ancestor of one. */
  ghost predicate Covered(blocks: Blocks, children: Graph, h: BlockHash) {
    exists tip :: IsTip(blocks, children, tip) && (tip == h || ReachPlus(ParentGraph(blocks), tip, h))
  }

  /** Every stored block that the index gives children to is somebody's parent. */
  ghost predicate ChildrenAreReal(blocks: Blocks, children: Graph) {
    forall h :: h in blocks && Succ(children, h) != [] ==> exists c :: h in Succ(ParentGraph(blocks), c)
  }

  lemma {:induction false} FindTip(blocks: Blocks, children: Graph, h: BlockHash)
    requires WellFormed(blocks) && ChildrenAreReal(blocks, children) && h in blocks
    ensures Covered(blocks, children, h)
    decreases Above(blocks, h)
  {
    var g := ParentGraph(blocks);
    if Succ(children, h) == [] {
      assert IsTip(blocks, children, h);
    } else {
      var c :| h in Succ(g, c);
      assert ParentBelow(blocks, c, h);
      assert c in Above(blocks, h) && c !in Above(blocks, c);
      FindTip(blocks, children, c);
      var tip :| IsTip(blocks, children, tip) && (tip == c || ReachPlus(g, tip, c));
      if tip == c {
        ReachSelf(g, c);
      } else {
        PlusIsReach(g, tip, c);
      }
      ReachStep(g, tip, c, h);
    }
  }

  /**
   When the tips cover the store: in a well-formed store every block is a tip or an ancestor of one, if and only if
   the index gives children only to blocks that are somebody's parent.
   */
  lemma TipsCoverIff(blocks: Blocks, children: Graph)
    requires WellFormed(blocks)
    ensures (forall h :: h in blocks ==> Covered(blocks, children, h)) <==> ChildrenAreReal(blocks, children)
  {
    var g := ParentGraph(blocks);
    if ChildrenAreReal(blocks, children) {
      forall h | h in blocks ensures Covered(blocks, children, h) {
        FindTip(blocks, children, h);
      }
    }
    if forall h :: h in blocks ==> Covered(blocks, children, h) {
      forall h | h in blocks && Succ(children, h) != [] ensures exists c :: h in Succ(g, c) {
        assert Covered(blocks, children, h);
        var tip :| IsTip(blocks, children, tip) && (tip == h || ReachPlus(g, tip, h));
        var c := LastEdge(g, tip, h);
      }
    }
  }

  /** An exact index is enough. */
  lemma TipsCoverStore(blocks: Blocks, children: Graph)
    requires WellFormed(blocks) && Exact(blocks, children)
    ensures forall h :: h in blocks ==> Covered(blocks, children, h)
  {
    forall h | h in blocks && Succ(children, h) != [] ensures exists c :: h in Succ(ParentGraph(blocks), c) {
      var c := Succ(children, h)[0];
      assert c in Succ(children, h) && h in Succ(ParentGraph(blocks), c);
    }
    TipsCoverIff(blocks, children);
  }

  /** A block whose only child was put again without it is covered by no tip, and is not one itself. */
  lemma UncoveredExample(p: BlockHash, c: BlockHash, low: DagBlock, high: DagBlock)
    requires p != c && low.parents == [] && high.parents == [p] && low.height < high.height
    ensures var puts := [(p, low), (c, high), (c, high.(parents := []))];
            && WellFormed(BlocksAfter(puts)) && p in BlocksAfter(puts)
            && !Covered(BlocksAfter(puts), ChildrenAfter(puts), p)
  {
    var puts := [(p, low), (c, high), (c, high.(parents := []))];
    var blocks, children := BlocksAfter(puts), ChildrenAfter(puts);
    PutOverwrites([], p, low);
    PutOverwrites(puts[..1], c, high);
    PutOverwrites(puts[..2], c, puts[2].1);
    assert puts == puts[..2] + [puts[2]] && puts[..2] == puts[..1] + [puts[1]] && puts[..1] == [] + [puts[0]];
    assert blocks == map[p := low, c := high.(parents := [])];
    assert puts[1].1.parents[0] == p;
    assert Named(puts, |puts|, p, puts[1].0);
    IndexIsHistory(puts, p, c);
    if Covered(blocks, children, p) {
      var tip :| IsTip(blocks, children, tip) && (tip == p || ReachPlus(ParentGraph(blocks), tip, p));
      var y := LastEdge(ParentGraph(blocks), tip, p);
    }
  }
}
