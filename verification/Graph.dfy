/**
 Finite directed graphs over block hashes: paths, reachability, breadth-first closure and shortest paths,
 and depth-first cycle detection.
 */
module Graphs {
  import opened Types

  type Graph = map<BlockHash, seq<BlockHash>>

  function Succ(g: Graph, x: BlockHash): seq<BlockHash> {
    if x in g then g[x] else []
  }

  /** A nonempty walk along edges. */
  ghost predicate IsPath(g: Graph, p: seq<BlockHash>) {
    p != [] && forall i :: 0 <= i < |p| - 1 ==> p[i + 1] in Succ(g, p[i])
  }

  ghost predicate Connects(g: Graph, p: seq<BlockHash>, x: BlockHash, y: BlockHash) {
    IsPath(g, p) && p[0] == x && p[|p| - 1] == y
  }

  /** `y` can be reached from `x` in zero or more steps. */
  ghost predicate Reach(g: Graph, x: BlockHash, y: BlockHash) {
    exists p :: Connects(g, p, x, y)
  }

  /** `y` can be reached from `x` in one or more steps. */
  ghost predicate ReachPlus(g: Graph, x: BlockHash, y: BlockHash) {
    exists p :: Connects(g, p, x, y) && |p| >= 2
  }

  ghost predicate Distinct(s: seq<BlockHash>) {
    forall i, j :: 0 <= i < j < |s| ==> s[i] != s[j]
  }

  /** Everything an edge can lead to. */
  ghost function Targets(g: Graph): set<BlockHash> {
    set x, y | x in g && y in g[x] :: y
  }

  ghost predicate Closed(g: Graph, s: set<BlockHash>) {
    forall x, y :: x in s && y in Succ(g, x) ==> y in s
  }

  // ---------------------------------------------------------------------------------------------
  // Paths
  // ---------------------------------------------------------------------------------------------

  lemma ReachSelf(g: Graph, x: BlockHash)
    ensures Reach(g, x, x)
  {
    assert Connects(g, [x], x, x);
  }

  lemma ExtendPath(g: Graph, p: seq<BlockHash>, x: BlockHash, y: BlockHash, z: BlockHash)
    requires Connects(g, p, x, y) && z in Succ(g, y)
    ensures Connects(g, p + [z], x, z)
  {
  }

  lemma ReachStep(g: Graph, x: BlockHash, y: BlockHash, z: BlockHash)
    requires Reach(g, x, y) && z in Succ(g, y)
    ensures ReachPlus(g, x, z)
  {
    var p :| Connects(g, p, x, y);
    ExtendPath(g, p, x, y, z);
    assert Connects(g, p + [z], x, z) && |p + [z]| >= 2;
  }

  lemma PlusIsReach(g: Graph, x: BlockHash, y: BlockHash)
    requires ReachPlus(g, x, y)
    ensures Reach(g, x, y)
  {
  }

  lemma JoinPaths(g: Graph, p: seq<BlockHash>, q: seq<BlockHash>, x: BlockHash, y: BlockHash, z: BlockHash)
    requires Connects(g, p, x, y) && Connects(g, q, y, z)
    ensures Connects(g, p + q[1..], x, z)
  {
    var r := p + q[1..];
    forall i | 0 <= i < |r| - 1 ensures r[i + 1] in Succ(g, r[i]) {
      if i >= |p| - 1 {
        assert r[i] == q[i - (|p| - 1)] && r[i + 1] == q[i + 1 - (|p| - 1)];
      }
    }
  }

  lemma ReachPlusThenReach(g: Graph, x: BlockHash, y: BlockHash, z: BlockHash)
    requires ReachPlus(g, x, y) && Reach(g, y, z)
    ensures ReachPlus(g, x, z)
  {
    var p :| Connects(g, p, x, y) && |p| >= 2;
    var q :| Connects(g, q, y, z);
    JoinPaths(g, p, q, x, y, z);
    assert Connects(g, p + q[1..], x, z) && |p + q[1..]| >= 2;
  }

  /** A proper walk starts with an edge. */
  lemma FirstEdge(g: Graph, x: BlockHash, z: BlockHash) returns (y: BlockHash)
    requires ReachPlus(g, x, z)
    ensures y in Succ(g, x) && Reach(g, y, z)
  {
    var p :| Connects(g, p, x, z) && |p| >= 2;
    y := p[1];
    assert p[0 + 1] in Succ(g, p[0]);
    var q := p[1..];
    forall i | 0 <= i < |q| - 1 ensures q[i + 1] in Succ(g, q[i]) {
      assert p[(i + 1) + 1] in Succ(g, p[i + 1]);
    }
    assert Connects(g, q, y, z);
  }

  /** And ends with one. */
  lemma LastEdge(g: Graph, x: BlockHash, z: BlockHash) returns (y: BlockHash)
    requires ReachPlus(g, x, z)
    ensures z in Succ(g, y)
  {
    var p :| Connects(g, p, x, z) && |p| >= 2;
    y := p[|p| - 2];
    assert p[(|p| - 2) + 1] in Succ(g, p[|p| - 2]);
  }

  /** A walk from inside a closed set stays inside. */
  lemma {:induction false} ClosedKeepsPath(g: Graph, s: set<BlockHash>, p: seq<BlockHash>, i: nat)
    requires Closed(g, s) && IsPath(g, p) && p[0] in s && i < |p|
    ensures p[i] in s
  {
    if i > 0 {
      ClosedKeepsPath(g, s, p, i - 1);
      assert p[(i - 1) + 1] in Succ(g, p[i - 1]);
    }
  }

  lemma ClosedKeepsReach(g: Graph, s: set<BlockHash>, x: BlockHash, y: BlockHash)
    requires Closed(g, s) && x in s && Reach(g, x, y)
    ensures y in s
  {
    var p :| Connects(g, p, x, y);
    ClosedKeepsPath(g, s, p, |p| - 1);
  }

  // ---------------------------------------------------------------------------------------------
  // Breadth-first closure
  // ---------------------------------------------------------------------------------------------

  /** The unseen successors of a node, each once, in order: what one round of the loop enqueues. */
  method Enqueue(g: Graph, x: BlockHash, queue: seq<BlockHash>, visited: set<BlockHash>)
    returns (queue': seq<BlockHash>, visited': set<BlockHash>)
    ensures queue <= queue'
    ensures visited' == visited + set y | y in Succ(g, x)
    ensures forall y :: y in queue' <==> y in queue || (y in Succ(g, x) && y !in visited)
    ensures Distinct(queue) && (forall y :: y in queue ==> y in visited) ==> Distinct(queue')
  {
    queue', visited' := queue, visited;
    var ys := Succ(g, x);
    for i := 0 to |ys|
      invariant queue <= queue'
      invariant visited' == visited + set y | y in ys[..i]
      invariant forall y :: y in queue' <==> y in queue || (y in ys[..i] && y !in visited)
      invariant Distinct(queue) && (forall y :: y in queue ==> y in visited) ==> Distinct(queue')
    {
      assert ys[..i + 1] == ys[..i] + [ys[i]];
      if ys[i] !in visited' {
        visited' := visited' + {ys[i]};
        queue' := queue' + [ys[i]];
      }
    }
    assert ys[..|ys|] == ys;
  }

  lemma DistinctParts(s: seq<BlockHash>)
    requires Distinct(s) && s != []
    ensures Distinct(s[1..]) && s[0] !in s[1..]
  {
  }

  lemma ReachedIsTarget(g: Graph, x: BlockHash, y: BlockHash)
    requires ReachPlus(g, x, y)
    ensures y in Targets(g)
  {
    var p :| Connects(g, p, x, y) && |p| >= 2;
    assert p[(|p| - 2) + 1] in Succ(g, p[|p| - 2]);
  }

  lemma StepsReach(g: Graph, start: BlockHash, x: BlockHash)
    requires Reach(g, start, x)
    ensures forall y :: y in Succ(g, x) ==> ReachPlus(g, start, y)
  {
    forall y | y in Succ(g, x) ensures ReachPlus(g, start, y) {
      ReachStep(g, start, x, y);
    }
  }

  /** All nodes reachable from `start` in one or more steps, each once. */
  method Explore(g: Graph, start: BlockHash) returns (out: seq<BlockHash>)
    ensures Distinct(out)
    ensures forall y :: y in out <==> ReachPlus(g, start, y)
  {
    out := [];
    var queue, visited := Enqueue(g, start, [], {});
    ReachSelf(g, start);
    StepsReach(g, start, start);
    while queue != []
      invariant Distinct(out) && Distinct(queue)
      invariant forall y :: y in out ==> y !in queue
      invariant forall y :: y in visited <==> y in out || y in queue
      invariant forall y :: y in visited ==> ReachPlus(g, start, y)
      invariant forall y :: y in Succ(g, start) ==> y in visited
      invariant forall x, y :: x in out && y in Succ(g, x) ==> y in visited
      decreases Targets(g) - set y | y in out
    {
      var current := queue[0];
      DistinctParts(queue);
      ReachedIsTarget(g, start, current);
      PlusIsReach(g, start, current);
      StepsReach(g, start, current);
      ghost var before := set y | y in out;
      assert current !in before;
      out := out + [current];
      queue, visited := Enqueue(g, current, queue[1..], visited);
      assert (set y | y in out) == before + {current};
    }
    forall y | ReachPlus(g, start, y) ensures y in out {
      var x := FirstEdge(g, start, y);
      ClosedKeepsReach(g, visited, x, y);
    }
  }

  // ---------------------------------------------------------------------------------------------
  // Shortest paths
  // ---------------------------------------------------------------------------------------------

  ghost predicate IsShortest(g: Graph, p: seq<BlockHash>, x: BlockHash, y: BlockHash) {
    Connects(g, p, x, y) && forall q :: Connects(g, q, x, y) ==> |p| <= |q|
  }

  /** A repetition can be cut out of a path. */
  lemma CutPath(g: Graph, p: seq<BlockHash>, x: BlockHash, y: BlockHash, i: nat, j: nat)
    requires Connects(g, p, x, y) && i < j < |p| && p[i] == p[j]
    ensures Connects(g, p[..i] + p[j..], x, y)
  {
    var q := p[..i] + p[j..];
    forall k | 0 <= k < |q| - 1 ensures q[k + 1] in Succ(g, q[k]) {
      if k + 1 <= i {
        assert p[k + 1] in Succ(g, p[k]);
      } else {
        assert p[(k + j - i) + 1] in Succ(g, p[k + j - i]);
      }
    }
  }

  /** So a shortest path repeats nothing. */
  lemma ShortestIsDistinct(g: Graph, p: seq<BlockHash>, x: BlockHash, y: BlockHash)
    requires IsShortest(g, p, x, y)
    ensures Distinct(p)
  {
    forall i, j | 0 <= i < j < |p| ensures p[i] != p[j] {
      if p[i] == p[j] {
        CutPath(g, p, x, y, i, j);
      }
    }
  }

  /** The search frontier: what is finished, what waits, and how far from the start each seen node was found. */
  ghost predicate Layered(g: Graph, from: BlockHash, to: BlockHash, done: set<BlockHash>, queue: seq<BlockHash>,
                          depth: map<BlockHash, nat>) {
    && (forall v :: v in depth <==> v in done || v in queue)
    && from in depth && depth[from] == 0
    && (forall x :: x in done ==> to !in Succ(g, x))
    && (forall x, y :: x in done && y in Succ(g, x) ==> y in depth && depth[y] <= depth[x] + 1)
    && (forall x, w :: x in done && w in queue ==> depth[x] <= depth[w])
    && Sorted(queue, depth)
  }

  /** Every seen node other than the start was entered along an edge from a node one layer up. */
  ghost predicate Traced(g: Graph, from: BlockHash, back: map<BlockHash, BlockHash>, depth: map<BlockHash, nat>) {
    && back.Keys == depth.Keys - {from}
    && forall v :: v in back ==> back[v] in depth && v in Succ(g, back[v]) && depth[v] == depth[back[v]] + 1
  }

  ghost predicate Sorted(queue: seq<BlockHash>, depth: map<BlockHash, nat>) {
    && (forall k :: 0 <= k < |queue| ==> queue[k] in depth)
    && forall j, k :: 0 <= j <= k < |queue| ==> depth[queue[j]] <= depth[queue[k]] <= depth[queue[j]] + 1
  }

  lemma HeadIsLeast(queue: seq<BlockHash>, depth: map<BlockHash, nat>)
    requires Sorted(queue, depth) && queue != []
    ensures forall w :: w in queue ==> w in depth && depth[queue[0]] <= depth[w] <= depth[queue[0]] + 1
  {
    forall w | w in queue ensures w in depth && depth[queue[0]] <= depth[w] <= depth[queue[0]] + 1 {
      var k :| 0 <= k < |queue| && queue[k] == w;
    }
  }

  /** Nodes at distance at most the depth of the queue's head have been seen at no greater depth. */
  lemma {:induction false} LayersCover(g: Graph, from: BlockHash, to: BlockHash, done: set<BlockHash>, queue: seq<BlockHash>,
                                       depth: map<BlockHash, nat>, q: seq<BlockHash>, i: nat)
    requires Layered(g, from, to, done, queue, depth) && queue != []
    requires IsPath(g, q) && q[0] == from && i < |q| && i <= depth[queue[0]]
    ensures q[i] in depth && depth[q[i]] <= i
  {
    if i > 0 {
      LayersCover(g, from, to, done, queue, depth, q, i - 1);
      HeadIsLeast(queue, depth);
      assert q[(i - 1) + 1] in Succ(g, q[i - 1]);
    }
  }

  /** The target cannot be closer than one step beyond the queue's head. */
  lemma NoShorterPath(g: Graph, from: BlockHash, to: BlockHash, done: set<BlockHash>, queue: seq<BlockHash>,
                      depth: map<BlockHash, nat>, q: seq<BlockHash>)
    requires Layered(g, from, to, done, queue, depth) && queue != [] && from != to
    requires Connects(g, q, from, to)
    ensures |q| >= depth[queue[0]] + 2
  {
    var i := |q| - 2;
    assert q[i + 1] in Succ(g, q[i]);
    HeadIsLeast(queue, depth);
    if i <= depth[queue[0]] {
      LayersCover(g, from, to, done, queue, depth, q, i);
    }
  }

  /** When nothing waits any more, everything reachable has been finished, and the target is not among it. */
  lemma ExhaustedMeansUnreachable(g: Graph, from: BlockHash, to: BlockHash, done: set<BlockHash>, depth: map<BlockHash, nat>)
    requires Layered(g, from, to, done, [], depth) && from != to
    ensures !Reach(g, from, to)
  {
    forall p | IsPath(g, p) && p[0] == from ensures p[|p| - 1] != to {
      if |p| > 1 {
        var i := |p| - 2;
        ClosedKeepsPath(g, done, p, i);
        assert p[i + 1] in Succ(g, p[i]);
      }
    }
  }

  /** The successors of `x` that have not been seen. */
  function Unseen(g: Graph, x: BlockHash, seen: set<BlockHash>): set<BlockHash> {
    set y | y in Succ(g, x) && y !in seen
  }

  /** Back-pointers and depths after the unseen successors of `x` have been entered from it. */
  ghost function Pointed(g: Graph, x: BlockHash, seen: set<BlockHash>, back: map<BlockHash, BlockHash>):
    map<BlockHash, BlockHash>
  {
    back + map y | y in Unseen(g, x, seen) :: x
  }

  ghost function Deepened(g: Graph, x: BlockHash, depth: map<BlockHash, nat>): map<BlockHash, nat>
    requires x in depth
  {
    depth + map y | y in Unseen(g, x, depth.Keys) :: depth[x] + 1
  }

  /** Look at the successors of the node taken from the queue, noting who led to each new one. */
  method Expand(g: Graph, current: BlockHash, to: BlockHash, queue: seq<BlockHash>, visited: set<BlockHash>,
                back: map<BlockHash, BlockHash>)
    returns (found: bool, queue': seq<BlockHash>, visited': set<BlockHash>, back': map<BlockHash, BlockHash>)
    ensures found <==> to in Succ(g, current)
    ensures !found ==>
      && queue <= queue'
      && (forall k :: |queue| <= k < |queue'| ==> queue'[k] in Unseen(g, current, visited))
      && (forall y :: y in Unseen(g, current, visited) ==> y in queue')
      && (Unseen(g, current, visited) == {} ==> queue' == queue)
      && visited' == visited + Unseen(g, current, visited)
      && back' == Pointed(g, current, visited, back)
  {
    found, queue', visited', back' := false, queue, visited, back;
    var ys := Succ(g, current);
    ghost var news: set<BlockHash> := {};
    for i := 0 to |ys|
      invariant to !in ys[..i]
      invariant queue <= queue'
      invariant news == set y | y in ys[..i] && y !in visited
      invariant forall k :: |queue| <= k < |queue'| ==> queue'[k] in news
      invariant forall y :: y in news ==> y in queue'
      invariant news == {} ==> queue' == queue
      invariant visited' == visited + news
      invariant back' == back + map y | y in news :: current
    {
      assert ys[..i + 1] == ys[..i] + [ys[i]];
      if ys[i] == to {
        found := true;
        return;
      }
      if ys[i] !in visited' {
        visited' := visited' + {ys[i]};
        back' := back'[ys[i] := current];
        queue' := queue' + [ys[i]];
        news := news + {ys[i]};
      }
    }
    assert ys[..|ys|] == ys;
    assert news == Unseen(g, current, visited);
  }

  function Reversed(s: seq<BlockHash>): (r: seq<BlockHash>)
    ensures |r| == |s|
    ensures forall i :: 0 <= i < |s| ==> r[i] == s[|s| - 1 - i]
  {
    if s == [] then [] else Reversed(s[1..]) + [s[0]]
  }

  /** Walk the back-pointers from `current` to the start and turn the walk around. */
  method Reconstruct(g: Graph, from: BlockHash, current: BlockHash, to: BlockHash, back: map<BlockHash, BlockHash>,
                     ghost depth: map<BlockHash, nat>) returns (path: seq<BlockHash>)
    requires Traced(g, from, back, depth) && from in depth && depth[from] == 0
    requires current in depth && to in Succ(g, current)
    ensures Connects(g, path, from, to) && |path| == depth[current] + 2
  {
    path := [to];
    var node := current;
    while node in back
      invariant node in depth && |path| >= 1 && path[0] == to
      invariant forall i :: 0 <= i < |path| - 1 ==> path[i] in Succ(g, path[i + 1])
      invariant path[|path| - 1] in Succ(g, node)
      invariant |path| + depth[node] == depth[current] + 1
      decreases depth[node]
    {
      path := path + [node];
      node := back[node];
    }
    path := path + [from];
    ghost var walk := path;
    path := Reversed(path);
    forall i | 0 <= i < |path| - 1 ensures path[i + 1] in Succ(g, path[i]) {
      assert walk[|walk| - 2 - i] in Succ(g, walk[(|walk| - 2 - i) + 1]);
    }
  }

  /** What one round of the search did: the head's new successors were appended, one layer below it. */
  ghost predicate Expanded(g: Graph, queue: seq<BlockHash>, depth: map<BlockHash, nat>,
                           queue': seq<BlockHash>, depth': map<BlockHash, nat>) {
    && queue != [] && queue[0] in depth
    && queue[1..] <= queue'
    && (forall k :: |queue| - 1 <= k < |queue'| ==> queue'[k] in Unseen(g, queue[0], depth.Keys))
    && (forall y :: y in Unseen(g, queue[0], depth.Keys) ==> y in queue')
    && depth' == Deepened(g, queue[0], depth)
  }

  lemma ExpandedMembers(g: Graph, queue: seq<BlockHash>, depth: map<BlockHash, nat>,
                        queue': seq<BlockHash>, depth': map<BlockHash, nat>)
    requires Expanded(g, queue, depth, queue', depth')
    ensures forall v :: v in queue' <==> v in queue[1..] || v in Unseen(g, queue[0], depth.Keys)
  {
    forall v | v in queue' ensures v in queue[1..] || v in Unseen(g, queue[0], depth.Keys) {
      var k :| 0 <= k < |queue'| && queue'[k] == v;
      if k < |queue| - 1 {
        assert queue'[k] == queue[1..][k];
      }
    }
    forall v | v in queue[1..] ensures v in queue' {
      var k :| 0 <= k < |queue[1..]| && queue[1..][k] == v;
      assert queue'[k] == v;
    }
  }

  lemma ExpandedSorted(g: Graph, queue: seq<BlockHash>, depth: map<BlockHash, nat>,
                       queue': seq<BlockHash>, depth': map<BlockHash, nat>)
    requires Expanded(g, queue, depth, queue', depth') && Sorted(queue, depth)
    ensures Sorted(queue', depth')
    ensures forall w :: w in queue' ==> w in depth' && depth[queue[0]] <= depth'[w]
  {
    var d := depth[queue[0]];
    forall k | 0 <= k < |queue'|
      ensures queue'[k] in depth' && d <= depth'[queue'[k]] <= d + 1
      ensures k < |queue| - 1 ==> queue'[k] == queue[k + 1] && depth'[queue'[k]] == depth[queue[k + 1]]
      ensures k >= |queue| - 1 ==> depth'[queue'[k]] == d + 1
    {
      if k < |queue| - 1 {
        assert queue'[k] == queue[1..][k] == queue[k + 1];
        assert depth[queue[0]] <= depth[queue[k + 1]] <= depth[queue[0]] + 1;
      }
    }
  }

  lemma ExpandedSuccessors(g: Graph, done: set<BlockHash>, queue: seq<BlockHash>, depth: map<BlockHash, nat>,
                           queue': seq<BlockHash>, depth': map<BlockHash, nat>)
    requires Expanded(g, queue, depth, queue', depth') && done <= depth.Keys
    requires forall w :: w in queue ==> w in depth
    requires forall x :: x in done ==> depth[x] <= depth[queue[0]]
    requires forall x, y :: x in done && y in Succ(g, x) ==> y in depth && depth[y] <= depth[x] + 1
    requires forall w :: w in depth ==> w in done || depth[w] <= depth[queue[0]] + 1
    ensures forall x, y :: x in done + {queue[0]} && y in Succ(g, x) ==> y in depth' && depth'[y] <= depth'[x] + 1
  {
  }

  lemma ExpandedSeen(g: Graph, done: set<BlockHash>, queue: seq<BlockHash>, depth: map<BlockHash, nat>,
                     queue': seq<BlockHash>, depth': map<BlockHash, nat>)
    requires Expanded(g, queue, depth, queue', depth') && forall v :: v in depth <==> v in done || v in queue
    ensures forall v :: v in depth' <==> v in done + {queue[0]} || v in queue'
  {
    ExpandedMembers(g, queue, depth, queue', depth');
    assert forall v :: v in queue <==> v == queue[0] || v in queue[1..];
  }

  lemma ExpandedOrder(g: Graph, done: set<BlockHash>, queue: seq<BlockHash>, depth: map<BlockHash, nat>,
                      queue': seq<BlockHash>, depth': map<BlockHash, nat>)
    requires Expanded(g, queue, depth, queue', depth') && Sorted(queue, depth) && done <= depth.Keys
    requires forall x :: x in done ==> depth[x] <= depth[queue[0]]
    ensures forall x, w :: x in done + {queue[0]} && w in queue' ==> x in depth' && w in depth' && depth'[x] <= depth'[w]
  {
    ExpandedSorted(g, queue, depth, queue', depth');
  }

  /** One round of the search keeps the layers. */
  lemma ExpandKeepsLayers(g: Graph, from: BlockHash, to: BlockHash, done: set<BlockHash>, queue: seq<BlockHash>,
                          depth: map<BlockHash, nat>, queue': seq<BlockHash>, depth': map<BlockHash, nat>)
    requires Layered(g, from, to, done, queue, depth) && Expanded(g, queue, depth, queue', depth')
    requires to !in Succ(g, queue[0])
    ensures Layered(g, from, to, done + {queue[0]}, queue', depth')
  {
    HeadIsLeast(queue, depth);
    assert queue[0] in queue;
    ExpandedSeen(g, done, queue, depth, queue', depth');
    ExpandedSorted(g, queue, depth, queue', depth');
    ExpandedOrder(g, done, queue, depth, queue', depth');
    ExpandedSuccessors(g, done, queue, depth, queue', depth');
  }

  lemma ExpandKeepsLinks(g: Graph, from: BlockHash, back: map<BlockHash, BlockHash>, depth: map<BlockHash, nat>,
                         current: BlockHash, back': map<BlockHash, BlockHash>, depth': map<BlockHash, nat>)
    requires Traced(g, from, back, depth) && current in depth && from in depth
    requires back' == Pointed(g, current, depth.Keys, back)
    requires depth' == Deepened(g, current, depth)
    ensures Traced(g, from, back', depth')
  {
    forall v | v in back' ensures back'[v] in depth' && v in Succ(g, back'[v]) && depth'[v] == depth'[back'[v]] + 1 {
      if v in depth {
        assert v in back;
      }
    }
  }

  lemma FoundIsShortest(g: Graph, from: BlockHash, to: BlockHash, done: set<BlockHash>, queue: seq<BlockHash>,
                        depth: map<BlockHash, nat>, path: seq<BlockHash>)
    requires Layered(g, from, to, done, queue, depth) && queue != [] && from != to
    requires Connects(g, path, from, to) && |path| == depth[queue[0]] + 2
    ensures IsShortest(g, path, from, to) && Distinct(path)
  {
    forall q | Connects(g, q, from, to) ensures |path| <= |q| {
      NoShorterPath(g, from, to, done, queue, depth, q);
    }
    ShortestIsDistinct(g, path, from, to);
  }

  /** A round that finds something new leaves less to be found. */
  lemma UnseenShrinks(g: Graph, from: BlockHash, x: BlockHash, seen: set<BlockHash>)
    requires Unseen(g, x, seen) != {}
    ensures Targets(g) + {from} - (seen + Unseen(g, x, seen)) < Targets(g) + {from} - seen
  {
    var y :| y in Unseen(g, x, seen);
    assert y in Targets(g) + {from} - seen;
  }

  /** The whole state of the search. */
  ghost predicate Searching(g: Graph, from: BlockHash, to: BlockHash, queue: seq<BlockHash>, visited: set<BlockHash>,
                            back: map<BlockHash, BlockHash>, done: set<BlockHash>, depth: map<BlockHash, nat>) {
    Layered(g, from, to, done, queue, depth) && Traced(g, from, back, depth) && visited == depth.Keys
  }

  lemma LayeredHead(g: Graph, from: BlockHash, to: BlockHash, done: set<BlockHash>, queue: seq<BlockHash>,
                    depth: map<BlockHash, nat>)
    requires Layered(g, from, to, done, queue, depth) && queue != []
    ensures queue[0] in depth && from in depth && depth[from] == 0
  {
    assert queue[0] in queue;
  }

  lemma WideningKeepsSearching(g: Graph, from: BlockHash, to: BlockHash, queue: seq<BlockHash>, visited: set<BlockHash>,
                               back: map<BlockHash, BlockHash>, done: set<BlockHash>, depth: map<BlockHash, nat>,
                               queue': seq<BlockHash>, back': map<BlockHash, BlockHash>, depth': map<BlockHash, nat>)
    requires Searching(g, from, to, queue, visited, back, done, depth)
    requires Expanded(g, queue, depth, queue', depth') && to !in Succ(g, queue[0])
    requires back' == Pointed(g, queue[0], depth.Keys, back)
    ensures Searching(g, from, to, queue', visited + Unseen(g, queue[0], visited), back', done + {queue[0]}, depth')
  {
    LayeredHead(g, from, to, done, queue, depth);
    ExpandKeepsLayers(g, from, to, done, queue, depth, queue', depth');
    ExpandKeepsLinks(g, from, back, depth, queue[0], back', depth');
  }

  /** Take one node from the queue: finish with a shortest path, or widen the search. */
  method Round(g: Graph, from: BlockHash, to: BlockHash, queue: seq<BlockHash>, visited: set<BlockHash>,
               back: map<BlockHash, BlockHash>, ghost done: set<BlockHash>, ghost depth: map<BlockHash, nat>)
    returns (r: Option<seq<BlockHash>>, queue': seq<BlockHash>, visited': set<BlockHash>,
             back': map<BlockHash, BlockHash>, ghost depth': map<BlockHash, nat>)
    requires Searching(g, from, to, queue, visited, back, done, depth) && queue != [] && from != to
    ensures r.Some? ==> IsShortest(g, r.value, from, to) && Distinct(r.value)
    ensures r.None? ==> Searching(g, from, to, queue', visited', back', done + {queue[0]}, depth')
    ensures r.None? ==> visited' == visited + Unseen(g, queue[0], visited)
    ensures r.None? && Unseen(g, queue[0], visited) == {} ==> queue' == queue[1..]
  {
    var found;
    found, queue', visited', back' := Expand(g, queue[0], to, queue[1..], visited, back);
    LayeredHead(g, from, to, done, queue, depth);
    if found {
      var path := Reconstruct(g, from, queue[0], to, back, depth);
      FoundIsShortest(g, from, to, done, queue, depth, path);
      return Some(path), queue', visited', back', depth;
    }
    depth' := Deepened(g, queue[0], depth);
    WideningKeepsSearching(g, from, to, queue, visited, back, done, depth, queue', back', depth');
    r := None;
  }

  /** Breadth-first search: a shortest path from `from` to `to`, or none exactly if there is no path at all. */
  method FindPath(g: Graph, from: BlockHash, to: BlockHash) returns (r: Option<seq<BlockHash>>)
    ensures r.Some? <==> Reach(g, from, to)
    ensures r.Some? ==> IsShortest(g, r.value, from, to) && Distinct(r.value)
  {
    if from == to {
      assert Connects(g, [from], from, to);
      return Some([from]);
    }
    var queue, visited, back := [from], {from}, map[];
    ghost var done: set<BlockHash>, depth: map<BlockHash, nat> := {}, map[from := 0];
    r := None;
    while queue != []
      invariant r.None? && Searching(g, from, to, queue, visited, back, done, depth)
      decreases Targets(g) + {from} - visited, |queue|
    {
      ghost var current, seen := queue[0], visited;
      r, queue, visited, back, depth := Round(g, from, to, queue, visited, back, done, depth);
      if r.Some? {
        return;
      }
      done := done + {current};
      if Unseen(g, current, seen) != {} {
        UnseenShrinks(g, from, current, seen);
      }
    }
    ExhaustedMeansUnreachable(g, from, to, done, depth);
  }

  // ---------------------------------------------------------------------------------------------
  // Depth-first cycle detection
  // ---------------------------------------------------------------------------------------------

  /** A cycle can be reached from `x`. */
  ghost predicate CycleFrom(g: Graph, x: BlockHash) {
    exists c :: Reach(g, x, c) && ReachPlus(g, c, c)
  }

  /** Finished nodes: left for good, with all their successors finished, and no cycle below any of them. */
  ghost predicate Finished(g: Graph, s: set<BlockHash>) {
    Closed(g, s) && forall x :: x in s ==> !CycleFrom(g, x)
  }

  lemma NoCycleAbove(g: Graph, s: set<BlockHash>, node: BlockHash)
    requires Finished(g, s) && node !in s && forall y :: y in Succ(g, node) ==> y in s
    ensures Finished(g, s + {node})
  {
    forall c | Reach(g, node, c) && ReachPlus(g, c, c) ensures false {
      if c == node {
        var y := FirstEdge(g, node, node);
        ClosedKeepsReach(g, s, y, node);
      } else {
        var p :| Connects(g, p, node, c);
        assert |p| >= 2;
        assert ReachPlus(g, node, c);
        var y := FirstEdge(g, node, c);
        assert CycleFrom(g, y);
      }
    }
  }

  lemma EdgeBackIntoStack(g: Graph, node: BlockHash, y: BlockHash)
    requires y in Succ(g, node) && (y == node || ReachPlus(g, y, node))
    ensures CycleFrom(g, node)
  {
    ReachSelf(g, node);
    ReachStep(g, node, node, y);
    PlusIsReach(g, node, y);
    ReachSelf(g, y);
    if y == node {
      assert Reach(g, node, node) && ReachPlus(g, node, node);
    } else {
      PlusIsReach(g, y, node);
      ReachStep(g, y, node, y);
      assert Reach(g, node, y) && ReachPlus(g, y, y);
    }
  }

  lemma CycleBelow(g: Graph, node: BlockHash, y: BlockHash)
    requires y in Succ(g, node) && CycleFrom(g, y)
    ensures CycleFrom(g, node)
  {
    var c :| Reach(g, y, c) && ReachPlus(g, c, c);
    ReachSelf(g, node);
    ReachStep(g, node, node, y);
    ReachPlusThenReach(g, node, y, c);
    PlusIsReach(g, node, c);
  }

  lemma StackReaches(g: Graph, stack: set<BlockHash>, node: BlockHash, y: BlockHash)
    requires y in Succ(g, node) && forall s :: s in stack ==> ReachPlus(g, s, node)
    ensures forall s :: s in stack + {node} ==> ReachPlus(g, s, y)
  {
    ReachSelf(g, node);
    forall s | s in stack + {node} ensures ReachPlus(g, s, y) {
      if s in stack {
        PlusIsReach(g, s, node);
      }
      ReachStep(g, s, node, y);
    }
  }

  /** One call of the depth-first search. On `false`, everything it visited is finished and the stack is as before. */
  method Dfs(g: Graph, node: BlockHash, visited: set<BlockHash>, stack: set<BlockHash>)
    returns (cycle: bool, visited': set<BlockHash>, stack': set<BlockHash>)
    requires node !in visited && stack <= visited
    requires forall s :: s in stack ==> ReachPlus(g, s, node)
    requires Finished(g, visited - stack)
    ensures cycle ==> CycleFrom(g, node)
    ensures !cycle ==> stack' == stack && visited + {node} <= visited' && Finished(g, visited' - stack')
    decreases Targets(g) + {node} - visited, 1
  {
    visited' := visited + {node};
    stack' := stack + {node};
    assert visited' - stack' == visited - stack;
    var ys := Succ(g, node);
    for i := 0 to |ys|
      invariant visited + {node} <= visited' && stack' == stack + {node} && stack' <= visited'
      invariant Finished(g, visited' - stack')
      invariant forall k :: 0 <= k < i ==> ys[k] in visited' - stack'
    {
      StackReaches(g, stack, node, ys[i]);
      if ys[i] !in visited' {
        assert ys[i] in Targets(g);
        cycle, visited', stack' := Dfs(g, ys[i], visited', stack');
        if cycle {
          CycleBelow(g, node, ys[i]);
          return;
        }
      } else if ys[i] in stack' {
        EdgeBackIntoStack(g, node, ys[i]);
        cycle := true;
        return;
      }
    }
    NoCycleAbove(g, visited' - stack', node);
    stack' := stack' - {node};
    assert visited' - stack' == visited' - (stack + {node}) + {node};
    cycle := false;
  }

  method HasCycleFrom(g: Graph, start: BlockHash) returns (cycle: bool)
    ensures cycle <==> CycleFrom(g, start)
  {
    var visited, stack;
    cycle, visited, stack := Dfs(g, start, {}, {});
  }
}
