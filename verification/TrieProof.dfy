/**
 The trie refines a finite map, has one shape per map, and its proofs are complete and sound.
 Soundness is a reduction: an accepted false claim yields two different byte strings with the same hash.
 */
module TrieProof {
  import opened Types
  import opened ByteCodec
  import opened Trie

  // ---------------------------------------------------------------------------------------------
  // Map refinement and canonical form
  // ---------------------------------------------------------------------------------------------

  lemma {:induction false} GetAfterUpdate(node: Node, key: seq<Byte>, slot: Slot, other: seq<Byte>)
    requires |key| == |other|
    ensures GetPath(UpdatePath(node, key, slot), other) == if key == other then Some(slot) else GetPath(node, other)
    decreases |key|
  {
    if key != [] {
      var children := if node.Internal? then node.children else map[];
      var child := if key[0] in children then children[key[0]] else Empty;
      GetAfterUpdate(child, key[1..], slot, other[1..]);
      assert key == [key[0]] + key[1..] && other == [other[0]] + other[1..];
    }
  }

  /** Leaves exactly at depth `d`, and no internal node without children. */
  ghost predicate Canonical(node: Node, d: nat) {
    if d == 0 then node.Leaf?
    else node.Internal? && node.children != map[] && forall b :: b in node.children ==> Canonical(node.children[b], d - 1)
  }

  /** The shape of a tree over 20-byte addresses. */
  ghost predicate IsTree(root: Node) {
    root.Empty? || Canonical(root, 20)
  }

  lemma {:induction false} UpdateIsCanonical(node: Node, key: seq<Byte>, slot: Slot)
    requires node.Empty? || Canonical(node, |key|)
    ensures Canonical(UpdatePath(node, key, slot), |key|)
    decreases |key|
  {
    if key != [] {
      var children := if node.Internal? then node.children else map[];
      var child := if key[0] in children then children[key[0]] else Empty;
      UpdateIsCanonical(child, key[1..], slot);
      var n := UpdatePath(node, key, slot);
      assert key[0] in n.children;
      forall b | b in n.children ensures Canonical(n.children[b], |key| - 1) {
        if b != key[0] {
          assert b in node.children;
        }
      }
    }
  }

  /** Every canonical subtree holds a slot. */
  lemma {:induction false} HoldsSomething(node: Node, d: nat) returns (key: seq<Byte>)
    requires Canonical(node, d)
    ensures |key| == d && GetPath(node, key).Some?
  {
    if d == 0 {
      key := [];
    } else {
      assert node.children.Keys != {};
      var b :| b in node.children;
      var below := HoldsSomething(node.children[b], d - 1);
      key := [b] + below;
    }
  }

  ghost predicate SameLookups(n1: Node, n2: Node, d: nat) {
    forall key: seq<Byte> :: |key| == d ==> GetPath(n1, key) == GetPath(n2, key)
  }

  lemma SameLookupsBelow(n1: Node, n2: Node, d: nat, b: Byte)
    requires d > 0 && n1.Internal? && n2.Internal? && b in n1.children && b in n2.children
    requires SameLookups(n1, n2, d)
    ensures SameLookups(n1.children[b], n2.children[b], d - 1)
  {
    forall key: seq<Byte> | |key| == d - 1
      ensures GetPath(n1.children[b], key) == GetPath(n2.children[b], key)
    {
      assert ([b] + key)[1..] == key;
      assert GetPath(n1, [b] + key) == GetPath(n2, [b] + key);
    }
  }

  lemma ChildrenCovered(n1: Node, n2: Node, d: nat)
    requires d > 0 && Canonical(n1, d) && Canonical(n2, d) && SameLookups(n1, n2, d)
    ensures n1.children.Keys <= n2.children.Keys
  {
    forall b | b in n1.children ensures b in n2.children {
      var below := HoldsSomething(n1.children[b], d - 1);
      assert ([b] + below)[1..] == below;
      assert GetPath(n1, [b] + below) == GetPath(n2, [b] + below);
    }
  }

  /** Canonical trees with the same lookups are the same tree. */
  lemma {:induction false} LookupsDetermineTree(n1: Node, n2: Node, d: nat)
    requires Canonical(n1, d) && Canonical(n2, d) && SameLookups(n1, n2, d)
    ensures n1 == n2
  {
    if d == 0 {
      assert GetPath(n1, []) == GetPath(n2, []);
    } else {
      ChildrenCovered(n1, n2, d);
      ChildrenCovered(n2, n1, d);
      forall b | b in n1.children ensures n1.children[b] == n2.children[b] {
        SameLookupsBelow(n1, n2, d, b);
        LookupsDetermineTree(n1.children[b], n2.children[b], d - 1);
      }
      assert n1.children == n2.children;
    }
  }

  /** The finite map a sequence of updates stands for. */
  function MapOf(entries: seq<(Address, Slot)>): map<Address, Slot> {
    if entries == [] then map[]
    else
      var last := entries[|entries| - 1];
      MapOf(entries[..|entries| - 1])[last.0 := last.1]
  }

  function Lookup<V>(m: map<Address, V>, a: Address): Option<V> {
    if a in m then Some(m[a]) else None
  }

  function TreeOf(entries: seq<(Address, Slot)>): Node {
    Inserted(Empty, entries)
  }

  /** Update and lookup refine a finite map. */
  lemma {:induction false} TreeRefinesMap(entries: seq<(Address, Slot)>, addr: Address)
    ensures IsTree(TreeOf(entries))
    ensures GetPath(TreeOf(entries), addr.bytes) == Lookup(MapOf(entries), addr)
  {
    if entries != [] {
      var last := entries[|entries| - 1];
      var before := TreeOf(entries[..|entries| - 1]);
      TreeRefinesMap(entries[..|entries| - 1], addr);
      UpdateIsCanonical(before, last.0.bytes, last.1);
      GetAfterUpdate(before, last.0.bytes, last.1, addr.bytes);
    }
  }

  lemma NonEmptyTree(entries: seq<(Address, Slot)>)
    ensures TreeOf(entries).Empty? <==> entries == []
    ensures MapOf(entries) == map[] <==> entries == []
  {
    if entries != [] {
      var last := entries[|entries| - 1];
      assert last.0 in MapOf(entries);
    }
  }

  /** Canonical form: two update sequences build the same tree exactly when they leave the same map. */
  lemma CanonicalForm(us: seq<(Address, Slot)>, vs: seq<(Address, Slot)>)
    ensures TreeOf(us) == TreeOf(vs) <==> MapOf(us) == MapOf(vs)
  {
    var t, t' := TreeOf(us), TreeOf(vs);
    NonEmptyTree(us);
    NonEmptyTree(vs);
    if MapOf(us) == MapOf(vs) && us != [] {
      assert Canonical(t, 20) && Canonical(t', 20) by {
        TreeRefinesMap(us, us[0].0);
        TreeRefinesMap(vs, us[0].0);
      }
      forall key: seq<Byte> | |key| == 20 ensures GetPath(t, key) == GetPath(t', key) {
        TreeRefinesMap(us, Address(key));
        TreeRefinesMap(vs, Address(key));
      }
      LookupsDetermineTree(t, t', 20);
    }
    if t == t' {
      forall a ensures Lookup(MapOf(us), a) == Lookup(MapOf(vs), a) {
        TreeRefinesMap(us, a);
        TreeRefinesMap(vs, a);
      }
      assert forall a :: a in MapOf(us) <==> Lookup(MapOf(us), a).Some?;
      assert forall a :: a in MapOf(vs) <==> Lookup(MapOf(vs), a).Some?;
      assert forall a :: a in MapOf(us) ==> Lookup(MapOf(us), a) == Some(MapOf(us)[a]);
      assert forall a :: a in MapOf(vs) ==> Lookup(MapOf(vs), a) == Some(MapOf(vs)[a]);
    }
  }

  // ---------------------------------------------------------------------------------------------
  // Completeness
  // ---------------------------------------------------------------------------------------------

  /** The last step of a path leaves its own byte out of the siblings. */
  predicate EndsOpen(path: seq<ProofStep>) {
    path != [] ==> path[|path| - 1].byte !in path[|path| - 1].siblings
  }

  lemma InternalHashes(h: Hash, node: Node)
    requires node.Internal?
    ensures Preimage(h, node) == InternalPreimage(ChildCommitments(h, node.children))
  {
    assert ChildCommitments(h, node.children) == map b | b in node.children :: Commit(h, node.children[b]);
  }

  lemma {:induction false} CollectedPath(h: Hash, node: Node, key: seq<Byte>)
    requires Canonical(node, |key|)
    ensures var proof := CollectProof(h, node, key);
            && PathMatches(proof.path, key)
            && proof.slot == GetPath(node, key)
            && (proof.slot.Some? ==> |proof.path| == |key|)
            && EndsOpen(proof.path)
            && (key != [] ==> proof.path != [])
    decreases |key|
  {
    if key != [] && key[0] in node.children {
      CollectedPath(h, node.children[key[0]], key[1..]);
    }
  }

  /** The node that the bytes of a key lead to. */
  function NodeAt(node: Node, key: seq<Byte>): Option<Node>
    decreases |key|
  {
    if key == [] then Some(node)
    else if node.Internal? && key[0] in node.children then NodeAt(node.children[key[0]], key[1..])
    else None
  }

  /** A step describes an internal node: the byte taken there, and the commitments of exactly its other children. */
  ghost predicate StepOf(h: Hash, step: ProofStep, n: Option<Node>, byte: Byte) {
    && n.Some? && n.value.Internal? && step.byte == byte
    && (forall b :: b in step.siblings <==> b in n.value.children && b != byte)
    && forall b :: b in step.siblings ==> step.siblings[b] == Commit(h, n.value.children[b])
  }

  /** Every step of a collected proof describes the node reached at its depth, and never lists its own byte. */
  lemma {:induction false} CollectedSteps(h: Hash, node: Node, key: seq<Byte>, i: nat)
    requires i < |CollectProof(h, node, key).path|
    ensures var path := CollectProof(h, node, key).path;
            && i < |key| && StepOf(h, path[i], NodeAt(node, key[..i]), key[i])
            && path[i].byte !in path[i].siblings
    decreases |key|
  {
    if i > 0 {
      CollectedSteps(h, node.children[key[0]], key[1..], i - 1);
      assert key[..i][1..] == key[1..][..i - 1];
    }
  }

  /** And there is a step for every internal node on the way: the path goes on for as long as the key leads to one. */
  lemma {:induction false} CollectedAll(h: Hash, node: Node, key: seq<Byte>, i: nat)
    requires i < |key| && NodeAt(node, key[..i]).Some? && NodeAt(node, key[..i]).value.Internal?
    ensures i < |CollectProof(h, node, key).path|
    decreases |key|
  {
    if i > 0 {
      assert key[..i][1..] == key[1..][..i - 1];
      CollectedAll(h, node.children[key[0]], key[1..], i - 1);
    }
  }

  /** Putting the followed child back among its siblings restores the node. */
  lemma CombineRebuilds(h: Hash, node: Node, b: Byte)
    requires node.Internal?
    ensures var child := if b in node.children then Some(Commit(h, node.children[b])) else None;
            Combine(h, ProofStep(b, Siblings(h, node.children, b)), child) == Commit(h, node)
  {
    InternalHashes(h, node);
    var child := if b in node.children then Some(Commit(h, node.children[b])) else None;
    assert ListedChildren(ProofStep(b, Siblings(h, node.children, b)), child) == ChildCommitments(h, node.children);
  }

  lemma FoldStep(h: Hash, step: ProofStep, path: seq<ProofStep>, bottom: Option<Commitment>)
    ensures Fold(h, [step] + path, bottom) == Some(Combine(h, step, Fold(h, path, bottom)))
  {
    assert ([step] + path)[1..] == path;
  }

  /** Folding the collected path rebuilds the node's own commitment. */
  ghost predicate Rebuilds(h: Hash, node: Node, key: seq<Byte>) {
    var proof := CollectProof(h, node, key);
    Fold(h, proof.path, Bottom(h, proof.slot)) == Some(Commit(h, node))
  }

  lemma RebuildsThroughChild(h: Hash, node: Node, key: seq<Byte>)
    requires key != [] && node.Internal? && key[0] in node.children
    requires Rebuilds(h, node.children[key[0]], key[1..])
    ensures Rebuilds(h, node, key)
  {
    var below := CollectProof(h, node.children[key[0]], key[1..]);
    FoldStep(h, ProofStep(key[0], Siblings(h, node.children, key[0])), below.path, Bottom(h, below.slot));
    CombineRebuilds(h, node, key[0]);
  }

  lemma RebuildsAtGap(h: Hash, node: Node, key: seq<Byte>)
    requires key != [] && node.Internal? && key[0] !in node.children
    ensures Rebuilds(h, node, key)
  {
    var step := ProofStep(key[0], Siblings(h, node.children, key[0]));
    FoldStep(h, step, [], None);
    assert [step] + [] == [step];
    CombineRebuilds(h, node, key[0]);
  }

  lemma {:induction false} FoldRebuilds(h: Hash, node: Node, key: seq<Byte>)
    requires Canonical(node, |key|)
    ensures Rebuilds(h, node, key)
    decreases |key|
  {
    if key != [] {
      if key[0] in node.children {
        FoldRebuilds(h, node.children[key[0]], key[1..]);
        RebuildsThroughChild(h, node, key);
      } else {
        RebuildsAtGap(h, node, key);
      }
    }
  }

  /** Proof completeness: every honest proof is accepted, for present and absent addresses alike. */
  lemma ProofCompleteness(h: Hash, root: Node, addr: Address)
    requires IsTree(root)
    ensures Accepts(h, Commit(h, root), addr.bytes, GetPath(root, addr.bytes), CollectProof(h, root, addr.bytes))
  {
    if !root.Empty? {
      CollectedPath(h, root, addr.bytes);
      FoldRebuilds(h, root, addr.bytes);
    }
  }

  // ---------------------------------------------------------------------------------------------
  // Soundness
  // ---------------------------------------------------------------------------------------------

  type Pair = (seq<Byte>, seq<Byte>)

  /** Two different inputs with the same hash. */
  predicate IsCollision(h: Hash, p: Pair) {
    p.0 != p.1 && h(p.0) == h(p.1)
  }

  lemma SameFirstChunk(m: map<Byte, Commitment>, m': map<Byte, Commitment>, k: nat)
    requires k < 256 && Chunks(m, k) == Chunks(m', k)
    ensures (k in m <==> k in m') && (k in m ==> m[k] == m'[k])
    ensures Chunks(m, k + 1) == Chunks(m', k + 1)
  {
    FirstChunk(m, k);
    FirstChunk(m', k);
    if k in m {
      SplitConcat([k] + m[k], Chunks(m, k + 1), [k] + m'[k], Chunks(m', k + 1));
      SplitConcat([k], m[k], [k], m'[k]);
    }
  }

  /** The chunk encoding of a children map can be read back. */
  lemma {:induction false} ChunksInjective(m: map<Byte, Commitment>, m': map<Byte, Commitment>, k: nat)
    requires k <= 256 && Chunks(m, k) == Chunks(m', k)
    ensures forall b: Byte :: k <= b ==> (b in m <==> b in m') && (b in m ==> m[b] == m'[b])
    decreases 256 - k
  {
    if k < 256 {
      SameFirstChunk(m, m', k);
      ChunksInjective(m, m', k + 1);
    }
  }

  /** A chunk for `k` comes first exactly when `k` is a key; otherwise anything that follows starts higher. */
  lemma {:induction false} FirstChunk(m: map<Byte, Commitment>, k: nat)
    requires k <= 256
    ensures k < 256 && k in m ==> Chunks(m, k) == ([k] + m[k]) + Chunks(m, k + 1) && Chunks(m, k)[0] == k
    ensures k < 256 && k !in m ==> Chunks(m, k) == Chunks(m, k + 1)
    ensures Chunks(m, k) != [] ==> Chunks(m, k)[0] >= k
    ensures k < 256 && k !in m && Chunks(m, k) != [] ==> Chunks(m, k)[0] > k
    decreases 256 - k
  {
    if k < 256 {
      FirstChunk(m, k + 1);
    }
  }

  /** How many keys of `m` lie from `k` up to, but not including, `b`. */
  function KeysBetween(m: map<Byte, Commitment>, k: nat, b: nat): nat {
    |set x | x in m && k <= x < b|
  }

  lemma KeysFromNext(m: map<Byte, Commitment>, k: Byte, b: nat)
    requires k < b
    ensures KeysBetween(m, k, b) == KeysBetween(m, k + 1, b) + if k in m then 1 else 0
  {
    var all := set x | x in m && k <= x < b;
    var later := set x | x in m && k + 1 <= x < b;
    assert all == if k in m then later + {k} else later;
  }

  lemma {:induction false} ChunksLength(m: map<Byte, Commitment>, k: nat)
    requires k <= 256
    ensures |Chunks(m, k)| == 33 * KeysBetween(m, k, 256)
    decreases 256 - k
  {
    if k < 256 {
      ChunksLength(m, k + 1);
      KeysFromNext(m, k, 256);
    } else {
      assert (set x | x in m && k <= x < 256) == {};
    }
  }

  /** The 33 bytes at `at` are a key and a commitment. */
  predicate ChunkAt(s: seq<Byte>, at: nat, b: Byte, c: Commitment) {
    at + 33 <= |s| && s[at] == b && s[at + 1..at + 33] == c
  }

  lemma ChunkAfter(first: seq<Byte>, rest: seq<Byte>, at: nat, b: Byte, c: Commitment)
    requires |first| == 33 && ChunkAt(rest, at, b, c)
    ensures ChunkAt(first + rest, at + 33, b, c)
  {
    assert (first + rest)[at + 34..at + 66] == rest[at + 1..at + 33];
  }

  lemma ChunkFirst(m: map<Byte, Commitment>, b: Byte)
    requires b in m
    ensures ChunkAt(Chunks(m, b), 0, b, m[b])
  {
    assert Chunks(m, b) == ([b] + m[b]) + Chunks(m, b + 1);
  }

  /** Children are hashed in ascending byte order: the chunk of `b` comes after one chunk per smaller key. */
  lemma {:induction false} ChunkPosition(m: map<Byte, Commitment>, k: nat, b: Byte)
    requires k <= b && b in m
    ensures ChunkAt(Chunks(m, k), 33 * KeysBetween(m, k, b), b, m[b])
    decreases 256 - k
  {
    if k == b {
      assert (set x | x in m && k <= x < b) == {};
      ChunkFirst(m, b);
    } else {
      ChunkPosition(m, k + 1, b);
      KeysFromNext(m, k, b);
      if k in m {
        ChunkAfter([k] + m[k], Chunks(m, k + 1), 33 * KeysBetween(m, k + 1, b), b, m[b]);
      }
    }
  }

  /** The bytes hashed for a leaf: the tag, then sixteen digits of the balance, the most significant one first. */
  lemma LeafBytes(h: Hash, slot: Slot, i: nat)
    requires i < 16
    ensures |Preimage(h, Leaf(slot))| == 36 && Preimage(h, Leaf(slot))[..20] == TAG_LEAF
    ensures Pow256(15 - i) > 0 && Preimage(h, Leaf(slot))[20 + i] == slot.canonical / Pow256(15 - i) % 256
  {
    TagsDiffer();
    BigEndianDigit(slot.canonical, 16, i);
  }

  lemma InternalInjective(m: map<Byte, Commitment>, m': map<Byte, Commitment>)
    requires InternalPreimage(m) == InternalPreimage(m')
    ensures m == m'
  {
    SplitConcat(TAG_INTERNAL, Chunks(m, 0), TAG_INTERNAL, Chunks(m', 0));
    ChunksInjective(m, m', 0);
  }

  lemma LeafInjective(s: Slot, s': Slot)
    requires LeafPreimage(s) == LeafPreimage(s')
    ensures s.canonical == s'.canonical
  {
    Widths();
    SplitConcat(TAG_LEAF, BigEndian(s.canonical, 16), TAG_LEAF, BigEndian(s'.canonical, 16));
    FromBigEndianOf(s.canonical, 16);
    FromBigEndianOf(s'.canonical, 16);
  }

  function Tag(node: Node): seq<Byte> {
    match node case Empty => TAG_EMPTY case Leaf(_) => TAG_LEAF case Internal(_) => TAG_INTERNAL
  }

  lemma PreimageStartsWithTag(h: Hash, node: Node)
    ensures |Preimage(h, node)| >= 20 && Preimage(h, node)[..20] == Tag(node)
  {
    TagsDiffer();
  }

  /** Domain separation: equal preimages come from the same kind of node. */
  lemma PreimageKinds(h: Hash, node: Node, m: map<Byte, Commitment>, s: Slot)
    ensures Preimage(h, node) == InternalPreimage(m) ==> node.Internal? && ChildCommitments(h, node.children) == m
    ensures Preimage(h, node) == LeafPreimage(s) ==> node.Leaf? && node.slot.canonical == s.canonical
    ensures Preimage(h, node) == TAG_EMPTY ==> node.Empty?
  {
    TagsDiffer();
    PreimageStartsWithTag(h, node);
    assert InternalPreimage(m)[..20] == TAG_INTERNAL && LeafPreimage(s)[..20] == TAG_LEAF && TAG_EMPTY[..20] == TAG_EMPTY;
    if node.Internal? && Preimage(h, node) == InternalPreimage(m) {
      InternalHashes(h, node);
      InternalInjective(ChildCommitments(h, node.children), m);
    }
    if node.Leaf? && Preimage(h, node) == LeafPreimage(s) {
      LeafInjective(node.slot, s);
    }
  }

  /** The input hashed at the top of a claimed path. */
  function ClaimedPreimage(h: Hash, path: seq<ProofStep>, slot: Option<Slot>): seq<Byte> {
    if path == [] then (match slot case Some(s) => LeafPreimage(s) case None => TAG_EMPTY)
    else InternalPreimage(ListedChildren(path[0], Fold(h, path[1..], Bottom(h, slot))))
  }

  /** Walk a proof and a tree down together and return the inputs at the first node where they differ. */
  function Discrepancy(h: Hash, node: Node, path: seq<ProofStep>, slot: Option<Slot>): Pair
    decreases |path|
  {
    var claimed := ClaimedPreimage(h, path, slot);
    var actual := Preimage(h, node);
    if claimed != actual || path == [] || !node.Internal? || path[0].byte !in node.children then (claimed, actual)
    else Discrepancy(h, node.children[path[0].byte], path[1..], slot)
  }

  /** What an accepted proof claims about a node: the balance at the end of the path, or that the path ends early. */
  ghost predicate ClaimHolds(node: Node, key: seq<Byte>, slot: Option<Slot>) {
    match slot
    case Some(s) => GetPath(node, key).Some? && GetPath(node, key).value.canonical == s.canonical
    case None => GetPath(node, key).None?
  }

  /** Following the bytes of a path leads to a node of the tree. */
  predicate Reaches(node: Node, path: seq<ProofStep>)
    decreases |path|
  {
    path == [] || (node.Internal? && path[0].byte in node.children && Reaches(node.children[path[0].byte], path[1..]))
  }

  /** If a step and a node are hashed from the same input, the step lists exactly the node's children. */
  lemma StepDescribes(h: Hash, node: Node, step: ProofStep, child: Option<Commitment>)
    requires InternalPreimage(ListedChildren(step, child)) == Preimage(h, node)
    ensures node.Internal?
    ensures child.Some? ==> step.byte in node.children && child.value == Commit(h, node.children[step.byte])
    ensures child.None? ==> (step.byte in node.children <==> step.byte in step.siblings)
  {
    PreimageKinds(h, node, ListedChildren(step, child), Slot(0, 0));
    assert child.Some? ==> step.byte in ListedChildren(step, child);
  }

  lemma DiscrepancyBelow(h: Hash, node: Node, path: seq<ProofStep>, slot: Option<Slot>)
    requires path != [] && ClaimedPreimage(h, path, slot) == Preimage(h, node)
    requires node.Internal? && path[0].byte in node.children
    ensures Discrepancy(h, node, path, slot) == Discrepancy(h, node.children[path[0].byte], path[1..], slot)
  {
  }

  /** The path exhibits a collision, or the tree has no node at its end exactly if its last step omits its own byte. */
  ghost predicate ShowsAbsence(h: Hash, node: Node, path: seq<ProofStep>)
    requires path != []
  {
    || IsCollision(h, Discrepancy(h, node, path, None))
    || (!Reaches(node, path) <==> path[|path| - 1].byte !in path[|path| - 1].siblings)
  }

  lemma AbsenceAtEnd(h: Hash, node: Node, step: ProofStep)
    requires InternalPreimage(step.siblings) == Preimage(h, node)
    ensures ShowsAbsence(h, node, [step])
  {
    StepDescribes(h, node, step, None);
    assert [step][1..] == [];
  }

  lemma AbsenceThroughChild(h: Hash, node: Node, path: seq<ProofStep>)
    requires |path| > 1 && ClaimedPreimage(h, path, None) == Preimage(h, node)
    requires node.Internal? && path[0].byte in node.children
    requires ShowsAbsence(h, node.children[path[0].byte], path[1..])
    ensures ShowsAbsence(h, node, path)
  {
    DiscrepancyBelow(h, node, path, None);
  }

  /**
   What an absence path shows about the tree: unless it exhibits a collision, the tree has no node at its end if and
   only if its last step leaves its own byte out of the siblings.
   */
  lemma {:induction false} AbsenceIsExact(h: Hash, node: Node, path: seq<ProofStep>)
    requires path != [] && Fold(h, path, None) == Some(Commit(h, node))
    ensures ShowsAbsence(h, node, path)
    decreases |path|
  {
    var below := Fold(h, path[1..], None);
    if ClaimedPreimage(h, path, None) == Preimage(h, node) {
      if |path| > 1 {
        StepDescribes(h, node, path[0], below);
        AbsenceIsExact(h, node.children[path[0].byte], path[1..]);
        AbsenceThroughChild(h, node, path);
      } else {
        assert path == [path[0]];
        AbsenceAtEnd(h, node, path[0]);
      }
    }
  }

  lemma {:induction false} UnreachedIsAbsent(node: Node, key: seq<Byte>, path: seq<ProofStep>)
    requires PathMatches(path, key) && !Reaches(node, path)
    ensures GetPath(node, key).None?
    decreases |path|
  {
    if node.Internal? && path[0].byte in node.children {
      UnreachedIsAbsent(node.children[path[0].byte], key[1..], path[1..]);
    }
  }

  /** Below a node that a path reaches there is a slot, under a key that the path matches. */
  lemma {:induction false} ReachedHoldsSomething(node: Node, path: seq<ProofStep>, d: nat) returns (key: seq<Byte>)
    requires Canonical(node, d) && |path| <= d && Reaches(node, path)
    ensures |key| == d && PathMatches(path, key) && GetPath(node, key).Some?
    decreases |path|
  {
    if path == [] {
      key := HoldsSomething(node, d);
    } else {
      var below := ReachedHoldsSomething(node.children[path[0].byte], path[1..], d - 1);
      key := [path[0].byte] + below;
      assert key[1..] == below;
      forall i | 0 <= i < |path| ensures path[i].byte == key[i] {
        assert i > 0 ==> path[1..][i - 1].byte == below[i - 1];
      }
    }
  }

  /** Every address for which the verifier accepts this path as an absence proof is absent. */
  ghost predicate AbsentWhereAccepted(h: Hash, root: Node, path: seq<ProofStep>) {
    forall a: Address :: Accepts(h, Commit(h, root), a.bytes, None, Proof(path, None)) ==> GetPath(root, a.bytes).None?
  }

  /**
   When absence proofs can be trusted: if a path is accepted as absence for some address, then every address it is
   accepted for is absent if and only if its last step leaves its own byte out of the siblings, or a collision is
   exhibited. The condition reads the proof alone.
   */
  lemma AbsenceIsSoundIff(h: Hash, root: Node, addr: Address, path: seq<ProofStep>)
    requires IsTree(root) && path != [] && Accepts(h, Commit(h, root), addr.bytes, None, Proof(path, None))
    ensures IsCollision(h, Discrepancy(h, root, path, None)) || (AbsentWhereAccepted(h, root, path) <==> EndsOpen(path))
  {
    AbsenceIsExact(h, root, path);
    if Reaches(root, path) {
      var key := ReachedHoldsSomething(root, path, 20);
      assert Accepts(h, Commit(h, root), Address(key).bytes, None, Proof(path, None));
    } else {
      forall a: Address | PathMatches(path, a.bytes) ensures GetPath(root, a.bytes).None? {
        UnreachedIsAbsent(root, a.bytes, path);
      }
    }
  }

  /** The claimed balance is at the end of the key, or the path exhibits a collision. */
  ghost predicate ShowsPresence(h: Hash, node: Node, key: seq<Byte>, path: seq<ProofStep>, slot: Slot) {
    ClaimHolds(node, key, Some(slot)) || IsCollision(h, Discrepancy(h, node, path, Some(slot)))
  }

  lemma PresenceThroughChild(h: Hash, node: Node, key: seq<Byte>, path: seq<ProofStep>, slot: Slot)
    requires path != [] && key != [] && path[0].byte == key[0]
    requires ClaimedPreimage(h, path, Some(slot)) == Preimage(h, node)
    requires node.Internal? && path[0].byte in node.children
    requires ShowsPresence(h, node.children[path[0].byte], key[1..], path[1..], slot)
    ensures ShowsPresence(h, node, key, path, slot)
  {
    DiscrepancyBelow(h, node, path, Some(slot));
  }

  /** An accepted full-depth path ends at a leaf with the claimed balance. */
  lemma {:induction false} PresenceIsSound(h: Hash, node: Node, key: seq<Byte>, path: seq<ProofStep>, slot: Slot)
    requires PathMatches(path, key) && |path| == |key|
    requires Fold(h, path, Bottom(h, Some(slot))) == Some(Commit(h, node))
    ensures ShowsPresence(h, node, key, path, slot)
    decreases |path|
  {
    if ClaimedPreimage(h, path, Some(slot)) == Preimage(h, node) {
      if path == [] {
        PreimageKinds(h, node, map[], slot);
      } else {
        StepDescribes(h, node, path[0], Fold(h, path[1..], Bottom(h, Some(slot))));
        PresenceIsSound(h, node.children[path[0].byte], key[1..], path[1..], slot);
        PresenceThroughChild(h, node, key, path, slot);
      }
    }
  }

  /**
   Proof soundness. If verification accepts a claim against the root of a tree, then the claim is true of the tree
   (the canonical balance for a presence claim, absence otherwise), or the returned pair is a hash collision.
   Absence claims need a last step that leaves its own byte out; `AbsenceIsSoundIff` shows that this is what it takes.
   */
  lemma ProofSoundness(h: Hash, root: Node, addr: Address, claim: Option<Slot>, proof: Proof)
    requires IsTree(root) && (claim.None? ==> EndsOpen(proof.path))
    requires Accepts(h, Commit(h, root), addr.bytes, claim, proof)
    ensures ClaimHolds(root, addr.bytes, claim) || IsCollision(h, Discrepancy(h, root, proof.path, proof.slot))
  {
    if claim.Some? {
      PresenceIsSound(h, root, addr.bytes, proof.path, claim.value);
    } else if proof.path == [] {
      PreimageKinds(h, root, map[], Slot(0, 0));
    } else {
      AbsenceIsExact(h, root, proof.path);
      if !Reaches(root, proof.path) {
        UnreachedIsAbsent(root, addr.bytes, proof.path);
      }
    }
  }

  // ---------------------------------------------------------------------------------------------
  // What the proof format does not bind
  // ---------------------------------------------------------------------------------------------

  /** A one-step path whose siblings include its own byte is accepted as absence even for an address in the tree. */
  lemma OwnByteMatters(h: Hash, root: Node, addr: Address)
    requires Canonical(root, 20) && GetPath(root, addr.bytes).Some?
    ensures var path := [ProofStep(addr.bytes[0], ChildCommitments(h, root.children))];
            && Accepts(h, Commit(h, root), addr.bytes, None, Proof(path, None))
            && !EndsOpen(path)
  {
    var path := [ProofStep(addr.bytes[0], ChildCommitments(h, root.children))];
    InternalHashes(h, root);
    assert Fold(h, path[1..], None) == None;
    assert path[0].byte in path[0].siblings;
  }

  /** Changing only the nonce of a claim never changes the verdict. */
  lemma NonceIsNotBound(h: Hash, root: Commitment, key: seq<Byte>, proof: Proof, slot: Slot, nonce: nat)
    requires proof.slot == Some(slot)
    ensures Accepts(h, root, key, Some(slot), proof)
            <==> Accepts(h, root, key, Some(slot.(nonce := nonce)), proof.(slot := Some(slot.(nonce := nonce))))
  {
    assert Bottom(h, Some(slot)) == Bottom(h, Some(slot.(nonce := nonce)));
  }

  // ---------------------------------------------------------------------------------------------
  // The root binds the balances
  // ---------------------------------------------------------------------------------------------

  /** Look for the first pair of corresponding nodes that hash alike but are hashed from different inputs. */
  function TreeDiscrepancy(h: Hash, n1: Node, n2: Node): Option<Pair>
    decreases n1, 1, 0
  {
    if Preimage(h, n1) != Preimage(h, n2) then Some((Preimage(h, n1), Preimage(h, n2)))
    else if n1.Internal? && n2.Internal? then ChildDiscrepancy(h, n1, n2, 0)
    else None
  }

  function ChildDiscrepancy(h: Hash, n1: Node, n2: Node, k: nat): Option<Pair>
    requires n1.Internal? && n2.Internal? && k <= 256
    decreases n1, 0, 256 - k
  {
    if k == 256 then None
    else if k in n1.children && k in n2.children && TreeDiscrepancy(h, n1.children[k], n2.children[k]).Some? then
      TreeDiscrepancy(h, n1.children[k], n2.children[k])
    else ChildDiscrepancy(h, n1, n2, k + 1)
  }

  ghost predicate SameTreeBalances(n1: Node, n2: Node) {
    forall key ::
      && (GetPath(n1, key).Some? <==> GetPath(n2, key).Some?)
      && (GetPath(n1, key).Some? && GetPath(n2, key).Some? ==>
            GetPath(n1, key).value.canonical == GetPath(n2, key).value.canonical)
  }

  /** A discrepancy among the children is a discrepancy of one of them. */
  lemma {:induction false} DiscrepantChild(h: Hash, n1: Node, n2: Node, k: nat) returns (b: Byte)
    requires n1.Internal? && n2.Internal? && k <= 256 && ChildDiscrepancy(h, n1, n2, k).Some?
    ensures b in n1.children && b in n2.children
    ensures ChildDiscrepancy(h, n1, n2, k) == TreeDiscrepancy(h, n1.children[b], n2.children[b])
    decreases 256 - k
  {
    if k in n1.children && k in n2.children && TreeDiscrepancy(h, n1.children[k], n2.children[k]).Some? {
      b := k;
    } else {
      b := DiscrepantChild(h, n1, n2, k + 1);
    }
  }

  lemma {:induction false} NoDiscrepantChild(h: Hash, n1: Node, n2: Node, k: nat, b: Byte)
    requires n1.Internal? && n2.Internal? && k <= b && ChildDiscrepancy(h, n1, n2, k).None?
    requires b in n1.children && b in n2.children
    ensures TreeDiscrepancy(h, n1.children[b], n2.children[b]).None?
    decreases 256 - k
  {
    if k < b {
      NoDiscrepantChild(h, n1, n2, k + 1, b);
    }
  }

  /** Two trees with the same root hold the same balances, or a collision is exhibited. */
  lemma {:induction false} RootBindsBalances(h: Hash, n1: Node, n2: Node)
    requires Commit(h, n1) == Commit(h, n2)
    ensures match TreeDiscrepancy(h, n1, n2)
            case Some(p) => IsCollision(h, p)
            case None => SameTreeBalances(n1, n2)
    decreases n1
  {
    if Preimage(h, n1) == Preimage(h, n2) {
      match n1
      case Empty => PreimageKinds(h, n2, map[], Slot(0, 0));
      case Leaf(slot) => PreimageKinds(h, n2, map[], slot);
      case Internal(children) =>
        InternalHashes(h, n1);
        PreimageKinds(h, n2, ChildCommitments(h, children), Slot(0, 0));
        assert ChildCommitments(h, children) == ChildCommitments(h, n2.children);
        forall b | b in children && b in n2.children
          ensures match TreeDiscrepancy(h, children[b], n2.children[b])
                  case Some(p) => IsCollision(h, p)
                  case None => SameTreeBalances(children[b], n2.children[b])
        {
          assert ChildCommitments(h, children)[b] == ChildCommitments(h, n2.children)[b];
          RootBindsBalances(h, children[b], n2.children[b]);
        }
        if TreeDiscrepancy(h, n1, n2).Some? {
          var b := DiscrepantChild(h, n1, n2, 0);
        } else {
          assert forall b :: b in children <==> b in ChildCommitments(h, children);
          assert forall b :: b in n2.children <==> b in ChildCommitments(h, n2.children);
          forall key
            ensures GetPath(n1, key).Some? <==> GetPath(n2, key).Some?
            ensures GetPath(n1, key).Some? && GetPath(n2, key).Some? ==>
                      GetPath(n1, key).value.canonical == GetPath(n2, key).value.canonical
          {
            if key != [] && key[0] in children {
              NoDiscrepantChild(h, n1, n2, 0, key[0]);
              assert SameTreeBalances(children[key[0]], n2.children[key[0]]);
            }
          }
        }
    }
  }
}
