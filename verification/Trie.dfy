/**
 The 256-ary state trie: update, lookup, commitment, proof construction and proof verification.
 The hash function is a parameter; nothing is assumed about it.
 */
module Trie {
  import opened Types
  import opened ByteCodec

  type Commitment = Bytes32
  type Hash = seq<Byte> -> Commitment

  /** A canonical balance and an account nonce. Commitments cover the balance only. */
  datatype Slot = Slot(canonical: Amount, nonce: nat)

  datatype Node = Empty | Leaf(slot: Slot) | Internal(children: map<Byte, Node>)

  // ---------------------------------------------------------------------------------------------
  // Update and lookup
  // ---------------------------------------------------------------------------------------------

  /** Walk down `key`, promoting whatever is in the way to an internal node, and place the leaf. */
  function UpdatePath(node: Node, key: seq<Byte>, slot: Slot): Node
    decreases |key|
  {
    if key == [] then Leaf(slot)
    else
      var children := if node.Internal? then node.children else map[];
      var child := if key[0] in children then children[key[0]] else Empty;
      Internal(children[key[0] := UpdatePath(child, key[1..], slot)])
  }

  function GetPath(node: Node, key: seq<Byte>): Option<Slot>
    decreases |key|
  {
    if key == [] then (if node.Leaf? then Some(node.slot) else None)
    else if node.Internal? && key[0] in node.children then GetPath(node.children[key[0]], key[1..])
    else None
  }

  // ---------------------------------------------------------------------------------------------
  // Commitment
  // ---------------------------------------------------------------------------------------------

  function Ascii(s: string): (r: seq<Byte>)
    requires forall i :: 0 <= i < |s| ==> s[i] < 128 as char
    ensures |r| == |s|
  {
    seq(|s|, i requires 0 <= i < |s| => s[i] as int)
  }

  const TAG_EMPTY: seq<Byte> := Ascii("SUWAPPUDB-TREE/EMPTY")
  const TAG_LEAF: seq<Byte> := Ascii("SUWAPPUDB-TREE/LEAF_")
  const TAG_INTERNAL: seq<Byte> := Ascii("SUWAPPUDB-TREE/INT__")

  lemma TagsDiffer()
    ensures |TAG_EMPTY| == |TAG_LEAF| == |TAG_INTERNAL| == 20
    ensures TAG_EMPTY != TAG_LEAF && TAG_LEAF != TAG_INTERNAL && TAG_INTERNAL != TAG_EMPTY
  {
    assert TAG_EMPTY[15] == 'E' as int && TAG_LEAF[15] == 'L' as int && TAG_INTERNAL[15] == 'I' as int;
  }

  /** The domain tags, byte for byte: `SUWAPPUDB-TREE/` followed by `EMPTY`, `LEAF_` or `INT__`. */
  lemma TagBytes()
    ensures TAG_EMPTY == [83, 85, 87, 65, 80, 80, 85, 68, 66, 45, 84, 82, 69, 69, 47, 69, 77, 80, 84, 89]
    ensures TAG_LEAF == [83, 85, 87, 65, 80, 80, 85, 68, 66, 45, 84, 82, 69, 69, 47, 76, 69, 65, 70, 95]
    ensures TAG_INTERNAL == [83, 85, 87, 65, 80, 80, 85, 68, 66, 45, 84, 82, 69, 69, 47, 73, 78, 84, 95, 95]
  {
  }

  /** The children's commitments in ascending byte order, from byte `k` on: one 33-byte chunk each. */
  function Chunks(m: map<Byte, Commitment>, k: nat): seq<Byte>
    requires k <= 256
    decreases 256 - k
  {
    if k == 256 then []
    else (if k in m then [k] + m[k] else []) + Chunks(m, k + 1)
  }

  function EmptyCommitment(h: Hash): Commitment {
    h(TAG_EMPTY)
  }

  function LeafPreimage(slot: Slot): seq<Byte> {
    TAG_LEAF + BigEndian(slot.canonical, 16)
  }

  function InternalPreimage(m: map<Byte, Commitment>): seq<Byte> {
    TAG_INTERNAL + Chunks(m, 0)
  }

  /** What is hashed for a node. */
  function Preimage(h: Hash, node: Node): seq<Byte>
    decreases node, 0
  {
    match node
    case Empty => TAG_EMPTY
    case Leaf(slot) => LeafPreimage(slot)
    case Internal(children) => InternalPreimage(map b | b in children :: Commit(h, children[b]))
  }

  function Commit(h: Hash, node: Node): Commitment
    decreases node, 1
  {
    h(Preimage(h, node))
  }

  function ChildCommitments(h: Hash, children: map<Byte, Node>): map<Byte, Commitment> {
    map b | b in children :: Commit(h, children[b])
  }

  // ---------------------------------------------------------------------------------------------
  // Proofs
  // ---------------------------------------------------------------------------------------------

  datatype ProofStep = ProofStep(byte: Byte, siblings: map<Byte, Commitment>)

  datatype Proof = Proof(path: seq<ProofStep>, slot: Option<Slot>)

  /** The commitments of all children but the one at `byte`. */
  function Siblings(h: Hash, children: map<Byte, Node>, byte: Byte): map<Byte, Commitment> {
    map b | b in children && b != byte :: Commit(h, children[b])
  }

  /** The steps through the real internal nodes along `key`, and the slot at its end if there is one. */
  function CollectProof(h: Hash, node: Node, key: seq<Byte>): (r: Proof)
    decreases |key|
  {
    if key == [] then Proof([], if node.Leaf? then Some(node.slot) else None)
    else if !node.Internal? then Proof([], None)
    else
      var step := ProofStep(key[0], Siblings(h, node.children, key[0]));
      if key[0] !in node.children then Proof([step], None)
      else
        var below := CollectProof(h, node.children[key[0]], key[1..]);
        Proof([step] + below.path, below.slot)
  }

  /** The children a step describes, given the commitment of the child it leads to, if any. */
  function ListedChildren(step: ProofStep, child: Option<Commitment>): map<Byte, Commitment> {
    match child case Some(c) => step.siblings[step.byte := c] case None => step.siblings
  }

  /** The commitment of the node a step describes. */
  function Combine(h: Hash, step: ProofStep, child: Option<Commitment>): Commitment {
    h(InternalPreimage(ListedChildren(step, child)))
  }

  /** The bottom-up reconstruction along a path. */
  function Fold(h: Hash, path: seq<ProofStep>, bottom: Option<Commitment>): Option<Commitment> {
    if path == [] then bottom
    else Some(Combine(h, path[0], Fold(h, path[1..], bottom)))
  }

  predicate PathMatches(path: seq<ProofStep>, key: seq<Byte>) {
    |path| <= |key| && forall i :: 0 <= i < |path| ==> path[i].byte == key[i]
  }

  function Bottom(h: Hash, slot: Option<Slot>): Option<Commitment> {
    match slot case Some(s) => Some(h(LeafPreimage(s))) case None => None
  }

  /** What verification accepts. */
  predicate Accepts(h: Hash, root: Commitment, key: seq<Byte>, claim: Option<Slot>, proof: Proof) {
    && proof.slot == claim
    && PathMatches(proof.path, key)
    && (proof.slot.Some? ==> |proof.path| == |key|)
    && if proof.path == [] then proof.slot.None? && root == EmptyCommitment(h)
       else Fold(h, proof.path, Bottom(h, proof.slot)) == Some(root)
  }

  /** `StateTree`: the trie behind a mutable root. */
  class StateTree {
    var root: Node

    constructor ()
      ensures root == Empty
    {
      root := Empty;
    }

    method Update(addr: Address, slot: Slot)
      modifies this
      ensures root == UpdatePath(old(root), addr.bytes, slot)
    {
      root := UpdatePath(root, addr.bytes, slot);
    }

    /** Insert entries in whatever order they arrive. */
    method Extend(entries: seq<(Address, Slot)>)
      modifies this
      ensures root == Inserted(old(root), entries)
    {
      assert entries[..0] == [];
      for i := 0 to |entries|
        invariant root == Inserted(old(root), entries[..i])
      {
        Update(entries[i].0, entries[i].1);
        assert entries[..i + 1][..i] == entries[..i];
      }
      assert entries[..|entries|] == entries;
    }
  }

  /** A tree after a sequence of updates. */
  function Inserted(node: Node, entries: seq<(Address, Slot)>): Node {
    if entries == [] then node
    else
      var last := entries[|entries| - 1];
      UpdatePath(Inserted(node, entries[..|entries| - 1]), last.0.bytes, last.1)
  }

  method MatchPath(path: seq<ProofStep>, key: seq<Byte>) returns (ok: bool)
    ensures ok == PathMatches(path, key)
  {
    if |path| > |key| {
      return false;
    }
    for i := 0 to |path|
      invariant forall k :: 0 <= k < i ==> path[k].byte == key[k]
    {
      if path[i].byte != key[i] {
        return false;
      }
    }
    ok := true;
  }

  /** Rebuild the commitments along a path, from the bottom upwards. */
  method Rebuild(h: Hash, path: seq<ProofStep>, bottom: Option<Commitment>) returns (current: Option<Commitment>)
    ensures current == Fold(h, path, bottom)
  {
    current := bottom;
    var i := |path|;
    while i > 0
      invariant 0 <= i <= |path|
      invariant current == Fold(h, path[i..], bottom)
    {
      i := i - 1;
      assert path[i..][1..] == path[i + 1..];
      current := Some(Combine(h, path[i], current));
    }
    assert path[0..] == path;
  }

  /** Check a proof against a root, rebuilding the commitments from the leaf upwards. */
  method Verify(h: Hash, root: Commitment, addr: Address, claim: Option<Slot>, proof: Proof) returns (ok: bool)
    ensures ok == Accepts(h, root, addr.bytes, claim, proof)
  {
    if proof.slot != claim {
      return false;
    }
    var matches := MatchPath(proof.path, addr.bytes);
    if !matches || (proof.slot.Some? && |proof.path| != |addr.bytes|) {
      return false;
    }
    if proof.path == [] {
      return proof.slot.None? && root == EmptyCommitment(h);
    }
    var current := Rebuild(h, proof.path, Bottom(h, proof.slot));
    ok := current == Some(root);
  }
}
