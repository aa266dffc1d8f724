/** Properties of the flat tree that relate several operations: the lifecycle,
    padding, inclusion-proof soundness, the behaviour of over-long proofs, and
    the binding of the root to the block list under a collision-free digest. */
module FlatMerkleProperties {
  import opened Wrappers
  import opened Hashing
  import opened HeapIndex
  import opened FlatMerkle

  /** Finalize establishes the object invariant, and the finalized tree then
      refuses a second Finalize and every Insert, and serves its root. */
  lemma FinalizeIsOneWay(h: Hasher, t: Tree, b: Option<Block>)
    requires |t.blocks| > 0 && !t.finalized
    ensures Finalize(h, t).Success?
    ensures Valid(h, Finalize(h, t).value)
    ensures Finalize(h, Finalize(h, t).value) == Failure(TreeAlreadyFinalized)
    ensures b.Some? ==> Insert(Finalize(h, t).value, b) == Failure(TreeAlreadyFinalized)
    ensures RootHash(Finalize(h, t).value) == Success(Finalize(h, t).value.nodes[0])
  {
  }

  /** An odd block list finalizes to exactly the tree of the list with its last
      block written twice; in particular `[a, b, c]` and `[a, b, c, c]` share a root. */
  lemma PaddingEquivalence(h: Hasher, blocks: seq<Block>)
    requires |blocks| % 2 == 1
    ensures Finalize(h, NewMerkleTree(blocks)) == Finalize(h, NewMerkleTree(blocks + [blocks[|blocks| - 1]]))
  {
    assert Pad(blocks) == blocks + [blocks[|blocks| - 1]];
  }

  /** Consistent digests are unique: the heap conditions force every slot to
      hold the reference digest. */
  lemma {:induction false} HeapDigestAt(h: Hasher, blocks: seq<Block>, nodes: seq<Digest>, j: nat)
    requires |blocks| >= 1 && |nodes| == 2 * |blocks| - 1 && j < |nodes|
    requires HeapConsistent(h, blocks, nodes)
    ensures nodes[j] == NodeDigest(h, blocks, j)
    decreases |nodes| - j
  {
    var m := |blocks|;
    if j < m - 1 {
      HeapDigestAt(h, blocks, nodes, 2 * j + 1);
      HeapDigestAt(h, blocks, nodes, 2 * j + 2);
    } else {
      assert nodes[m - 1 + (j - (m - 1))] == HashNode(h, blocks[j - (m - 1)], false);
    }
  }

  /** The `s`-th proof entry is the sibling of the slot reached after `s` steps. */
  lemma {:induction false} PathSiblingsAt(nodes: seq<Digest>, i: nat, s: nat)
    requires i < |nodes| && |nodes| % 2 == 1 && s < Depth(i)
    ensures Climb(i, s) > 0
    ensures PathSiblings(nodes, i)[s] == nodes[Sibling(Climb(i, s))]
    decreases s
  {
    if s > 0 {
      PathSiblingsAt(nodes, Parent(i), s - 1);
    }
  }

  /** In a valid finalized tree, rebuilding a parent from any non-root slot and
      its stored sibling gives the stored parent digest. */
  lemma StepSound(h: Hasher, t: Tree, c: nat)
    requires Valid(h, t) && t.finalized
    requires 0 < c < |t.nodes|
    ensures Reconstruct(h, c, t.nodes[c], t.nodes[Sibling(c)]) == t.nodes[Parent(c)]
  {
    var p := Parent(c);
    SiblingInRange(|t.nodes|, c);
    assert p < |t.blocks| - 1;
    assert t.nodes[p] == HashNode(h, t.nodes[2 * p + 1] + t.nodes[2 * p + 2], true);
  }

  /** Inclusion soundness: for every block of a valid finalized tree, every
      prefix of its proof path, the empty one and the full one included, passes
      every step of Verify. */
  lemma ProofPrefixAccepted(h: Hasher, t: Tree, b: Block, k: nat)
    requires Valid(h, t) && t.finalized && b in t.blocks
    requires k <= Depth(LeafSlot(t, b))
    ensures AcceptsAll(h, t.nodes, LeafSlot(t, b), PathSiblings(t.nodes, LeafSlot(t, b))[..k])
  {
    var leaf: nat := LeafSlot(t, b);
    var proof := PathSiblings(t.nodes, leaf)[..k];
    forall s | 0 <= s < |proof|
      ensures StepAccepted(h, t.nodes, leaf, proof, s)
    {
      PathSiblingsAt(t.nodes, leaf, s);
      StepSound(h, t, Climb(leaf, s));
    }
  }

  /** Proof followed by Verify: for every block of a valid finalized tree the
      proof is produced and Verify accepts it, as it accepts each of its prefixes. */
  method ProveThenVerify(h: Hasher, t: Tree, b: Block) returns (proof: seq<Digest>, outcome: Outcome<Error>)
    requires Valid(h, t) && t.finalized && b in t.blocks
    ensures outcome == Pass
    ensures |proof| == Depth(LeafSlot(t, b))
    ensures forall k :: 0 <= k <= |proof| ==> AcceptsAll(h, t.nodes, LeafSlot(t, b), proof[..k])
  {
    var r := Proof(t, Some(b));
    proof := r.value;
    forall k | 0 <= k <= |proof|
      ensures AcceptsAll(h, t.nodes, LeafSlot(t, b), proof[..k])
    {
      ProofPrefixAccepted(h, t, b, k);
    }
    assert proof[..|proof|] == proof;
    outcome := Verify(h, t, Some(b), proof);
  }

  /** Past the root the checked slot stays 0 (Go's `(0 - 1) / 2 == 0`): an extra
      proof entry is accepted exactly when hashing it in front of the root
      gives the root again. */
  lemma VerifyPastRoot(h: Hasher, nodes: seq<Digest>, leaf: nat, proof: seq<Digest>, s: nat)
    requires leaf < |nodes| && Depth(leaf) <= s < |proof|
    ensures Climb(leaf, s) == 0
    ensures StepAccepted(h, nodes, leaf, proof, s) <==> HashNode(h, proof[s] + nodes[0], true) == nodes[0]
  {
    ClimbPastRoot(leaf, s);
  }

  /** Domain separation: a leaf digest equal to an internal digest is a collision
      of the digest primitive, since the two preimages differ in their first byte. */
  lemma LeafNeverInternal(h: Hasher, data: Bytes, children: Bytes)
    requires HashNode(h, data, false) == HashNode(h, children, true)
    ensures Collision(h, [LeafNodePrefix] + data, [InternalNodePrefix] + children)
  {
    assert ([LeafNodePrefix] + data)[0] != ([InternalNodePrefix] + children)[0];
  }

  /** The bytes hashed to obtain the reference digest of slot `i`. */
  ghost function Preimage(h: Hasher, blocks: seq<Block>, i: nat): Bytes
    requires |blocks| >= 1 && i < 2 * |blocks| - 1
  {
    var m := |blocks|;
    if i < m - 1 then
      [InternalNodePrefix] + (NodeDigest(h, blocks, 2 * i + 1) + NodeDigest(h, blocks, 2 * i + 2))
    else
      [LeafNodePrefix] + blocks[i - (m - 1)]
  }

  /** If two trees of the same size differ in the preimage of slot `j` but agree
      on the root, some slot between `j` and the root exhibits a collision. */
  lemma {:induction false} CollisionOnPath(h: Hasher, b1: seq<Block>, b2: seq<Block>, j: nat) returns (x: Bytes, y: Bytes)
    requires FixedWidth(h)
    requires |b1| == |b2| >= 1 && j < 2 * |b1| - 1
    requires NodeDigest(h, b1, 0) == NodeDigest(h, b2, 0)
    requires Preimage(h, b1, j) != Preimage(h, b2, j)
    ensures Collision(h, x, y)
    decreases j
  {
    assert NodeDigest(h, b1, j) == h(Preimage(h, b1, j));
    assert NodeDigest(h, b2, j) == h(Preimage(h, b2, j));
    if NodeDigest(h, b1, j) == NodeDigest(h, b2, j) {
      x, y := Preimage(h, b1, j), Preimage(h, b2, j);
    } else {
      ParentPreimagesDiffer(h, b1, b2, j);
      x, y := CollisionOnPath(h, b1, b2, Parent(j));
    }
  }

  /** A slot whose digests differ makes the preimages of its parent differ,
      because every digest has the same width. */
  lemma ParentPreimagesDiffer(h: Hasher, b1: seq<Block>, b2: seq<Block>, j: nat)
    requires FixedWidth(h)
    requires |b1| == |b2| >= 1 && 0 < j < 2 * |b1| - 1
    requires NodeDigest(h, b1, j) != NodeDigest(h, b2, j)
    ensures Preimage(h, b1, Parent(j)) != Preimage(h, b2, Parent(j))
  {
    var p := Parent(j);
    DigestWidthAt(h, b1, 2 * p + 1);
    DigestWidthAt(h, b2, 2 * p + 1);
    ChildDigestFromPreimage(h, b1, b2, p, j);
  }

  /** Equal preimages of an internal slot mean equal digests of its children,
      given that the two left children's digests have the same width. */
  lemma ChildDigestFromPreimage(h: Hasher, b1: seq<Block>, b2: seq<Block>, p: nat, j: nat)
    requires |b1| == |b2| >= 1 && j < 2 * |b1| - 1
    requires j == 2 * p + 1 || j == 2 * p + 2
    requires |NodeDigest(h, b1, 2 * p + 1)| == |NodeDigest(h, b2, 2 * p + 1)|
    ensures Preimage(h, b1, p) == Preimage(h, b2, p) ==> NodeDigest(h, b1, j) == NodeDigest(h, b2, j)
  {
    assert p < |b1| - 1;
    var l1, r1 := InternalPreimage(h, b1, p);
    var l2, r2 := InternalPreimage(h, b2, p);
    if Preimage(h, b1, p) == Preimage(h, b2, p) {
      PrefixedConcatInjective(InternalNodePrefix, l1, r1, l2, r2);
    }
  }

  /** What an internal slot hashes: the internal prefix byte, then its
      children's digests `l` and `r`. */
  lemma InternalPreimage(h: Hasher, blocks: seq<Block>, p: nat) returns (l: Digest, r: Digest)
    requires |blocks| >= 1 && p < |blocks| - 1
    ensures l == NodeDigest(h, blocks, 2 * p + 1) && r == NodeDigest(h, blocks, 2 * p + 2)
    ensures Preimage(h, blocks, p) == [InternalNodePrefix] + (l + r)
  {
    l, r := NodeDigest(h, blocks, 2 * p + 1), NodeDigest(h, blocks, 2 * p + 2);
  }

  lemma DigestWidthAt(h: Hasher, blocks: seq<Block>, i: nat)
    requires FixedWidth(h)
    requires |blocks| >= 1 && i < 2 * |blocks| - 1
    ensures |NodeDigest(h, blocks, i)| == DigestWidth
  {
    var m := |blocks|;
    if i < m - 1 {
      assert NodeDigest(h, blocks, i) == h([InternalNodePrefix] + (NodeDigest(h, blocks, 2 * i + 1) + NodeDigest(h, blocks, 2 * i + 2)));
    } else {
      assert NodeDigest(h, blocks, i) == h([LeafNodePrefix] + blocks[i - (m - 1)]);
    }
  }

  /** The root binds the block list: two valid finalized trees over block lists
      of the same length that differ yet share a root yield a collision of the
      digest primitive. */
  lemma EqualRootsYieldCollision(h: Hasher, t1: Tree, t2: Tree) returns (x: Bytes, y: Bytes)
    requires FixedWidth(h)
    requires Valid(h, t1) && Valid(h, t2) && t1.finalized && t2.finalized
    requires |t1.blocks| == |t2.blocks| && t1.blocks != t2.blocks
    requires t1.root == t2.root
    ensures Collision(h, x, y)
  {
    HeapDigestAt(h, t1.blocks, t1.nodes, 0);
    HeapDigestAt(h, t2.blocks, t2.nodes, 0);
    var j := DifferingLeafPreimage(h, t1.blocks, t2.blocks);
    x, y := CollisionOnPath(h, t1.blocks, t2.blocks, j);
  }

  /** Two different block lists of the same length differ in the preimage of
      some leaf slot. */
  lemma DifferingLeafPreimage(h: Hasher, b1: seq<Block>, b2: seq<Block>) returns (j: nat)
    requires |b1| == |b2| >= 1 && b1 != b2
    ensures |b1| - 1 <= j < 2 * |b1| - 1
    ensures Preimage(h, b1, j) != Preimage(h, b2, j)
  {
    var m := |b1|;
    var k :| 0 <= k < m && b1[k] != b2[k];
    j := m - 1 + k;
    assert Preimage(h, b1, j)[1..] == b1[k];
    assert Preimage(h, b2, j)[1..] == b2[k];
  }

  /** Order sensitivity: swapping any two distinct blocks of a block list
      changes the root unless the digest primitive has a collision. */
  lemma OrderSensitive(h: Hasher, bs: seq<Block>, i: nat, j: nat) returns (x: Bytes, y: Bytes)
    requires FixedWidth(h)
    requires i < j < |bs| && bs[i] != bs[j]
    requires Finalize(h, NewMerkleTree(bs)).value.root ==
             Finalize(h, NewMerkleTree(bs[i := bs[j]][j := bs[i]])).value.root
    ensures Collision(h, x, y)
  {
    var swapped := bs[i := bs[j]][j := bs[i]];
    var t1 := Finalize(h, NewMerkleTree(bs)).value;
    var t2 := Finalize(h, NewMerkleTree(swapped)).value;
    assert t1.blocks[i] == bs[i] && t2.blocks[i] == swapped[i] == bs[j];
    x, y := EqualRootsYieldCollision(h, t1, t2);
  }
}
