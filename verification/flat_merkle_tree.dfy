/** The flat, array-indexed Merkle tree: blocks are inserted while the tree is
    building, `Finalize` runs once and fills a level-order digest array, and
    afterwards the root, inclusion proofs and proof checks are answered from
    that array. The tree is an immutable value; every operation that changes it
    returns the new tree, and on an error the caller keeps the old one, as the
    Go code leaves the receiver untouched on every error path. */
module FlatMerkle {
  import opened Wrappers
  import opened Hashing
  import opened HeapIndex

  type Block = Bytes
  type Digest = Bytes

  const LeafNodePrefix: byte := 0
  const InternalNodePrefix: byte := 1

  datatype Error =
    | NilBlock
    | EmptyMerkleTree
    | TreeAlreadyFinalized
    | TreeNotFinalized
    | BlockNotFound(block: Block)
    | InvalidProof(step: nat, got: Digest, want: Digest)

  /** `blocks` in insertion order, the level-order digest array `nodes`, the
      cached root and the one-way `finalized` flag. A Go `nil` slice is the
      empty sequence. */
  datatype Tree = Tree(blocks: seq<Block>, nodes: seq<Digest>, root: Digest, finalized: bool)

  /** Domain-separated digest: one prefix byte, 0x01 for an internal node and
      0x00 for a leaf, followed by the data. Under a fixed-width hash every node
      digest has the digest width, whatever the length of the data. */
  function HashNode(h: Hasher, data: Bytes, internal: bool): (d: Digest)
    ensures FixedWidth(h) ==> |d| == DigestWidth
  {
    h([if internal then InternalNodePrefix else LeafNodePrefix] + data)
  }

  /** The shape every reachable tree has. Building: no digests and no root yet.
      Finalized: an even number (at least two) of blocks, `2m - 1` digest slots
      for `m` blocks, and the root cached from slot 0. */
  predicate WellShaped(t: Tree)
  {
    if t.finalized then
      && |t.blocks| >= 2
      && |t.blocks| % 2 == 0
      && |t.nodes| == 2 * |t.blocks| - 1
      && t.root == t.nodes[0]
    else
      t.nodes == [] && t.root == []
  }

  /** The digests of a finalized tree: the last `m` slots hold the leaf digests in
      block order, and every internal slot hashes its two children. */
  ghost predicate HeapConsistent(h: Hasher, blocks: seq<Block>, nodes: seq<Digest>)
    requires |blocks| >= 1 && |nodes| == 2 * |blocks| - 1
  {
    && (forall j :: 0 <= j < |blocks| ==> nodes[|blocks| - 1 + j] == HashNode(h, blocks[j], false))
    && (forall i :: 0 <= i < |blocks| - 1 ==> nodes[i] == HashNode(h, nodes[2 * i + 1] + nodes[2 * i + 2], true))
  }

  /** The object invariant: the shape, plus consistent digests once finalized. */
  ghost predicate Valid(h: Hasher, t: Tree)
  {
    WellShaped(t) && (t.finalized ==> HeapConsistent(h, t.blocks, t.nodes))
  }

  /** A building tree, optionally pre-seeded with blocks. */
  function NewMerkleTree(blocks: seq<Block>): (t: Tree)
    ensures t.blocks == blocks && !t.finalized
    ensures forall h: Hasher :: Valid(h, t)
  {
    Tree(blocks, [], [], false)
  }

  /** Appends one block while the tree is building. A `nil` block is rejected
      before the finalized flag is looked at. */
  function Insert(t: Tree, block: Option<Block>): (r: Result<Tree, Error>)
    ensures block.None? ==> r == Failure(NilBlock)
    ensures block.Some? && t.finalized ==> r == Failure(TreeAlreadyFinalized)
    ensures block.Some? && !t.finalized ==>
      && r.Success?
      && |r.value.blocks| == |t.blocks| + 1
      && r.value.blocks[..|t.blocks|] == t.blocks
      && r.value.blocks[|t.blocks|] == block.value
      && r.value.nodes == t.nodes
      && r.value.root == t.root
      && !r.value.finalized
    ensures r.Success? && WellShaped(t) ==> WellShaped(r.value)
  {
    if block.None? then Failure(NilBlock)
    else if t.finalized then Failure(TreeAlreadyFinalized)
    else Success(t.(blocks := t.blocks + [block.value]))
  }

  /** An odd block list gets a second copy of its last block. */
  function Pad(blocks: seq<Block>): (r: seq<Block>)
    requires |blocks| >= 1
    ensures |r| % 2 == 0 && |r| == |blocks| + |blocks| % 2
    ensures r[..|blocks|] == blocks
    ensures |blocks| % 2 == 1 ==> r[|blocks|] == blocks[|blocks| - 1]
  {
    if |blocks| % 2 != 0 then blocks + [blocks[|blocks| - 1]] else blocks
  }

  /** A fresh digest array of `2m - 1` empty slots whose last `m` slots hold the
      leaf digests in block order. */
  function LeafSlots(h: Hasher, blocks: seq<Block>): (slots: seq<Digest>)
    requires |blocks| >= 1
    ensures |slots| == 2 * |blocks| - 1
    ensures forall j :: 0 <= j < |blocks| ==> slots[|blocks| - 1 + j] == HashNode(h, blocks[j], false)
  {
    var m := |blocks|;
    seq(2 * m - 1, j requires 0 <= j < 2 * m - 1 =>
      if j < m - 1 then [] else HashNode(h, blocks[j - (m - 1)], false))
  }

  /** The post-order fill from slot `idx`: a slot without children keeps its
      digest; otherwise both children are filled first, left then right, and
      the slot receives the internal digest of their concatenation. Returns the
      updated array and the digest now in slot `idx`. */
  function Fill(h: Hasher, nodes: seq<Digest>, idx: nat): (r: (seq<Digest>, Digest))
    requires idx < |nodes| && |nodes| % 2 == 1
    ensures |r.0| == |nodes|
    ensures r.1 == r.0[idx]
    ensures forall j :: 0 <= j < idx ==> r.0[j] == nodes[j]
    decreases |nodes| - idx
  {
    if !HasChild(|nodes|, idx) then
      (nodes, nodes[idx])
    else
      var (withLeft, left) := Fill(h, nodes, 2 * idx + 1);
      var (withRight, right) := Fill(h, withLeft, 2 * idx + 2);
      var d := HashNode(h, left + right, true);
      (withRight[idx := d], d)
  }

  /** Reference definition of the digest that belongs in slot `i` of the tree
      over `blocks`, written top-down. */
  ghost function NodeDigest(h: Hasher, blocks: seq<Block>, i: nat): Digest
    requires |blocks| >= 1 && i < 2 * |blocks| - 1
    decreases 2 * |blocks| - 1 - i
  {
    var m := |blocks|;
    if i < m - 1 then
      HashNode(h, NodeDigest(h, blocks, 2 * i + 1) + NodeDigest(h, blocks, 2 * i + 2), true)
    else
      HashNode(h, blocks[i - (m - 1)], false)
  }

  /** Filling from `idx` puts the reference digest in every slot of `idx`'s
      subtree and leaves every other slot alone. */
  lemma {:induction false} FillCorrect(h: Hasher, blocks: seq<Block>, nodes: seq<Digest>, idx: nat)
    requires |blocks| >= 1 && |nodes| == 2 * |blocks| - 1 && idx < |nodes|
    requires forall j :: |blocks| - 1 <= j < |nodes| ==> nodes[j] == NodeDigest(h, blocks, j)
    ensures Fill(h, nodes, idx).1 == NodeDigest(h, blocks, idx)
    ensures forall j :: 0 <= j < |nodes| ==>
      Fill(h, nodes, idx).0[j] == (if InSubtree(idx, j) then NodeDigest(h, blocks, j) else nodes[j])
    decreases |nodes| - idx
  {
    var m := |blocks|;
    var n := |nodes|;
    HasChildIffInternal(m, idx);
    if !HasChild(n, idx) {
      assert Fill(h, nodes, idx) == (nodes, nodes[idx]);
      ChildlessSubtree(n, idx);
    } else {
      var lc, rc := 2 * idx + 1, 2 * idx + 2;
      var a := Fill(h, nodes, lc);
      FillCorrect(h, blocks, nodes, lc);
      FillKeepsLeaves(h, blocks, nodes, a.0, lc);
      var b := Fill(h, a.0, rc);
      FillCorrect(h, blocks, a.0, rc);
      FillCombine(h, blocks, nodes, a.0, b.0, idx);
      var d := HashNode(h, a.1 + b.1, true);
      assert Fill(h, nodes, idx) == (b.0[idx := d], d);
      assert d == NodeDigest(h, blocks, idx);
    }
  }

  /** A slot without children in range is the only slot of its subtree. */
  lemma ChildlessSubtree(n: nat, idx: nat)
    requires !HasChild(n, idx)
    ensures forall j :: 0 <= j < n && InSubtree(idx, j) ==> j == idx
  {
    forall j | 0 <= j < n && InSubtree(idx, j)
      ensures j == idx
    {
      if j != idx {
        InSubtreeSplit(idx, j);
      }
    }
  }

  /** A fill that sets its subtree to reference digests keeps the leaf
      precondition of the next fill. */
  lemma FillKeepsLeaves(h: Hasher, blocks: seq<Block>, before: seq<Digest>, after: seq<Digest>, idx: nat)
    requires |blocks| >= 1 && |before| == 2 * |blocks| - 1 && |after| == |before|
    requires forall j :: |blocks| - 1 <= j < |before| ==> before[j] == NodeDigest(h, blocks, j)
    requires forall j :: 0 <= j < |before| ==>
      after[j] == (if InSubtree(idx, j) then NodeDigest(h, blocks, j) else before[j])
    ensures forall j :: |blocks| - 1 <= j < |after| ==> after[j] == NodeDigest(h, blocks, j)
  {
  }

  /** After filling both children of `idx` the slots below `idx` hold reference
      digests, and everything outside `idx`'s subtree is untouched. */
  lemma FillCombine(h: Hasher, blocks: seq<Block>, nodes: seq<Digest>, a: seq<Digest>, b: seq<Digest>, idx: nat)
    requires |blocks| >= 1 && |nodes| == 2 * |blocks| - 1 && |a| == |nodes| && |b| == |nodes|
    requires forall j :: 0 <= j < |nodes| ==>
      a[j] == (if InSubtree(2 * idx + 1, j) then NodeDigest(h, blocks, j) else nodes[j])
    requires forall j :: 0 <= j < |nodes| ==>
      b[j] == (if InSubtree(2 * idx + 2, j) then NodeDigest(h, blocks, j) else a[j])
    ensures forall j :: 0 <= j < |nodes| && j != idx ==>
      b[j] == (if InSubtree(idx, j) then NodeDigest(h, blocks, j) else nodes[j])
  {
    var lc, rc := 2 * idx + 1, 2 * idx + 2;
    forall j | 0 <= j < |nodes| && j != idx
      ensures b[j] == (if InSubtree(idx, j) then NodeDigest(h, blocks, j) else nodes[j])
    {
      if InSubtree(idx, j) {
        InSubtreeSplit(idx, j);
        if InSubtree(lc, j) {
          ChildSubtreesDisjoint(idx, j);
        }
      } else {
        if InSubtree(lc, j) {
          assert InSubtree(idx, lc) by { assert Parent(lc) == idx; }
          InSubtreeTransitive(idx, lc, j);
        }
        if InSubtree(rc, j) {
          assert InSubtree(idx, rc) by { assert Parent(rc) == idx; }
          InSubtreeTransitive(idx, rc, j);
        }
      }
    }
  }

  /** The leaf slots of a fresh array already hold their reference digests. */
  lemma LeafSlotsAreReference(h: Hasher, blocks: seq<Block>)
    requires |blocks| >= 1
    ensures forall j :: |blocks| - 1 <= j < 2 * |blocks| - 1 ==>
      LeafSlots(h, blocks)[j] == NodeDigest(h, blocks, j)
  {
    var slots := LeafSlots(h, blocks);
    var m := |blocks|;
    forall j | m - 1 <= j < |slots|
      ensures slots[j] == NodeDigest(h, blocks, j)
    {
      assert slots[m - 1 + (j - (m - 1))] == HashNode(h, blocks[j - (m - 1)], false);
    }
  }

  /** Filling the leaf array from the root yields the reference digest in every slot. */
  lemma FilledDigests(h: Hasher, blocks: seq<Block>)
    requires |blocks| >= 1
    ensures forall j :: 0 <= j < 2 * |blocks| - 1 ==>
      Fill(h, LeafSlots(h, blocks), 0).0[j] == NodeDigest(h, blocks, j)
    ensures Fill(h, LeafSlots(h, blocks), 0).1 == Fill(h, LeafSlots(h, blocks), 0).0[0]
  {
    var slots := LeafSlots(h, blocks);
    var filled := Fill(h, slots, 0).0;
    LeafSlotsAreReference(h, blocks);
    FillCorrect(h, blocks, slots, 0);
    forall j | 0 <= j < |slots|
      ensures filled[j] == NodeDigest(h, blocks, j)
    {
      RootCoversAll(j);
    }
  }

  /** The filled array is consistent: leaf digests in block order, internal
      slots hashing their children, the returned root in slot 0. */
  lemma FilledIsHeap(h: Hasher, blocks: seq<Block>)
    requires |blocks| >= 1
    ensures HeapConsistent(h, blocks, Fill(h, LeafSlots(h, blocks), 0).0)
    ensures Fill(h, LeafSlots(h, blocks), 0).1 == Fill(h, LeafSlots(h, blocks), 0).0[0]
  {
    FilledDigests(h, blocks);
    var nodes := Fill(h, LeafSlots(h, blocks), 0).0;
    var m := |blocks|;
    forall j | 0 <= j < m
      ensures nodes[m - 1 + j] == HashNode(h, blocks[j], false)
    {
      assert nodes[m - 1 + j] == NodeDigest(h, blocks, m - 1 + j);
    }
    forall i | 0 <= i < m - 1
      ensures nodes[i] == HashNode(h, nodes[2 * i + 1] + nodes[2 * i + 2], true)
    {
      assert nodes[i] == NodeDigest(h, blocks, i);
      assert nodes[2 * i + 1] == NodeDigest(h, blocks, 2 * i + 1);
      assert nodes[2 * i + 2] == NodeDigest(h, blocks, 2 * i + 2);
    }
  }

  /** The one-time transition. With no blocks it fails with EmptyMerkleTree
      (checked before the flag); a second call fails with TreeAlreadyFinalized.
      Otherwise the block list is padded to even length, the digest array is
      built and the tree becomes finalized and valid. */
  function Finalize(h: Hasher, t: Tree): (r: Result<Tree, Error>)
    ensures |t.blocks| == 0 ==> r == Failure(EmptyMerkleTree)
    ensures |t.blocks| > 0 && t.finalized ==> r == Failure(TreeAlreadyFinalized)
    ensures |t.blocks| > 0 && !t.finalized ==>
      && r.Success?
      && r.value.finalized
      && |r.value.blocks| % 2 == 0
      && |r.value.blocks| == |t.blocks| + |t.blocks| % 2
      && r.value.blocks[..|t.blocks|] == t.blocks
      && (|t.blocks| % 2 == 1 ==> r.value.blocks[|t.blocks|] == t.blocks[|t.blocks| - 1])
      && |r.value.nodes| == 2 * |r.value.blocks| - 1
      && r.value.root == r.value.nodes[0]
      && HeapConsistent(h, r.value.blocks, r.value.nodes)
  {
    if |t.blocks| == 0 then Failure(EmptyMerkleTree)
    else if t.finalized then Failure(TreeAlreadyFinalized)
    else
      Success(Build(h, Pad(t.blocks)))
  }

  /** The finalized tree over an already padded block list: the leaf digests
      are laid out, the post-order fill runs from the root, and the digest it
      returns becomes the cached root. */
  function Build(h: Hasher, blocks: seq<Block>): (u: Tree)
    requires |blocks| >= 2 && |blocks| % 2 == 0
    ensures u.finalized && u.blocks == blocks
    ensures WellShaped(u) && HeapConsistent(h, blocks, u.nodes)
  {
    var filled := Fill(h, LeafSlots(h, blocks), 0);
    FilledIsHeap(h, blocks);
    Tree(blocks, filled.0, filled.1, true)
  }

  /** The cached root, available only once finalized. */
  function RootHash(t: Tree): (r: Result<Digest, Error>)
    ensures !t.finalized ==> r == Failure(TreeNotFinalized)
    ensures t.finalized && WellShaped(t) ==> r == Success(t.nodes[0])
  {
    if !t.finalized then Failure(TreeNotFinalized) else Success(t.root)
  }

  /** Position of the first block byte-equal to `b`. */
  function FirstIndex(blocks: seq<Block>, b: Block): (i: nat)
    requires b in blocks
    ensures i < |blocks| && blocks[i] == b
    ensures forall j :: 0 <= j < i ==> blocks[j] != b
  {
    if blocks[0] == b then 0 else 1 + FirstIndex(blocks[1..], b)
  }

  /** The array slot of the leaf for the first block byte-equal to `b`. */
  function LeafSlot(t: Tree, b: Block): int
    requires b in t.blocks
  {
    |t.nodes| - |t.blocks| + FirstIndex(t.blocks, b)
  }

  /** Locates a block's leaf slot; `nil` and absent blocks are errors. */
  function FindLeaf(t: Tree, block: Option<Block>): (r: Result<int, Error>)
    ensures block.None? ==> r == Failure(NilBlock)
    ensures block.Some? && block.value !in t.blocks ==> r == Failure(BlockNotFound(block.value))
    ensures block.Some? && block.value in t.blocks ==>
      && r.Success?
      && var i := r.value - (|t.nodes| - |t.blocks|);
      && 0 <= i < |t.blocks|
      && t.blocks[i] == block.value
      && (forall j :: 0 <= j < i ==> t.blocks[j] != block.value)
    ensures WellShaped(t) && t.finalized && r.Success? ==>
      |t.blocks| - 1 <= r.value < |t.nodes|
  {
    if block.None? then Failure(NilBlock)
    else if block.value !in t.blocks then Failure(BlockNotFound(block.value))
    else Success(LeafSlot(t, block.value))
  }

  /** Reference definition of an inclusion proof: the sibling digest of every
      slot on the path from `i` up to, but excluding, the root. */
  function PathSiblings(nodes: seq<Digest>, i: nat): (p: seq<Digest>)
    requires i < |nodes| && |nodes| % 2 == 1
    ensures |p| == Depth(i)
    decreases i
  {
    if i == 0 then [] else [nodes[Sibling(i)]] + PathSiblings(nodes, Parent(i))
  }

  /** One step along the path: the entry at position `k` is the sibling of the
      current slot, and the rest is the path from its parent. */
  lemma PathSiblingsStep(nodes: seq<Digest>, leaf: nat, k: nat, idx: nat)
    requires leaf < |nodes| && |nodes| % 2 == 1 && 0 < idx < |nodes|
    requires k <= Depth(leaf)
    requires PathSiblings(nodes, leaf)[k..] == PathSiblings(nodes, idx)
    ensures k < Depth(leaf)
    ensures PathSiblings(nodes, leaf)[k] == nodes[Sibling(idx)]
    ensures PathSiblings(nodes, leaf)[k + 1..] == PathSiblings(nodes, Parent(idx))
  {
    SiblingInRange(|nodes|, idx);
    var rest := PathSiblings(nodes, idx);
    assert rest[0] == nodes[Sibling(idx)];
    assert rest[1..] == PathSiblings(nodes, Parent(idx));
    assert PathSiblings(nodes, leaf)[k + 1..] == PathSiblings(nodes, leaf)[k..][1..];
  }

  /** The inclusion proof for `block`. The Go code sizes its buffer from the
      float logarithm of |nodes|, which equals floor(log2(|nodes|)) below
      2^49 - 1 slots; the model uses floor(log2(|nodes|)) slots throughout.
      One sibling is written per step from the leaf to the root, and the walk
      drops one trailing empty slot; the result is exactly the
      path of siblings, one per level the leaf sits below the root. */
  method Proof(t: Tree, block: Option<Block>) returns (r: Result<seq<Digest>, Error>)
    requires WellShaped(t)
    ensures block.None? ==> r == Failure(NilBlock)
    ensures block.Some? && !t.finalized ==> r == Failure(TreeNotFinalized)
    ensures block.Some? && t.finalized && block.value !in t.blocks ==>
      r == Failure(BlockNotFound(block.value))
    ensures block.Some? && t.finalized && block.value in t.blocks ==>
      && LeafSlot(t, block.value) >= 0
      && r == Success(PathSiblings(t.nodes, LeafSlot(t, block.value)))
      && FloorLog2(|t.nodes|) - 1 <= |r.value| <= FloorLog2(|t.nodes|)
  {
    if block.None? {
      return Failure(NilBlock);
    }
    if !t.finalized {
      return Failure(TreeNotFinalized);
    }
    var found := FindLeaf(t, block);
    if found.Failure? {
      return Failure(found.error);
    }
    var leaf: nat := found.value;
    LeafDepthBounds(|t.blocks|, leaf);
    var slots := CollectSiblings(t.nodes, leaf);
    if slots[|slots| - 1] == None {
      slots := slots[..|slots| - 1];
    }
    ghost var path := PathSiblings(t.nodes, leaf);
    assert |slots| == |path|;
    var proof := seq(|slots|, s requires 0 <= s < |slots| => slots[s].value);
    assert proof == path by {
      forall s | 0 <= s < |path|
        ensures proof[s] == path[s]
      {
        assert slots[s] == Some(path[s]);
      }
    }
    r := Success(proof);
  }

  /** The proof buffer before trimming: floor(log2(|nodes|)) slots, the first
      holding the siblings on the path from `leaf` to the root in order, the
      rest still empty. */
  method CollectSiblings(nodes: seq<Digest>, leaf: nat) returns (slots: seq<Option<Digest>>)
    requires leaf < |nodes| && |nodes| % 2 == 1
    ensures |slots| == FloorLog2(|nodes|) && Depth(leaf) <= |slots|
    ensures forall s :: 0 <= s < Depth(leaf) ==> slots[s] == Some(PathSiblings(nodes, leaf)[s])
    ensures forall s :: Depth(leaf) <= s < |slots| ==> slots[s] == None
  {
    ghost var path := PathSiblings(nodes, leaf);
    DepthIsFloorLog2(leaf);
    FloorLog2Monotone(leaf + 1, |nodes|);
    var width := FloorLog2(|nodes|);
    slots := seq(width, _ => None);
    var nodeIdx: nat := leaf;
    var k := 0;
    assert |path| <= width;
    while nodeIdx > 0
      invariant nodeIdx <= leaf
      invariant k + Depth(nodeIdx) == |path| <= width
      invariant |slots| == width
      invariant path[k..] == PathSiblings(nodes, nodeIdx)
      invariant forall s :: 0 <= s < k ==> slots[s] == Some(path[s])
      invariant forall s :: k <= s < width ==> slots[s] == None
      decreases nodeIdx
    {
      PathSiblingsStep(nodes, leaf, k, nodeIdx);
      SiblingInRange(|nodes|, nodeIdx);
      assert path[k] == nodes[Sibling(nodeIdx)];
      if nodeIdx % 2 == 0 {
        slots := slots[k := Some(nodes[nodeIdx - 1])];
      } else {
        slots := slots[k := Some(nodes[nodeIdx + 1])];
      }
      k := k + 1;
      nodeIdx := Parent(nodeIdx);
    }
  }

  /** The digest of the parent rebuilt from the digest in slot `idx` and the
      proof entry: an even slot is a right child, so the proof entry goes on
      the left; an odd slot is a left child, so it goes on the right. */
  function Reconstruct(h: Hasher, idx: nat, current: Digest, sibling: Digest): Digest
  {
    if idx % 2 == 0 then HashNode(h, sibling + current, true)
    else HashNode(h, current + sibling, true)
  }

  /** Whichever child of slot `p` the walk comes from, the rebuilt parent hashes
      the left child's digest before the right child's, as `finalize` does. */
  lemma ReconstructEitherChild(h: Hasher, p: nat, left: Digest, right: Digest)
    ensures Reconstruct(h, 2 * p + 1, left, right) == HashNode(h, left + right, true)
    ensures Reconstruct(h, 2 * p + 2, right, left) == HashNode(h, left + right, true)
  {
  }

  /** Proof step `s` for the leaf in slot `leaf`: the parent rebuilt from the
      stored digest at the slot reached after `s` steps matches the digest
      stored at that slot's parent. Past the root the slot stays 0. */
  ghost predicate StepAccepted(h: Hasher, nodes: seq<Digest>, leaf: nat, proof: seq<Digest>, s: nat)
    requires leaf < |nodes| && s < |proof|
  {
    var c := Climb(leaf, s);
    Reconstruct(h, c, nodes[c], proof[s]) == nodes[Parent(c)]
  }

  ghost predicate AcceptsAll(h: Hasher, nodes: seq<Digest>, leaf: nat, proof: seq<Digest>)
    requires leaf < |nodes|
  {
    forall s :: 0 <= s < |proof| ==> StepAccepted(h, nodes, leaf, proof, s)
  }

  /** Checks `proof` step by step against the tree's own stored digests. It
      passes exactly when every given step is accepted, and otherwise reports
      the first rejected step with the rebuilt and the stored digest. */
  method Verify(h: Hasher, t: Tree, block: Option<Block>, proof: seq<Digest>) returns (r: Outcome<Error>)
    requires WellShaped(t)
    ensures !t.finalized ==> r == Fail(TreeNotFinalized)
    ensures t.finalized && block.None? ==> r == Fail(NilBlock)
    ensures t.finalized && block.Some? && block.value !in t.blocks ==>
      r == Fail(BlockNotFound(block.value))
    ensures t.finalized && block.Some? && block.value in t.blocks ==>
      && 0 <= LeafSlot(t, block.value) < |t.nodes|
      && (r.Pass? <==> AcceptsAll(h, t.nodes, LeafSlot(t, block.value), proof))
      && (r.Fail? ==>
            && r.error.InvalidProof?
            && r.error.step < |proof|
            && (forall s :: 0 <= s < r.error.step ==> StepAccepted(h, t.nodes, LeafSlot(t, block.value), proof, s))
            && var c := Climb(LeafSlot(t, block.value), r.error.step);
            && r.error.got == Reconstruct(h, c, t.nodes[c], proof[r.error.step])
            && r.error.want == t.nodes[Parent(c)]
            && r.error.got != r.error.want)
  {
    if !t.finalized {
      return Fail(TreeNotFinalized);
    }
    var found := FindLeaf(t, block);
    if found.Failure? {
      return Fail(found.error);
    }
    var leaf: nat := found.value;
    var curr: nat := leaf;
    var i := 0;
    while i < |proof|
      invariant i <= |proof|
      invariant curr == Climb(leaf, i)
      invariant forall s :: 0 <= s < i ==> StepAccepted(h, t.nodes, leaf, proof, s)
    {
      var rebuilt := Reconstruct(h, curr, t.nodes[curr], proof[i]);
      var parentIdx := Parent(curr);
      var parentNode := t.nodes[parentIdx];
      if parentNode != rebuilt {
        assert !StepAccepted(h, t.nodes, leaf, proof, i);
        return Fail(InvalidProof(i, rebuilt, parentNode));
      }
      ClimbStep(leaf, i);
      curr := parentIdx;
      i := i + 1;
    }
    return Pass;
  }
}
