# merkle-go in Dafny

A model of the two Merkle-tree builders of the Go package `merklego`, with
proofs about them.

- **The flat tree** (`FlatMerkleTree`, module `FlatMerkle`). It is a two-phase
  state machine.
  - While building, `Insert` appends blocks.
  - `Finalize` runs once. It pads an odd block list by repeating the last
    block and lays out `2m - 1` digest slots in level order: the leaves sit
    in the last `m` slots, and the internal slots are filled by a post-order
    walk from the root.
  - Afterwards `RootHash`, `Proof` and `Verify` answer queries.
  - Digests are domain-separated: a leaf is hashed with prefix byte 0x00, an
    internal node with prefix byte 0x01.
  - Index arithmetic lives in module `HeapIndex`. Children of slot `i` are at
    `2i+1` and `2i+2`. The parent is `(i-1)/2` with Go's truncating
    division, so the root is its own parent.
- **The pointer-linked tree** (`MerkleTree`/`Node`, module `LinkedMerkle`).
  - It is built once from a non-empty list of items.
  - There is one leaf per item, plus a flagged duplicate when the count is
    odd.
  - Levels are reduced pairwise, with no domain prefix. An odd level pairs its
    last node with itself, and reduction stops at a level of two.
  - `VerifyNode` recomputes a node's digest from the items below it.

SHA-256 is a parameter, never a definition:
- In the flat tree it is `h: Hasher`, a total function on byte sequences.
- In the linked tree the hash write is `hw: Bytes -> Result<Bytes, E>` and
  each item's `CalculateHash` is `itemHash: T -> Result<Bytes, E>`. Both may
  fail.
- Where a property needs collision resistance, it is stated as "otherwise
  here is a collision of `h`". The only assumption is that every digest has
  the same width, 32 bytes (`Hashing.FixedWidth`).

Go specifics that the model writes out:
- A `nil` block argument is `None` of an `Option`. Stored blocks are byte
  sequences, because `bytes.Equal` and hashing do not tell `nil` from empty.
- `(0 - 1) / 2 == 0` is modelled by `HeapIndex.HalfTowardZero`. Dafny's own
  division would give `-1`.
- The proof buffer of `int(math.Log2(float64(len(nodes))))` slots is
  modelled as `FloorLog2(|nodes|)` optional slots. After the walk, at most
  one trailing empty slot is trimmed.
- Mutation is modelled as functions that return the new tree. On every error
  path the Go code leaves the receiver untouched, so an error result means
  "the old tree stands".
- Go keeps the flat tree's fields private, and every tree reachable through
  the API is `FlatMerkle.WellShaped`. `NewMerkleTree` establishes this and
  `Insert`/`Finalize` keep it. `Proof` and `Verify` take it as a
  precondition. The digest invariant `FlatMerkle.Valid` is needed only by the
  soundness lemmas.

Two facts about the Go code that the model follows exactly:
- `Verify` puts the proof entry first when the current index is even, that
  is, at a right child (flatmerkletree.go:140-144). This is the same order
  `finalize` uses to hash children.
- `NilBlock` is raised only for `nil` (flatmerkletree.go:68, 85, 205). A
  non-nil empty block is inserted, hashed and found like any other.

Files:
- `wrappers.dfy`: `Option`, `Result`, `Outcome`.
- `hashing.dfy`: bytes, the hash parameter and collisions.
- `heap_index.dfy`: level-order index arithmetic.
- `flat_merkle_tree.dfy`: the flat tree operations.
- `flat_merkle_properties.dfy`: properties that relate several flat-tree
  operations.
- `linked_merkle_tree.dfy`: the pointer-linked tree.

## Model

| member | source | states |
|---|---|---|
| HeapIndex.Parent | flatmerkletree.go:146 | The parent slot is `(i-1)/2` truncated toward zero: slot 0 is its own parent, and every other slot is the left (`2p+1`) or right (`2p+2`) child of its parent |
| HeapIndex.Sibling | flatmerkletree.go:103-107 | An even slot's sibling is `i-1` and an odd slot's is `i+1`; the sibling is a different non-root slot with the same parent, and it lies to the left exactly when the slot is even |
| HeapIndex.SiblingInRange | flatmerkletree.go:102-107 | In an odd-sized array every non-root slot has its sibling in range, so the proof walk never reads out of bounds |
| HeapIndex.HasChild | flatmerkletree.go:218-224 | In an odd-sized array the test "left child or right child in range" holds exactly when the right child is in range, so a slot has both children or none |
| HeapIndex.HasChildIffInternal | flatmerkletree.go:218-224 | In `2m-1` slots, `hasChild(i)` holds exactly for the first `m-1` slots, and then both children are in range |
| HeapIndex.LeafDepthBounds | flatmerkletree.go:173-183 | Every leaf slot of a tree with `m` leaves in `2m-1` slots has depth `floor(log2(2m-1))` or one less |
| HeapIndex.MixedLeafDepths | flatmerkletree.go:173-183 | When `m` lies strictly between `2^k` and `2^(k+1)`, the deepest level is `k+1` and both depths occur: the first leaf slot `m-1` has depth `k` and the last leaf slot `2m-2` has depth `k+1` |
| HeapIndex.PerfectLeafDepths | flatmerkletree.go:173-183 | When `m` is `2^k`, every leaf slot has the one depth `k = floor(log2(2m-1))` |
| HeapIndex.ClimbPastRoot | flatmerkletree.go:146-154 | Once the walk reaches the root, further parent steps stay at slot 0 |
| FlatMerkle.NewMerkleTree | flatmerkletree.go:44-49 | A new tree holds the given blocks, is not finalized and satisfies the invariant for every hash |
| FlatMerkle.HashNode | flatmerkletree.go:226-237 | A node digest hashes a one-byte prefix, 0x01 for internal and 0x00 for a leaf, before the data; under a fixed-width hash every node digest has the digest width, whatever the data length (LeafNeverInternal shows the prefix separates the two kinds) |
| FlatMerkle.Insert | flatmerkletree.go:67-82 | A nil block fails with NilBlock before the finalized flag is read; a finalized tree fails with TreeAlreadyFinalized; otherwise exactly one block is appended and the digests, root and flag are unchanged; the shape invariant is kept |
| FlatMerkle.Pad | flatmerkletree.go:169-171 | An odd block list gains one copy of its last block; the original blocks keep their order |
| FlatMerkle.LeafSlots | flatmerkletree.go:173-183 | `2m-1` slots, whose last `m` hold the leaf digests (prefix 0x00) in block order |
| FlatMerkle.Fill | flatmerkletree.go:191-202 | The post-order fill from `idx` keeps the array length, returns exactly the digest it leaves in slot `idx`, and never touches a slot before `idx` (FillCorrect gives the digests it writes) |
| FlatMerkle.FillCorrect | flatmerkletree.go:191-202 | The post-order fill from a slot puts the top-down reference digest into every slot of that slot's subtree, returns the slot's digest and leaves all other slots unchanged |
| FlatMerkle.FilledIsHeap | flatmerkletree.go:185-201 | The filled array has the leaf digests in the last `m` slots, every internal slot hashes its two children with prefix 0x01, and the returned root is slot 0 |
| FlatMerkle.Finalize | flatmerkletree.go:160-189 | No blocks fail with EmptyMerkleTree before the flag is read; a second call fails with TreeAlreadyFinalized; otherwise the blocks are padded to even length, there are `2m-1` consistent digests, the root is slot 0 and the tree is finalized |
| FlatMerkle.Build | flatmerkletree.go:173-188 | Over an even block list the built tree is finalized, well shaped and digest-consistent |
| FlatMerkle.RootHash | flatmerkletree.go:59-65 | Before Finalize it fails with TreeNotFinalized; after, it returns the digest in slot 0 |
| FlatMerkle.FirstIndex | flatmerkletree.go:209-213 | The position of the first block byte-equal to the argument: it matches, and no earlier block does |
| FlatMerkle.FindLeaf | flatmerkletree.go:204-216 | A nil block gives NilBlock and an absent block gives BlockNotFound; otherwise the result is `len(nodes) - len(blocks) + i` for the first matching `i`, which in a finalized tree is a leaf slot |
| FlatMerkle.PathSiblings | flatmerkletree.go:102-111 | The reference proof: one sibling digest per level from the leaf up to the root, so its length is the leaf's depth |
| FlatMerkle.CollectSiblings | flatmerkletree.go:98-111 | The walk fills the `floor(log2(len(nodes)))`-slot buffer: the first `depth` slots hold the path siblings in order, and the remaining slots stay empty |
| FlatMerkle.Proof | flatmerkletree.go:84-120 | Nil gives NilBlock before the flag is read, an unfinalized tree gives TreeNotFinalized, and an absent block gives BlockNotFound; otherwise, after at most one trailing empty slot is trimmed, the proof is exactly the path of siblings, with length `floor(log2(len(nodes)))` or one less |
| FlatMerkle.Verify | flatmerkletree.go:122-158 | TreeNotFinalized, NilBlock and BlockNotFound come in that order; otherwise it passes exactly when every given step rebuilds the stored parent from the stored current digest, and a failure names the first rejected step with the rebuilt and the stored digest |
| FlatMerkle.ReconstructEitherChild | flatmerkletree.go:139-144 | Whichever child of a slot the walk comes from, with the other child as proof entry, the rebuilt parent hashes the left child before the right child, as `finalize` does |
| FlatMerkleProperties.FinalizeIsOneWay | flatmerkletree.go:160-167 | After Finalize the tree is valid, and it refuses a second Finalize and every non-nil Insert with TreeAlreadyFinalized and serves slot 0 as its root |
| FlatMerkleProperties.PaddingEquivalence | flatmerkletree.go:169-171 | An odd list `bs` finalizes to the same tree as `bs` with its last block repeated, so `[a,b,c]` and `[a,b,c,c]` share a root |
| FlatMerkleProperties.HeapDigestAt | flatmerkletree.go:191-202 | In a digest-consistent array every slot holds the top-down reference digest |
| FlatMerkleProperties.StepSound | flatmerkletree.go:139-152 | In a valid finalized tree, rebuilding the parent from any non-root slot and its stored sibling, in the order Verify uses, gives the stored parent |
| FlatMerkleProperties.ProofPrefixAccepted | flatmerkletree.go:132-157 | For every stored block, every prefix of its sibling path, including the empty one and the full one, passes every step of Verify |
| FlatMerkleProperties.ProveThenVerify | flatmerkletree.go:84-158 | For every block of a valid finalized tree, Proof returns a depth-long proof that Verify accepts, as it accepts each of the proof's prefixes |
| FlatMerkleProperties.VerifyPastRoot | flatmerkletree.go:146-154 | A proof entry beyond the leaf's depth is checked at slot 0 and is accepted exactly when hashing it in front of the root gives the root again |
| FlatMerkleProperties.LeafNeverInternal | flatmerkletree.go:226-237 | A leaf digest equal to an internal digest is a collision of the hash, since the two preimages differ in the prefix byte |
| FlatMerkleProperties.CollisionOnPath | flatmerkletree.go:191-202 | If two trees of equal size agree on the root but differ in what one slot hashes, some slot on the path up to the root yields a collision |
| FlatMerkleProperties.EqualRootsYieldCollision | flatmerkletree.go:160-201 | Two valid finalized trees over different block lists of equal length with the same root yield a collision of the hash |
| FlatMerkleProperties.OrderSensitive | flatmerkletree.go:179-183 | For any block list and any two positions holding distinct blocks, swapping the two blocks leaves the root unchanged only if there is a hash collision |
| LinkedMerkle.HashLeaves | merkletree.go:92-105 | One non-duplicate leaf per item, in order, each holding that item's digest; it fails exactly when some item's digest fails, and then it returns the error of the first failing item, every earlier item having digested |
| LinkedMerkle.PadLeaves | merkletree.go:107-116 | An odd leaf list gains one leaf that copies the last leaf's digest and item, flagged as the duplicate |
| LinkedMerkle.PairUp | merkletree.go:130-159 | A level of `k` nodes from position `i` gives `ceil((k-i)/2)` parents; an error comes from a hash write; it never fails with a hash write that never fails |
| LinkedMerkle.PairUpSucceeds | merkletree.go:130-143 | Pairing from position `i` succeeds exactly when the hash write of every pair starting at `i`, `i+2`, ... succeeds |
| LinkedMerkle.PairUpFailure | merkletree.go:130-143 | A failed pairing returns the error of the first pair, counting in twos from `i`, whose hash write fails; every earlier pair was written successfully |
| LinkedMerkle.PairUpShape | merkletree.go:131-149 | Parent `k` has `level[2k]` as left child and its partner (the next node, or itself at the odd end) as right child, and carries the digest of their concatenated digests |
| LinkedMerkle.OddLevelLastSelfPaired | merkletree.go:133-137 | On an odd level the last parent has the last node as both children; every other parent pairs `level[2k]` with `level[2k+1]` |
| LinkedMerkle.BuildIntermediate | merkletree.go:127-162 | Reduction terminates with one internal root; an error comes from a hash write; it never fails with a hash write that never fails |
| LinkedMerkle.BuildIntermediateFailure | merkletree.go:127-162 | A failed reduction returns exactly the pairing error of a level it reached, every earlier level having paired successfully; with PairUpFailure this names the failing pair |
| LinkedMerkle.BuildTree | merkletree.go:89-124 | The first failing item's error is returned before anything is paired; on success every item digested, the root is internal, and the leaves are the items' digest leaves in order plus a flagged duplicate of the last when the count is odd; with infallible hashing it succeeds |
| LinkedMerkle.NewTree | merkletree.go:62-84 | Empty content, and only empty content, fails with EmptyContent; when some item fails, the first failing item's error is returned; other failures come from a hash write; on success the leaves are the items' digests in order, plus a duplicate of the last exactly when the count is odd, and the cached root is the root node's digest; with infallible hashing every non-empty content succeeds |
| LinkedMerkle.NewTreeWriteFailure | merkletree.go:62-84 | When every item digests, a failed build carries the pairing error of a level the reduction over the built leaves reached |
| LinkedMerkle.MerkleRootUnverified | merkletree.go:35-37 | The Merkle root is served from the cache, unverified: replacing the root node or the leaves does not change it. What the cached value is comes from NewTree (the cached root is the root node's digest) and NewTreeRootVerifies (it equals VerifyNode on the root) |
| LinkedMerkle.VerifyNode | merkletree.go:39-60 | A leaf yields its item's CalculateHash result. With hash writes that never fail, recomputation succeeds exactly when every item below the node (duplicates included) digests, and a failure is the error of the leftmost failing item, because the left subtree is checked before the right; NewTreeRootVerifies gives the value on a built tree |
| LinkedMerkle.PairUpRecomputes | merkletree.go:39-60 | Parents built over nodes whose stored digest equals VerifyNode's recomputation have the same property |
| LinkedMerkle.BuildIntermediateRecomputes | merkletree.go:39-60 | The root reduced from such nodes is recomputed by VerifyNode to its stored digest |
| LinkedMerkle.NewTreeRootVerifies | merkletree.go:39-60 | For a freshly built tree, VerifyNode on the root gives the cached Merkle root |
| LinkedMerkle.PairUpDigests | merkletree.go:138-148 | With a total hash, pairing never fails and parent `k` carries `H(level[2k] ++ partner)` |
| LinkedMerkle.LeafDigests | merkletree.go:92-116 | With total item digests, the padded leaves carry the items' digests, and the duplicate carries the last item's digest |
| LinkedMerkle.ThreeItemRoot | merkletree_test.go:61-80 | Three items `a,b,c` build without error, and the root is `H(H(a++b) ++ H(c++c))` |
| LinkedMerkle.FourItemRoot | merkletree_test.go:39-60 | Four items build without error, and the root is `H(H(a++b) ++ H(c++d))` |
| LinkedMerkle.FiveItemRoot | merkletree_test.go:81-104 | Five items build without error: six leaves give three parents, the third is paired with itself, and the root is `H(H(H(a++b) ++ H(c++d)) ++ H(H(e++e) ++ H(e++e)))` |

## Left out

- SHA-256 itself (FIPS 180-4) and the pinned root vectors of the test table. The hash is a parameter, so concrete digests cannot be computed. The 3-, 4- and 5-item lemmas state the root's shape instead.
- `String` on the flat tree and `Node.String`: hex and fmt formatting.
- `copyNode` and Go slice aliasing through `append`: under value semantics every copy is independent.
- FlatMerkle.Proof: the float `math.Log2` is replaced by the exact integer `FloorLog2`. The two agree for every array below 2^49 - 1 slots. Above that, the float logarithm of a size just below a power of two 2^k can round up to k. For a size of exactly 2^k - 1 this is harmless: every leaf sits at depth k - 1, so the single extra slot stays empty and is trimmed. For a size 2^k - d with d at least 3 (k at least 51 when d is 3), leaves on the shallower level would get a proof that still ends in one empty entry. The model does not follow that rounding.
- Error message text and identity. Errors are tags. `RootHash` (flatmerkletree.go:61) and `Finalize` (flatmerkletree.go:162) only embed the sentinel's text, with `%v` and `%s`, so in Go their errors match ErrTreeNotFinalized or ErrEmptyMerkleTree neither under `==` nor under `errors.Is`. `Proof` and `Verify` return the bare sentinel (flatmerkletree.go:90, 124), which does match. The model returns the same tag in both situations. The hex text of not-found and invalid-proof errors becomes the offending block or the step with both digests.
- The `Tree` back-pointers and `Parent` links of the linked tree's nodes. Parenthood is containment in an `Internal` node, and the `leaf` flag is the `Leaf` constructor.
- `Storable.Equals`. The tree code never calls it.
- `hashFunc` selection. The linked tree always uses the one hash parameter, as `NewTree` always installs `sha256.New`.
- FlatMerkle.Verify: checks the proof only against the tree's own stored digests, as the Go code does. It is therefore not a proof checker for an outside root, and the model claims nothing of that kind.
- LinkedMerkle.VerifyNode: the contract identifies the error only for hash writes that never fail, as SHA-256's never do. Then it is the error of the leftmost failing item below the node. When a write can fail, the contract does not say which error wins: a write failure in the left subtree, an item failure in the right subtree, or the node's own write. The Go code checks them in that order.
- Concurrency: there is none in the package.
