/** The pointer-linked Merkle tree, built once from a non-empty list of items.
    Each item supplies its own digest (`itemHash`, the item's CalculateHash); a
    parent is the digest of its children's digests concatenated, with no
    domain prefix (`hw`, a hash write followed by Sum). Both may fail, and a
    failure aborts the build and is handed back unchanged. Parent back-links
    are implicit: a node's parent is the node that holds it as a child. */
module LinkedMerkle {
  import opened Wrappers
  import opened Hashing

  datatype Node<T> =
    | Leaf(hash: Bytes, item: T, dup: bool)
    | Internal(hash: Bytes, left: Node<T>, right: Node<T>)

  datatype MerkleTree<T> = MerkleTree(root: Node<T>, merkleRoot: Bytes, leaves: seq<Node<T>>)

  datatype BuildError<E> = EmptyContent | Propagated(cause: E)

  /** Hash writes that never report an error, as SHA-256 in the Go code never does. */
  ghost predicate WritesNeverFail<E>(hw: Bytes -> Result<Bytes, E>)
  {
    forall x :: hw(x).Success?
  }

  /** Every item of `content` computes its digest without error. */
  ghost predicate ItemsHash<T, E>(itemHash: T -> Result<Bytes, E>, content: seq<T>)
  {
    forall i :: 0 <= i < |content| ==> itemHash(content[i]).Success?
  }

  /** Item `i` is the first item of `content` whose digest fails. */
  ghost predicate FirstItemFailure<T, E>(itemHash: T -> Result<Bytes, E>, content: seq<T>, i: int)
  {
    && 0 <= i < |content|
    && itemHash(content[i]).Failure?
    && forall k :: 0 <= k < i ==> itemHash(content[k]).Success?
  }

  /** One leaf per item, in order, each holding the item's own digest; the
      first failing item's error is returned. */
  function HashLeaves<T, E>(itemHash: T -> Result<Bytes, E>, content: seq<T>): (r: Result<seq<Node<T>>, E>)
    ensures r.Success? <==> forall i :: 0 <= i < |content| ==> itemHash(content[i]).Success?
    ensures r.Success? ==>
      && |r.value| == |content|
      && forall i :: 0 <= i < |content| ==> r.value[i] == Leaf(itemHash(content[i]).value, content[i], false)
    ensures r.Failure? ==>
      exists i :: FirstItemFailure(itemHash, content, i) && itemHash(content[i]) == Failure(r.error)
    decreases |content|
  {
    if |content| == 0 then Success([])
    else
      match itemHash(content[0])
      case Failure(e) => Failure(e)
      case Success(d) =>
        var rest := HashLeaves(itemHash, content[1..]);
        match rest
        case Failure(e) =>
          assert exists i :: FirstItemFailure(itemHash, content, i) && itemHash(content[i]) == Failure(e) by {
            var i :| FirstItemFailure(itemHash, content[1..], i) && itemHash(content[1..][i]) == Failure(e);
            forall k | 0 <= k < i + 1
              ensures itemHash(content[k]).Success?
            {
              if k > 0 {
                assert content[k] == content[1..][k - 1];
              }
            }
            assert FirstItemFailure(itemHash, content, i + 1);
          }
          Failure(e)
        case Success(tail) => Success([Leaf(d, content[0], false)] + tail)
  }

  /** An odd leaf list gets a copy of its last leaf, flagged as the duplicate. */
  function PadLeaves<T>(leaves: seq<Node<T>>): (r: seq<Node<T>>)
    requires |leaves| >= 1 && leaves[|leaves| - 1].Leaf?
    ensures |r| % 2 == 0 && |r| == |leaves| + |leaves| % 2
    ensures r[..|leaves|] == leaves
    ensures |leaves| % 2 == 1 ==>
      r[|leaves|] == Leaf(leaves[|leaves| - 1].hash, leaves[|leaves| - 1].item, true)
  {
    var last := leaves[|leaves| - 1];
    if |leaves| % 2 == 1 then leaves + [Leaf(last.hash, last.item, true)] else leaves
  }

  /** The right partner of position `i` in a level of `k` nodes: the next node,
      or the node itself when it is the odd one out at the end. */
  function Partner(k: nat, i: nat): (j: nat)
    requires i < k
    ensures i <= j < k
  {
    if i + 1 == k then i else i + 1
  }

  /** The bytes written for the pair starting at position `p`: the digest of
      `level[p]` followed by the digest of its partner. */
  function PairKey<T>(level: seq<Node<T>>, p: nat): Bytes
    requires p < |level|
  {
    level[p].hash + level[Partner(|level|, p)].hash
  }

  /** `n` is the parent of `level[p]` and its partner: the hash write over the
      two digests succeeded and `n` holds its digest and both children. */
  ghost predicate PairedAt<T, E>(hw: Bytes -> Result<Bytes, E>, level: seq<Node<T>>, p: nat, n: Node<T>)
    requires p < |level|
  {
    hw(PairKey(level, p)).Success? &&
    n == Internal(hw(PairKey(level, p)).value, level[p], level[Partner(|level|, p)])
  }

  /** The parents of the pairs `level[i], level[i+1]`, `level[i+2], level[i+3]`,
      ... in order, the last node pairing with itself when it has no partner. */
  function PairUp<T, E>(hw: Bytes -> Result<Bytes, E>, level: seq<Node<T>>, i: nat): (r: Result<seq<Node<T>>, E>)
    requires i <= |level|
    ensures r.Success? ==>
      && |r.value| == (|level| - i + 1) / 2
    ensures r.Failure? ==> exists x :: hw(x) == Failure(r.error)
    ensures WritesNeverFail(hw) ==> r.Success?
    decreases |level| - i
  {
    if i == |level| then Success([])
    else
      var j := Partner(|level|, i);
      match hw(PairKey(level, i))
      case Failure(e) => Failure(e)
      case Success(d) =>
        match PairUp(hw, level, j + 1)
        case Failure(e) => Failure(e)
        case Success(rest) => Success([Internal(d, level[i], level[j])] + rest)
  }

  /** Parent `k` of a successful pairing is the parent of `level[i + 2k]` and its partner. */
  lemma {:induction false} PairUpShape<T, E>(hw: Bytes -> Result<Bytes, E>, level: seq<Node<T>>, i: nat)
    requires i <= |level|
    requires PairUp(hw, level, i).Success?
    ensures forall k :: 0 <= k < |PairUp(hw, level, i).value| ==>
      i + 2 * k < |level| && PairedAt(hw, level, i + 2 * k, PairUp(hw, level, i).value[k])
    decreases |level| - i
  {
    if i < |level| {
      var j := Partner(|level|, i);
      var parents := PairUp(hw, level, i).value;
      PairUpStep(hw, level, i);
      var rest := PairUp(hw, level, j + 1).value;
      PairUpShape(hw, level, j + 1);
      forall k | 0 <= k < |parents|
        ensures i + 2 * k < |level| && PairedAt(hw, level, i + 2 * k, parents[k])
      {
        if k > 0 {
          assert parents[k] == rest[k - 1];
          assert j + 1 + 2 * (k - 1) == i + 2 * k;
        }
      }
    }
  }

  /** One step of pairing: a failed write at `i` is returned, and otherwise the
      pairing of the rest decides. */
  lemma PairUpStep<T, E>(hw: Bytes -> Result<Bytes, E>, level: seq<Node<T>>, i: nat)
    requires i < |level|
    ensures var rest := PairUp(hw, level, Partner(|level|, i) + 1);
      PairUp(hw, level, i) ==
        if hw(PairKey(level, i)).Failure? then Failure(hw(PairKey(level, i)).error)
        else if rest.Failure? then Failure(rest.error)
        else Success([Internal(hw(PairKey(level, i)).value, level[i], level[Partner(|level|, i)])] + rest.value)
  {
  }

  /** Position `p` is a pair start when counting in twos from `i`. */
  predicate PairStart(i: nat, p: int)
  {
    i <= p && (p - i) % 2 == 0
  }

  /** The pair starting at `p` is the first pair from position `i` whose hash
      write fails. */
  ghost predicate FirstPairFailure<T, E>(hw: Bytes -> Result<Bytes, E>, level: seq<Node<T>>, i: nat, p: int)
  {
    && PairStart(i, p) && p < |level|
    && hw(PairKey(level, p)).Failure?
    && forall q :: PairStart(i, q) && q < p ==> hw(PairKey(level, q)).Success?
  }

  /** Every pair from position `i` on is written without error. */
  ghost predicate AllPairsWrite<T, E>(hw: Bytes -> Result<Bytes, E>, level: seq<Node<T>>, i: nat)
  {
    forall p :: PairStart(i, p) && p < |level| ==> hw(PairKey(level, p)).Success?
  }

  /** The pair starts from `i` on are `i` itself and the pair starts after its
      partner. */
  lemma PairStartStep(k: nat, i: nat, p: int)
    requires i < k
    ensures PairStart(i, p) && p < k <==> p == i || (PairStart(Partner(k, i) + 1, p) && p < k)
  {
  }

  /** Pairing from position `i` succeeds exactly when every pair's hash write
      does. */
  lemma {:induction false} PairUpSucceeds<T, E>(hw: Bytes -> Result<Bytes, E>, level: seq<Node<T>>, i: nat)
    requires i <= |level|
    ensures PairUp(hw, level, i).Success? <==> AllPairsWrite(hw, level, i)
    decreases |level| - i
  {
    if i < |level| {
      var j := Partner(|level|, i);
      PairUpSucceeds(hw, level, j + 1);
      PairUpStep(hw, level, i);
      forall p
        ensures PairStart(i, p) && p < |level| <==> p == i || (PairStart(j + 1, p) && p < |level|)
      {
        PairStartStep(|level|, i, p);
      }
    }
  }

  /** A failed pairing from position `i` returns the error of the first pair
      whose hash write fails; the later pairs are never written. */
  lemma {:induction false} PairUpFailure<T, E>(hw: Bytes -> Result<Bytes, E>, level: seq<Node<T>>, i: nat)
    requires i <= |level|
    ensures PairUp(hw, level, i).Failure? ==>
      exists p :: FirstPairFailure(hw, level, i, p) && hw(PairKey(level, p)) == Failure(PairUp(hw, level, i).error)
    decreases |level| - i
  {
    if i < |level| {
      var j := Partner(|level|, i);
      PairUpStep(hw, level, i);
      if hw(PairKey(level, i)).Failure? {
        assert FirstPairFailure(hw, level, i, i);
      } else if PairUp(hw, level, j + 1).Failure? {
        PairUpFailure(hw, level, j + 1);
        var p :| FirstPairFailure(hw, level, j + 1, p) &&
          hw(PairKey(level, p)) == Failure(PairUp(hw, level, j + 1).error);
        FirstPairFailureStep(hw, level, i, p);
      }
    }
  }

  /** A first failure after the partner of `i`, behind a successful pair at
      `i`, is the first failure from `i`. */
  lemma FirstPairFailureStep<T, E>(hw: Bytes -> Result<Bytes, E>, level: seq<Node<T>>, i: nat, p: int)
    requires i < |level| && hw(PairKey(level, i)).Success?
    requires FirstPairFailure(hw, level, Partner(|level|, i) + 1, p)
    ensures FirstPairFailure(hw, level, i, p)
  {
    forall q
      ensures PairStart(i, q) && q < |level| <==> q == i || (PairStart(Partner(|level|, i) + 1, q) && q < |level|)
    {
      PairStartStep(|level|, i, q);
    }
  }

  /** On a level of odd length the last parent has the last node as both its
      left and its right child; every other parent has two distinct positions. */
  lemma OddLevelLastSelfPaired<T, E>(hw: Bytes -> Result<Bytes, E>, level: seq<Node<T>>)
    requires PairUp(hw, level, 0).Success?
    ensures var parents := PairUp(hw, level, 0).value;
      |level| % 2 == 1 ==>
        && |parents| == (|level| + 1) / 2
        && parents[|parents| - 1] == Internal(parents[|parents| - 1].hash, level[|level| - 1], level[|level| - 1])
    ensures var parents := PairUp(hw, level, 0).value;
      forall k :: 0 <= k < |parents| && 2 * k + 1 < |level| ==>
        parents[k] == Internal(parents[k].hash, level[2 * k], level[2 * k + 1])
  {
    PairUpShape(hw, level, 0);
    var parents := PairUp(hw, level, 0).value;
    if |level| % 2 == 1 {
      assert PairedAt(hw, level, 2 * (|parents| - 1), parents[|parents| - 1]);
    }
    forall k | 0 <= k < |parents| && 2 * k + 1 < |level|
      ensures parents[k] == Internal(parents[k].hash, level[2 * k], level[2 * k + 1])
    {
      assert PairedAt(hw, level, 2 * k, parents[k]);
    }
  }

  /** Reduces level by level until a level of exactly two nodes, whose single
      parent is the root. */
  function BuildIntermediate<T, E>(hw: Bytes -> Result<Bytes, E>, level: seq<Node<T>>): (r: Result<Node<T>, E>)
    requires |level| >= 2
    ensures r.Success? ==> r.value.Internal?
    ensures r.Failure? ==> exists x :: hw(x) == Failure(r.error)
    ensures WritesNeverFail(hw) ==> r.Success?
    decreases |level|
  {
    match PairUp(hw, level, 0)
    case Failure(e) => Failure(e)
    case Success(parents) =>
      if |level| == 2 then Success(parents[0]) else BuildIntermediate(hw, parents)
  }

  /** `lv` is a level the reduction from `level` reaches: `level` itself, or
      a level reached from its successfully paired parents while more than
      two nodes remain. */
  ghost predicate Reaches<T, E>(hw: Bytes -> Result<Bytes, E>, level: seq<Node<T>>, lv: seq<Node<T>>)
    decreases |level|
  {
    || lv == level
    || (&& |level| > 2
        && PairUp(hw, level, 0).Success?
        && Reaches(hw, PairUp(hw, level, 0).value, lv))
  }

  /** A failed reduction returns the error of the pairing of a level `lv` it
      reached, every earlier level having paired successfully. */
  lemma {:induction false} BuildIntermediateFailure<T, E>(hw: Bytes -> Result<Bytes, E>, level: seq<Node<T>>)
    returns (lv: seq<Node<T>>)
    requires |level| >= 2 && BuildIntermediate(hw, level).Failure?
    ensures Reaches(hw, level, lv) && |lv| >= 2
    ensures PairUp(hw, lv, 0) == Failure(BuildIntermediate(hw, level).error)
    decreases |level|
  {
    if PairUp(hw, level, 0).Failure? {
      lv := level;
    } else {
      var parents := PairUp(hw, level, 0).value;
      lv := BuildIntermediateFailure(hw, parents);
      assert Reaches(hw, level, lv);
    }
  }

  /** The leaves (padded to even length) and the root over them. The first
      failing item's error wins over any hash write, since every item is
      digested before anything is paired. */
  function BuildTree<T, E>(hw: Bytes -> Result<Bytes, E>, itemHash: T -> Result<Bytes, E>, content: seq<T>): (r: Result<(Node<T>, seq<Node<T>>), E>)
    requires |content| >= 1
    ensures forall i :: FirstItemFailure(itemHash, content, i) ==> r == Failure(itemHash(content[i]).error)
    ensures r.Success? ==>
      var (root, leaves) := r.value;
      && ItemsHash(itemHash, content)
      && root.Internal?
      && |leaves| == |content| + |content| % 2
      && (forall i :: 0 <= i < |content| ==> leaves[i] == Leaf(itemHash(content[i]).value, content[i], false))
      && (|content| % 2 == 1 ==>
            leaves[|content|] == Leaf(itemHash(content[|content| - 1]).value, content[|content| - 1], true))
    ensures ItemsHash(itemHash, content) && WritesNeverFail(hw) ==> r.Success?
  {
    match HashLeaves(itemHash, content)
    case Failure(e) => Failure(e)
    case Success(hashed) =>
      var leaves := PadLeaves(hashed);
      match BuildIntermediate(hw, leaves)
      case Failure(e) => Failure(e)
      case Success(root) => Success((root, leaves))
  }

  /** Builds the tree over `content`. Empty content is refused; any failure of
      an item's digest or of a hash write is returned unchanged. On success
      there is one leaf per item in order, plus one flagged duplicate of the
      last leaf when the count is odd, and the cached root is the root's digest. */
  function NewTree<T, E>(hw: Bytes -> Result<Bytes, E>, itemHash: T -> Result<Bytes, E>, content: seq<T>): (r: Result<MerkleTree<T>, BuildError<E>>)
    ensures r == Failure(EmptyContent) <==> |content| == 0
    ensures forall i :: FirstItemFailure(itemHash, content, i) ==>
      r == Failure(Propagated(itemHash(content[i]).error))
    ensures r.Failure? && r.error.Propagated? ==>
      || (exists i :: 0 <= i < |content| && itemHash(content[i]) == Failure(r.error.cause))
      || (exists x :: hw(x) == Failure(r.error.cause))
    ensures r.Success? ==>
      var t := r.value;
      && t.merkleRoot == t.root.hash
      && |t.leaves| == |content| + |content| % 2
      && (forall i :: 0 <= i < |content| ==>
            itemHash(content[i]).Success? && t.leaves[i] == Leaf(itemHash(content[i]).value, content[i], false))
      && (|content| % 2 == 1 ==>
            t.leaves[|content|] == Leaf(itemHash(content[|content| - 1]).value, content[|content| - 1], true))
      && (forall i :: 0 <= i < |t.leaves| ==> (t.leaves[i].dup <==> i == |content|))
    ensures ItemsHash(itemHash, content) && WritesNeverFail(hw) && |content| > 0 ==> r.Success?
  {
    if |content| == 0 then Failure(EmptyContent)
    else
      match BuildTree(hw, itemHash, content)
      case Failure(e) => Failure(Propagated(e))
      case Success(built) => Success(MerkleTree(built.0, built.0.hash, built.1))
  }

  /** When every item digests, a failed build returns the pairing error of a
      level `lv` that the reduction over the built leaves reached. */
  lemma BuildTreeWriteFailure<T, E>(hw: Bytes -> Result<Bytes, E>, itemHash: T -> Result<Bytes, E>, content: seq<T>)
    returns (lv: seq<Node<T>>)
    requires |content| >= 1 && ItemsHash(itemHash, content)
    requires BuildTree(hw, itemHash, content).Failure?
    ensures Reaches(hw, PadLeaves(HashLeaves(itemHash, content).value), lv) && |lv| >= 2
    ensures PairUp(hw, lv, 0) == Failure(BuildTree(hw, itemHash, content).error)
  {
    var hashed := HashLeaves(itemHash, content);
    assert hashed.Success?;
    BuildTreeFailureStep(hw, itemHash, content);
    lv := BuildIntermediateFailure(hw, PadLeaves(hashed.value));
  }

  /** With every item digested, a failed build is a failed reduction. */
  lemma BuildTreeFailureStep<T, E>(hw: Bytes -> Result<Bytes, E>, itemHash: T -> Result<Bytes, E>, content: seq<T>)
    requires |content| >= 1 && HashLeaves(itemHash, content).Success?
    requires BuildTree(hw, itemHash, content).Failure?
    ensures BuildIntermediate(hw, PadLeaves(HashLeaves(itemHash, content).value)) ==
      Failure(BuildTree(hw, itemHash, content).error)
  {
  }

  /** The same for the tree: when every item digests, a failed `NewTree`
      carries the pairing error of a level `lv` that the reduction reached. */
  lemma NewTreeWriteFailure<T, E>(hw: Bytes -> Result<Bytes, E>, itemHash: T -> Result<Bytes, E>, content: seq<T>)
    returns (lv: seq<Node<T>>)
    requires |content| >= 1 && ItemsHash(itemHash, content)
    requires NewTree(hw, itemHash, content).Failure?
    ensures NewTree(hw, itemHash, content).error.Propagated?
    ensures Reaches(hw, PadLeaves(HashLeaves(itemHash, content).value), lv) && |lv| >= 2
    ensures PairUp(hw, lv, 0) == Failure(NewTree(hw, itemHash, content).error.cause)
  {
    var built := BuildTree(hw, itemHash, content);
    assert built.Failure?;
    assert NewTree(hw, itemHash, content) == Failure(Propagated(built.error));
    lv := BuildTreeWriteFailure(hw, itemHash, content);
  }

  /** The cached root digest, not recomputed. */
  function MerkleRoot<T>(t: MerkleTree<T>): Bytes
  {
    t.merkleRoot
  }

  /** The Merkle root is served unverified: replacing the root node or the
      leaves leaves it unchanged. */
  lemma MerkleRootUnverified<T>(t: MerkleTree<T>, root: Node<T>, leaves: seq<Node<T>>)
    ensures MerkleRoot(t.(root := root, leaves := leaves)) == MerkleRoot(t)
  {
  }

  /** The items below `n`, left to right, one per leaf, duplicates included. */
  function Items<T>(n: Node<T>): seq<T>
  {
    match n
    case Leaf(_, item, _) => [item]
    case Internal(_, left, right) => Items(left) + Items(right)
  }

  lemma ItemsHashConcat<T, E>(itemHash: T -> Result<Bytes, E>, a: seq<T>, b: seq<T>)
    ensures ItemsHash(itemHash, a + b) <==> ItemsHash(itemHash, a) && ItemsHash(itemHash, b)
  {
    if ItemsHash(itemHash, a) && ItemsHash(itemHash, b) {
      forall i | 0 <= i < |a + b|
        ensures itemHash((a + b)[i]).Success?
      {
        if i >= |a| {
          assert (a + b)[i] == b[i - |a|];
        }
      }
    }
    if ItemsHash(itemHash, a + b) {
      forall i | 0 <= i < |a|
        ensures itemHash(a[i]).Success?
      {
        assert (a + b)[i] == a[i];
      }
      forall i | 0 <= i < |b|
        ensures itemHash(b[i]).Success?
      {
        assert (a + b)[|a| + i] == b[i];
      }
    }
  }

  /** Recomputes a node's digest from the items below it: a leaf asks its item
      again, an internal node hashes its children's recomputed digests, the
      left subtree before the right. The stored digests are never read, so
      with hash writes that never fail it succeeds exactly when every item
      below digests, and otherwise reports the leftmost failing item. */
  function VerifyNode<T, E>(hw: Bytes -> Result<Bytes, E>, itemHash: T -> Result<Bytes, E>, n: Node<T>): (r: Result<Bytes, E>)
    ensures n.Leaf? ==> r == itemHash(n.item)
    ensures WritesNeverFail(hw) ==> (r.Success? <==> ItemsHash(itemHash, Items(n)))
    ensures r.Failure? && WritesNeverFail(hw) ==>
      exists i :: FirstItemFailure(itemHash, Items(n), i) && itemHash(Items(n)[i]) == Failure(r.error)
    decreases n
  {
    match n
    case Leaf(_, item, _) =>
      assert Items(n)[0] == item;
      assert itemHash(item).Failure? ==> FirstItemFailure(itemHash, Items(n), 0);
      itemHash(item)
    case Internal(_, left, right) =>
      ItemsHashConcat(itemHash, Items(left), Items(right));
      match VerifyNode(hw, itemHash, left)
      case Failure(e) =>
        assert forall i :: 0 <= i < |Items(left)| ==> Items(n)[i] == Items(left)[i];
        Failure(e)
      case Success(lb) =>
        match VerifyNode(hw, itemHash, right)
        case Failure(e) =>
          assert forall i :: 0 <= i < |Items(right)| ==> Items(n)[|Items(left)| + i] == Items(right)[i];
          Failure(e)
        case Success(rb) => hw(lb + rb)
  }

  /** The stored digest of `n` is what recomputation yields. */
  ghost predicate Recomputes<T, E>(hw: Bytes -> Result<Bytes, E>, itemHash: T -> Result<Bytes, E>, n: Node<T>)
  {
    VerifyNode(hw, itemHash, n) == Success(n.hash)
  }

  /** Parents of recomputable nodes are recomputable. */
  lemma PairUpRecomputes<T, E>(hw: Bytes -> Result<Bytes, E>, itemHash: T -> Result<Bytes, E>, level: seq<Node<T>>, i: nat)
    requires i <= |level|
    requires forall k :: 0 <= k < |level| ==> Recomputes(hw, itemHash, level[k])
    requires PairUp(hw, level, i).Success?
    ensures forall k :: 0 <= k < |PairUp(hw, level, i).value| ==> Recomputes(hw, itemHash, PairUp(hw, level, i).value[k])
  {
    var parents := PairUp(hw, level, i).value;
    PairUpShape(hw, level, i);
    forall k | 0 <= k < |parents|
      ensures Recomputes(hw, itemHash, parents[k])
    {
      assert PairedAt(hw, level, i + 2 * k, parents[k]);
      var l, rt := level[i + 2 * k], level[Partner(|level|, i + 2 * k)];
      assert Recomputes(hw, itemHash, l) && Recomputes(hw, itemHash, rt);
    }
  }

  /** A root reduced from recomputable nodes is recomputable. */
  lemma {:induction false} BuildIntermediateRecomputes<T, E>(hw: Bytes -> Result<Bytes, E>, itemHash: T -> Result<Bytes, E>, level: seq<Node<T>>)
    requires |level| >= 2
    requires forall k :: 0 <= k < |level| ==> Recomputes(hw, itemHash, level[k])
    requires BuildIntermediate(hw, level).Success?
    ensures Recomputes(hw, itemHash, BuildIntermediate(hw, level).value)
    decreases |level|
  {
    PairUpRecomputes(hw, itemHash, level, 0);
    var parents := PairUp(hw, level, 0).value;
    if |level| != 2 {
      BuildIntermediateRecomputes(hw, itemHash, parents);
    }
  }

  /** For a freshly built tree, recomputing the root from the items gives the
      cached Merkle root; the item digests and the hash are functions, so they
      are deterministic. */
  lemma NewTreeRootVerifies<T, E>(hw: Bytes -> Result<Bytes, E>, itemHash: T -> Result<Bytes, E>, content: seq<T>)
    requires NewTree(hw, itemHash, content).Success?
    ensures VerifyNode(hw, itemHash, NewTree(hw, itemHash, content).value.root) == Success(MerkleRoot(NewTree(hw, itemHash, content).value))
  {
    var hashed := HashLeaves(itemHash, content).value;
    var leaves := PadLeaves(hashed);
    forall k | 0 <= k < |leaves|
      ensures Recomputes(hw, itemHash, leaves[k])
    {
      if k < |content| {
        assert leaves[k] == hashed[k];
      } else {
        assert leaves[k] == Leaf(hashed[|content| - 1].hash, hashed[|content| - 1].item, true);
      }
    }
    BuildIntermediateRecomputes(hw, itemHash, leaves);
  }

  /** The hash write of a total hash function. */
  function Total<E>(h: Hasher): Bytes -> Result<Bytes, E>
  {
    x => Success(h(x))
  }

  /** The item digest given by a total digest function. */
  function Digests<T, E>(d: T -> Bytes): T -> Result<Bytes, E>
  {
    x => Success(d(x))
  }

  /** With a total hash, pairing never fails and parent `k` carries the digest
      of the concatenated digests of its two children. */
  lemma PairUpDigests<T, E>(h: Hasher, level: seq<Node<T>>)
    ensures PairUp(Total<E>(h), level, 0).Success?
    ensures forall k :: 0 <= k < |PairUp(Total<E>(h), level, 0).value| ==>
      2 * k < |level| &&
      PairUp(Total<E>(h), level, 0).value[k].hash == h(level[2 * k].hash + level[Partner(|level|, 2 * k)].hash)
  {
    var hw := Total<E>(h);
    assert WritesNeverFail(hw);
    PairUpShape(hw, level, 0);
    var parents := PairUp(hw, level, 0).value;
    forall k | 0 <= k < |parents|
      ensures 2 * k < |level| && parents[k].hash == h(level[2 * k].hash + level[Partner(|level|, 2 * k)].hash)
    {
      assert PairedAt(hw, level, 2 * k, parents[k]);
    }
  }

  /** The digests of the leaves NewTree builds over `content` with total digests. */
  lemma LeafDigests<T, E>(h: Hasher, d: T -> Bytes, content: seq<T>)
    requires |content| >= 1
    ensures HashLeaves(Digests<T, E>(d), content).Success?
    ensures var leaves := PadLeaves(HashLeaves(Digests<T, E>(d), content).value);
      forall i :: 0 <= i < |leaves| ==> leaves[i].hash == d(content[if i < |content| then i else |content| - 1])
  {
    var hashed := HashLeaves(Digests<T, E>(d), content).value;
    assert forall i :: 0 <= i < |hashed| ==> hashed[i].hash == d(content[i]);
  }

  /** Three items: the third pairs with its duplicate. */
  lemma ThreeItemRoot<T, E>(h: Hasher, d: T -> Bytes, content: seq<T>)
    requires |content| == 3
    ensures NewTree(Total<E>(h), Digests<T, E>(d), content).Success?
    ensures var a, b, c := d(content[0]), d(content[1]), d(content[2]);
      MerkleRoot(NewTree(Total<E>(h), Digests<T, E>(d), content).value) == h(h(a + b) + h(c + c))
  {
    var hw, ih := Total<E>(h), Digests<T, E>(d);
    var a, b, c := d(content[0]), d(content[1]), d(content[2]);
    LeafDigests<T, E>(h, d, content);
    var leaves := PadLeaves(HashLeaves(ih, content).value);
    assert |leaves| == 4;
    assert leaves[0].hash == a && leaves[1].hash == b && leaves[2].hash == c && leaves[3].hash == c;
    PairUpDigests<T, E>(h, leaves);
    var level1 := PairUp(hw, leaves, 0).value;
    assert |level1| == 2;
    assert level1[0].hash == h(a + b);
    assert level1[1].hash == h(c + c);
    PairUpDigests<T, E>(h, level1);
    assert BuildIntermediate(hw, leaves) == BuildIntermediate(hw, level1);
    assert BuildIntermediate(hw, level1).value == PairUp(hw, level1, 0).value[0];
  }

  /** Four items: a balanced tree of two levels. */
  lemma FourItemRoot<T, E>(h: Hasher, d: T -> Bytes, content: seq<T>)
    requires |content| == 4
    ensures NewTree(Total<E>(h), Digests<T, E>(d), content).Success?
    ensures var a, b, c, e := d(content[0]), d(content[1]), d(content[2]), d(content[3]);
      MerkleRoot(NewTree(Total<E>(h), Digests<T, E>(d), content).value) == h(h(a + b) + h(c + e))
  {
    var hw, ih := Total<E>(h), Digests<T, E>(d);
    LeafDigests<T, E>(h, d, content);
    var leaves := PadLeaves(HashLeaves(ih, content).value);
    PairUpDigests<T, E>(h, leaves);
    var level1 := PairUp(hw, leaves, 0).value;
    assert level1[0].hash == h(leaves[0].hash + leaves[1].hash);
    assert level1[1].hash == h(leaves[2].hash + leaves[3].hash);
    PairUpDigests<T, E>(h, level1);
    assert BuildIntermediate(hw, leaves) == BuildIntermediate(hw, level1);
    assert BuildIntermediate(hw, level1).value == PairUp(hw, level1, 0).value[0];
  }

  /** Five items: six leaves give three parents, and the odd third parent is
      paired with itself on the level above. */
  lemma FiveItemRoot<T, E>(h: Hasher, d: T -> Bytes, content: seq<T>)
    requires |content| == 5
    ensures NewTree(Total<E>(h), Digests<T, E>(d), content).Success?
    ensures var a, b, c, e, f := d(content[0]), d(content[1]), d(content[2]), d(content[3]), d(content[4]);
      MerkleRoot(NewTree(Total<E>(h), Digests<T, E>(d), content).value)
        == h(h(h(a + b) + h(c + e)) + h(h(f + f) + h(f + f)))
  {
    var hw, ih := Total<E>(h), Digests<T, E>(d);
    var a, b, c, e, f := d(content[0]), d(content[1]), d(content[2]), d(content[3]), d(content[4]);
    LeafDigests<T, E>(h, d, content);
    var leaves := PadLeaves(HashLeaves(ih, content).value);
    assert leaves[0].hash == a && leaves[1].hash == b && leaves[2].hash == c;
    assert leaves[3].hash == e && leaves[4].hash == f && leaves[5].hash == f;
    PairUpDigests<T, E>(h, leaves);
    var level1 := PairUp(hw, leaves, 0).value;
    assert |level1| == 3;
    assert level1[0].hash == h(a + b);
    assert level1[1].hash == h(c + e);
    assert level1[2].hash == h(f + f);
    PairUpDigests<T, E>(h, level1);
    var level2 := PairUp(hw, level1, 0).value;
    assert |level2| == 2;
    assert level2[0].hash == h(h(a + b) + h(c + e));
    assert level2[1].hash == h(h(f + f) + h(f + f));
    PairUpDigests<T, E>(h, level2);
    assert BuildIntermediate(hw, leaves) == BuildIntermediate(hw, level1);
    assert BuildIntermediate(hw, level1) == BuildIntermediate(hw, level2);
    assert BuildIntermediate(hw, level2).value == PairUp(hw, level2, 0).value[0];
  }
}
