/** Index arithmetic of a complete binary tree stored in level order in a flat
    array: the root sits at slot 0, the children of slot `i` at `2i+1` and
    `2i+2`, and the parent of slot `i` at `(i-1)/2` with Go's division. */
module HeapIndex {

  /** Go's integer `a / 2`, which truncates toward zero (Dafny's `/` floors). */
  function HalfTowardZero(a: int): (q: int)
    ensures a >= 0 ==> 0 <= a - 2 * q <= 1
    ensures a < 0 ==> -1 <= a - 2 * q <= 0
  {
    if a >= 0 then a / 2 else -((-a) / 2)
  }

  /** Parent slot, computed as the Go code does: `(i - 1) / 2` truncated, so the
      root is its own parent (`(0 - 1) / 2 == 0` in Go). */
  function Parent(i: nat): (p: nat)
    ensures i == 0 ==> p == 0
    ensures i > 0 ==> i == 2 * p + 1 || i == 2 * p + 2
  {
    HalfTowardZero(i - 1)
  }

  /** The other child of `i`'s parent: an even slot is a right child whose
      sibling is `i - 1`, an odd slot a left child whose sibling is `i + 1`. */
  function Sibling(i: nat): (s: nat)
    requires i > 0
    ensures s > 0 && s != i && Parent(s) == Parent(i)
    ensures s < i <==> i % 2 == 0
  {
    if i % 2 == 0 then i - 1 else i + 1
  }

  /** In an odd-sized array every non-root slot has its sibling in range. */
  lemma SiblingInRange(n: nat, i: nat)
    requires n % 2 == 1 && 0 < i < n
    ensures Sibling(i) < n
  {
    if i % 2 == 1 {
      var p, q := (i - 1) / 2, (n - 1) / 2;
      assert i == 2 * p + 1 && n == 2 * q + 1;
    }
  }

  /** Whether slot `idx` has a child inside an array of `n` slots. */
  function HasChild(n: nat, idx: nat): (b: bool)
    ensures n % 2 == 1 ==> (b <==> 2 * idx + 2 < n)
  {
    2 * idx + 1 < n || 2 * idx + 2 < n
  }

  /** In the `2m - 1` slots of a tree with `m` leaves, exactly the first
      `m - 1` slots are internal, and both children of an internal slot exist. */
  lemma HasChildIffInternal(m: nat, idx: nat)
    requires m >= 1
    ensures HasChild(2 * m - 1, idx) <==> idx < m - 1
    ensures HasChild(2 * m - 1, idx) ==> 2 * idx + 1 < 2 * m - 1 && 2 * idx + 2 < 2 * m - 1
  {
  }

  /** Number of edges from slot `i` up to the root. */
  function Depth(i: nat): (d: nat)
    ensures d == 0 <==> i == 0
    decreases i
  {
    if i == 0 then 0 else 1 + Depth(Parent(i))
  }

  function Pow2(k: nat): (p: nat)
    ensures p >= 1
  {
    if k == 0 then 1 else 2 * Pow2(k - 1)
  }

  /** The integer part of log2(x): the exponent of the largest power of two not above `x`. */
  function FloorLog2(x: nat): (r: nat)
    requires x >= 1
    ensures Pow2(r) <= x < 2 * Pow2(r)
  {
    if x < 2 then 0 else 1 + FloorLog2(x / 2)
  }

  lemma {:induction false} FloorLog2Monotone(a: nat, b: nat)
    requires 1 <= a <= b
    ensures FloorLog2(a) <= FloorLog2(b)
    decreases a
  {
    if a >= 2 {
      FloorLog2Monotone(a / 2, b / 2);
    }
  }

  /** The depth of a slot is the integer log2 of its one-based position. */
  lemma {:induction false} DepthIsFloorLog2(i: nat)
    ensures Depth(i) == FloorLog2(i + 1)
    decreases i
  {
    if i > 0 {
      DepthIsFloorLog2(Parent(i));
      assert Parent(i) + 1 == (i + 1) / 2;
    }
  }

  /** In a tree of `m` leaves stored in `2m - 1` slots, every leaf sits either on
      the deepest level, `FloorLog2(2m - 1)`, or one level above it. */
  lemma LeafDepthBounds(m: nat, leaf: nat)
    requires m >= 1
    requires m - 1 <= leaf < 2 * m - 1
    ensures FloorLog2(2 * m - 1) - 1 <= Depth(leaf) <= FloorLog2(2 * m - 1)
  {
    DepthIsFloorLog2(leaf);
    FloorLog2Monotone(leaf + 1, 2 * m - 1);
    FloorLog2Monotone(m, leaf + 1);
    if m >= 2 {
      assert (2 * m - 1) / 2 == m - 1;
      assert FloorLog2(2 * m - 1) == 1 + FloorLog2(m - 1);
      FloorLog2Monotone(m - 1, m);
    }
  }

  /** `FloorLog2` is the only exponent whose power-of-two range holds `x`. */
  lemma {:induction false} FloorLog2Unique(x: nat, k: nat)
    requires Pow2(k) <= x < 2 * Pow2(k)
    ensures FloorLog2(x) == k
    decreases k
  {
    if k > 0 {
      FloorLog2Unique(x / 2, k - 1);
    }
  }

  /** When the leaf count `m` is strictly between two powers of two, both leaf
      levels are occupied: the first leaf slot sits one level above the
      deepest level and the last leaf slot on it. */
  lemma MixedLeafDepths(m: nat, k: nat)
    requires Pow2(k) < m < 2 * Pow2(k)
    ensures FloorLog2(2 * m - 1) == k + 1
    ensures Depth(m - 1) == FloorLog2(2 * m - 1) - 1
    ensures Depth(2 * m - 2) == FloorLog2(2 * m - 1)
  {
    FloorLog2Unique(2 * m - 1, k + 1);
    FloorLog2Unique(m, k);
    DepthIsFloorLog2(m - 1);
    DepthIsFloorLog2(2 * m - 2);
  }

  /** When the leaf count is a power of two, every leaf slot sits on the one
      deepest level. */
  lemma PerfectLeafDepths(m: nat, k: nat, leaf: nat)
    requires m == Pow2(k)
    requires m - 1 <= leaf < 2 * m - 1
    ensures Depth(leaf) == FloorLog2(2 * m - 1) == k
  {
    FloorLog2Unique(2 * m - 1, k);
    FloorLog2Unique(leaf + 1, k);
    DepthIsFloorLog2(leaf);
  }

  /** The slot reached from `i` after `s` parent steps. */
  function Climb(i: nat, s: nat): (c: nat)
    ensures c <= i
    decreases s
  {
    if s == 0 then i else Climb(Parent(i), s - 1)
  }

  lemma {:induction false} ClimbStep(i: nat, s: nat)
    ensures Climb(i, s + 1) == Parent(Climb(i, s))
    decreases s
  {
    if s > 0 {
      ClimbStep(Parent(i), s - 1);
    }
  }

  /** Climbing fewer steps than the depth stays strictly below the root. */
  lemma {:induction false} ClimbDepth(i: nat, s: nat)
    requires s <= Depth(i)
    ensures Depth(Climb(i, s)) == Depth(i) - s
    decreases s
  {
    if s > 0 {
      ClimbDepth(Parent(i), s - 1);
    }
  }

  /** Climbing at least the depth ends at the root and stays there. */
  lemma {:induction false} ClimbPastRoot(i: nat, s: nat)
    requires s >= Depth(i)
    ensures Climb(i, s) == 0
    decreases s
  {
    if s > 0 {
      ClimbPastRoot(Parent(i), s - 1);
    }
  }

  /** `a` is `j` or one of `j`'s ancestors: `j` lies in the subtree rooted at `a`. */
  predicate InSubtree(a: nat, j: nat)
    decreases j
  {
    j == a || (j > a && InSubtree(a, Parent(j)))
  }

  lemma {:induction false} InSubtreeTransitive(a: nat, b: nat, j: nat)
    requires InSubtree(a, b) && InSubtree(b, j)
    ensures InSubtree(a, j)
    decreases j
  {
    if j != b {
      InSubtreeTransitive(a, b, Parent(j));
    }
  }

  /** A proper descendant of `a` lies below exactly one of `a`'s children. */
  lemma {:induction false} InSubtreeSplit(a: nat, j: nat)
    requires InSubtree(a, j) && j != a
    ensures InSubtree(2 * a + 1, j) || InSubtree(2 * a + 2, j)
    decreases j
  {
    var p := Parent(j);
    if p != a {
      InSubtreeSplit(a, p);
    }
  }

  /** Two slots that share a descendant are nested. */
  lemma {:induction false} InSubtreeNested(a: nat, b: nat, j: nat)
    requires InSubtree(a, j) && InSubtree(b, j)
    ensures InSubtree(a, b) || InSubtree(b, a)
    decreases j
  {
    if j != a && j != b {
      InSubtreeNested(a, b, Parent(j));
    }
  }

  /** The subtrees of two siblings are disjoint. */
  lemma ChildSubtreesDisjoint(a: nat, j: nat)
    requires InSubtree(2 * a + 1, j)
    ensures !InSubtree(2 * a + 2, j)
  {
    if InSubtree(2 * a + 2, j) {
      InSubtreeNested(2 * a + 1, 2 * a + 2, j);
      assert false;
    }
  }

  /** Every slot lies below the root. */
  lemma {:induction false} RootCoversAll(j: nat)
    ensures InSubtree(0, j)
    decreases j
  {
    if j > 0 {
      RootCoversAll(Parent(j));
    }
  }
}
