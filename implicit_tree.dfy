/** The implicit, pointer-free PKD tree (PKDGeometry.cpp, `finalize`).
    The tree is the particle array itself: node `p` has children `2p+1` and
    `2p+2`, the first `n/2` nodes are inner nodes, the rest are leaves.
    Here each leaf carries a 32-bit mask and each inner node the union of
    the masks below it. */
module ImplicitTree {

  /** `numInnerNodes = numParticles/2`. */
  function NumInnerNodes(n: nat): (k: nat)
    ensures 2 * k <= n <= 2 * k + 1
  {
    n / 2
  }

  function LeftChild(p: nat): nat { 2 * p + 1 }
  function RightChild(p: nat): nat { 2 * p + 2 }
  function Parent(c: nat): nat requires c > 0 { (c - 1) / 2 }

  /** The inner nodes are exactly the nodes with a child in range; the left
      child of an inner node always exists, and only the last inner node of
      an even-sized tree lacks a right child. */
  lemma InnerNodeShape(n: nat, p: nat)
    ensures p < NumInnerNodes(n) <==> LeftChild(p) < n
    ensures p < NumInnerNodes(n) ==> (n <= RightChild(p) <==> n % 2 == 0 && p == NumInnerNodes(n) - 1)
  {
  }

  /** Node `c` lies in the subtree rooted at `p`. */
  predicate Descends(c: nat, p: nat)
    decreases c
  {
    c == p || (p < c && Descends(Parent(c), p))
  }

  /** `leaves` holds one mask per leaf `n/2 .. n-1` of an `n`-node tree. */
  predicate LeafCount(leaves: seq<bv32>, n: nat)
  {
    |leaves| == n - NumInnerNodes(n)
  }

  /** The mask of the subtree at `p`: the mask of a leaf, the union of the
      children's masks for an inner node, nothing outside the array. */
  function SubtreeBits(leaves: seq<bv32>, n: nat, p: nat): bv32
    requires LeafCount(leaves, n)
    decreases n - p
  {
    if n <= p then 0
    else if NumInnerNodes(n) <= p then leaves[p - NumInnerNodes(n)]
    else SubtreeBits(leaves, n, LeftChild(p)) | SubtreeBits(leaves, n, RightChild(p))
  }

  /** One mask per inner node, each that of the node's subtree. */
  function TreeMasks(leaves: seq<bv32>, n: nat): (t: seq<bv32>)
    requires LeafCount(leaves, n)
    ensures |t| == NumInnerNodes(n)
  {
    seq(NumInnerNodes(n), p requires 0 <= p < NumInnerNodes(n) => SubtreeBits(leaves, n, p))
  }

  /** What child `c` contributes to its parent's entry of `bits`: the entry
      of an inner child, the mask of a leaf, 0 when the child is missing. */
  function Contrib(bits: seq<bv32>, leaves: seq<bv32>, n: nat, c: nat): bv32
    requires LeafCount(leaves, n) && |bits| == NumInnerNodes(n)
  {
    if c < NumInnerNodes(n) then bits[c]
    else if c < n then leaves[c - NumInnerNodes(n)]
    else 0
  }

  /** The table's invariant: every entry is the OR of its two children's
      contributions. */
  ghost predicate IsRangeTable(bits: seq<bv32>, leaves: seq<bv32>, n: nat)
    requires LeafCount(leaves, n)
  {
    |bits| == NumInnerNodes(n) &&
    forall p :: 0 <= p < |bits| ==> EntryIsChildUnion(bits, leaves, n, p)
  }

  /** Entry `p` of `bits` is the OR of its children's contributions. */
  ghost predicate EntryIsChildUnion(bits: seq<bv32>, leaves: seq<bv32>, n: nat, p: nat)
    requires LeafCount(leaves, n) && |bits| == NumInnerNodes(n) && p < |bits|
  {
    bits[p] == Contrib(bits, leaves, n, LeftChild(p)) | Contrib(bits, leaves, n, RightChild(p))
  }

  /** A child contributes its subtree's mask once its entry (if it has
      one) is final. */
  lemma ContribIsSubtree(bits: seq<bv32>, leaves: seq<bv32>, n: nat, c: nat)
    requires LeafCount(leaves, n) && |bits| == NumInnerNodes(n)
    requires c < NumInnerNodes(n) ==> bits[c] == SubtreeBits(leaves, n, c)
    ensures Contrib(bits, leaves, n, c) == SubtreeBits(leaves, n, c)
  {
  }

  /** An inner node's mask is the union of its children's masks. */
  lemma SubtreeBitsOfInner(leaves: seq<bv32>, n: nat, p: nat)
    requires LeafCount(leaves, n) && p < NumInnerNodes(n)
    ensures SubtreeBits(leaves, n, p) == SubtreeBits(leaves, n, LeftChild(p)) | SubtreeBits(leaves, n, RightChild(p))
  {
  }

  /** An entry that is the union of final children's contributions is the
      subtree mask. */
  lemma EntryFromChildren(bits: seq<bv32>, leaves: seq<bv32>, n: nat, p: nat)
    requires LeafCount(leaves, n) && |bits| == NumInnerNodes(n) && p < |bits|
    requires EntryIsChildUnion(bits, leaves, n, p)
    requires LeftChild(p) < NumInnerNodes(n) ==> bits[LeftChild(p)] == SubtreeBits(leaves, n, LeftChild(p))
    requires RightChild(p) < NumInnerNodes(n) ==> bits[RightChild(p)] == SubtreeBits(leaves, n, RightChild(p))
    ensures bits[p] == SubtreeBits(leaves, n, p)
  {
    ContribIsSubtree(bits, leaves, n, LeftChild(p));
    ContribIsSubtree(bits, leaves, n, RightChild(p));
    SubtreeBitsOfInner(leaves, n, p);
  }

  /** Every entry of a table keeping the child-OR invariant is its
      subtree's mask (by induction from the last inner node up). */
  lemma {:induction false} RangeTableEntry(bits: seq<bv32>, leaves: seq<bv32>, n: nat, p: nat)
    requires LeafCount(leaves, n) && IsRangeTable(bits, leaves, n)
    requires p < NumInnerNodes(n)
    ensures bits[p] == SubtreeBits(leaves, n, p)
    decreases n - p
  {
    var l, r := LeftChild(p), RightChild(p);
    if l < NumInnerNodes(n) { RangeTableEntry(bits, leaves, n, l); }
    if r < NumInnerNodes(n) { RangeTableEntry(bits, leaves, n, r); }
    EntryFromChildren(bits, leaves, n, p);
  }

  /** The child-OR invariant determines the table: the subtree masks
      satisfy it, and no other table does. */
  lemma RangeTableUnique(bits: seq<bv32>, leaves: seq<bv32>, n: nat)
    requires LeafCount(leaves, n)
    ensures IsRangeTable(bits, leaves, n) <==> bits == TreeMasks(leaves, n)
  {
    var t := TreeMasks(leaves, n);
    if IsRangeTable(bits, leaves, n) {
      forall p | 0 <= p < |bits| ensures bits[p] == t[p] {
        RangeTableEntry(bits, leaves, n, p);
      }
    }
    forall p | 0 <= p < |t|
      ensures EntryIsChildUnion(t, leaves, n, p)
    {
      assert Contrib(t, leaves, n, LeftChild(p)) == SubtreeBits(leaves, n, LeftChild(p));
      assert Contrib(t, leaves, n, RightChild(p)) == SubtreeBits(leaves, n, RightChild(p));
    }
  }

  /** A proper descendant of `p` lies in the subtree of one of its children. */
  lemma {:induction false} DescendsStep(c: nat, p: nat)
    ensures Descends(c, p) && c != p <==> Descends(c, LeftChild(p)) || Descends(c, RightChild(p))
    decreases c
  {
    if Descends(c, p) && c != p {
      var q := Parent(c);
      if q != p {
        DescendsStep(q, p);
      }
    }
    if Descends(c, LeftChild(p)) || Descends(c, RightChild(p)) {
      if c != LeftChild(p) && c != RightChild(p) {
        var q := Parent(c);
        assert Descends(q, LeftChild(p)) || Descends(q, RightChild(p));
        DescendsStep(q, p);
      }
    }
  }

  /** A node only has descendants at or after its own index. */
  lemma {:induction false} DescendsAbove(c: nat, p: nat)
    ensures Descends(c, p) ==> p <= c
  {
  }

  /** The subtree of a leaf is the leaf alone. */
  lemma LeafHasNoDescendants(n: nat, c: nat, p: nat)
    requires NumInnerNodes(n) <= p && c < n && Descends(c, p)
    ensures c == p
  {
    if c != p {
      DescendsStep(c, p);
      DescendsAbove(c, LeftChild(p));
      DescendsAbove(c, RightChild(p));
    }
  }

  /** Mask `a` shares a bit with `m`. */
  predicate Meets(a: bv32, m: bv32) { a & m != 0 }

  lemma AndDistributesOverOr(a: bv32, b: bv32, m: bv32)
    ensures (a | b) & m == (a & m) | (b & m)
  {
  }

  lemma OrNonZero(x: bv32, y: bv32)
    ensures x | y != 0 <==> x != 0 || y != 0
  {
  }

  lemma OrMeets(a: bv32, b: bv32, m: bv32)
    ensures Meets(a | b, m) <==> Meets(a, m) || Meets(b, m)
  {
    AndDistributesOverOr(a, b, m);
    OrNonZero(a & m, b & m);
  }

  /** Some leaf below `p` has a mask meeting `m`. */
  ghost predicate LeafBelowMeets(leaves: seq<bv32>, n: nat, p: nat, m: bv32)
    requires LeafCount(leaves, n)
  {
    exists c :: NumInnerNodes(n) <= c < n && Descends(c, p) && Meets(leaves[c - NumInnerNodes(n)], m)
  }

  /** A bit of a node's mask comes from some leaf below the node. */
  lemma {:induction false} UnionHasLeaf(leaves: seq<bv32>, n: nat, p: nat, m: bv32)
    requires LeafCount(leaves, n)
    requires Meets(SubtreeBits(leaves, n, p), m)
    ensures LeafBelowMeets(leaves, n, p, m)
    decreases n - p
  {
    var k := NumInnerNodes(n);
    if k <= p {
      assert Descends(p, p);
    } else {
      var l, r := LeftChild(p), RightChild(p);
      OrMeets(SubtreeBits(leaves, n, l), SubtreeBits(leaves, n, r), m);
      var q := if Meets(SubtreeBits(leaves, n, l), m) then l else r;
      UnionHasLeaf(leaves, n, q, m);
      var c :| k <= c < n && Descends(c, q) && Meets(leaves[c - k], m);
      DescendsStep(c, p);
      DescendsAbove(c, q);
    }
  }

  /** A leaf's mask meeting `m` makes every mask above it meet `m`. */
  lemma {:induction false} LeafMeetsUnion(leaves: seq<bv32>, n: nat, p: nat, m: bv32, c: nat)
    requires LeafCount(leaves, n)
    requires NumInnerNodes(n) <= c < n && Descends(c, p) && Meets(leaves[c - NumInnerNodes(n)], m)
    ensures Meets(SubtreeBits(leaves, n, p), m)
    decreases n - p
  {
    DescendsAbove(c, p);
    if NumInnerNodes(n) <= p {
      LeafHasNoDescendants(n, c, p);
    } else {
      var l, r := LeftChild(p), RightChild(p);
      DescendsStep(c, p);
      OrMeets(SubtreeBits(leaves, n, l), SubtreeBits(leaves, n, r), m);
      if Descends(c, l) {
        LeafMeetsUnion(leaves, n, l, m, c);
      } else {
        LeafMeetsUnion(leaves, n, r, m, c);
      }
    }
  }

  /** A node's mask shares a bit with `m` exactly when some leaf in its
      subtree does: the mask is the union of the masks of the leaves below
      the node and of nothing else. */
  lemma SubtreeBitsAreLeafUnion(leaves: seq<bv32>, n: nat, p: nat, m: bv32)
    requires LeafCount(leaves, n)
    ensures Meets(SubtreeBits(leaves, n, p), m) <==> LeafBelowMeets(leaves, n, p, m)
  {
    if Meets(SubtreeBits(leaves, n, p), m) {
      UnionHasLeaf(leaves, n, p, m);
    }
    if LeafBelowMeets(leaves, n, p, m) {
      var c :| NumInnerNodes(n) <= c < n && Descends(c, p) && Meets(leaves[c - NumInnerNodes(n)], m);
      LeafMeetsUnion(leaves, n, p, m, c);
    }
  }

  /** When every leaf mask is 1, every inner mask is 1 too. */
  lemma {:induction false} UniformLeavesGiveUniformMasks(leaves: seq<bv32>, n: nat, p: nat)
    requires LeafCount(leaves, n) && p < n
    requires forall k :: 0 <= k < |leaves| ==> leaves[k] == 1
    ensures SubtreeBits(leaves, n, p) == 1
    decreases n - p
  {
    if p < NumInnerNodes(n) {
      UniformLeavesGiveUniformMasks(leaves, n, LeftChild(p));
      if RightChild(p) < n { UniformLeavesGiveUniformMasks(leaves, n, RightChild(p)); }
    }
  }
}
