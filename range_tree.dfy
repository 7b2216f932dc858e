/** The attribute-range masks of `finalize` (PKDGeometry.cpp): one 32-bit
    histogram mask per inner node of the implicit tree, computed bottom-up
    from the bins of the leaves' attribute values. */
module RangeTree {
  import opened AttributeBins
  import opened ImplicitTree

  /** Every leaf's attribute can be binned (the inner nodes' values never
      are), and the attribute array covers all `n` particles. */
  ghost predicate LeavesBinnable(attribute: seq<real>, n: nat, lo: real, hi: real)
  {
    n <= |attribute| &&
    forall c :: NumInnerNodes(n) <= c < n ==> BinDefined(attribute[c], lo, hi)
  }

  /** The bin mask `getAttributeBits` gives each leaf, in leaf order. */
  function LeafBins(attribute: seq<real>, n: nat, lo: real, hi: real): (leaves: seq<bv32>)
    requires LeavesBinnable(attribute, n, lo, hi)
    ensures LeafCount(leaves, n)
  {
    seq(n - NumInnerNodes(n), k requires 0 <= k < n - NumInnerNodes(n) =>
      GetAttributeBits(attribute[NumInnerNodes(n) + k], lo, hi))
  }

  /** The contents of `binBitsArray` once filled. */
  function MaskTable(attribute: seq<real>, n: nat, lo: real, hi: real): (t: seq<bv32>)
    requires LeavesBinnable(attribute, n, lo, hi)
    ensures |t| == NumInnerNodes(n)
  {
    TreeMasks(LeafBins(attribute, n, lo, hi), n)
  }

  /** A node's mask has bin `b` set exactly when some leaf below it has its
      attribute in bin `b`; the node's own attribute and those of inner
      descendants play no part. */
  lemma MaskIsLeafHistogram(attribute: seq<real>, n: nat, lo: real, hi: real, p: nat, m: bv32)
    requires LeavesBinnable(attribute, n, lo, hi) && p < NumInnerNodes(n)
    ensures Meets(MaskTable(attribute, n, lo, hi)[p], m) <==>
      exists c :: NumInnerNodes(n) <= c < n && Descends(c, p) && Meets(GetAttributeBits(attribute[c], lo, hi), m)
  {
    var leaves := LeafBins(attribute, n, lo, hi);
    SubtreeBitsAreLeafUnion(leaves, n, p, m);
    assert forall c :: NumInnerNodes(n) <= c < n ==> leaves[c - NumInnerNodes(n)] == GetAttributeBits(attribute[c], lo, hi);
  }

  /** Binning the leaves against the scanned range is always defined: each
      leaf lies in [lo, hi], so its bin position lies in [0, 32]. */
  lemma RangeMakesLeavesBinnable(attribute: seq<real>, n: nat, lo: real, hi: real)
    requires 1 <= |attribute| && n <= |attribute| && IsAttributeRange(attribute, n, lo, hi)
    ensures LeavesBinnable(attribute, n, lo, hi)
  {
    forall c | NumInnerNodes(n) <= c < n ensures BinDefined(attribute[c], lo, hi) {
      InRangeBinDefined(attribute[c], lo, hi);
    }
  }

  /** Culling with the masks is safe for leaves: the bin of every leaf is
      set in the mask of each inner node above it. */
  lemma LeafBinInAncestorMask(attribute: seq<real>, n: nat, lo: real, hi: real, p: nat, c: nat)
    requires LeavesBinnable(attribute, n, lo, hi) && p < NumInnerNodes(n)
    requires NumInnerNodes(n) <= c < n && Descends(c, p)
    ensures Meets(MaskTable(attribute, n, lo, hi)[p], GetAttributeBits(attribute[c], lo, hi))
  {
    var m := GetAttributeBits(attribute[c], lo, hi);
    SelfMeets(m);
    MaskIsLeafHistogram(attribute, n, lo, hi, p, m);
  }

  lemma SelfMeets(m: bv32)
    requires m != 0
    ensures Meets(m, m)
  {
  }

  /** The masks cover leaves only: in the three-particle tree with
      attributes 0, 1, 2 the root's own value (bin 0) is missing from the
      root's mask, which holds just the leaves' bins 16 and 31. */
  lemma InnerAttributeNotInMask()
    ensures LeavesBinnable([0.0, 1.0, 2.0], 3, 0.0, 2.0)
    ensures !Meets(MaskTable([0.0, 1.0, 2.0], 3, 0.0, 2.0)[0], GetAttributeBits(0.0, 0.0, 2.0))
  {
    ThreeParticleMasks();
    var root := MaskTable([0.0, 1.0, 2.0], 3, 0.0, 2.0)[0];
    BinEndpoints(0.0, 2.0);
    assert root == 0x8001_0000;
  }

  lemma ThreeParticleMasks()
    ensures LeavesBinnable([0.0, 1.0, 2.0], 3, 0.0, 2.0)
    ensures MaskTable([0.0, 1.0, 2.0], 3, 0.0, 2.0) == [0x8001_0000]
  {
    ThreeParticleLeaves();
    ThreeLeafTree(LeafBins([0.0, 1.0, 2.0], 3, 0.0, 2.0));
  }

  lemma ThreeParticleLeaves()
    ensures LeavesBinnable([0.0, 1.0, 2.0], 3, 0.0, 2.0)
    ensures LeafBins([0.0, 1.0, 2.0], 3, 0.0, 2.0) == [0x1_0000, 0x8000_0000]
  {
    var a := [0.0, 1.0, 2.0];
    assert a[0] == 0.0 && a[2] == 2.0;
    RangeMakesLeavesBinnable(a, 3, 0.0, 2.0);
    assert Scaled(1.0, 0.0, 2.0) == 16.0;
    assert TruncToInt(16.0) == 16;
    assert GetAttributeBits(1.0, 0.0, 2.0) == BinMask(16);
    assert BinMask(16) == 0x1_0000;
    BinEndpoints(0.0, 2.0);
  }

  lemma ThreeLeafTree(leaves: seq<bv32>)
    requires leaves == [0x1_0000, 0x8000_0000]
    ensures TreeMasks(leaves, 3) == [0x8001_0000]
  {
    SubtreeBitsOfInner(leaves, 3, 0);
  }

  /** With a degenerate range (hi == lo) every mask is exactly 1. */
  lemma DegenerateRangeMasks(attribute: seq<real>, n: nat, v: real)
    requires n <= |attribute|
    ensures LeavesBinnable(attribute, n, v, v)
    ensures forall p :: 0 <= p < NumInnerNodes(n) ==> MaskTable(attribute, n, v, v)[p] == 1
  {
    var leaves := LeafBins(attribute, n, v, v);
    forall k | 0 <= k < |leaves| ensures leaves[k] == 1 {
      assert leaves[k] == GetAttributeBits(attribute[NumInnerNodes(n) + k], v, v);
    }
    forall p | 0 <= p < NumInnerNodes(n) ensures MaskTable(attribute, n, v, v)[p] == 1 {
      UniformLeavesGiveUniformMasks(leaves, n, p);
    }
  }

  /** The OR of both children's subtree masks is the parent's mask. */
  lemma ChildrenGiveSubtree(leaves: seq<bv32>, n: nat, p: nat, lBits: bv32, rBits: bv32)
    requires LeafCount(leaves, n) && p < NumInnerNodes(n)
    requires lBits == SubtreeBits(leaves, n, LeftChild(p)) && rBits == SubtreeBits(leaves, n, RightChild(p))
    ensures lBits | rBits == SubtreeBits(leaves, n, p)
  {
    SubtreeBitsOfInner(leaves, n, p);
  }

  /** What child `c` passes up in the propagation loop: its table entry
      when it is an inner node, the bin mask of its attribute when it is a
      leaf, nothing when it lies past the last particle. */
  method ChildMask(bits: array<bv32>, attribute: seq<real>, n: nat, lo: real, hi: real, c: nat) returns (m: bv32)
    requires LeavesBinnable(attribute, n, lo, hi) && bits.Length == NumInnerNodes(n)
    requires c < NumInnerNodes(n) ==> bits[c] == MaskTable(attribute, n, lo, hi)[c]
    ensures m == SubtreeBits(LeafBins(attribute, n, lo, hi), n, c)
  {
    var numInnerNodes := NumInnerNodes(n);
    m := 0;
    if c < numInnerNodes {
      m := bits[c];
    } else if c < n {
      m := GetAttributeBits(attribute[c], lo, hi);
      assert m == LeafBins(attribute, n, lo, hi)[c - numInnerNodes];
    }
  }

  /** The propagation loop of `finalize`: allocate one mask per inner node
      and fill the table from the last inner node down to the root, so that
      both children of a node are final before the node is written. */
  method ComputeBinBits(attribute: seq<real>, n: nat, lo: real, hi: real) returns (bits: array<bv32>)
    requires LeavesBinnable(attribute, n, lo, hi)
    ensures fresh(bits)
    ensures bits[..] == MaskTable(attribute, n, lo, hi)
    ensures IsRangeTable(bits[..], LeafBins(attribute, n, lo, hi), n)
  {
    ghost var leaves := LeafBins(attribute, n, lo, hi);
    ghost var t := MaskTable(attribute, n, lo, hi);
    var numInnerNodes := NumInnerNodes(n);
    bits := new bv32[numInnerNodes];
    var pID: int := numInnerNodes as int - 1;
    while pID >= 0
      invariant -1 <= pID < numInnerNodes
      invariant forall q :: pID < q < numInnerNodes ==> bits[q] == t[q]
    {
      var lID := 2 * pID + 1;
      var rID := lID + 1;
      var rBits := ChildMask(bits, attribute, n, lo, hi, rID);
      var lBits := ChildMask(bits, attribute, n, lo, hi, lID);
      ChildrenGiveSubtree(leaves, n, pID, lBits, rBits);
      assert lBits | rBits == t[pID];
      bits[pID] := lBits | rBits;
      pID := pID - 1;
    }
    assert bits[..] == t;
    RangeTableUnique(bits[..], leaves, n);
  }
}
