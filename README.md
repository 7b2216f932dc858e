# PKD geometry: quantized particles, implicit tree and attribute masks

This project models the index-building core of the OSPRay "pkd" module
(`ospray/PKDGeometry.cpp`). It proves properties of that model in Dafny.

A PKD ("particle k-d") geometry is a static array of particles that is
already in k-d order. The tree over it is implicit: node `p` has children
`2p+1` and `2p+2`. The first `numParticles/2` nodes are inner nodes and the
rest are leaves. The model covers the following:

- **Codec** (`codec.dfy`): `decodeParticle`. It unpacks three 20-bit grid
  coordinates from a 64-bit key at bit offsets 2, 22 and 42. The model adds
  the matching encoder, so the round trips can be stated.
- **Particles** (`particles.dfy`): the position data with its format tag.
  - `getParticle`: float3 data is returned as stored, quantized keys are
    decoded, and any other format fails.
  - `getBounds`: the centre-bounds scan.
- **Boxes** (`boxes.dfy`): the framework's `vec3f`/`box3f` over exact reals.
  - The empty box is its own constructor.
  - `extend`, and the widening of the centre bounds by the radius into the
    sphere bounds.
- **Attribute bins** (`attribute_bins.dfy`):
  - `getAttributeBits`, which maps an attribute value to a one-hot 32-bit bin
    mask. It truncates toward zero as C does and clamps the bin at 31.
  - The `attr_lo`/`attr_hi` min/max scan of `finalize`.
- **Implicit tree** (`implicit_tree.dfy`), over an arbitrary table of leaf
  masks:
  - The child and parent index arithmetic.
  - The subtree relation.
  - The closed form of a node's mask, which is the OR of the masks of the
    leaves below it.
  - The child-OR invariant, which determines the table uniquely.
- **Range tree** (`range_tree.dfy`): the `binBitsArray` propagation loop of
  `finalize`. It fills an array of one mask per inner node, from the last
  inner node down to the root.
- **Geometry object** (`pkd_geometry.dfy`): class `PartiKDGeometry` with the
  fields `finalize` writes.
  - `Finalize` follows the source's order. It rejects a missing position
    array, unreadable centres and a non-positive radius, and writes the
    fields where the C++ writes them.
  - On success it returns the values the renderer side receives.

The error cases of the C++ are values of `Outcome.Result`, defined in
`outcome.dfy`. These cases are the thrown exceptions and `NOTIMPLEMENTED`.

Three points about the code that the model keeps as written:

- **Node masks cover leaves only.** The loop ORs in the bins of leaves
  only (indices `numParticles/2 .. numParticles-1`). A node's own attribute
  and those of its inner descendants are not in its mask.
  `RangeTree.InnerAttributeNotInMask` shows this on three particles.
- **No lower clamp on bins.** `getAttributeBits` clamps the bin at 31 but
  not at 0. A value below `attr_lo` can be binned only while its scaled
  position stays above -1, because truncation takes it to bin 0. Values
  produced by the scan never fall below the range
  (`RangeTree.RangeMakesLeavesBinnable`).
- **Two readable formats.** `getParticle` reads only float3 data and 64-bit
  keys. Every other format tag is `NOTIMPLEMENTED`.

## Model

| member | source | states |
|---|---|---|
| Codec.DecodeParticle | ospray/PKDGeometry.cpp:34-40 | every decoded position has integral coordinates in [0, 2^20) on each axis |
| Codec.DecodeEncode | ospray/PKDGeometry.cpp:34-40 | packing three 20-bit coordinates at offsets 2/22/42 and decoding gives back exactly those coordinates |
| Codec.EncodeDecode | ospray/PKDGeometry.cpp:34-40 | re-packing the three decoded fields rebuilds the key with bits 0-1 and 62-63 cleared, so the fields are the whole payload |
| Codec.DecodeSeesOnlyPayload | ospray/PKDGeometry.cpp:34-40 | two keys decode to the same position if and only if they agree on bits 2-61 |
| Particles.GetParticle | ospray/PKDGeometry.cpp:43-50 | a particle can be read exactly when the format is float3 or quantized; otherwise the result is the NOTIMPLEMENTED error; quantized particles lie on the grid |
| Particles.CenterBoundsTight | ospray/PKDGeometry.cpp:54-61 | the centre bounds fail only for unreadable data with particles, are empty exactly when there are no particles, contain every particle and touch a particle on each of the six faces |
| Particles.QuantizedBoundsOnGrid | ospray/PKDGeometry.cpp:34-61 | the centre bounds of quantized data have both corners on the 20-bit grid |
| Particles.GetBounds | ospray/PKDGeometry.cpp:54-61 | the scan that extends an empty box by every particle in turn returns the centre bounds, or the read error |
| Boxes.BoundsOf | ospray/PKDGeometry.cpp:54-61 | the fold of `extend` from the empty box is empty exactly when there are no points |
| Particles.CenterBounds | ospray/PKDGeometry.cpp:54-61 | the centre bounds fail exactly when there is a particle and its format is unreadable, and then with NOTIMPLEMENTED |
| Boxes.Extend | ospray/PKDGeometry.cpp:58 | the extended box holds the new point and everything the old box held |
| Boxes.BoundsOfTight | ospray/PKDGeometry.cpp:54-61 | the folded box is empty exactly for no points, holds every point and attains each face |
| Boxes.BoundsOfOrdered | ospray/PKDGeometry.cpp:54-61 | a non-empty folded box has its lower corner below its upper corner |
| Boxes.Widen | ospray/PKDGeometry.cpp:118-119 | widening keeps an empty box empty and a box non-empty, and for a non-negative radius keeps every contained point |
| Boxes.WidenIsCubeSum | ospray/PKDGeometry.cpp:118-119 | a point is in the widened box if and only if it is within the radius (per axis) of a point of the box |
| AttributeBins.TruncToInt | ospray/PKDGeometry.cpp:66 | the C float-to-int conversion: the floor for non-negative values, the ceiling for negative ones |
| AttributeBins.Scaled | ospray/PKDGeometry.cpp:66 | the bin position `32*((val-lo)/(hi-lo))` is 0 at lo and 32 at hi |
| AttributeBins.BinIndex | ospray/PKDGeometry.cpp:66 | the bin lies in [0, 31]; it is 0 exactly below one bin width and 31 exactly from 31 widths on; otherwise it is the floor of the scaled position |
| AttributeBins.BinMask | ospray/PKDGeometry.cpp:67 | `1 << b` has exactly one bit set, and that bit is bit b; it is 1 exactly for bin 0 and 0x80000000 exactly for bin 31 |
| AttributeBins.GetAttributeBits | ospray/PKDGeometry.cpp:63-68 | the mask has exactly one bit set, and it is 1 when hi == lo |
| AttributeBins.BinEndpoints | ospray/PKDGeometry.cpp:63-68 | for lo < hi, lo falls in bin 0 (mask 1) and hi in bin 31 (mask 0x80000000) |
| AttributeBins.InRangeBinDefined | ospray/PKDGeometry.cpp:63-68 | every value in [lo, hi] can be binned, at a scaled position in [0, 32] |
| AttributeBins.BinIndexMonotone | ospray/PKDGeometry.cpp:66 | larger values in [lo, hi] never fall in a lower bin |
| AttributeBins.AttributeRange | ospray/PKDGeometry.cpp:133-137 | the scan returns bounds that hold each of the first n values and are attained by them; with n == 0 both are attribute[0] |
| AttributeBins.AttributeRangeUnique | ospray/PKDGeometry.cpp:133-137 | the range is determined by the data |
| ImplicitTree.NumInnerNodes | ospray/PKDGeometry.cpp:120 | `numParticles/2` is the floor of half the particle count: twice it is the count or one less |
| ImplicitTree.InnerNodeShape | ospray/PKDGeometry.cpp:120-152 | a node is inner exactly when its left child exists; only the last inner node of an even-sized tree lacks a right child |
| ImplicitTree.ContribIsSubtree | ospray/PKDGeometry.cpp:145-152 | the three-way child contribution (`Contrib`: the entry of an inner child, the bin of a leaf, 0 past the last particle) equals the child's subtree mask once its entry is final |
| ImplicitTree.RangeTableEntry | ospray/PKDGeometry.cpp:139-155 | in a table where every entry is the OR of its children's contributions, each entry is the OR of the leaf masks in its subtree |
| ImplicitTree.RangeTableUnique | ospray/PKDGeometry.cpp:139-155 | a table satisfies the child-OR invariant if and only if it is the table of subtree masks |
| ImplicitTree.DescendsStep | ospray/PKDGeometry.cpp:143-144 | a proper descendant of a node is a descendant of one of its two children, and conversely |
| ImplicitTree.UnionHasLeaf | ospray/PKDGeometry.cpp:139-155 | every bit of a subtree mask comes from some leaf below the node |
| ImplicitTree.LeafMeetsUnion | ospray/PKDGeometry.cpp:139-155 | every bit of a leaf's mask reaches the mask of each node above it |
| ImplicitTree.SubtreeBitsAreLeafUnion | ospray/PKDGeometry.cpp:139-155 | a subtree mask shares a bit with m if and only if some leaf below the node does |
| ImplicitTree.UniformLeavesGiveUniformMasks | ospray/PKDGeometry.cpp:139-155 | when every leaf mask is 1, every node's mask is 1 |
| RangeTree.MaskIsLeafHistogram | ospray/PKDGeometry.cpp:139-155 | a node's mask has a bin set if and only if some leaf below the node has its attribute in that bin |
| RangeTree.RangeMakesLeavesBinnable | ospray/PKDGeometry.cpp:133-152 | binning every leaf against the scanned range is defined |
| RangeTree.LeafBinInAncestorMask | ospray/PKDGeometry.cpp:139-155 | the bin of every leaf is set in the mask of each inner node above it |
| RangeTree.ThreeParticleMasks | ospray/PKDGeometry.cpp:139-155 | with attributes 0, 1, 2 the table is the single root mask 0x80010000 (leaf bins 16 and 31) |
| RangeTree.InnerAttributeNotInMask | ospray/PKDGeometry.cpp:139-155 | with attributes 0, 1, 2 the root's own bin (bin 0) is missing from the root's mask |
| RangeTree.DegenerateRangeMasks | ospray/PKDGeometry.cpp:65 | when lo == hi every mask in the table is 1 |
| RangeTree.ChildMask | ospray/PKDGeometry.cpp:145-152 | a child contributes its finished entry, its leaf bin or 0 past the last particle, which is in every case the mask of its subtree |
| RangeTree.ComputeBinBits | ospray/PKDGeometry.cpp:139-155 | the descending loop fills a fresh array of numParticles/2 entries equal to the subtree-mask table, so every entry is the OR of its children's contributions |
| PKDGeometry.FinalizeError | ospray/PKDGeometry.cpp:89-111 | finalize fails exactly when the position array is missing, the centres cannot be read or the radius is not positive |
| PKDGeometry.FinalizeErrorCases | ospray/PKDGeometry.cpp:89-111 | each error names its cause: no position array, unreadable format with particles, non-positive radius; a missing radius parameter reads as 0 and is rejected |
| PKDGeometry.SphereBoundsHoldParticles | ospray/PKDGeometry.cpp:118-119 | every point within the radius of a particle lies in the sphere bounds, and the sphere bounds are exactly the points that close to the centre bounds |
| PKDGeometry.PartiKDGeometry.constructor | ospray/PKDGeometry.cpp:28-32 | a new geometry has radius 0.02 and no data |
| PKDGeometry.PartiKDGeometry.Finalize | ospray/PKDGeometry.cpp:79-156 | errors in source order; a missing position clears the stored position data, and a later failure keeps the field writes made before it; on success the handed-over values are the centre bounds, the widened sphere bounds, numParticles/2 inner nodes, the scanned attribute range and the propagated mask table, or no table and range 0..0 without an attribute |

## Left out

- Host framework plumbing. This covers the parameter lookups, the
  transfer-function listener, `useSPMD` and the status messages. The looked-up
  parameters ("position", "attribute", "radius") are inputs of `Finalize`.
- The hand-over to the vector kernel and `dependencyGotChanged`. These are
  foreign calls whose code is not part of this model. `Finalize` returns the
  handed-over values as a `Prepared` record instead.
- `Geometry::finalize(model)`, the base-class call at the start of
  `finalize`. Its code is not part of this model.
- The `expectedRadius` warning. It only logs, and it needs `powf` cube roots.
- The `PARTIKD_LIDAR_ENABLED` switch. Only the branch that computes the masks
  is modelled.
- The leak of `binBitsArray` across repeated commits, and module
  registration.
- `sg/PKD.cpp`. Its substantive code is compiled out.
- Floating point. Positions, attribute values and the radius are exact reals.
  IEEE rounding in `(val-lo)/(hi-lo)`, in `32*…` and in the box arithmetic is
  not modelled. Infinities and NaN are not modelled either; the empty box is
  a constructor of its own.
- AttributeBins.GetAttributeBits: the contract does not name which bit is
  set. `BinMask`, `BinIndex` and `BinEndpoints` state the bin position.
- AttributeBins.BinMask: the C++ shifts a signed `1` by up to 31, and
  `1<<31` overflows a 32-bit `int`. The model takes the intended unsigned
  mask 0x80000000.
- PKDGeometry.PartiKDGeometry.Finalize: the C++ reads the attribute array
  without checking its length. It reads entry 0 and one entry per particle.
  The model requires that many entries (`AttributeCovers`).
- PKDGeometry.PartiKDGeometry.constructor: fields that the C++ constructor
  leaves uninitialised start as "no data" and 0 here.
