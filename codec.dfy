/** The quantized particle key: three 20-bit grid coordinates packed into
    one 64-bit word at bit offsets 2, 22 and 42 (PKDGeometry.cpp,
    `decodeParticle`).  Bits 0-1 and 62-63 are reserved and ignored. */
module Codec {
  import opened Boxes

  /** (1 << 20) - 1, the mask of one coordinate field. */
  const FieldMask: bv64 := 0xF_FFFF
  /** Number of grid positions per axis. */
  const GridSize: int := 0x10_0000
  /** The sixty bits the three fields occupy: bits 2 to 61. */
  const PayloadMask: bv64 := 0x3FFF_FFFF_FFFF_FFFC

  const XOffset: bv7 := 2
  const YOffset: bv7 := 22
  const ZOffset: bv7 := 42

  /** The 20-bit field of `key` that starts at bit `offset`. */
  function KeyField(key: bv64, offset: bv7): bv20
    requires offset <= 44
  {
    ((key >> offset) & FieldMask) as bv20
  }

  /** A point whose coordinates are integers of the 20-bit grid. */
  predicate OnGrid(p: Vec3)
  {
    p.x.Floor as real == p.x && 0.0 <= p.x < GridSize as real &&
    p.y.Floor as real == p.y && 0.0 <= p.y < GridSize as real &&
    p.z.Floor as real == p.z && 0.0 <= p.z < GridSize as real
  }

  function GridPoint(x: bv20, y: bv20, z: bv20): Vec3
  {
    Vec3(x as int as real, y as int as real, z as int as real)
  }

  /** `decodeParticle`: the key's three fields, unscaled, as a position.
      Every decoded position is an integer point of the grid. */
  function DecodeParticle(key: bv64): (p: Vec3)
    ensures OnGrid(p)
  {
    GridPoint(KeyField(key, XOffset), KeyField(key, YOffset), KeyField(key, ZOffset))
  }

  /** The packing that `decodeParticle` undoes.  The C++ has no encoder; this
      one places each coordinate at its documented offset and leaves the
      reserved bits clear. */
  function EncodeParticle(x: bv20, y: bv20, z: bv20): bv64
  {
    ((x as bv64) << XOffset) | ((y as bv64) << YOffset) | ((z as bv64) << ZOffset)
  }

  /** Decoding a packed key gives back exactly the coordinates packed. */
  lemma DecodeEncode(x: bv20, y: bv20, z: bv20)
    ensures KeyField(EncodeParticle(x, y, z), XOffset) == x
    ensures KeyField(EncodeParticle(x, y, z), YOffset) == y
    ensures KeyField(EncodeParticle(x, y, z), ZOffset) == z
    ensures DecodeParticle(EncodeParticle(x, y, z)) == GridPoint(x, y, z)
  {
  }

  /** Re-packing the decoded fields rebuilds the key up to its reserved
      bits: the fields are the whole payload. */
  lemma EncodeDecode(key: bv64)
    ensures EncodeParticle(KeyField(key, XOffset), KeyField(key, YOffset), KeyField(key, ZOffset))
         == key & PayloadMask
  {
  }

  /** The reserved bits 0-1 and 62-63 never affect the decoded position, and
      keys that differ in any payload bit decode to different positions. */
  lemma DecodeSeesOnlyPayload(k1: bv64, k2: bv64)
    ensures DecodeParticle(k1) == DecodeParticle(k2) <==> k1 & PayloadMask == k2 & PayloadMask
  {
    EncodeDecode(k1);
    EncodeDecode(k2);
    if DecodeParticle(k1) == DecodeParticle(k2) {
      GridPointInjective(KeyField(k1, XOffset), KeyField(k1, YOffset), KeyField(k1, ZOffset),
                         KeyField(k2, XOffset), KeyField(k2, YOffset), KeyField(k2, ZOffset));
    }
  }

  lemma GridPointInjective(x1: bv20, y1: bv20, z1: bv20, x2: bv20, y2: bv20, z2: bv20)
    requires GridPoint(x1, y1, z1) == GridPoint(x2, y2, z2)
    ensures x1 == x2 && y1 == y2 && z1 == z2
  {
    CoordinateInjective(x1, x2);
    CoordinateInjective(y1, y2);
    CoordinateInjective(z1, z2);
  }

  lemma CoordinateInjective(a: bv20, b: bv20)
    requires a as int as real == b as int as real
    ensures a == b
  {
    var i, j := a as int, b as int;
    assert i == j;
    assert a == i as bv20 && b == j as bv20;
  }
}
