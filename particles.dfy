/** The particle store of the PKD geometry: the "position" data array with
    its element format, the format dispatch of `getParticle`, and the
    centre-bounds scan `getBounds` (PKDGeometry.cpp). */
module Particles {
  import opened Outcome
  import opened Boxes
  import opened Codec

  /** The position data with its format tag.  Only `OSP_FLOAT3` and
      `OSP_ULONG` (quantized keys) are readable; any other tag is kept with
      its item count so that reading it fails like the C++ does. */
  datatype Particles =
    | Float3Data(points: seq<Vec3>)
    | ULongData(keys: seq<bv64>)
    | OtherData(format: int, numItems: nat)

  /** `numParticles`, the data's item count. */
  function Count(d: Particles): nat
  {
    match d
    case Float3Data(points) => |points|
    case ULongData(keys) => |keys|
    case OtherData(_, numItems) => numItems
  }

  predicate Supported(d: Particles) { !d.OtherData? }

  /** `getParticle(i)`: a stored float3 is returned as is, a quantized key
      is decoded, and any other format fails with NOTIMPLEMENTED rather
      than yielding a default position. */
  function GetParticle(d: Particles, i: nat): (r: Result<Vec3>)
    requires i < Count(d)
    ensures r.Ok? <==> Supported(d)
    ensures r.Err? ==> r.error == NotImplemented
    ensures d.ULongData? ==> OnGrid(r.value)
  {
    match d
    case Float3Data(points) => Ok(points[i])
    case ULongData(keys) => Ok(DecodeParticle(keys[i]))
    case OtherData(_, _) => Err(NotImplemented)
  }

  /** All particle positions of readable data, in index order. */
  function Positions(d: Particles): (ps: seq<Vec3>)
    requires Supported(d)
    ensures |ps| == Count(d)
  {
    seq(Count(d), i requires 0 <= i < Count(d) => GetParticle(d, i).value)
  }

  /** What `getBounds` yields: the box of all particle centres, failing only
      when there is a particle to read and its format is unreadable. */
  function CenterBounds(d: Particles): (r: Result<Box3>)
    ensures r.Err? <==> Count(d) > 0 && !Supported(d)
    ensures r.Err? ==> r.error == NotImplemented
  {
    if Count(d) == 0 then Ok(Empty)
    else if !Supported(d) then Err(NotImplemented)
    else Ok(BoundsOf(Positions(d)))
  }

  /** The centre bounds contain every particle, are empty exactly when there
      are no particles, and each face is attained by some particle. */
  lemma CenterBoundsTight(d: Particles)
    ensures CenterBounds(d).Err? <==> Count(d) > 0 && !Supported(d)
    ensures CenterBounds(d).Ok? ==> (CenterBounds(d).value.Empty? <==> Count(d) == 0)
    ensures CenterBounds(d).Ok? ==>
      forall i :: 0 <= i < Count(d) ==> GetParticle(d, i).Ok? && Contains(CenterBounds(d).value, GetParticle(d, i).value)
    ensures CenterBounds(d).Ok? && CenterBounds(d).value.Box? ==> FacesAttained(CenterBounds(d).value, Positions(d))
  {
    if Count(d) > 0 && Supported(d) {
      var ps := Positions(d);
      BoundsOfTight(ps);
      forall i | 0 <= i < Count(d)
        ensures GetParticle(d, i).Ok? && Contains(CenterBounds(d).value, GetParticle(d, i).value)
      {
        assert ps[i] == GetParticle(d, i).value;
      }
    }
  }

  /** Every quantized particle lies on the 20-bit grid, so the centre bounds
      of quantized data lie within [0, 2^20) on every axis. */
  lemma QuantizedBoundsOnGrid(d: Particles)
    requires d.ULongData? && Count(d) > 0
    ensures CenterBounds(d).Ok? && CenterBounds(d).value.Box?
    ensures OnGrid(CenterBounds(d).value.lower) && OnGrid(CenterBounds(d).value.upper)
  {
    CenterBoundsTight(d);
    var b, ps := CenterBounds(d).value, Positions(d);
    assert forall i :: 0 <= i < |ps| ==> OnGrid(ps[i]) by {
      forall i | 0 <= i < |ps| ensures OnGrid(ps[i]) { assert ps[i] == GetParticle(d, i).value; }
    }
    var ix :| 0 <= ix < |ps| && ps[ix].x == b.lower.x;
    var iy :| 0 <= iy < |ps| && ps[iy].y == b.lower.y;
    var iz :| 0 <= iz < |ps| && ps[iz].z == b.lower.z;
    var jx :| 0 <= jx < |ps| && ps[jx].x == b.upper.x;
    var jy :| 0 <= jy < |ps| && ps[jy].y == b.upper.y;
    var jz :| 0 <= jz < |ps| && ps[jz].z == b.upper.z;
    assert OnGrid(ps[ix]) && OnGrid(ps[iy]) && OnGrid(ps[iz]);
    assert OnGrid(ps[jx]) && OnGrid(ps[jy]) && OnGrid(ps[jz]);
  }

  /** `getBounds`: extends an initially empty box by every particle in index
      order; reading an unsupported format aborts the scan. */
  method GetBounds(d: Particles) returns (r: Result<Box3>)
    ensures r == CenterBounds(d)
  {
    var n := Count(d);
    var b := Empty;
    var i := 0;
    while i < n
      invariant 0 <= i <= n
      invariant i > 0 ==> Supported(d)
      invariant i == 0 ==> b == Empty
      invariant Supported(d) ==> b == BoundsOf(Positions(d)[..i])
    {
      var p := GetParticle(d, i);
      if p.Err? {
        return Err(p.error);
      }
      ghost var ps := Positions(d);
      assert ps[..i + 1][..i] == ps[..i];
      b := Extend(b, p.value);
      i := i + 1;
    }
    if n > 0 {
      assert Positions(d)[..n] == Positions(d);
    }
    r := Ok(b);
  }
}
