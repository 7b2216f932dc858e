/** The PKD geometry object (PKDGeometry.cpp): the parameters it keeps, and
    `finalize`, which reads the "position", "attribute" and "radius"
    parameters, validates them, and prepares everything the renderer side
    receives -- centre and sphere bounds, the implicit tree's size, the
    attribute range and the per-node attribute masks. */
module PKDGeometry {
  import opened Outcome
  import opened Boxes
  import opened Particles
  import opened AttributeBins
  import opened ImplicitTree
  import opened RangeTree

  /** The radius a fresh geometry starts with. */
  const DefaultRadius: real := 0.02

  /** `getParamf("radius", 0.f)`: a missing radius reads as 0. */
  function RadiusParam(radius: Option<real>): real
  {
    if radius.Some? then radius.value else 0.0
  }

  /** Whether `finalize` gets past its checks: a position array is given,
      its centres can be read, and the radius is positive. */
  predicate Accepts(position: Option<Particles>, radius: Option<real>)
  {
    position.Some? && CenterBounds(position.value).Ok? && RadiusParam(radius) > 0.0
  }

  /** What `finalize` demands of the attribute array without checking it:
      once the checks pass, entry 0 and one entry per particle are read. */
  predicate AttributeCovers(position: Option<Particles>, attribute: Option<seq<real>>, radius: Option<real>)
  {
    Accepts(position, radius) && attribute.Some? ==>
      1 <= |attribute.value| && Count(position.value) <= |attribute.value|
  }

  /** Everything `finalize` hands to the renderer side. */
  datatype Prepared = Prepared(
    isQuantized: bool,
    particleRadius: real,
    numParticles: nat,
    numInnerNodes: nat,
    particles: Particles,
    attribute: Option<seq<real>>,
    binBits: Option<array<bv32>>,
    centerBounds: Box3,
    sphereBounds: Box3,
    attrLo: real,
    attrHi: real)

  /** The error `finalize` raises, in the order it checks. */
  function FinalizeError(position: Option<Particles>, radius: Option<real>): (e: Option<Error>)
    ensures e.None? <==> Accepts(position, radius)
  {
    if position.None? then Some(MissingPosition)
    else if CenterBounds(position.value).Err? then Some(CenterBounds(position.value).error)
    else if RadiusParam(radius) <= 0.0 then Some(InvalidRadius)
    else None
  }

  /** The failing checks name the failing parameter. */
  lemma FinalizeErrorCases(position: Option<Particles>, radius: Option<real>)
    ensures FinalizeError(position, radius) == Some(MissingPosition) <==> position.None?
    ensures FinalizeError(position, radius) == Some(NotImplemented) <==>
      position.Some? && Count(position.value) > 0 && !Supported(position.value)
    ensures FinalizeError(position, radius) == Some(InvalidRadius) <==>
      position.Some? && CenterBounds(position.value).Ok? && RadiusParam(radius) <= 0.0
    ensures position.Some? && CenterBounds(position.value).Ok? && radius.None? ==>
      FinalizeError(position, radius) == Some(InvalidRadius)
  {
    if position.Some? {
      CenterBoundsTight(position.value);
    }
  }

  /** The sphere bounds hold every particle's sphere: every point within
      the radius (along each axis) of a particle centre lies inside, and
      every point inside is that close to some point of the centre bounds. */
  lemma SphereBoundsHoldParticles(d: Particles, radius: real, i: nat, q: Vec3)
    requires CenterBounds(d).Ok? && radius > 0.0 && i < Count(d)
    ensures GetParticle(d, i).Ok?
    ensures WithinCube(GetParticle(d, i).value, q, radius) ==> Contains(Widen(CenterBounds(d).value, radius), q)
    ensures Contains(Widen(CenterBounds(d).value, radius), q) <==>
      exists p :: Contains(CenterBounds(d).value, p) && WithinCube(p, q, radius)
  {
    CenterBoundsTight(d);
    BoundsOfOrdered(Positions(d));
    WidenIsCubeSum(CenterBounds(d).value, radius, q);
    if WithinCube(GetParticle(d, i).value, q, radius) {
      assert Contains(CenterBounds(d).value, GetParticle(d, i).value);
    }
  }

  /** The geometry object: the parameters `finalize` stores on it. */
  class PartiKDGeometry {
    /** `particleData`: the "position" array with its format. */
    var particles: Option<Particles>
    var numParticles: nat
    /** `attributeData`: the optional per-particle "attribute" array. */
    var attributeData: Option<seq<real>>
    var particleRadius: real

    constructor()
      ensures particles.None? && numParticles == 0 && attributeData.None?
      ensures particleRadius == DefaultRadius
    {
      particles := None;
      numParticles := 0;
      attributeData := None;
      particleRadius := DefaultRadius;
    }

    /** `finalize`: read the parameters, throw on a missing position array,
        on unreadable centres and on a non-positive radius, and otherwise
        compute the bounds, the tree size, the attribute range and the mask
        table.  The fields are written as the C++ writes them, so a later
        failure leaves the earlier writes in place. */
    method Finalize(position: Option<Particles>, attribute: Option<seq<real>>, radius: Option<real>)
      returns (r: Result<Prepared>)
      requires AttributeCovers(position, attribute, radius)
      modifies this
      ensures r.Err? <==> FinalizeError(position, radius).Some?
      ensures r.Err? ==> r.error == FinalizeError(position, radius).value
      ensures position.None? ==>
        particles.None? && numParticles == old(numParticles) &&
        attributeData == old(attributeData) && particleRadius == old(particleRadius)
      ensures position.Some? ==> particles == position && numParticles == Count(position.value)
      ensures position.Some? && CenterBounds(position.value).Err? ==>
        attributeData == old(attributeData) && particleRadius == old(particleRadius)
      ensures position.Some? && CenterBounds(position.value).Ok? ==>
        attributeData == attribute && particleRadius == RadiusParam(radius)
      ensures r.Ok? ==>
        var g := r.value;
        g.isQuantized == position.value.ULongData? &&
        g.particleRadius == particleRadius &&
        g.numParticles == numParticles &&
        g.numInnerNodes == NumInnerNodes(numParticles) &&
        g.particles == position.value &&
        g.attribute == attribute &&
        g.centerBounds == CenterBounds(position.value).value &&
        g.sphereBounds == Widen(g.centerBounds, particleRadius)
      ensures r.Ok? && attribute.None? ==>
        r.value.binBits.None? && r.value.attrLo == 0.0 && r.value.attrHi == 0.0
      ensures r.Ok? && attribute.Some? ==>
        var g := r.value;
        IsAttributeRange(attribute.value, numParticles, g.attrLo, g.attrHi) &&
        LeavesBinnable(attribute.value, numParticles, g.attrLo, g.attrHi) &&
        g.binBits.Some? && fresh(g.binBits.value) &&
        g.binBits.value[..] == MaskTable(attribute.value, numParticles, g.attrLo, g.attrHi)
    {
      if position.None? {
        particles := None;
        return Err(MissingPosition);
      }
      var d := position.value;
      particles := position;
      numParticles := Count(d);
      var isQuantized := d.ULongData?;
      var centerBounds := GetBounds(d);
      if centerBounds.Err? {
        return Err(centerBounds.error);
      }
      attributeData := attribute;
      particleRadius := RadiusParam(radius);
      if particleRadius <= 0.0 {
        return Err(InvalidRadius);
      }
      var sphereBounds := Widen(centerBounds.value, particleRadius);
      var numInnerNodes := NumInnerNodes(numParticles);
      var attrLo, attrHi := 0.0, 0.0;
      var binBits: Option<array<bv32>> := None;
      if attribute.Some? {
        var a := attribute.value;
        attrLo, attrHi := AttributeRange(a, numParticles);
        RangeMakesLeavesBinnable(a, numParticles, attrLo, attrHi);
        var bits := ComputeBinBits(a, numParticles, attrLo, attrHi);
        binBits := Some(bits);
      }
      r := Ok(Prepared(isQuantized, particleRadius, numParticles, numInnerNodes, d, attribute,
                       binBits, centerBounds.value, sphereBounds, attrLo, attrHi));
    }
  }
}
