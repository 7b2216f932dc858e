/** Vectors and axis-aligned boxes over exact reals, standing in for the
    single-precision vec3f and box3f of the rendering framework. */
module Boxes {

  datatype Vec3 = Vec3(x: real, y: real, z: real)

  function Min(a: real, b: real): real { if b < a then b else a }
  function Max(a: real, b: real): real { if a < b then b else a }

  function MinVec(a: Vec3, b: Vec3): Vec3 { Vec3(Min(a.x, b.x), Min(a.y, b.y), Min(a.z, b.z)) }
  function MaxVec(a: Vec3, b: Vec3): Vec3 { Vec3(Max(a.x, b.x), Max(a.y, b.y), Max(a.z, b.z)) }

  /** A box is either the framework's `empty` box (lower = +inf,
      upper = -inf, which contains nothing) or a box given by its corners. */
  datatype Box3 = Empty | Box(lower: Vec3, upper: Vec3)

  predicate Contains(b: Box3, p: Vec3)
  {
    b.Box? &&
    b.lower.x <= p.x <= b.upper.x &&
    b.lower.y <= p.y <= b.upper.y &&
    b.lower.z <= p.z <= b.upper.z
  }

  /** The box's `extend`: the smallest box holding `b` and `p`. */
  function Extend(b: Box3, p: Vec3): (r: Box3)
    ensures Contains(r, p)
    ensures forall q :: Contains(b, q) ==> Contains(r, q)
  {
    match b
    case Empty => Box(p, p)
    case Box(lo, hi) => Box(MinVec(lo, p), MaxVec(hi, p))
  }

  /** The box of particle centres: `empty` extended by every point in order. */
  function BoundsOf(ps: seq<Vec3>): (b: Box3)
    ensures b.Empty? <==> |ps| == 0
  {
    if |ps| == 0 then Empty else Extend(BoundsOf(ps[..|ps| - 1]), ps[|ps| - 1])
  }

  /** Every face of `b` is attained by some point of `ps`. */
  ghost predicate FacesAttained(b: Box3, ps: seq<Vec3>)
    requires b.Box?
  {
    (exists i :: 0 <= i < |ps| && ps[i].x == b.lower.x) &&
    (exists i :: 0 <= i < |ps| && ps[i].y == b.lower.y) &&
    (exists i :: 0 <= i < |ps| && ps[i].z == b.lower.z) &&
    (exists i :: 0 <= i < |ps| && ps[i].x == b.upper.x) &&
    (exists i :: 0 <= i < |ps| && ps[i].y == b.upper.y) &&
    (exists i :: 0 <= i < |ps| && ps[i].z == b.upper.z)
  }

  /** The folded box is empty exactly when there are no points; otherwise it
      contains every point and each of its six faces touches one of them,
      so it is the tightest box around the points. */
  lemma {:induction false} BoundsOfTight(ps: seq<Vec3>)
    ensures BoundsOf(ps).Empty? <==> |ps| == 0
    ensures forall i :: 0 <= i < |ps| ==> Contains(BoundsOf(ps), ps[i])
    ensures BoundsOf(ps).Box? ==> FacesAttained(BoundsOf(ps), ps)
  {
    if |ps| > 0 {
      var init, last := ps[..|ps| - 1], ps[|ps| - 1];
      BoundsOfTight(init);
      var b, r := BoundsOf(init), BoundsOf(ps);
      assert r == Extend(b, last);
      forall i | 0 <= i < |ps| ensures Contains(r, ps[i]) {
        if i < |ps| - 1 { assert ps[i] == init[i]; }
      }
      if b.Empty? {
        assert r == Box(last, last);
        var k := |ps| - 1;
        assert ps[k].x == r.lower.x && ps[k].y == r.lower.y && ps[k].z == r.lower.z;
        assert ps[k].x == r.upper.x && ps[k].y == r.upper.y && ps[k].z == r.upper.z;
      } else {
        assert forall i :: 0 <= i < |init| ==> init[i] == ps[i];
        var k := |ps| - 1;
        assert ps[k] == last;
      }
    }
  }

  /** The sphere bounds: `b` grown by the radius on all six faces.  An empty
      box stays empty (infinity minus a finite radius is still infinity). */
  function Widen(b: Box3, radius: real): (r: Box3)
    ensures r.Empty? <==> b.Empty?
    ensures radius >= 0.0 ==> forall p :: Contains(b, p) ==> Contains(r, p)
  {
    match b
    case Empty => Empty
    case Box(lo, hi) =>
      Box(Vec3(lo.x - radius, lo.y - radius, lo.z - radius),
          Vec3(hi.x + radius, hi.y + radius, hi.z + radius))
  }

  /** `q` lies within `radius` of `p` along every axis. */
  predicate WithinCube(p: Vec3, q: Vec3, radius: real)
  {
    p.x - radius <= q.x <= p.x + radius &&
    p.y - radius <= q.y <= p.y + radius &&
    p.z - radius <= q.z <= p.z + radius
  }

  function Clamp(v: real, lo: real, hi: real): real { if v < lo then lo else if hi < v then hi else v }

  /** For a non-negative radius the widened box is exactly the set of points
      within `radius` (per axis) of some point of `b`: it holds every sphere
      centred in `b`, and nothing further out. */
  lemma WidenIsCubeSum(b: Box3, radius: real, q: Vec3)
    requires radius >= 0.0
    requires b.Box? ==> b.lower.x <= b.upper.x && b.lower.y <= b.upper.y && b.lower.z <= b.upper.z
    ensures Contains(Widen(b, radius), q) <==> exists p :: Contains(b, p) && WithinCube(p, q, radius)
  {
    if Contains(Widen(b, radius), q) {
      var p := Vec3(Clamp(q.x, b.lower.x, b.upper.x),
                    Clamp(q.y, b.lower.y, b.upper.y),
                    Clamp(q.z, b.lower.z, b.upper.z));
      assert Contains(b, p) && WithinCube(p, q, radius);
    }
  }

  /** A non-empty folded box has its lower corner below its upper corner. */
  lemma {:induction false} BoundsOfOrdered(ps: seq<Vec3>)
    ensures BoundsOf(ps).Box? ==>
      BoundsOf(ps).lower.x <= BoundsOf(ps).upper.x &&
      BoundsOf(ps).lower.y <= BoundsOf(ps).upper.y &&
      BoundsOf(ps).lower.z <= BoundsOf(ps).upper.z
  {
    if |ps| > 0 { BoundsOfOrdered(ps[..|ps| - 1]); }
  }
}
