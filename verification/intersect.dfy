/** Nearest-hit selection of the kernel's `intersect` (shaders/pocketpt_ne.cs:39-107): every
    plane, then every sphere, proposes a candidate distance, and a strict `<` against the best
    so far keeps the first of several equally near objects. Distances are reals; `sqrt` is a
    parameter, because only the selection logic is modelled, not the float arithmetic. */
module Intersect {
  import opened Numeric
  import opened Wrappers
  import opened Scene

  const Eps: real := 0.0001
  const Inf: real := 100000000000000000000.0

  datatype Ray = Ray(o: V3, d: V3)

  /** `ePlane` (0) and `eSphere` (1). */
  datatype ObjKind = PlaneObj | SphereObj

  /** `HitInfo`: distance, object type and index into that type's buffer. */
  datatype Hit = Hit(t: real, kind: ObjKind, idx: nat)

  /** The point `o + t * d` on a ray. */
  function At(r: Ray, t: real): V3 {
    Add(r.o, Scale(r.d, t))
  }

  /** Plane candidate: only rays with `dot(d, n) > eps` see the plane, and the distance
      is not compared with eps (lines 43-47). */
  function PlaneDist(p: Plane, r: Ray): Option<real> {
    var denom := Dot(r.d, p.normal);
    if denom > Eps then Some((p.offset - Dot(r.o, p.normal)) / denom) else None
  }

  /** `b = dot(center - o, d)` of the simplified quadratic. */
  function SphereB(s: Sphere, r: Ray): real {
    Dot(Sub(s.center, r.o), r.d)
  }

  /** `det = b*b - dot(oc, oc) + radius*radius`. */
  function SphereDet(s: Sphere, r: Ray): real {
    var oc := Sub(s.center, r.o);
    SphereB(s, r) * SphereB(s, r) - Dot(oc, oc) + s.radius * s.radius
  }

  /** Sphere candidate (lines 90-94): none for `det < 0`, else the near root if it exceeds
      eps, else the far root if it exceeds eps, else the `inf` sentinel. */
  function SphereDist(s: Sphere, r: Ray, sqrt: real -> real): Option<real> {
    var b := SphereB(s, r);
    var det := SphereDet(s, r);
    if det < 0.0 then None else Some(ChooseRoot(b, sqrt(det)))
  }

  /** `(d = b - det) > eps ? d : ((d = b + det) > eps ? d : inf)` with `det` already rooted. */
  function ChooseRoot(b: real, sd: real): real {
    if b - sd > Eps then b - sd else if b + sd > Eps then b + sd else Inf
  }

  /** With a non-negative root, the choice is the smaller of the two roots exceeding eps,
      or the sentinel when neither root lies strictly between eps and the sentinel. */
  lemma ChooseRootLeast(b: real, sd: real, u: real)
    requires sd >= 0.0
    requires u == b - sd || u == b + sd
    ensures ChooseRoot(b, sd) == Inf ==> u <= Eps || u >= Inf
    ensures ChooseRoot(b, sd) != Inf ==> ChooseRoot(b, sd) > Eps && (u > Eps ==> ChooseRoot(b, sd) <= u)
  {
  }

  ghost predicate OnPlane(p: Plane, x: V3) {
    Dot(x, p.normal) == p.offset
  }

  ghost predicate OnSphere(s: Sphere, x: V3) {
    Dot(Sub(x, s.center), Sub(x, s.center)) == s.radius * s.radius
  }

  /** `sqrt` behaves as the square root at the one value it is applied to. */
  ghost predicate SqrtAt(sqrt: real -> real, v: real) {
    sqrt(v) >= 0.0 && sqrt(v) * sqrt(v) == v
  }

  /** A plane is a candidate exactly when the ray travels along its normal by more than
      eps, and then the candidate point lies on the plane. */
  lemma PlaneDistOnPlane(p: Plane, r: Ray)
    ensures PlaneDist(p, r).Some? <==> Dot(r.d, p.normal) > Eps
    ensures PlaneDist(p, r).Some? ==> OnPlane(p, At(r, PlaneDist(p, r).value))
  {
    if PlaneDist(p, r).Some? {
      var t := PlaneDist(p, r).value;
      var denom := Dot(r.d, p.normal);
      assert t * denom == p.offset - Dot(r.o, p.normal);
      assert Dot(At(r, t), p.normal) == Dot(r.o, p.normal) + t * denom;
    }
  }

  /** Plane distances are not checked against eps: a plane behind the origin is a
      candidate with a negative distance. */
  lemma PlaneBehindOriginIsCandidate()
    ensures PlaneDist(Plane(V3(1.0, 0.0, 0.0), 0.0, Zero3, Zero3, 1.0),
                      Ray(V3(1.0, 0.0, 0.0), V3(1.0, 0.0, 0.0))) == Some(-1.0)
  {
  }

  /** One coordinate of the expansion below. */
  lemma SquareExpand(u: real, d: real, o: real)
    ensures (u * d - o) * (u * d - o) == u * u * (d * d) - 2.0 * u * (o * d) + o * o
  {
  }

  /** `|u*d - oc|^2` expanded into powers of `u`. */
  lemma DistanceExpand(d: V3, oc: V3, u: real)
    ensures var x := Sub(Scale(d, u), oc);
            Dot(x, x) == u * u * Dot(d, d) - 2.0 * u * Dot(oc, d) + Dot(oc, oc)
  {
    SquareExpand(u, d.x, oc.x);
    SquareExpand(u, d.y, oc.y);
    SquareExpand(u, d.z, oc.z);
    var x := Sub(Scale(d, u), oc);
    assert x == V3(u * d.x - oc.x, u * d.y - oc.y, u * d.z - oc.z);
  }

  /** The roots of `u^2 - 2bu + c` are `b -+ sd` when `sd` is a square root of `b^2 - c`. */
  lemma QuadraticRoots(u: real, b: real, c: real, sd: real)
    requires sd * sd == b * b - c
    ensures u * u - 2.0 * u * b + c == 0.0 <==> u == b - sd || u == b + sd
  {
    var e := u - b;
    assert u * u - 2.0 * u * b + c == e * e - sd * sd;
    assert e * e - sd * sd == (e - sd) * (e + sd);
    if (e - sd) * (e + sd) == 0.0 {
      assert e - sd == 0.0 || e + sd == 0.0;
    }
  }

  /** The constant term `|oc|^2 - radius^2` of the sphere's quadratic. */
  function SphereC(s: Sphere, r: Ray): real {
    var oc := Sub(s.center, r.o);
    Dot(oc, oc) - s.radius * s.radius
  }

  /** The squared distance of the point at `u` from the centre, as a polynomial in `u`. */
  lemma CenterDistance(s: Sphere, r: Ray, u: real)
    ensures var x := Sub(At(r, u), s.center);
            Dot(x, x) == u * u * Dot(r.d, r.d) - 2.0 * u * SphereB(s, r) + (SphereC(s, r) + s.radius * s.radius)
  {
    var oc := Sub(s.center, r.o);
    assert Sub(At(r, u), s.center) == Sub(Scale(r.d, u), oc);
    DistanceExpand(r.d, oc, u);
  }

  /** For a unit direction, the point at `u` is on the sphere iff `u^2 - 2bu + c = 0`. */
  lemma SphereEquation(s: Sphere, r: Ray, u: real)
    requires Dot(r.d, r.d) == 1.0
    ensures OnSphere(s, At(r, u)) <==> u * u - 2.0 * u * SphereB(s, r) + SphereC(s, r) == 0.0
    ensures SphereDet(s, r) == SphereB(s, r) * SphereB(s, r) - SphereC(s, r)
  {
    CenterDistance(s, r, u);
    var dd := Dot(r.d, r.d);
    assert u * u * dd == u * u;
  }

  /** Points of the ray on the sphere are exactly the roots `b - sqrt(det)` and
      `b + sqrt(det)` when `d` is a unit vector. */
  lemma SphereRoots(s: Sphere, r: Ray, sqrt: real -> real, u: real)
    requires Dot(r.d, r.d) == 1.0
    requires SphereDet(s, r) >= 0.0 && SqrtAt(sqrt, SphereDet(s, r))
    ensures OnSphere(s, At(r, u)) <==>
              u == SphereB(s, r) - sqrt(SphereDet(s, r)) || u == SphereB(s, r) + sqrt(SphereDet(s, r))
  {
    SphereEquation(s, r, u);
    QuadraticRoots(u, SphereB(s, r), SphereC(s, r), sqrt(SphereDet(s, r)));
  }

  /** A sphere has no candidate iff `det < 0`; otherwise the candidate is either the sentinel,
      when no root lies strictly between eps and the sentinel, or the nearest point of the
      sphere beyond eps. */
  lemma SphereDistNearestRoot(s: Sphere, r: Ray, sqrt: real -> real)
    requires Dot(r.d, r.d) == 1.0
    requires SphereDet(s, r) >= 0.0 ==> SqrtAt(sqrt, SphereDet(s, r))
    ensures SphereDist(s, r, sqrt).None? <==> SphereDet(s, r) < 0.0
    ensures SphereDist(s, r, sqrt) == Some(Inf) ==>
              forall u :: OnSphere(s, At(r, u)) ==> u <= Eps || u >= Inf
    ensures SphereDist(s, r, sqrt).Some? && SphereDist(s, r, sqrt).value != Inf ==>
              var t := SphereDist(s, r, sqrt).value;
              t > Eps && OnSphere(s, At(r, t)) &&
              forall u :: u > Eps && OnSphere(s, At(r, u)) ==> t <= u
  {
    var det := SphereDet(s, r);
    if det >= 0.0 {
      var b := SphereB(s, r);
      var sd := sqrt(det);
      var t := ChooseRoot(b, sd);
      assert SphereDist(s, r, sqrt) == Some(t);
      forall u | OnSphere(s, At(r, u))
        ensures t == Inf ==> u <= Eps || u >= Inf
        ensures t != Inf ==> (u > Eps ==> t <= u)
      {
        SphereRoots(s, r, sqrt, u);
        ChooseRootLeast(b, sd, u);
      }
      if t != Inf {
        assert t == b - sd || t == b + sd;
        SphereRoots(s, r, sqrt, t);
        ChooseRootLeast(b, sd, t);
      }
    }
  }

  /** The unit sphere at the origin seen from (0,0,5) along -z is hit at distance 4. */
  lemma SphereDistExample(sqrt: real -> real)
    requires sqrt(1.0) == 1.0
    ensures SphereDist(Sphere(Zero3, 1.0, Zero3, Zero3, 1.0),
                       Ray(V3(0.0, 0.0, 5.0), V3(0.0, 0.0, -1.0)), sqrt) == Some(4.0)
  {
  }

  /** Number of candidates, in scan order: all planes, then all spheres. */
  function Count(sc: Scene): nat {
    |sc.planes| + |sc.spheres|
  }

  /** Candidate distance of the `k`-th object in scan order. */
  function Dist(sc: Scene, r: Ray, sqrt: real -> real, k: nat): Option<real>
    requires k < Count(sc)
  {
    if k < |sc.planes| then PlaneDist(sc.planes[k], r)
    else SphereDist(sc.spheres[k - |sc.planes|], r, sqrt)
  }

  /** The hit record naming the `k`-th object in scan order. */
  function HitAt(sc: Scene, k: nat, t: real): Hit {
    if k < |sc.planes| then Hit(t, PlaneObj, k) else Hit(t, SphereObj, k - |sc.planes|)
  }

  /** The scan position of the object a hit record names. */
  function Position(sc: Scene, h: Hit): nat {
    if h.kind == PlaneObj then h.idx else |sc.planes| + h.idx
  }

  /** Object `k` is a hit (closer than the sentinel), no candidate is closer, and every
      candidate scanned before it is strictly farther. */
  ghost predicate FirstNearest(sc: Scene, r: Ray, sqrt: real -> real, k: nat) {
    && k < Count(sc)
    && Dist(sc, r, sqrt, k).Some?
    && Dist(sc, r, sqrt, k).value < Inf
    && (forall j :: 0 <= j < Count(sc) && Dist(sc, r, sqrt, j).Some? ==>
          Dist(sc, r, sqrt, k).value <= Dist(sc, r, sqrt, j).value)
    && (forall j :: 0 <= j < k && Dist(sc, r, sqrt, j).Some? ==>
          Dist(sc, r, sqrt, k).value < Dist(sc, r, sqrt, j).value)
  }

  /** The loop state after scanning positions `k..`, starting from the running minimum `t`
      and the position `best` that last improved it: a strict `<` replaces the pair. */
  function Scan(sc: Scene, r: Ray, sqrt: real -> real, k: nat, t: real, best: Option<nat>)
    : (real, Option<nat>)
    requires k <= Count(sc)
    decreases Count(sc) - k
  {
    if k == Count(sc) then (t, best)
    else
      match Dist(sc, r, sqrt, k)
      case Some(d) =>
        if d < t then Scan(sc, r, sqrt, k + 1, d, Some(k)) else Scan(sc, r, sqrt, k + 1, t, best)
      case None => Scan(sc, r, sqrt, k + 1, t, best)
  }

  /** The scan ends at a minimum over `t` and the candidates from `k` on. Either nothing from
      `k` on improved on `t`, or the returned position is the first one holding the new,
      strictly smaller, minimum. */
  lemma {:induction false} ScanMinimum(sc: Scene, r: Ray, sqrt: real -> real, k: nat, t: real, best: Option<nat>)
    requires k <= Count(sc)
    ensures var res := Scan(sc, r, sqrt, k, t, best);
            && res.0 <= t
            && (forall j :: k <= j < Count(sc) && Dist(sc, r, sqrt, j).Some? ==>
                  res.0 <= Dist(sc, r, sqrt, j).value)
            && (res == (t, best) ||
                (&& res.1.Some?
                 && k <= res.1.value < Count(sc)
                 && Dist(sc, r, sqrt, res.1.value) == Some(res.0)
                 && res.0 < t
                 && forall j :: k <= j < res.1.value && Dist(sc, r, sqrt, j).Some? ==>
                      res.0 < Dist(sc, r, sqrt, j).value))
    decreases Count(sc) - k
  {
    if k < Count(sc) {
      match Dist(sc, r, sqrt, k)
      case Some(d) =>
        if d < t {
          ScanMinimum(sc, r, sqrt, k + 1, d, Some(k));
        } else {
          ScanMinimum(sc, r, sqrt, k + 1, t, best);
        }
      case None =>
        ScanMinimum(sc, r, sqrt, k + 1, t, best);
    }
  }

  /** `intersect`: a hit iff some candidate is closer than the sentinel, and then the hit
      names the first nearest object with its distance. */
  function Nearest(sc: Scene, r: Ray, sqrt: real -> real): (h: Option<Hit>)
    ensures h.None? <==>
              forall k :: 0 <= k < Count(sc) && Dist(sc, r, sqrt, k).Some? ==> Dist(sc, r, sqrt, k).value >= Inf
    ensures h.Some? ==>
              && (h.value.kind == PlaneObj ==> h.value.idx < |sc.planes|)
              && (h.value.kind == SphereObj ==> h.value.idx < |sc.spheres|)
              && FirstNearest(sc, r, sqrt, Position(sc, h.value))
              && Dist(sc, r, sqrt, Position(sc, h.value)) == Some(h.value.t)
  {
    ScanMinimum(sc, r, sqrt, 0, Inf, None);
    match Scan(sc, r, sqrt, 0, Inf, None)
    case (t, Some(k)) => Some(HitAt(sc, k, t))
    case (_, None) => None
  }

  /** At most one object is the first nearest, so `Nearest` is fully determined. */
  lemma FirstNearestUnique(sc: Scene, r: Ray, sqrt: real -> real, k1: nat, k2: nat)
    requires FirstNearest(sc, r, sqrt, k1) && FirstNearest(sc, r, sqrt, k2)
    ensures k1 == k2
  {
  }

  /** Ties between a plane and a sphere go to the plane, because planes are scanned first. */
  lemma PlaneWinsTie(sc: Scene, r: Ray, sqrt: real -> real, i: nat, j: nat)
    requires i < |sc.planes| && j < |sc.spheres|
    requires PlaneDist(sc.planes[i], r).Some? && SphereDist(sc.spheres[j], r, sqrt).Some?
    requires PlaneDist(sc.planes[i], r).value == SphereDist(sc.spheres[j], r, sqrt).value
    ensures Nearest(sc, r, sqrt) != Some(Hit(SphereDist(sc.spheres[j], r, sqrt).value, SphereObj, j))
  {
    assert Dist(sc, r, sqrt, i) == PlaneDist(sc.planes[i], r);
    assert Dist(sc, r, sqrt, |sc.planes| + j) == SphereDist(sc.spheres[j], r, sqrt);
  }

  /** The shader's two loops, over planes and then spheres, with `t`, `objType` and `objIdx`
      as loop state; the result is the scan's. */
  method IntersectLoops(sc: Scene, ray: Ray, sqrt: real -> real) returns (h: Option<Hit>)
    ensures h == Nearest(sc, ray, sqrt)
  {
    var t := Inf;
    var kind := PlaneObj;
    var idx := 0;
    var i := 0;
    while i < |sc.planes|
      invariant 0 <= i <= |sc.planes|
      invariant t <= Inf
      invariant kind == PlaneObj
      invariant t < Inf ==> idx < i
      invariant Scan(sc, ray, sqrt, i, t, if t < Inf then Some(idx) else None)
                == Scan(sc, ray, sqrt, 0, Inf, None)
    {
      match PlaneDist(sc.planes[i], ray) {
        case Some(d) =>
          if d < t {
            t := d;
            kind := PlaneObj;
            idx := i;
          }
        case None =>
      }
      i := i + 1;
    }
    ghost var pos := idx;
    i := 0;
    while i < |sc.spheres|
      invariant 0 <= i <= |sc.spheres|
      invariant t <= Inf
      invariant t < Inf ==> (kind == PlaneObj && idx < |sc.planes|) || (kind == SphereObj && idx < i)
      invariant pos == Position(sc, Hit(t, kind, idx))
      invariant Scan(sc, ray, sqrt, |sc.planes| + i, t, if t < Inf then Some(pos) else None)
                == Scan(sc, ray, sqrt, 0, Inf, None)
    {
      assert Dist(sc, ray, sqrt, |sc.planes| + i) == SphereDist(sc.spheres[i], ray, sqrt);
      match SphereDist(sc.spheres[i], ray, sqrt) {
        case Some(d) =>
          if d < t {
            t := d;
            kind := SphereObj;
            idx := i;
            pos := |sc.planes| + i;
          }
        case None =>
      }
      i := i + 1;
    }
    if t < Inf {
      h := Some(Hit(t, kind, idx));
    } else {
      h := None;
    }
  }
}
