/** The scene store: sphere and plane records as the host lays them out in two flat float
    arrays (pocketpt_ne.js:52-93) and as the kernel reads them back as `vec4` triples
    (shaders/pocketpt_ne.cs:6-12, 149-159), and the float-encoded material type. */
module Scene {
  import opened Numeric

  /** `geo = (center, radius)`, `e = (emission, 0)`, `c = (albedo, material code)`. */
  datatype Sphere = Sphere(center: V3, radius: real, emission: V3, color: V3, code: real)

  /** `equation = (normal, offset)`: the plane `dot(p, normal) == offset`. */
  datatype Plane = Plane(normal: V3, offset: real, emission: V3, color: V3, code: real)

  /** The two read-only buffers, each in the order the kernel scans them. */
  datatype Scene = Scene(planes: seq<Plane>, spheres: seq<Sphere>)

  /** The material codes 1, 2 and 3; any other rounded code is kept as `Unknown`. */
  datatype Material = Diffuse | Reflective | Refractive | Unknown(code: int)

  const DiffuseCode: int := 1
  const ReflectiveCode: int := 2
  const RefractiveCode: int := 3

  /** `int(floor(w + 0.5f))`: round to nearest, halves upwards. */
  function RoundCode(w: real): (k: int)
    ensures k as real - 0.5 <= w < k as real + 0.5
  {
    (w + 0.5).Floor
  }

  function DecodeMaterial(w: real): Material {
    var k := RoundCode(w);
    if k == DiffuseCode then Diffuse
    else if k == ReflectiveCode then Reflective
    else if k == RefractiveCode then Refractive
    else Unknown(k)
  }

  /** Each material owns the half-open interval of codes that round to it. */
  lemma DecodeMaterialIntervals(w: real)
    ensures DecodeMaterial(w) == Diffuse <==> 0.5 <= w < 1.5
    ensures DecodeMaterial(w) == Reflective <==> 1.5 <= w < 2.5
    ensures DecodeMaterial(w) == Refractive <==> 2.5 <= w < 3.5
    ensures DecodeMaterial(w).Unknown? <==> w < 0.5 || 3.5 <= w
  {
  }

  /** The codes the host writes decode to the intended materials. */
  lemma DecodeMaterialCodes()
    ensures DecodeMaterial(1.0) == Diffuse
    ensures DecodeMaterial(2.0) == Reflective
    ensures DecodeMaterial(3.0) == Refractive
    ensures DecodeMaterial(0.0) == Unknown(0)
  {
    DecodeMaterialIntervals(1.0);
    DecodeMaterialIntervals(2.0);
    DecodeMaterialIntervals(3.0);
    assert RoundCode(0.0) == 0;
  }

  const FloatsPerRecord: nat := 12

  /** Number of records the kernel sees in a float array: the runtime length of an array
      of 48-byte structs over the buffer. */
  function RecordCount(data: seq<real>): nat {
    |data| / FloatsPerRecord
  }

  function Record(data: seq<real>, i: nat): (rec: seq<real>)
    requires i < RecordCount(data)
    ensures |rec| == FloatsPerRecord
  {
    data[FloatsPerRecord * i .. FloatsPerRecord * i + FloatsPerRecord]
  }

  function SphereOfRecord(rec: seq<real>): Sphere
    requires |rec| == FloatsPerRecord
  {
    Sphere(V3(rec[0], rec[1], rec[2]), rec[3], V3(rec[4], rec[5], rec[6]),
           V3(rec[8], rec[9], rec[10]), rec[11])
  }

  function PlaneOfRecord(rec: seq<real>): Plane
    requires |rec| == FloatsPerRecord
  {
    Plane(V3(rec[0], rec[1], rec[2]), rec[3], V3(rec[4], rec[5], rec[6]),
          V3(rec[8], rec[9], rec[10]), rec[11])
  }

  /** The host's row `center.xyz, radius | emission.xyz, 0 | color.rgb, type`. */
  function SphereRecord(s: Sphere): (rec: seq<real>)
    ensures |rec| == FloatsPerRecord
  {
    [s.center.x, s.center.y, s.center.z, s.radius,
     s.emission.x, s.emission.y, s.emission.z, 0.0,
     s.color.x, s.color.y, s.color.z, s.code]
  }

  function PlaneRecord(p: Plane): (rec: seq<real>)
    ensures |rec| == FloatsPerRecord
  {
    [p.normal.x, p.normal.y, p.normal.z, p.offset,
     p.emission.x, p.emission.y, p.emission.z, 0.0,
     p.color.x, p.color.y, p.color.z, p.code]
  }

  /** Reading a record back yields the sphere that was written; a record is the encoding
      of the sphere read from it exactly when its padding float is zero. */
  lemma SphereRecordRoundTrip(s: Sphere, rec: seq<real>)
    requires |rec| == FloatsPerRecord
    ensures SphereOfRecord(SphereRecord(s)) == s
    ensures SphereRecord(SphereOfRecord(rec)) == rec <==> rec[7] == 0.0
  {
    if rec[7] == 0.0 {
      assert SphereRecord(SphereOfRecord(rec)) == rec;
    }
  }

  lemma PlaneRecordRoundTrip(p: Plane, rec: seq<real>)
    requires |rec| == FloatsPerRecord
    ensures PlaneOfRecord(PlaneRecord(p)) == p
    ensures PlaneRecord(PlaneOfRecord(rec)) == rec <==> rec[7] == 0.0
  {
    if rec[7] == 0.0 {
      assert PlaneRecord(PlaneOfRecord(rec)) == rec;
    }
  }

  /** The sphere buffer as the kernel sees it; a trailing partial record is not visible. */
  function Spheres(data: seq<real>): (ss: seq<Sphere>)
    ensures |ss| == RecordCount(data)
  {
    seq(RecordCount(data), i requires 0 <= i < RecordCount(data) => SphereOfRecord(Record(data, i)))
  }

  function Planes(data: seq<real>): (ps: seq<Plane>)
    ensures |ps| == RecordCount(data)
  {
    seq(RecordCount(data), i requires 0 <= i < RecordCount(data) => PlaneOfRecord(Record(data, i)))
  }

  /** The flat float array the host fills for a list of spheres. */
  function SphereData(ss: seq<Sphere>): (data: seq<real>)
    ensures |data| == FloatsPerRecord * |ss|
  {
    if ss == [] then [] else SphereData(ss[..|ss| - 1]) + SphereRecord(ss[|ss| - 1])
  }

  function PlaneData(ps: seq<Plane>): (data: seq<real>)
    ensures |data| == FloatsPerRecord * |ps|
  {
    if ps == [] then [] else PlaneData(ps[..|ps| - 1]) + PlaneRecord(ps[|ps| - 1])
  }

  lemma {:induction false} SphereDataRecord(ss: seq<Sphere>, i: nat)
    requires i < |ss|
    ensures i < RecordCount(SphereData(ss))
    ensures Record(SphereData(ss), i) == SphereRecord(ss[i])
    decreases |ss|
  {
    var init := ss[..|ss| - 1];
    if i < |ss| - 1 {
      SphereDataRecord(init, i);
      assert SphereData(ss)[..|SphereData(init)|] == SphereData(init);
    } else {
      assert SphereData(ss)[|SphereData(init)|..] == SphereRecord(ss[i]);
    }
  }

  lemma {:induction false} PlaneDataRecord(ps: seq<Plane>, i: nat)
    requires i < |ps|
    ensures i < RecordCount(PlaneData(ps))
    ensures Record(PlaneData(ps), i) == PlaneRecord(ps[i])
    decreases |ps|
  {
    var init := ps[..|ps| - 1];
    if i < |ps| - 1 {
      PlaneDataRecord(init, i);
      assert PlaneData(ps)[..|PlaneData(init)|] == PlaneData(init);
    } else {
      assert PlaneData(ps)[|PlaneData(init)|..] == PlaneRecord(ps[i]);
    }
  }

  /** Writing a sphere list into a buffer and reading it in the kernel gives back the list. */
  lemma SpheresRoundTrip(ss: seq<Sphere>)
    ensures Spheres(SphereData(ss)) == ss
  {
    forall i | 0 <= i < |ss|
      ensures Spheres(SphereData(ss))[i] == ss[i]
    {
      SphereDataRecord(ss, i);
      SphereRecordRoundTrip(ss[i], SphereRecord(ss[i]));
    }
  }

  lemma PlanesRoundTrip(ps: seq<Plane>)
    ensures Planes(PlaneData(ps)) == ps
  {
    forall i | 0 <= i < |ps|
      ensures Planes(PlaneData(ps))[i] == ps[i]
    {
      PlaneDataRecord(ps, i);
      PlaneRecordRoundTrip(ps[i], PlaneRecord(ps[i]));
    }
  }
}
