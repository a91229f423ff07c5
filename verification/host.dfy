/** The host side of the renderer (pocketpt_ne.js): shader-language selection, the scene
    buffers, the pass schedule with its uniforms and workgroup counts, and the composition of
    the dispatched passes with the read-back. WebGPU objects, the DOM and the asynchronous
    plumbing are left out; a dispatch is the pass the kernel performs over the whole grid. */
module Host {
  import opened Numeric
  import opened Scene
  import opened Pixel
  import opened Integrator
  import opened Accumulate
  import opened ReadBack
  import opened UrlArgs

  /** Which kernel source the host loads and how it is compiled. */
  datatype ShaderLang = Wgsl | Glsl

  /** `params.shaderlang == "wgsl" ? "wgsl" : "glsl"`: a missing key reads as `undefined`,
      which is not "wgsl". */
  function ShaderLangMode(params: map<string, string>): ShaderLang {
    if "shaderlang" in params && params["shaderlang"] == "wgsl" then Wgsl else Glsl
  }

  /** The three places that consult the mode: whether glslang is imported, which source file
      is fetched, and whether the source goes through `glslang.compileGLSL`. */
  datatype ShaderSetup = ShaderSetup(importGlslang: bool, sourcePath: string, compileGlsl: bool)

  function Setup(m: ShaderLang): ShaderSetup {
    ShaderSetup(
      m == Glsl,
      if m == Wgsl then "./shaders/pocketpt_ne.wgsl" else "./shaders/pocketpt_ne.cs",
      m != Wgsl)
  }

  /** The selection a query string leads to: WGSL exactly when the last `shaderlang`
      parameter decodes to "wgsl"; the GLSL path compiles with glslang only when it was
      imported, and fetches the `.cs` source. */
  lemma SetupConsistent(search: string, decode: string -> string)
    ensures var m := ShaderLangMode(ParseUrlArgs(search, decode));
            var s := Setup(m);
            && s.compileGlsl == s.importGlslang
            && (m == Wgsl <==> s.sourcePath == "./shaders/pocketpt_ne.wgsl")
            && (m == Glsl <==> s.sourcePath == "./shaders/pocketpt_ne.cs")
            && (m == Wgsl <==> ("shaderlang" in ParseUrlArgs(search, decode)
                                && ParseUrlArgs(search, decode)["shaderlang"] == "wgsl"))
  {
    var m := ShaderLangMode(ParseUrlArgs(search, decode));
    assert "./shaders/pocketpt_ne.wgsl"[22] != "./shaders/pocketpt_ne.cs"[22];
  }

  /** With the plain query `?shaderlang=wgsl` the WGSL path is taken; without any parameter
      that decodes to `shaderlang` the GLSL path is. */
  lemma ShaderLangSelection(search: string, decode: string -> string)
    requires decode("shaderlang") == "shaderlang" && decode("wgsl") == "wgsl"
    ensures ShaderLangMode(ParseUrlArgs("?shaderlang=wgsl", decode)) == Wgsl
    ensures (forall seg :: seg in Split(SearchBody(search), '&') ==> decode(KeyText(seg)) != "shaderlang")
            ==> ShaderLangMode(ParseUrlArgs(search, decode)) == Glsl
  {
    ParseShaderLang(decode);
    var segs := Split(SearchBody(search), '&');
    ParamsKeys(segs, decode);
  }

  /** Edge length of a 16 x 16 workgroup. */
  const WorkgroupSize: nat := 16

  const NumSpheres: nat := 3
  const NumPlanes: nat := 6

  const SpheresByteSize: nat := FloatsPerRecord * BytesPerFloat * NumSpheres
  const PlanesByteSize: nat := FloatsPerRecord * BytesPerFloat * NumPlanes

  /** The sphere records, one row per sphere (mirror, glass, light): centre, radius |
      emission, pad | colour, material code. */
  const SceneSphereData: seq<real> :=
      [-1.3, -1.2, -1.3, 0.8,   0.0,   0.0,   0.0, 0.0, 0.999, 0.999, 0.999, 2.0]
    + [ 1.3, -1.2, -0.2, 0.8,   0.0,   0.0,   0.0, 0.0, 0.999, 0.999, 0.999, 3.0]
    + [ 0.0,  1.6,  0.0, 0.2, 100.0, 100.0, 100.0, 0.0, 0.0,   0.0,   0.0,   1.0]

  /** The plane records, one row per wall (left, right, top, bottom, back, front): normal,
      offset | emission, pad | colour, material code. */
  const ScenePlaneData: seq<real> :=
      [-1.0,  0.0,  0.0, 2.6, 0.0, 0.0, 0.0, 0.0, 0.85, 0.25, 0.25, 1.0]
    + [ 1.0,  0.0,  0.0, 2.6, 0.0, 0.0, 0.0, 0.0, 0.25, 0.35, 0.85, 1.0]
    + [ 0.0,  1.0,  0.0, 2.0, 0.0, 0.0, 0.0, 0.0, 0.75, 0.75, 0.75, 1.0]
    + [ 0.0, -1.0,  0.0, 2.0, 0.0, 0.0, 0.0, 0.0, 0.75, 0.75, 0.75, 1.0]
    + [ 0.0,  0.0, -1.0, 2.8, 0.0, 0.0, 0.0, 0.0, 0.85, 0.85, 0.25, 1.0]
    + [ 0.0,  0.0,  1.0, 7.9, 0.0, 0.0, 0.0, 0.0, 0.1,  0.7,  0.7,  1.0]

  /** The objects the sphere records describe. */
  const SceneSpheres: seq<Sphere> := [
    Sphere(V3(-1.3, -1.2, -1.3), 0.8, Zero3, V3(0.999, 0.999, 0.999), 2.0),
    Sphere(V3(1.3, -1.2, -0.2), 0.8, Zero3, V3(0.999, 0.999, 0.999), 3.0),
    Sphere(V3(0.0, 1.6, 0.0), 0.2, V3(100.0, 100.0, 100.0), Zero3, 1.0)
  ]

  /** The walls the plane records describe. */
  const ScenePlanes: seq<Plane> := [
    Plane(V3(-1.0, 0.0, 0.0), 2.6, Zero3, V3(0.85, 0.25, 0.25), 1.0),
    Plane(V3(1.0, 0.0, 0.0), 2.6, Zero3, V3(0.25, 0.35, 0.85), 1.0),
    Plane(V3(0.0, 1.0, 0.0), 2.0, Zero3, V3(0.75, 0.75, 0.75), 1.0),
    Plane(V3(0.0, -1.0, 0.0), 2.0, Zero3, V3(0.75, 0.75, 0.75), 1.0),
    Plane(V3(0.0, 0.0, -1.0), 2.8, Zero3, V3(0.85, 0.85, 0.25), 1.0),
    Plane(V3(0.0, 0.0, 1.0), 7.9, Zero3, V3(0.1, 0.7, 0.7), 1.0)
  ]

  /** The sphere literal is exactly the record encoding of the three spheres, so the kernel
      reads them back unchanged. */
  lemma SceneSpheresEncoded()
    ensures SphereData(SceneSpheres) == SceneSphereData
    ensures Spheres(SceneSphereData) == SceneSpheres
  {
    var ss := SceneSpheres;
    assert ss[..1][..0] == [] && ss[..2][..1] == ss[..1] && ss[..3] == ss;
    assert SphereData(ss[..1]) == SphereRecord(ss[0]);
    assert SphereData(ss[..2]) == SphereData(ss[..1]) + SphereRecord(ss[1]);
    assert SphereData(ss) == SphereData(ss[..2]) + SphereRecord(ss[2]);
    SpheresRoundTrip(SceneSpheres);
  }

  /** The plane literal is exactly the record encoding of the six walls. */
  lemma ScenePlanesEncoded()
    ensures PlaneData(ScenePlanes) == ScenePlaneData
    ensures Planes(ScenePlaneData) == ScenePlanes
  {
    var ps := ScenePlanes;
    assert ps[..1][..0] == [] && ps[..2][..1] == ps[..1] && ps[..3][..2] == ps[..2];
    assert ps[..4][..3] == ps[..3] && ps[..5][..4] == ps[..4] && ps[..6] == ps;
    assert PlaneData(ps[..1]) == PlaneRecord(ps[0]);
    assert PlaneData(ps[..2]) == PlaneData(ps[..1]) + PlaneRecord(ps[1]);
    assert PlaneData(ps[..3]) == PlaneData(ps[..2]) + PlaneRecord(ps[2]);
    assert PlaneData(ps[..4]) == PlaneData(ps[..3]) + PlaneRecord(ps[3]);
    assert PlaneData(ps[..5]) == PlaneData(ps[..4]) + PlaneRecord(ps[4]);
    assert PlaneData(ps) == PlaneData(ps[..5]) + PlaneRecord(ps[5]);
    PlanesRoundTrip(ScenePlanes);
  }

  /** The scene the kernel sees through its two storage buffers. */
  function TheScene(): Scene {
    Scene(Planes(ScenePlaneData), Spheres(SceneSphereData))
  }

  /** The scene is the one the two object lists describe. */
  lemma TheSceneDecoded()
    ensures TheScene() == Scene(ScenePlanes, SceneSpheres)
  {
    SceneSpheresEncoded();
    ScenePlanesEncoded();
  }

  /** The literals fill their mapped buffers exactly: three sphere records in 144 bytes and
      six plane records in 288. */
  lemma SceneBuffers()
    ensures |SceneSphereData| * BytesPerFloat == SpheresByteSize == 144
    ensures |ScenePlaneData| * BytesPerFloat == PlanesByteSize == 288
    ensures |TheScene().spheres| == NumSpheres && |TheScene().planes| == NumPlanes
  {
  }

  /** The decoded scene is a mirror sphere, a glass sphere and a small diffuse light inside six
      diffuse, non-emitting walls. */
  lemma SceneMaterials()
    ensures DecodeMaterial(TheScene().spheres[0].code) == Reflective
    ensures DecodeMaterial(TheScene().spheres[1].code) == Refractive
    ensures DecodeMaterial(TheScene().spheres[2].code) == Diffuse
    ensures TheScene().spheres[2].emission == V3(100.0, 100.0, 100.0)
    ensures forall i :: 0 <= i < |TheScene().spheres| ==> TheScene().spheres[i].radius > 0.0
    ensures forall i :: 0 <= i < |TheScene().planes| ==>
              DecodeMaterial(TheScene().planes[i].code) == Diffuse && TheScene().planes[i].emission == Zero3
  {
    TheSceneDecoded();
    DecodeMaterialCodes();
  }

  /** No emission or colour of the scene is negative, so the kernel's radiance is not either. */
  lemma SceneNonNeg()
    ensures NonNegScene(TheScene())
  {
    TheSceneDecoded();
    forall i | 0 <= i < |ScenePlanes|
      ensures NonNeg(ScenePlanes[i].emission) && NonNeg(ScenePlanes[i].color)
    {
    }
    forall i | 0 <= i < |SceneSpheres|
      ensures NonNeg(SceneSpheres[i].emission) && NonNeg(SceneSpheres[i].color)
    {
    }
  }

  /** `computeUniformData`: `imgdim` and `samps` as the kernel reads them. */
  datatype Uniform = Uniform(width: u32, height: u32, pass: u32, samples: u32)

  /** One `dispatchWorkgroups` call with the uniform written just before it. */
  datatype Dispatch = Dispatch(uniform: Uniform, groupsX: nat, groupsY: nat)

  /** `(dim + 15) / 16` is a JavaScript float division; the WebIDL conversion to
      `GPUSize32` truncates it. */
  function WorkgroupCount(dim: u32): real {
    (dim + 15) as real / WorkgroupSize as real
  }

  function Groups(dim: u32): (g: nat) {
    WorkgroupCountBounds(dim);
    WorkgroupCount(dim).Floor
  }

  /** The truncated float quotient is the integer ceiling of `dim / 16`: the fewest 16-wide
      groups covering `dim` invocations, with fewer than 16 of them spare. */
  lemma WorkgroupCountBounds(dim: u32)
    ensures WorkgroupCount(dim).Floor == (dim + 15) / WorkgroupSize
    ensures dim <= WorkgroupCount(dim).Floor * WorkgroupSize < dim + WorkgroupSize
    ensures WorkgroupCount(dim).Floor * WorkgroupSize <= Modulus32
  {
    var q := (dim + 15) / WorkgroupSize;
    var r := (dim + 15) % WorkgroupSize;
    assert dim + 15 == q * 16 + r;
    assert (q as real) <= WorkgroupCount(dim) < (q + 1) as real;
  }

  /** The radiance of one invocation of the kernel, as a function of pixel and pass. */
  function KernelSample(sc: Scene, sqrt: real -> real, sh: Shading): (u32, u32, u32) -> V3 {
    (x: u32, y: u32, pass: u32) => Radiance(Invocation(sc, sqrt, sh, x, y, pass))
  }

  /** The frame loop: for each pass in turn the uniform is rewritten and the grid of
      workgroups is dispatched. The dispatches carry the canvas size, the pass numbers
      0, 1, ..., n - 1 in order and the planned count n, and the radiance buffer ends with
      every cell holding its pixel's `n` samples, averaged and finalised once. */
  method PathTrace(w: u32, h: u32, n: u32, sample: (u32, u32, u32) -> V3, gamma: real -> real)
    returns (buf: seq<Cell>, ds: seq<Dispatch>)
    requires w * h <= Modulus32 && 0 < n
    ensures |ds| == n
    ensures forall i :: 0 <= i < n ==>
              ds[i] == Dispatch(Uniform(w, h, i, n), Groups(w), Groups(h))
    ensures buf == Render(w, h, n, n, sample, gamma)
    ensures forall k :: 0 <= k < w * h ==>
              buf[k] == Finalize(SumCell(Column(sample, PixelAt(w, h, k)), n, n), gamma)
  {
    WorkgroupCountBounds(w);
    WorkgroupCountBounds(h);
    buf := Zeros(w * h);
    ds := [];
    var pass: nat := 0;
    while pass < n
      invariant pass <= n
      invariant |ds| == pass
      invariant forall i :: 0 <= i < pass ==> ds[i] == Dispatch(Uniform(w, h, i, n), Groups(w), Groups(h))
      invariant buf == Render(w, h, n, pass, sample, gamma)
    {
      ds := ds + [Dispatch(Uniform(w, h, pass, n), Groups(w), Groups(h))];
      var p: u32 := pass;
      buf := RunPass(buf, w, h, Groups(w), Groups(h), p, n, PassSample(sample, p), gamma);
      pass := pass + 1;
    }
    forall k | 0 <= k < w * h
      ensures buf[k] == Finalize(SumCell(Column(sample, PixelAt(w, h, k)), n, n), gamma)
    {
      RenderCells(w, h, n, n, sample, gamma, k);
    }
  }

  /** Every pixel's samples come from four-pass cycles of strata: over any four consecutive
      passes of the schedule the sub-pixel offset takes each of its four values once. */
  lemma ScheduleStrata(ds: seq<Dispatch>, w: u32, h: u32, n: u32, i: nat)
    requires |ds| == n
    requires forall j :: 0 <= j < n ==> ds[j] == Dispatch(Uniform(w, h, j, n), Groups(w), Groups(h))
    requires i + 3 < n
    ensures {Stratum(ds[i].uniform.pass), Stratum(ds[i + 1].uniform.pass),
             Stratum(ds[i + 2].uniform.pass), Stratum(ds[i + 3].uniform.pass)}
            == {(0, 0), (0, 1), (1, 0), (1, 1)}
  {
    StratumCoversFour(i);
  }

  /** Canvas requirement: alpha bytes opaque, colour bytes the read-back bytes of `data`. */
  ghost predicate CanvasOf(canvas: seq<nat>, data: seq<real>) {
    && |canvas| == |data|
    && (forall i :: 0 <= i < |canvas| && i % NumComponents == 3 ==> canvas[i] == OpaqueAlpha)
    && (forall i :: 0 <= i < |canvas| && i % NumComponents != 3 ==> canvas[i] == ByteOf(data[i]))
  }

  /** The canvas byte of channel `j` of cell `k`, in terms of the cell's running sum. */
  lemma CanvasPixelSum(w: u32, h: u32, n: u32, sample: (u32, u32, u32) -> V3, gamma: real -> real,
                       canvas: seq<nat>, k: nat, j: nat)
    requires w * h <= Modulus32 && 0 < n && UnitGamma(gamma)
    requires k < w * h && j < NumComponents
    requires CanvasOf(canvas, Flatten(Render(w, h, n, n, sample, gamma)))
    ensures NumComponents * k + j < |canvas|
    ensures j == 3 ==> canvas[NumComponents * k + j] == OpaqueAlpha
    ensures j < 3 ==>
              var g := gamma(Clamp(Channel(SumCell(Column(sample, PixelAt(w, h, k)), n, n), j), 0.0, 1.0));
              canvas[NumComponents * k + j] == (g * 255.0 + 0.5).Floor
  {
    var buf := Render(w, h, n, n, sample, gamma);
    FlattenIndex(buf, k, j);
    RenderCells(w, h, n, n, sample, gamma, k);
    var s := SumCell(Column(sample, PixelAt(w, h, k)), n, n);
    if j < 3 {
      FinalByteRounds(gamma, Channel(s, j));
      assert Channel(buf[k], j) == Encode(gamma, Channel(s, j));
    }
  }

  /** The canvas after the read-back of a finished render: the colour bytes of cell `k` are
      the gamma-encoded means (sum over N) of its pixel's samples, rounded to the nearest
      integer, and its alpha byte is opaque. */
  lemma CanvasPixel(w: u32, h: u32, n: u32, sample: (u32, u32, u32) -> V3, gamma: real -> real,
                    canvas: seq<nat>, k: nat, j: nat)
    requires w * h <= Modulus32 && 0 < n && UnitGamma(gamma)
    requires k < w * h && j < NumComponents
    requires CanvasOf(canvas, Flatten(Render(w, h, n, n, sample, gamma)))
    ensures NumComponents * k + j < |canvas|
    ensures j == 3 ==> canvas[NumComponents * k + j] == OpaqueAlpha
    ensures j < 3 ==>
              var mean := Div(SampleSum(Column(sample, PixelAt(w, h, k)), n), n as real);
              var g := gamma(Clamp(Channel(CellOf(mean, 0.0), j), 0.0, 1.0));
              canvas[NumComponents * k + j] == (g * 255.0 + 0.5).Floor
  {
    CanvasPixelSum(w, h, n, sample, gamma, canvas, k, j);
    var column := Column(sample, PixelAt(w, h, k));
    SumCellMean(column, n, n);
    assert Rgb(SumCell(column, n, n)) == Rgb(CellOf(Div(SampleSum(column, n), n as real), 0.0));
  }

  /** For the kernel's own samples over a scene with nothing negative in it, every averaged
      channel is non-negative. */
  lemma KernelAverageNonNeg(sc: Scene, sqrt: real -> real, sh: Shading, xy: (u32, u32), n: u32, count: nat)
    requires NonNegScene(sc) && NonNegShading(sh) && 0 < n && count <= n
    ensures NonNeg(Rgb(SumCell(Column(KernelSample(sc, sqrt, sh), xy), n, count)))
  {
    var sample := Column(KernelSample(sc, sqrt, sh), xy);
    forall p: u32 | p < count
      ensures NonNeg(sample(p))
    {
      var inv := Invocation(sc, sqrt, sh, xy.0, xy.1, p);
      BouncesNonNeg(inv, 0, Primary(inv));
    }
    SumCellNonNeg(sample, n, count);
  }
}
