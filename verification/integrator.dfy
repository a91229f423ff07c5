/** Control logic of the kernel's bounce loop (shaders/pocketpt_ne.cs:128-219): at most
    twelve iterations, the miss policy, emission gated by the emissive flag, Russian roulette
    after depth 5 and the per-material continuation. The floating-point shading (camera
    jitter, next-event estimation, hemisphere sampling, mirror and Fresnel directions) is
    supplied as uninterpreted functions in `Shading`. */
module Integrator {
  import opened Numeric
  import opened Wrappers
  import opened Scene
  import opened Intersect
  import opened Sampler
  import opened Pixel

  /** Depth after which Russian roulette applies (`depth > 5`). */
  const RouletteDepth: nat := 5

  /** What the hit object contributes: emission, albedo and decoded material (lines 146-161). */
  datatype Surface = Surface(emission: V3, color: V3, material: Material)

  /** The floating-point collaborators of the loop.
      - `camera(x, y, rnd, sx, sy)`: the jittered primary ray of pixel (x, y) for the sampler
        vector `rnd` and stratum (sx, sy) (lines 117-129);
      - `nee(accmat, ray, hit, rnd)`: direct light gathered from the emissive spheres at a
        diffuse hit (lines 176-192);
      - `diffuse(ray, hit, rnd)`: the cosine-weighted continuation ray (lines 194-196);
      - `mirror(ray, hit)`: the ideal reflection (line 201);
      - `dielectric(ray, hit, rnd)`: the Fresnel-split or totally reflected ray and the
        throughput factor it carries (lines 206-216). */
  datatype Shading = Shading(
    camera: (u32, u32, V3, nat, nat) -> Ray,
    nee: (V3, Ray, Hit, V3) -> V3,
    diffuse: (Ray, Hit, V3) -> Ray,
    mirror: (Ray, Hit) -> Ray,
    dielectric: (Ray, Hit, V3) -> (Ray, real))

  /** One invocation's fixed inputs: scene, square root, shading, pixel and pass. */
  datatype Invocation = Invocation(sc: Scene, sqrt: real -> real, sh: Shading, x: u32, y: u32, pass: u32)

  /** Loop state: current ray, accumulated radiance `accrad`, throughput `accmat` and the
      emissive flag. */
  datatype Path = Path(ray: Ray, accrad: V3, accmat: V3, emissive: real)

  /** Outcome of one iteration: go on to the next depth, or `break` out of the loop. */
  datatype StepResult = Continue(path: Path) | Stop(path: Path)

  /** The hit's hit record names an existing object. */
  predicate ValidHit(sc: Scene, h: Hit) {
    (h.kind == PlaneObj ==> h.idx < |sc.planes|) && (h.kind == SphereObj ==> h.idx < |sc.spheres|)
  }

  function SurfaceOf(sc: Scene, h: Hit): Surface
    requires ValidHit(sc, h)
  {
    if h.kind == PlaneObj then
      var p := sc.planes[h.idx];
      Surface(p.emission, p.color, DecodeMaterial(p.code))
    else
      var s := sc.spheres[h.idx];
      Surface(s.emission, s.color, DecodeMaterial(s.code))
  }

  /** `rand01(uvec3(pix, samps.x * maxDepth + depth))`. */
  function BounceSample(inv: Invocation, depth: nat): V3
    requires depth < MaxDepth
  {
    Rand01(inv.x, inv.y, BounceSalt(inv.pass, depth))
  }

  /** Continuation by material (lines 172-218); an unknown material leaves everything as is. */
  function Shade(inv: Invocation, h: Hit, m: Material, p: Path, rnd: V3): Path {
    match m
    case Diffuse =>
      Path(inv.sh.diffuse(p.ray, h, rnd), Add(p.accrad, inv.sh.nee(p.accmat, p.ray, h, rnd)), p.accmat, 0.0)
    case Reflective =>
      Path(inv.sh.mirror(p.ray, h), p.accrad, p.accmat, 1.0)
    case Refractive =>
      var (next, f) := inv.sh.dielectric(p.ray, h, rnd);
      Path(next, p.accrad, Scale(p.accmat, f), 1.0)
    case Unknown(_) => p
  }

  /** One iteration of the bounce loop at `depth`. A miss `continue`s with nothing changed.
      On a hit the emission is added under the emissive flag and the throughput is multiplied
      by the albedo; after depth 5 the path stops when `rnd.z >= p` for the largest albedo
      component `p`, and otherwise the throughput is divided by `p`, which is positive
      because `rnd.z` is not negative. */
  function Step(inv: Invocation, depth: nat, p: Path): StepResult
    requires depth < MaxDepth
  {
    match Nearest(inv.sc, p.ray, inv.sqrt)
    case None => Continue(p)
    case Some(h) =>
      var s := SurfaceOf(inv.sc, h);
      var accrad := Add(p.accrad, Scale(Mul(p.accmat, s.emission), p.emissive));
      var accmat := Mul(p.accmat, s.color);
      var rnd := BounceSample(inv, depth);
      var q := Max3(s.color);
      if depth > RouletteDepth && rnd.z >= q then Stop(Path(p.ray, accrad, accmat, p.emissive))
      else
        var survivor := if depth > RouletteDepth then Div(accmat, q) else accmat;
        Continue(Shade(inv, h, s.material, Path(p.ray, accrad, survivor, p.emissive), rnd))
  }

  /** The loop's final state and the number of iterations it entered. */
  datatype Trace = Trace(path: Path, iterations: nat)

  /** The loop from `depth` on. It enters at most `12 - depth` iterations, and a path that
      starts at depth 0 runs at least 7, because roulette cannot end it before depth 6. */
  function Bounces(inv: Invocation, depth: nat, p: Path): (r: Trace)
    requires depth <= MaxDepth
    ensures r.iterations <= MaxDepth - depth
    ensures depth <= RouletteDepth + 1 ==> r.iterations >= RouletteDepth + 2 - depth
    decreases MaxDepth - depth
  {
    if depth == MaxDepth then Trace(p, 0)
    else
      match Step(inv, depth, p)
      case Stop(q) => Trace(q, 1)
      case Continue(q) =>
        var rest := Bounces(inv, depth + 1, q);
        Trace(rest.path, rest.iterations + 1)
  }

  /** The path state before the first bounce: the camera ray, no radiance, unit throughput,
      emissive flag set (lines 124-133). */
  function Primary(inv: Invocation): Path {
    var rnd := Rand01(inv.x, inv.y, CameraSalt(inv.pass));
    var st := Stratum(inv.pass);
    Path(inv.sh.camera(inv.x, inv.y, rnd, st.0, st.1), Zero3, One3, 1.0)
  }

  /** `accrad` after the loop: the radiance sample of one pixel in one pass. */
  function Radiance(inv: Invocation): V3 {
    Bounces(inv, 0, Primary(inv)).path.accrad
  }

  /** A miss changes nothing, so the ray that missed misses again at every later depth: the
      remaining iterations all run and the state comes out as it went in. */
  lemma {:induction false} MissPersists(inv: Invocation, depth: nat, p: Path)
    requires depth <= MaxDepth
    requires Nearest(inv.sc, p.ray, inv.sqrt).None?
    ensures Bounces(inv, depth, p) == Trace(p, MaxDepth - depth)
    decreases MaxDepth - depth
  {
    if depth < MaxDepth {
      assert Step(inv, depth, p) == Continue(p);
      MissPersists(inv, depth + 1, p);
    }
  }

  /** Roulette at a hit: before depth 6 the iteration always continues; from depth 6 on it
      stops exactly when the sample's third component reaches the largest albedo component. */
  lemma RouletteDecision(inv: Invocation, depth: nat, p: Path)
    requires depth < MaxDepth
    requires Nearest(inv.sc, p.ray, inv.sqrt).Some?
    ensures var s := SurfaceOf(inv.sc, Nearest(inv.sc, p.ray, inv.sqrt).value);
            Step(inv, depth, p).Stop? <==>
              depth > RouletteDepth && BounceSample(inv, depth).z >= Max3(s.color)
  {
  }

  /** The throughput of a path that goes on from a hit: multiplied by the albedo and, past
      depth 5, divided by the survival probability `p`, which is then positive. The diffuse
      and reflective continuations (and an unknown material) keep that throughput; the
      refractive one scales it by the dielectric factor. */
  lemma RouletteCompensation(inv: Invocation, depth: nat, p: Path)
    requires depth < MaxDepth
    requires Nearest(inv.sc, p.ray, inv.sqrt).Some?
    requires Step(inv, depth, p).Continue?
    ensures var h := Nearest(inv.sc, p.ray, inv.sqrt).value;
            var s := SurfaceOf(inv.sc, h);
            var q := if depth > RouletteDepth then Max3(s.color) else 1.0;
            var survivor := Div(Mul(p.accmat, s.color), q);
            var r := Step(inv, depth, p).path;
            && (depth > RouletteDepth ==> Max3(s.color) > 0.0)
            && (s.material != Refractive ==> r.accmat == survivor)
            && (s.material == Refractive ==>
                  r.accmat == Scale(survivor, inv.sh.dielectric(p.ray, h, BounceSample(inv, depth)).1))
  {
    var h := Nearest(inv.sc, p.ray, inv.sqrt).value;
    var s := SurfaceOf(inv.sc, h);
    var rnd := BounceSample(inv, depth);
    var m := Mul(p.accmat, s.color);
    if depth > RouletteDepth {
      assert rnd.z >= 0.0;
      assert !(rnd.z >= Max3(s.color));
    } else {
      assert Div(m, 1.0) == m;
    }
  }

  /** The emissive flag after an iteration that continues from a hit: cleared by a diffuse
      bounce, set by a reflective or refractive one; an unknown material keeps both the flag
      and the ray. A path that stops keeps its ray and flag. */
  lemma EmissiveTransition(inv: Invocation, depth: nat, p: Path)
    requires depth < MaxDepth
    requires Nearest(inv.sc, p.ray, inv.sqrt).Some?
    ensures var s := SurfaceOf(inv.sc, Nearest(inv.sc, p.ray, inv.sqrt).value);
            var r := Step(inv, depth, p);
            && (r.Stop? ==> r.path.ray == p.ray && r.path.emissive == p.emissive)
            && (r.Continue? && s.material == Diffuse ==> r.path.emissive == 0.0)
            && (r.Continue? && s.material == Reflective ==> r.path.emissive == 1.0)
            && (r.Continue? && s.material == Refractive ==> r.path.emissive == 1.0)
            && (r.Continue? && s.material.Unknown? ==>
                  r.path.ray == p.ray && r.path.emissive == p.emissive)
  {
  }

  ghost predicate FlagValid(p: Path) {
    p.emissive == 0.0 || p.emissive == 1.0
  }

  /** One iteration keeps the emissive flag in {0, 1}. */
  lemma StepFlagValid(inv: Invocation, depth: nat, p: Path)
    requires depth < MaxDepth
    requires FlagValid(p)
    ensures FlagValid(Step(inv, depth, p).path)
  {
    if Nearest(inv.sc, p.ray, inv.sqrt).Some? {
      EmissiveTransition(inv, depth, p);
    }
  }

  /** The emissive flag starts at 1 and only ever holds 0 or 1. */
  lemma {:induction false} EmissiveFlagBinary(inv: Invocation, depth: nat, p: Path)
    requires depth <= MaxDepth
    requires FlagValid(p)
    ensures FlagValid(Primary(inv))
    ensures FlagValid(Bounces(inv, depth, p).path)
    decreases MaxDepth - depth
  {
    if depth < MaxDepth {
      StepFlagValid(inv, depth, p);
      match Step(inv, depth, p)
      case Stop(q) =>
      case Continue(q) =>
        EmissiveFlagBinary(inv, depth + 1, q);
    }
  }

  /** Scene radiometry is non-negative: emissions and albedos of all objects. */
  ghost predicate NonNegScene(sc: Scene) {
    && (forall i :: 0 <= i < |sc.planes| ==> NonNeg(sc.planes[i].emission) && NonNeg(sc.planes[i].color))
    && (forall i :: 0 <= i < |sc.spheres| ==> NonNeg(sc.spheres[i].emission) && NonNeg(sc.spheres[i].color))
  }

  /** The shading collaborators add no negative light and keep throughput non-negative. */
  ghost predicate NonNegShading(sh: Shading) {
    && (forall m, r, h, v :: NonNeg(m) ==> NonNeg(sh.nee(m, r, h, v)))
    && (forall r, h, v :: sh.dielectric(r, h, v).1 >= 0.0)
  }

  ghost predicate NonNegPath(p: Path) {
    NonNeg(p.accrad) && NonNeg(p.accmat) && p.emissive >= 0.0
  }

  /** One iteration keeps radiance and throughput non-negative. */
  lemma StepNonNeg(inv: Invocation, depth: nat, p: Path)
    requires depth < MaxDepth
    requires NonNegScene(inv.sc) && NonNegShading(inv.sh) && NonNegPath(p)
    ensures NonNegPath(Step(inv, depth, p).path)
  {
    match Nearest(inv.sc, p.ray, inv.sqrt)
    case None =>
    case Some(h) =>
      var s := SurfaceOf(inv.sc, h);
      assert NonNeg(s.emission) && NonNeg(s.color);
      VectorNonNeg(p.accmat, s.emission, p.emissive);
      VectorNonNeg(Mul(p.accmat, s.emission), p.accmat, p.emissive);
      var accrad := Add(p.accrad, Scale(Mul(p.accmat, s.emission), p.emissive));
      VectorNonNeg(p.accrad, Scale(Mul(p.accmat, s.emission), p.emissive), 0.0);
      var accmat := Mul(p.accmat, s.color);
      VectorNonNeg(p.accmat, s.color, 0.0);
      var rnd := BounceSample(inv, depth);
      var q := Max3(s.color);
      if !(depth > RouletteDepth && rnd.z >= q) {
        var survivor := if depth > RouletteDepth then Div(accmat, q) else accmat;
        if depth > RouletteDepth {
          VectorNonNeg(accmat, accmat, q);
        }
        var before := Path(p.ray, accrad, survivor, p.emissive);
        assert NonNegPath(before);
        match s.material
        case Diffuse =>
          var light := inv.sh.nee(survivor, p.ray, h, rnd);
          VectorNonNeg(accrad, light, 0.0);
        case Reflective =>
        case Refractive =>
          VectorNonNeg(survivor, survivor, inv.sh.dielectric(p.ray, h, rnd).1);
        case Unknown(_) =>
      }
  }

  /** Energy non-negativity: with non-negative emissions, albedos and shading terms, the
      radiance sample of every pixel is non-negative in each channel. */
  lemma {:induction false} BouncesNonNeg(inv: Invocation, depth: nat, p: Path)
    requires depth <= MaxDepth
    requires NonNegScene(inv.sc) && NonNegShading(inv.sh) && NonNegPath(p)
    ensures NonNegPath(Bounces(inv, depth, p).path)
    ensures depth == 0 && p == Primary(inv) ==> NonNeg(Radiance(inv))
    decreases MaxDepth - depth
  {
    if depth < MaxDepth {
      StepNonNeg(inv, depth, p);
      match Step(inv, depth, p)
      case Stop(q) =>
      case Continue(q) =>
        BouncesNonNeg(inv, depth + 1, q);
    }
  }
}
