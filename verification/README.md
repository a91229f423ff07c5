# pocketpt (WebGPU path tracer): a Dafny model of its discrete core

pocketpt renders a Cornell-box-like scene on the GPU. The host (`pocketpt_ne.js`) runs
`samplesPerPixel` passes. Each pass dispatches a 16 x 16-workgroup compute kernel
(`shaders/pocketpt_ne.cs`) over the canvas. Every invocation traces one path for its pixel
and adds `radiance / N` to its own cell of a radiance buffer. On the last pass it turns the
cell into gamma-encoded 8-bit intensities. The host then reads the buffer back, floors and
clamps every float into a byte, and forces the alpha bytes to 255. `utils.parseUrlArgs` reads
the query string that selects the WGSL or the GLSL kernel.

This project models the discrete logic around the floating-point shading:

- the `rand01` hash sampler;
- the pixel guard and the mirrored cell index;
- the nearest-hit selection of `intersect`;
- material decoding;
- the control of the bounce loop: the 12-iteration bound, Russian roulette, the emissive
  flag and misses;
- the stratum and seed arithmetic;
- the accumulate-then-finalise protocol;
- the host's pass schedule, workgroup counts, scene and radiance buffers, read-back and
  shader selection;
- the query-string parser.

Floats are modelled as Dafny `real`s. GPU `uint`s are naturals below 2^32, with wrap-around
written out wherever it can happen. The `rand01` words are `bv32`. Square root, `pow(x, 0.45)`,
`decodeURIComponent`, the camera, next-event estimation and the diffuse, mirror and dielectric
directions are function-typed parameters. The GPU's parallel invocations are one sequential
call per pixel; `Accumulate.InvokeCommute` shows that their order does not matter.

Modules, one file each:

- `Wrappers`: `Option`.
- `Numeric`: `u32`, `Wrap` and 3-vectors.
- `Sampler`: `rand01`.
- `Scene`: object records and material codes.
- `Intersect`: candidates and the nearest hit.
- `Pixel`: guard, index, stratum and salts.
- `Integrator`: the bounce loop.
- `Accumulate`: cells, passes and the render.
- `ReadBack`: buffer view and byte loops.
- `UrlArgs`: `parseUrlArgs`.
- `Host`: shader selection, scene literals, schedule and the end-to-end canvas statement.

Unlike the sphere test, the plane test never compares its distance with eps. A plane is a
candidate whenever `dot(d, n) > eps`, even when its distance is negative
(`Intersect.PlaneBehindOriginIsCandidate`).

## Model

| member | source | states |
|---|---|---|
| Numeric.Max3 | shaders/pocketpt_ne.cs:167 | the roulette threshold `p` is at least every albedo component and equal to one of them |
| Numeric.Clamp | shaders/pocketpt_ne.cs:223 | `clamp(v, 0, 1)` lies in the interval, is `v` inside it and the nearer bound outside |
| Sampler.HashRounds | shaders/pocketpt_ne.cs:35 | the `i-- > 0` loop from 3 applies the round exactly three times |
| Sampler.ToUnit | shaders/pocketpt_ne.cs:36 | a word scaled by 1/0xffffffff, read as an exact real, lies in [0,1] and is 0 only for word 0 |
| Sampler.Rand01 | shaders/pocketpt_ne.cs:34-37 | every component of `rand01` lies in the closed unit interval |
| Sampler.RoundsRotate | shaders/pocketpt_ne.cs:35 | any number of rounds commutes with the `yzx` rotation of the state |
| Sampler.Rand01Rotate | shaders/pocketpt_ne.cs:34-37 | rotating the seed's components rotates the sample's components the same way |
| Scene.RoundCode | shaders/pocketpt_ne.cs:152 | `int(floor(w + 0.5))` is the integer k with k - 0.5 <= w < k + 0.5 |
| Scene.DecodeMaterialIntervals | shaders/pocketpt_ne.cs:152-157 | a code decodes to diffuse, reflective or refractive exactly on [0.5,1.5), [1.5,2.5), [2.5,3.5), and to an unknown material elsewhere |
| Scene.DecodeMaterialCodes | shaders/pocketpt_ne.cs:24-26 | codes 1.0, 2.0 and 3.0 decode to diffuse, reflective and refractive; 0.0 decodes to no material |
| Scene.SphereRecordRoundTrip | shaders/pocketpt_ne.cs:6 | reading back a written 12-float sphere record gives the sphere; a record is the encoding of what it reads as exactly when its pad float is 0 |
| Scene.PlaneRecordRoundTrip | shaders/pocketpt_ne.cs:7-12 | the same round trip for plane records, read as `vec4[3]` |
| Scene.SpheresRoundTrip | shaders/pocketpt_ne.cs:9 | a list of spheres written into a float buffer is read back unchanged by the kernel |
| Scene.PlanesRoundTrip | shaders/pocketpt_ne.cs:12 | a list of planes written into a float buffer is read back unchanged by the kernel |
| Intersect.ChooseRootLeast | shaders/pocketpt_ne.cs:94 | the chosen root exceeds eps and is no larger than any root beyond eps; the sentinel 1e20 is chosen only when no root lies strictly between eps and 1e20 |
| Intersect.PlaneDistOnPlane | shaders/pocketpt_ne.cs:43-47 | a plane is a candidate iff `dot(d, n) > eps`, and then the candidate point satisfies the plane equation |
| Intersect.PlaneBehindOriginIsCandidate | shaders/pocketpt_ne.cs:45-47 | a plane behind the ray origin yields the negative candidate -1, because plane distances are not compared with eps |
| Intersect.SphereEquation | shaders/pocketpt_ne.cs:86-91 | for a unit direction, the point at distance u is on the sphere iff u^2 - 2bu + c = 0 |
| Intersect.SphereRoots | shaders/pocketpt_ne.cs:90-93 | the points of the ray on the sphere are exactly at b - sqrt(det) and b + sqrt(det) |
| Intersect.SphereDistNearestRoot | shaders/pocketpt_ne.cs:90-94 | a sphere has no candidate iff det < 0; otherwise the candidate is the nearest point of the sphere beyond eps, or the sentinel when no such point lies below 1e20 |
| Intersect.SphereDistExample | shaders/pocketpt_ne.cs:90-94 | a unit sphere 5 units ahead is hit at distance 4 |
| Intersect.ScanMinimum | shaders/pocketpt_ne.cs:42-99 | the scan ends at most at its starting value and every remaining candidate; when it improves on the start, it records the first remaining position holding the new minimum |
| Intersect.Nearest | shaders/pocketpt_ne.cs:39-107 | there is no hit iff every candidate is >= 1e20; otherwise the hit's distance is its object's candidate, below 1e20, no larger than any candidate and strictly smaller than every earlier one |
| Intersect.FirstNearestUnique | shaders/pocketpt_ne.cs:47-48 | at most one position is the first nearest candidate |
| Intersect.PlaneWinsTie | shaders/pocketpt_ne.cs:42-99 | when a plane and a sphere have the same candidate distance, the sphere is not the hit, because planes are scanned first and updates use strict `<` |
| Intersect.IntersectLoops | shaders/pocketpt_ne.cs:39-107 | the two loops of `intersect`, run statement by statement, return exactly the first nearest hit |
| Pixel.CellIndexInBuffer | shaders/pocketpt_ne.cs:113-115 | an invocation writes a cell iff it is inside the image, and the cell lies in the w*h buffer even when the index arithmetic wraps |
| Pixel.CellIndexExact | shaders/pocketpt_ne.cs:115 | for buffers of at most 2^32 cells, `gid` is the mirrored row-major position y*w + (w-1-x) |
| Pixel.CellIndexInjective | shaders/pocketpt_ne.cs:113-115 | for buffers of at most 2^32 cells, distinct in-image pixels write distinct cells |
| Pixel.CellIndexSurjective | shaders/pocketpt_ne.cs:113-115 | for buffers of at most 2^32 cells, every cell is written by some in-image pixel |
| Pixel.PixelAt | shaders/pocketpt_ne.cs:115 | the pixel that owns a cell is inside the image and its index is that cell |
| Pixel.PixelAtCellIndex | shaders/pocketpt_ne.cs:115 | reading back the owner of a pixel's cell gives the pixel |
| Pixel.CellIndexWrapCollision | shaders/pocketpt_ne.cs:115 | without the size bound the index wraps: two pixels of a 65536 x 65537 image share cell 0 |
| Pixel.StratumOfResidue | shaders/pocketpt_ne.cs:126 | the stratum offset is in {0,1}^2 and depends only on the pass modulo 4 |
| Pixel.StratumCoversFour | shaders/pocketpt_ne.cs:126 | any four consecutive passes use each of the four strata exactly once |
| Pixel.BounceSaltInjective | shaders/pocketpt_ne.cs:166 | while pass*12 + 11 < 2^32, distinct (pass, depth) pairs get distinct bounce salts |
| Pixel.BounceSaltWraps | shaders/pocketpt_ne.cs:166 | past that bound the salt wraps: pass 2^30 at depth 0 reuses the salt of pass 0 |
| Pixel.CameraSaltMatchesBounceSalt | shaders/pocketpt_ne.cs:166 | the camera seed `(pix, pass)` of pass 12q + d equals the bounce seed of pass q at depth d |
| Integrator.Bounces | shaders/pocketpt_ne.cs:134-219 | the loop enters at most 12 iterations, and at least 7 from depth 0, because roulette cannot stop it before depth 6 |
| Integrator.MissPersists | shaders/pocketpt_ne.cs:138 | after a miss every remaining iteration is a no-op: the state comes out unchanged after all 12 - depth iterations |
| Integrator.RouletteDecision | shaders/pocketpt_ne.cs:167-171 | at a hit, the iteration stops iff depth > 5 and the third random component reaches the largest albedo component |
| Integrator.RouletteCompensation | shaders/pocketpt_ne.cs:165-171 | a path that goes on from a hit has its throughput multiplied by the albedo; past depth 5 the largest albedo component is positive and the throughput is also divided by it; the refractive branch then scales it by the dielectric factor, and the other branches keep it |
| Integrator.EmissiveTransition | shaders/pocketpt_ne.cs:173-218 | after a hit the flag is 0 after a diffuse bounce and 1 after a reflective or refractive one; an unknown material keeps ray and flag, and a stopped path keeps its ray and flag |
| Integrator.StepFlagValid | shaders/pocketpt_ne.cs:133-218 | one iteration keeps the emissive flag in {0, 1} |
| Integrator.EmissiveFlagBinary | shaders/pocketpt_ne.cs:133-219 | the flag starts at 1 and stays in {0, 1} through the whole loop |
| Integrator.StepNonNeg | shaders/pocketpt_ne.cs:164-171 | in a scene without negative emission or colour, and when next-event estimation adds no negative light and the dielectric factor is non-negative, one iteration keeps radiance and throughput non-negative |
| Integrator.BouncesNonNeg | shaders/pocketpt_ne.cs:128-219 | under the same scene and shading conditions the whole loop keeps them non-negative, so each radiance sample is non-negative |
| Accumulate.FinalizeRange | shaders/pocketpt_ne.cs:223 | when gamma maps [0,1] into [0,1], finalised colour channels lie in [0.5, 255.5], and the fourth channel is unchanged |
| Accumulate.Invoke | shaders/pocketpt_ne.cs:221-224 | out-of-image invocations change nothing; in-image ones update only their own cell |
| Accumulate.SumCell | shaders/pocketpt_ne.cs:221 | an unfinalised running sum keeps its fourth channel at 0 |
| Accumulate.SumCellMean | shaders/pocketpt_ne.cs:221 | adding each pass's sample divided by N leaves the cell's colour equal to the plain sum of the samples divided by N |
| Accumulate.FinalizeOnce | shaders/pocketpt_ne.cs:221-224 | over passes 0..N-1 a cell holds the plain sum of its samples divided by N before the last pass, and after it that complete sum finalised exactly once |
| Accumulate.SumCellNonNeg | shaders/pocketpt_ne.cs:221 | non-negative samples give non-negative running sums |
| Accumulate.InvokeCommute | shaders/pocketpt_ne.cs:221 | invocations at two different pixels commute, so the order in which the GPU runs them is irrelevant |
| Accumulate.InvokeExtends | shaders/pocketpt_ne.cs:113-115 | running the invocation at (gx, gy) finishes exactly that pixel's cell |
| Accumulate.RunPass | pocketpt_ne.js:234 | a dispatch whose grid covers the image updates every cell exactly once, from the pixel that owns it |
| Accumulate.RenderCells | pocketpt_ne.js:220-237 | after the passes so far, each cell holds its own pixel's history: the running sum before the last pass, and the sum finalised once after it |
| ReadBack.FlattenIndex | pocketpt_ne.js:253 | float 4k + j of the buffer view is component j of cell k |
| ReadBack.InitRadiance | pocketpt_ne.js:95-107 | the radiance buffer holds 4*w*h floats, all zero, so every cell starts at zero |
| ReadBack.Clamp8 | pocketpt_ne.js:254-256 | storing into a `Uint8ClampedArray` saturates to [0, 255] and keeps values already in range |
| ReadBack.ReadBackBytes | pocketpt_ne.js:254-257 | every byte is the clamped floor of the float at the same index, so none of the 128 fill survives |
| ReadBack.CanvasCopy | pocketpt_ne.js:265-268 | starting from the canvas's own bytes, the loop overwrites every byte: index 3 mod 4 becomes 255 and every other index the read-back byte |
| ReadBack.FinalByteRounds | pocketpt_ne.js:254-257 | a finalised channel needs no clamping: its byte is g*255 rounded to the nearest integer |
| UrlArgs.Split | utils/utils.js:22-23 | a split has at least one piece and no piece contains the separator |
| UrlArgs.SplitJoin | utils/utils.js:22 | joining the pieces restores the string, and there is one piece more than there are separators |
| UrlArgs.JoinSplit | utils/utils.js:22 | splitting a join of separator-free pieces gives the pieces back |
| UrlArgs.FirstPiece | utils/utils.js:23 | the first piece of a split is the longest separator-free prefix |
| UrlArgs.SegmentFields | utils/utils.js:23-24 | the key is the text before the first '='; the value is the text after it up to the next '=' or the end; a segment without '=' has value "undefined" |
| UrlArgs.ParamsKeys | utils/utils.js:22-25 | the keys are exactly the decoded keys of the segments: each segment adds one and nothing else is added |
| UrlArgs.ParamsLastWins | utils/utils.js:22-25 | a key maps to the decoded value of its last segment |
| UrlArgs.ParseEmptySearch | utils/utils.js:22-24 | an empty search, or a lone '?', still yields the single key "" |
| UrlArgs.ParseIgnoresFirstChar | utils/utils.js:22 | the first character of the search is dropped, whatever it is |
| UrlArgs.ParseShaderLang | utils/utils.js:20-27 | `?shaderlang=wgsl` parses to the single entry shaderlang -> wgsl |
| Host.ShaderLangSelection | pocketpt_ne.js:9-11 | `?shaderlang=wgsl` selects WGSL; a query with no segment whose key decodes to `shaderlang` selects GLSL |
| Host.SetupConsistent | pocketpt_ne.js:202-210 | glslang is used to compile only when it was imported; the `.wgsl` source is fetched iff the mode is WGSL, which holds iff the parsed `shaderlang` is "wgsl" |
| Host.SceneSpheresEncoded | pocketpt_ne.js:60-73 | the sphere literal is exactly the record encoding of the mirror, glass and light spheres |
| Host.ScenePlanesEncoded | pocketpt_ne.js:84-92 | the plane literal is exactly the record encoding of the six walls |
| Host.SceneBuffers | pocketpt_ne.js:52-84 | the 36 and 72 floats fill the 144- and 288-byte buffers exactly, giving 3 spheres and 6 planes |
| Host.SceneMaterials | pocketpt_ne.js:70-91 | the spheres decode as reflective, refractive and diffuse emitter; all radii are positive; every wall is diffuse and non-emitting |
| Host.SceneNonNeg | pocketpt_ne.js:70-91 | no emission or colour of the scene is negative |
| Host.WorkgroupCountBounds | pocketpt_ne.js:234 | the truncated `(dim + 15) / 16` is ceil(dim / 16): count*16 >= dim and count*16 < dim + 16 |
| Host.PathTrace | pocketpt_ne.js:220-237 | exactly N dispatches with uniforms [w, h, 0..N-1, N] in order and covering workgroup counts; afterwards every cell holds its pixel's N samples, averaged and finalised once |
| Host.ScheduleStrata | pocketpt_ne.js:231-233 | any four consecutive dispatches use the four sub-pixel strata once each |
| Host.CanvasPixel | pocketpt_ne.js:240-268 | after a full render and the read-back, a pixel's colour bytes are the sum of its samples divided by N, gamma-encoded and rounded to the nearest byte, and its alpha byte is 255 |
| Host.KernelAverageNonNeg | shaders/pocketpt_ne.cs:221 | in the non-negative scene, with next-event estimation and the dielectric factor non-negative, the kernel's averaged radiance is non-negative in every channel |

## Left out

- Floating-point rounding and IEEE special values. Floats are reals, so NaN, infinities and
  the float32 conversion of the host's arrays are not modelled.
- Shading numerics are parameters whose bodies are not modelled: the camera basis and tent
  filter, next-event estimation, cosine-hemisphere sampling, `reflect`, Fresnel and
  refraction, `normalize`, `sqrt` and `pow(x, 0.45)`. This covers lines 117-129 and 172-218
  of the kernel beyond their control flow.
- The disabled `#if 0` sphere test, because it is not compiled.
- WebGPU plumbing: adapter, device, canvas context, bind groups, pipeline creation,
  submission, `mapAsync` and the texture copy. These are platform calls with no logic of
  their own here.
- DOM presentation (`toDataURL`, `Image`, `createImageBitmap`), the HTML that
  `checkSupport` injects, and `reflectVarName`: user interface and a reflection trick.
- `loadTextfile` (fetch) and glslang compilation, because they are network and foreign code.
  Only which file and which compiler are chosen is modelled.
- Exceptions that `decodeURIComponent` throws on malformed escapes, because decoding is a
  total parameter. So are special object keys such as `__proto__`, which a JavaScript object
  would treat differently from a map.
- GPU parallelism and asynchronous submission. Invocations run one after another and passes
  run in order; `Accumulate.InvokeCommute` justifies the invocation order.
- Accumulate.UpdateCell: the finalise test `samps.x == samps.y - 1.0` is a float comparison
  and is modelled as exact integer equality. It is exact for the host's N = 400.
- Integrator.StepNonNeg: assumes that next-event estimation returns non-negative light for a
  non-negative throughput and that the dielectric factor is non-negative. Those bodies are
  parameters here, so their signs are hypotheses.
- Integrator.BouncesNonNeg: rests on the same assumption about the shading parameters.
- Host.KernelAverageNonNeg: rests on the same assumption about the shading parameters.
- Sampler.ToUnit: scales by the exact real 1/0xffffffff. In float32, `float(0xffffffffu)` is
  2^32 and converting a word rounds it, so every word from 0xffffff80 up gives 1.0. This
  float endpoint behaviour is not modelled.
- Accumulate.AddSample: requires N > 0. With N = 0 the host dispatches nothing, so the
  kernel's division by zero cannot happen.
- Accumulate.RunPass: requires the image to have at most 2^32 cells, so that cell indices do
  not wrap (`Pixel.CellIndexWrapCollision` shows what happens otherwise). WebGPU's limits
  keep real canvases far below this.
- Host.PathTrace: requires the same 2^32-cell bound and N > 0. The source fixes N at 400.
- Unbiasedness of Russian roulette and decorrelation of the hash are probabilistic claims
  and are not stated.
