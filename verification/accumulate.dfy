/** The accumulation protocol at the end of the kernel's `main`
    (shaders/pocketpt_ne.cs:221-224): each in-image invocation adds its radiance sample,
    divided by the planned sample count, into its own cell, and on the last pass turns the
    cell's colour channels into gamma-encoded 8-bit intensities. `pow(x, 0.45)` is the
    parameter `gamma`. */
module Accumulate {
  import opened Numeric
  import opened Wrappers
  import opened Pixel

  /** One `vec4` of the radiance buffer. */
  datatype Cell = Cell(x: real, y: real, z: real, w: real)

  const ZeroCell: Cell := Cell(0.0, 0.0, 0.0, 0.0)

  function CellOf(v: V3, w: real): Cell {
    Cell(v.x, v.y, v.z, w)
  }

  function Rgb(c: Cell): V3 {
    V3(c.x, c.y, c.z)
  }

  /** `accRad[gid] += vec4(accrad / samps.y, 0.0)`. */
  function AddSample(c: Cell, rad: V3, n: nat): (r: Cell)
    requires n > 0
    ensures Rgb(r) == Add(Rgb(c), Div(rad, n as real))
    ensures r.w == c.w
  {
    Cell(c.x + rad.x / n as real, c.y + rad.y / n as real, c.z + rad.z / n as real, c.w + 0.0)
  }

  /** One channel of the final transform: `pow(clamp(v, 0, 1), 0.45) * 255 + 0.5`. */
  function Encode(gamma: real -> real, v: real): real {
    gamma(Clamp(v, 0.0, 1.0)) * 255.0 + 0.5
  }

  /** The final transform: the colour channels are encoded, `w` is kept. */
  function Finalize(c: Cell, gamma: real -> real): Cell {
    Cell(Encode(gamma, c.x), Encode(gamma, c.y), Encode(gamma, c.z), c.w)
  }

  /** `gamma` maps the unit interval into itself, as `pow(x, 0.45)` does. */
  ghost predicate UnitGamma(gamma: real -> real) {
    forall v :: 0.0 <= v <= 1.0 ==> 0.0 <= gamma(v) <= 1.0
  }

  /** Finalised colour channels lie in [0.5, 255.5], so flooring them gives a byte; the
      fourth channel is left alone. */
  lemma FinalizeRange(c: Cell, gamma: real -> real)
    requires UnitGamma(gamma)
    ensures var f := Finalize(c, gamma);
            && 0.5 <= f.x <= 255.5 && 0.5 <= f.y <= 255.5 && 0.5 <= f.z <= 255.5
            && f.w == c.w
  {
    assert 0.0 <= gamma(Clamp(c.x, 0.0, 1.0)) <= 1.0;
    assert 0.0 <= gamma(Clamp(c.y, 0.0, 1.0)) <= 1.0;
    assert 0.0 <= gamma(Clamp(c.z, 0.0, 1.0)) <= 1.0;
  }

  /** `samps.x == samps.y - 1.0`: this is the last planned pass. */
  predicate LastPass(pass: u32, n: u32) {
    pass as int == n as int - 1
  }

  /** What an in-image invocation does to its own cell. */
  function UpdateCell(c: Cell, rad: V3, pass: u32, n: u32, gamma: real -> real): Cell
    requires n > 0
  {
    var a := AddSample(c, rad, n);
    if LastPass(pass, n) then Finalize(a, gamma) else a
  }

  /** One kernel invocation for pixel (x, y) on the `w * h`-cell buffer: out-of-image
      invocations change nothing, in-image ones update their own cell and no other. */
  function Invoke(buf: seq<Cell>, w: u32, h: u32, x: u32, y: u32, pass: u32, n: u32,
                  rad: V3, gamma: real -> real): (r: seq<Cell>)
    requires |buf| == w * h && n > 0
    ensures |r| == |buf|
    ensures !InImage(w, h, x, y) ==> r == buf
    ensures InImage(w, h, x, y) ==>
              var g := CellIndex(w, h, x, y).value;
              && g < |buf|
              && r[g] == UpdateCell(buf[g], rad, pass, n, gamma)
              && forall k :: 0 <= k < |buf| && k != g ==> r[k] == buf[k]
  {
    CellIndexInBuffer(w, h, x, y);
    match CellIndex(w, h, x, y)
    case None => buf
    case Some(g) => buf[g := UpdateCell(buf[g], rad, pass, n, gamma)]
  }

  /** A cell holding the running sum of the samples of passes `0..count-1`, not yet
      finalised. */
  function SumCell(sample: u32 -> V3, n: u32, count: nat): (c: Cell)
    requires 0 < n && count <= n
    ensures c.w == 0.0
  {
    if count == 0 then ZeroCell
    else AddSample(SumCell(sample, n, count - 1), sample(count - 1), n)
  }

  /** The plain vector sum of the samples of passes `0..count-1`. */
  function SampleSum(sample: u32 -> V3, count: nat): V3
    requires count <= Modulus32
  {
    if count == 0 then Zero3 else Add(SampleSum(sample, count - 1), sample(count - 1))
  }

  /** The running cell is the mean contribution so far: the sum of its samples divided by the
      planned count `n`, however the per-pass divisions were interleaved with the additions. */
  lemma {:induction false} SumCellMean(sample: u32 -> V3, n: u32, count: nat)
    requires 0 < n && count <= n
    ensures Rgb(SumCell(sample, n, count)) == Div(SampleSum(sample, count), n as real)
    decreases count
  {
    if count > 0 {
      SumCellMean(sample, n, count - 1);
      DivAdd(SampleSum(sample, count - 1), sample(count - 1), n as real);
    }
  }

  /** The updates one cell receives over passes `0..count-1` of a render with `n` planned
      passes. */
  function CellHistory(sample: u32 -> V3, n: u32, count: nat, gamma: real -> real): Cell
    requires 0 < n && count <= n
  {
    if count == 0 then ZeroCell
    else UpdateCell(CellHistory(sample, n, count - 1, gamma), sample(count - 1), count - 1, n, gamma)
  }

  /** Accumulate, then finalise once: before the last pass a cell holds the plain sum of its
      samples divided by `n`; after the last pass it holds that complete sum, finalised
      exactly once. */
  lemma {:induction false} FinalizeOnce(sample: u32 -> V3, n: u32, count: nat, gamma: real -> real)
    requires 0 < n && count <= n
    ensures count < n ==> CellHistory(sample, n, count, gamma) == SumCell(sample, n, count)
    ensures count == n ==> CellHistory(sample, n, count, gamma) == Finalize(SumCell(sample, n, n), gamma)
    decreases count
  {
    if count > 0 {
      FinalizeOnce(sample, n, count - 1, gamma);
    }
  }

  /** Before finalisation, non-negative samples keep every channel non-negative. */
  lemma {:induction false} SumCellNonNeg(sample: u32 -> V3, n: u32, count: nat)
    requires 0 < n && count <= n
    requires forall p: u32 :: p < count ==> NonNeg(sample(p))
    ensures NonNeg(Rgb(SumCell(sample, n, count)))
    decreases count
  {
    if count > 0 {
      SumCellNonNeg(sample, n, count - 1);
      VectorNonNeg(sample(count - 1), sample(count - 1), 1.0 / n as real);
      assert Div(sample(count - 1), n as real) == Scale(sample(count - 1), 1.0 / n as real);
      VectorNonNeg(Rgb(SumCell(sample, n, count - 1)), Div(sample(count - 1), n as real), 0.0);
    }
  }

  /** Invocations at two different in-image pixels touch different cells, so the order in
      which the GPU runs them does not matter. */
  lemma InvokeCommute(buf: seq<Cell>, w: u32, h: u32, x1: u32, y1: u32, x2: u32, y2: u32,
                      pass: u32, n: u32, rad1: V3, rad2: V3, gamma: real -> real)
    requires |buf| == w * h && n > 0 && w * h <= Modulus32
    requires (x1, y1) != (x2, y2)
    ensures Invoke(Invoke(buf, w, h, x1, y1, pass, n, rad1, gamma), w, h, x2, y2, pass, n, rad2, gamma)
         == Invoke(Invoke(buf, w, h, x2, y2, pass, n, rad2, gamma), w, h, x1, y1, pass, n, rad1, gamma)
  {
    if InImage(w, h, x1, y1) && InImage(w, h, x2, y2) {
      CellIndexInBuffer(w, h, x1, y1);
      CellIndexInBuffer(w, h, x2, y2);
      if CellIndex(w, h, x1, y1) == CellIndex(w, h, x2, y2) {
        CellIndexInjective(w, h, x1, y1, x2, y2);
      }
    }
  }

  /** Pixel `xy` comes before pixel (gx, gy) in the order the model runs the invocations of
      one dispatch: by `y` first, then by `x`. */
  predicate Before(xy: (u32, u32), gx: nat, gy: nat) {
    xy.1 < gy || (xy.1 == gy && xy.0 < gx)
  }

  /** The cell one pass leaves behind when pixel `xy` contributes `sample(xy)`. */
  function Updated(c: Cell, xy: (u32, u32), pass: u32, n: u32, sample: (u32, u32) -> V3,
                   gamma: real -> real): Cell
    requires n > 0
  {
    UpdateCell(c, sample(xy.0, xy.1), pass, n, gamma)
  }

  /** The buffer after every invocation before (gx, gy) has run. */
  function Partial(buf: seq<Cell>, w: u32, h: u32, pass: u32, n: u32,
                   sample: (u32, u32) -> V3, gamma: real -> real, gx: nat, gy: nat): seq<Cell>
    requires |buf| == w * h && n > 0 && w * h <= Modulus32
  {
    seq(|buf|, k requires 0 <= k < |buf| =>
      if Before(PixelAt(w, h, k), gx, gy) then Updated(buf[k], PixelAt(w, h, k), pass, n, sample, gamma)
      else buf[k])
  }

  /** Reference semantics of one dispatch: every cell receives exactly one update, from the
      pixel that owns it. */
  function PassRef(buf: seq<Cell>, w: u32, h: u32, pass: u32, n: u32,
                   sample: (u32, u32) -> V3, gamma: real -> real): (r: seq<Cell>)
    requires |buf| == w * h && n > 0 && w * h <= Modulus32
    ensures |r| == |buf|
  {
    seq(|buf|, k requires 0 <= k < |buf| => Updated(buf[k], PixelAt(w, h, k), pass, n, sample, gamma))
  }

  /** Running the invocation at (gx, gy) extends the prefix of finished pixels by one. */
  lemma InvokeExtends(buf: seq<Cell>, w: u32, h: u32, pass: u32, n: u32,
                      sample: (u32, u32) -> V3, gamma: real -> real, gx: u32, gy: u32)
    requires |buf| == w * h && n > 0 && w * h <= Modulus32
    ensures Invoke(Partial(buf, w, h, pass, n, sample, gamma, gx, gy), w, h, gx, gy, pass, n, sample(gx, gy), gamma)
         == Partial(buf, w, h, pass, n, sample, gamma, gx + 1, gy)
  {
    var before := Partial(buf, w, h, pass, n, sample, gamma, gx, gy);
    var after := Partial(buf, w, h, pass, n, sample, gamma, gx + 1, gy);
    var r := Invoke(before, w, h, gx, gy, pass, n, sample(gx, gy), gamma);
    if InImage(w, h, gx, gy) {
      PixelAtCellIndex(w, h, gx, gy);
      var g := CellIndex(w, h, gx, gy).value;
      forall k | 0 <= k < |buf|
        ensures r[k] == after[k]
      {
        if k != g {
          var xy := PixelAt(w, h, k);
          assert CellIndex(w, h, xy.0, xy.1) == Some(k);
          assert xy != (gx, gy);
        }
      }
    } else {
      forall k | 0 <= k < |buf|
        ensures r[k] == after[k]
      {
        var xy := PixelAt(w, h, k);
        assert xy != (gx, gy);
      }
    }
  }

  /** Once the column counter has passed the image width, the row is finished. */
  lemma RowComplete(buf: seq<Cell>, w: u32, h: u32, pass: u32, n: u32,
                    sample: (u32, u32) -> V3, gamma: real -> real, gx: nat, gy: nat)
    requires |buf| == w * h && n > 0 && w * h <= Modulus32
    requires gx >= w
    ensures Partial(buf, w, h, pass, n, sample, gamma, gx, gy)
         == Partial(buf, w, h, pass, n, sample, gamma, 0, gy + 1)
  {
  }

  /** Once the row counter has passed the image height, every cell is finished. */
  lemma ImageComplete(buf: seq<Cell>, w: u32, h: u32, pass: u32, n: u32,
                      sample: (u32, u32) -> V3, gamma: real -> real, gy: nat)
    requires |buf| == w * h && n > 0 && w * h <= Modulus32
    requires gy >= h
    ensures Partial(buf, w, h, pass, n, sample, gamma, 0, gy) == PassRef(buf, w, h, pass, n, sample, gamma)
  {
  }

  /** One dispatch of `gxCount` x `gyCount` workgroups of 16 x 16 invocations, run one
      invocation at a time. When the grid covers the image, the result is the reference
      pass: every in-image pixel updates its own cell once and nothing else changes. */
  method RunPass(buf: seq<Cell>, w: u32, h: u32, gxCount: nat, gyCount: nat, pass: u32, n: u32,
                 sample: (u32, u32) -> V3, gamma: real -> real) returns (r: seq<Cell>)
    requires |buf| == w * h && n > 0 && w * h <= Modulus32
    requires w <= gxCount * 16 <= Modulus32 && h <= gyCount * 16 <= Modulus32
    ensures r == PassRef(buf, w, h, pass, n, sample, gamma)
  {
    r := buf;
    var gy: nat := 0;
    while gy < gyCount * 16
      invariant gy <= gyCount * 16
      invariant r == Partial(buf, w, h, pass, n, sample, gamma, 0, gy)
    {
      var gx: nat := 0;
      while gx < gxCount * 16
        invariant gx <= gxCount * 16
        invariant r == Partial(buf, w, h, pass, n, sample, gamma, gx, gy)
      {
        InvokeExtends(buf, w, h, pass, n, sample, gamma, gx, gy);
        r := Invoke(r, w, h, gx, gy, pass, n, sample(gx, gy), gamma);
        gx := gx + 1;
      }
      RowComplete(buf, w, h, pass, n, sample, gamma, gx, gy);
      gy := gy + 1;
    }
    ImageComplete(buf, w, h, pass, n, sample, gamma, gy);
  }

  /** A buffer of `len` zero cells, as `createBuffer` hands it out. */
  function Zeros(len: nat): (r: seq<Cell>)
    ensures |r| == len && forall k :: 0 <= k < len ==> r[k] == ZeroCell
  {
    seq(len, _ => ZeroCell)
  }

  /** The per-pass samples of one pixel. */
  function Column(sample: (u32, u32, u32) -> V3, xy: (u32, u32)): u32 -> V3 {
    (p: u32) => sample(xy.0, xy.1, p)
  }

  /** The samples of one pass, by pixel. */
  function PassSample(sample: (u32, u32, u32) -> V3, pass: u32): (u32, u32) -> V3 {
    (x: u32, y: u32) => sample(x, y, pass)
  }

  /** The radiance buffer after passes `0..count-1`, each a reference pass. */
  function Render(w: u32, h: u32, n: u32, count: nat, sample: (u32, u32, u32) -> V3,
                  gamma: real -> real): (r: seq<Cell>)
    requires w * h <= Modulus32 && 0 < n && count <= n
    ensures |r| == w * h
  {
    if count == 0 then Zeros(w * h)
    else
      var pass: u32 := count - 1;
      PassRef(Render(w, h, n, count - 1, sample, gamma), w, h, pass, n, PassSample(sample, pass), gamma)
  }

  /** Over a whole render each cell goes through exactly the history of its own pixel: the
      plain running sum of that pixel's samples before the last pass, and that complete sum
      finalised once after it. */
  lemma {:induction false} RenderCells(w: u32, h: u32, n: u32, count: nat,
                                       sample: (u32, u32, u32) -> V3, gamma: real -> real, k: nat)
    requires w * h <= Modulus32 && 0 < n && count <= n && k < w * h
    ensures Render(w, h, n, count, sample, gamma)[k]
         == CellHistory(Column(sample, PixelAt(w, h, k)), n, count, gamma)
    ensures count < n ==>
              Render(w, h, n, count, sample, gamma)[k] == SumCell(Column(sample, PixelAt(w, h, k)), n, count)
    ensures count == n ==>
              Render(w, h, n, count, sample, gamma)[k] == Finalize(SumCell(Column(sample, PixelAt(w, h, k)), n, n), gamma)
    decreases count
  {
    if count > 0 {
      RenderCells(w, h, n, count - 1, sample, gamma, k);
    }
    FinalizeOnce(Column(sample, PixelAt(w, h, k)), n, count, gamma);
  }
}
