/** Per-invocation integer bookkeeping of the kernel's `main` (shaders/pocketpt_ne.cs:110-126,
    166): the out-of-image guard, the horizontally mirrored row-major cell index, the
    four-pass sub-pixel stratum and the seed salts handed to the sampler. All arithmetic is
    `uint`, so it wraps modulo 2^32. */
module Pixel {
  import opened Numeric
  import opened Wrappers

  /** `maxDepth`, the number of bounce iterations; also the multiplier of the bounce salt. */
  const MaxDepth: nat := 12

  /** The guard `pix.x >= imgdim.x || pix.y >= imgdim.y` fails. */
  predicate InImage(w: u32, h: u32, x: u32, y: u32) {
    x < w && y < h
  }

  /** `gid = pix.y * imgdim.x + (imgdim.x - 1 - pix.x)` in `uint`, or `None` when the
      invocation returns before touching the buffer. */
  function CellIndex(w: u32, h: u32, x: u32, y: u32): Option<u32> {
    if x >= w || y >= h then None
    else Some(Wrap(Wrap(y * w) + Wrap(w - 1 - x)))
  }

  /** The pixel whose invocation writes cell `k`: row `k / w`, mirrored column. */
  function PixelOf(w: u32, k: nat): (xy: (nat, nat))
    requires w > 0
    ensures xy.0 < w
  {
    (w - 1 - k % w, k / w)
  }

  /** Multiplication by a natural is monotone in steps of at least the multiplier. */
  lemma {:induction false} MulStep(a: nat, b: nat, w: nat)
    ensures a < b ==> a * w + w <= b * w
    decreases b
  {
    if a + 1 < b {
      MulStep(a, b - 1, w);
      assert (b - 1) * w + w == b * w;
    } else if a + 1 == b {
      assert a * w + w == b * w;
    }
  }

  /** Row-major positions are unique: row and column can be read back from `y * w + c`. */
  lemma RowMajorUnique(w: nat, y1: nat, c1: nat, y2: nat, c2: nat)
    requires c1 < w && c2 < w
    ensures y1 * w + c1 == y2 * w + c2 ==> y1 == y2 && c1 == c2
  {
    MulStep(y1, y2, w);
    MulStep(y2, y1, w);
  }

  /** In-image invocations and only they write a cell, and the cell is inside the
      `w * h`-cell buffer, even when the index arithmetic wraps. */
  lemma CellIndexInBuffer(w: u32, h: u32, x: u32, y: u32)
    ensures CellIndex(w, h, x, y).Some? <==> InImage(w, h, x, y)
    ensures CellIndex(w, h, x, y).Some? ==> CellIndex(w, h, x, y).value < w * h
  {
    if InImage(w, h, x, y) {
      var g := CellIndex(w, h, x, y).value;
      if w * h <= Modulus32 {
        CellIndexExact(w, h, x, y);
        assert y * w + (w - 1 - x) <= (h - 1) * w + (w - 1);
      }
    }
  }

  /** When the buffer has at most 2^32 cells nothing wraps: the index is the mirrored
      row-major position. */
  lemma CellIndexExact(w: u32, h: u32, x: u32, y: u32)
    requires InImage(w, h, x, y) && w * h <= Modulus32
    ensures CellIndex(w, h, x, y) == Some(y * w + (w - 1 - x))
  {
    MulStep(y, h, w);
    assert h * w == w * h;
    assert y * w + (w - 1 - x) < Modulus32;
    assert Wrap(y * w) == y * w;
    assert Wrap(w - 1 - x) == w - 1 - x;
  }

  /** Distinct in-image pixels write distinct cells. */
  lemma CellIndexInjective(w: u32, h: u32, x1: u32, y1: u32, x2: u32, y2: u32)
    requires w * h <= Modulus32
    requires InImage(w, h, x1, y1) && InImage(w, h, x2, y2)
    requires CellIndex(w, h, x1, y1) == CellIndex(w, h, x2, y2)
    ensures x1 == x2 && y1 == y2
  {
    CellIndexExact(w, h, x1, y1);
    CellIndexExact(w, h, x2, y2);
    RowMajorUnique(w, y1, w - 1 - x1, y2, w - 1 - x2);
  }

  /** Every cell of the buffer is written by the in-image pixel `PixelOf` names, so with
      injectivity the guard and the index form a bijection onto the buffer. */
  lemma CellIndexSurjective(w: u32, h: u32, k: nat)
    requires w * h <= Modulus32
    requires k < w * h
    ensures PixelOf(w, k).1 < h
    ensures CellIndex(w, h, PixelOf(w, k).0, PixelOf(w, k).1) == Some(k)
  {
    assert w > 0;
    var c := k % w;
    var y := k / w;
    assert k == y * w + c;
    MulStep(h - 1, y, w);
    assert (h - 1) * w + w == w * h;
    assert PixelOf(w, k) == (w - 1 - c, y);
    CellIndexExact(w, h, w - 1 - c, y);
  }

  /** The in-image pixel whose invocation writes cell `k` of a buffer of at most 2^32 cells. */
  function PixelAt(w: u32, h: u32, k: nat): (xy: (u32, u32))
    requires w * h <= Modulus32 && k < w * h
    ensures InImage(w, h, xy.0, xy.1)
    ensures CellIndex(w, h, xy.0, xy.1) == Some(k)
  {
    CellIndexSurjective(w, h, k);
    (PixelOf(w, k).0, PixelOf(w, k).1)
  }

  /** `PixelAt` inverts the guard and index: reading a written cell back gives its pixel. */
  lemma PixelAtCellIndex(w: u32, h: u32, x: u32, y: u32)
    requires w * h <= Modulus32 && InImage(w, h, x, y)
    ensures CellIndex(w, h, x, y).Some? && CellIndex(w, h, x, y).value < w * h
    ensures PixelAt(w, h, CellIndex(w, h, x, y).value) == (x, y)
  {
    CellIndexInBuffer(w, h, x, y);
    var k := CellIndex(w, h, x, y).value;
    var xy := PixelAt(w, h, k);
    CellIndexInjective(w, h, xy.0, xy.1, x, y);
  }

  /** Without the size bound the index is not injective: two pixels of a 65536 x 65537
      image share cell 0. */
  lemma CellIndexWrapCollision()
    ensures InImage(65536, 65537, 65535, 65536) && InImage(65536, 65537, 65535, 0)
    ensures CellIndex(65536, 65537, 65535, 65536) == CellIndex(65536, 65537, 65535, 0) == Some(0)
  {
  }

  /** `vec2((samps.x / 2) % 2, samps.x % 2)`: the sub-pixel stratum of a pass. */
  function Stratum(pass: u32): (nat, nat) {
    ((pass / 2) % 2, pass % 2)
  }

  /** The stratum lies in {0,1}^2, depends only on the pass modulo 4, and the four
      residues give the four strata. */
  lemma StratumOfResidue(pass: u32)
    ensures Stratum(pass).0 <= 1 && Stratum(pass).1 <= 1
    ensures Stratum(pass) == Stratum(pass % 4)
    ensures Stratum(pass) == ((pass % 4) / 2, (pass % 4) % 2)
  {
  }

  /** The residues modulo 4 of four consecutive naturals. */
  lemma ConsecutiveResidues(pass: nat)
    ensures var r := pass % 4;
            (pass + 1) % 4 == (r + 1) % 4 && (pass + 2) % 4 == (r + 2) % 4 && (pass + 3) % 4 == (r + 3) % 4
  {
    var q := pass / 4;
    assert pass == 4 * q + pass % 4;
  }

  /** Any four consecutive passes use the four strata, each once. */
  lemma StratumCoversFour(pass: nat)
    requires pass + 3 < Modulus32
    ensures {Stratum(pass), Stratum(pass + 1), Stratum(pass + 2), Stratum(pass + 3)}
            == {(0, 0), (0, 1), (1, 0), (1, 1)}
  {
    StratumOfResidue(pass);
    StratumOfResidue(pass + 1);
    StratumOfResidue(pass + 2);
    StratumOfResidue(pass + 3);
    ConsecutiveResidues(pass);
    var r := pass % 4;
    var strata := [Stratum(pass), Stratum(pass + 1), Stratum(pass + 2), Stratum(pass + 3)];
    if r == 0 {
      assert strata == [(0, 0), (0, 1), (1, 0), (1, 1)];
    } else if r == 1 {
      assert strata == [(0, 1), (1, 0), (1, 1), (0, 0)];
    } else if r == 2 {
      assert strata == [(1, 0), (1, 1), (0, 0), (0, 1)];
    } else {
      assert strata == [(1, 1), (0, 0), (0, 1), (1, 0)];
    }
  }


  /** `samps.x`: the seed salt of the primary-ray sample. */
  function CameraSalt(pass: u32): u32 {
    pass
  }

  /** `samps.x * maxDepth + depth` in `uint`: the seed salt of bounce `depth`. */
  function BounceSalt(pass: u32, depth: nat): u32
    requires depth < MaxDepth
  {
    Wrap(Wrap(pass * MaxDepth) + depth)
  }

  /** While `pass * 12 + 11` fits in 32 bits, distinct (pass, depth) pairs get distinct salts. */
  lemma BounceSaltInjective(p1: u32, d1: nat, p2: u32, d2: nat)
    requires d1 < MaxDepth && d2 < MaxDepth
    requires p1 * MaxDepth + MaxDepth - 1 < Modulus32 && p2 * MaxDepth + MaxDepth - 1 < Modulus32
    requires BounceSalt(p1, d1) == BounceSalt(p2, d2)
    ensures p1 == p2 && d1 == d2
  {
    assert BounceSalt(p1, d1) == p1 * MaxDepth + d1;
    assert BounceSalt(p2, d2) == p2 * MaxDepth + d2;
    RowMajorUnique(MaxDepth, p1, d1, p2, d2);
  }

  /** Past that bound the salt wraps: pass 2^30 reuses pass 0's salts. */
  lemma BounceSaltWraps()
    ensures BounceSalt(0x4000_0000, 0) == BounceSalt(0, 0)
  {
  }

  /** The primary-ray salt of pass `12q + d` equals the salt of bounce `d` in pass `q`, so
      those two samples are drawn from one and the same seed. */
  lemma CameraSaltMatchesBounceSalt(q: u32, d: nat)
    requires d < MaxDepth && q * MaxDepth + d < Modulus32
    ensures CameraSalt(q * MaxDepth + d) == BounceSalt(q, d)
  {
  }
}
