/** The kernel's stateless hash sampler `rand01` (shaders/pocketpt_ne.cs:34-37): three rounds
    of shift, XOR with the rotated vector and multiplication, in wrapping 32-bit arithmetic,
    followed by a scale of each component into the unit interval. */
module Sampler {
  import opened Numeric

  /** A `uvec3` of 32-bit words. */
  datatype W3 = W3(x: bv32, y: bv32, z: bv32)

  const Multiplier: bv32 := 1103515245
  const RoundCount: nat := 3

  /** The component rotation `x.yzx`. */
  function Rotate(v: W3): W3 {
    W3(v.y, v.z, v.x)
  }

  /** One round on one lane: `((a >> 8) ^ b) * 1103515245`, wrapping modulo 2^32. */
  function Mix(a: bv32, b: bv32): bv32 {
    ((a >> 8) ^ b) * Multiplier
  }

  /** One round `x = ((x >> 8U) ^ x.yzx) * 1103515245U` on the whole vector. */
  function Round(v: W3): W3 {
    W3(Mix(v.x, v.y), Mix(v.y, v.z), Mix(v.z, v.x))
  }

  /** `n` rounds applied one after the other: the reference the loop is checked against. */
  function Rounds(v: W3, n: nat): W3
    decreases n
  {
    if n == 0 then v else Round(Rounds(v, n - 1))
  }

  /** The loop `for (int i = 3; i-- > 0;) x = Round(x)`: the post-decrement test admits
      i = 3, 2, 1, so the body runs exactly three times. */
  method HashRounds(x0: W3) returns (x: W3)
    ensures x == Rounds(x0, RoundCount)
    ensures x == Round(Round(Round(x0)))
  {
    x := x0;
    var i: int := 3;
    while i > 0
      invariant 0 <= i <= 3
      invariant x == Rounds(x0, 3 - i)
      decreases i
    {
      i := i - 1;
      x := Round(x);
    }
  }

  const MaxWord: real := 4294967295.0

  /** `float(w) * (1.0 / float(0xffffffffU))` over the reals. */
  function ToUnit(w: bv32): (r: real)
    ensures 0.0 <= r <= 1.0
    ensures r == 0.0 <==> w == 0
    ensures r == 1.0 <==> w == 0xffff_ffff
  {
    (w as int) as real / MaxWord
  }

  /** `rand01(uvec3(a, b, c))`: three unit-interval reals, a pure function of the seed. */
  function Rand01(a: u32, b: u32, c: u32): (r: V3)
    ensures 0.0 <= r.x <= 1.0 && 0.0 <= r.y <= 1.0 && 0.0 <= r.z <= 1.0
  {
    var h := Rounds(W3(a as bv32, b as bv32, c as bv32), RoundCount);
    V3(ToUnit(h.x), ToUnit(h.y), ToUnit(h.z))
  }

  /** One round commutes with the component rotation. */
  lemma RoundRotate(v: W3)
    ensures Round(Rotate(v)) == Rotate(Round(v))
  {
  }

  /** The whole hash commutes with the rotation: permuting the seed cyclically permutes the
      output, so seeds that are rotations of one another give correlated samples. */
  lemma {:induction false} RoundsRotate(v: W3, n: nat)
    ensures Rounds(Rotate(v), n) == Rotate(Rounds(v, n))
    decreases n
  {
    if n > 0 {
      RoundsRotate(v, n - 1);
      RoundRotate(Rounds(v, n - 1));
    }
  }

  /** Sampling a rotated seed yields the rotated sample. */
  lemma Rand01Rotate(a: u32, b: u32, c: u32)
    ensures Rand01(b, c, a) == V3(Rand01(a, b, c).y, Rand01(a, b, c).z, Rand01(a, b, c).x)
  {
    RoundsRotate(W3(a as bv32, b as bv32, c as bv32), RoundCount);
  }
}
