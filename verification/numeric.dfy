/** Fixed-width integers and three-component real vectors shared by the kernel and the host.
    GPU `uint` values are unbounded naturals below 2^32 here, and every place where the
    kernel's arithmetic can wrap goes through `Wrap` explicitly. */
module Numeric {

  const Modulus32: nat := 0x1_0000_0000

  /** A GLSL `uint` / WebIDL `unsigned long`. */
  type u32 = n: nat | n < Modulus32

  /** Reduction of an unbounded integer result to 32 bits, as `uint` arithmetic does. */
  function Wrap(n: int): (r: u32)
    ensures 0 <= n < Modulus32 ==> r == n
    ensures (r - n) % Modulus32 == 0
  {
    n % Modulus32
  }

  /** `vec3` over the reals: the kernel's float arithmetic with rounding left out. */
  datatype V3 = V3(x: real, y: real, z: real)

  const Zero3: V3 := V3(0.0, 0.0, 0.0)
  const One3: V3 := V3(1.0, 1.0, 1.0)

  function Add(a: V3, b: V3): V3 {
    V3(a.x + b.x, a.y + b.y, a.z + b.z)
  }

  function Sub(a: V3, b: V3): V3 {
    V3(a.x - b.x, a.y - b.y, a.z - b.z)
  }

  /** Component-wise product (`vec3 * vec3` in GLSL). */
  function Mul(a: V3, b: V3): V3 {
    V3(a.x * b.x, a.y * b.y, a.z * b.z)
  }

  function Scale(a: V3, s: real): V3 {
    V3(a.x * s, a.y * s, a.z * s)
  }

  function Div(a: V3, s: real): V3
    requires s != 0.0
  {
    V3(a.x / s, a.y / s, a.z / s)
  }

  function Dot(a: V3, b: V3): real {
    a.x * b.x + a.y * b.y + a.z * b.z
  }

  function Max(a: real, b: real): real {
    if a >= b then a else b
  }

  /** `max(max(c.x, c.y), c.z)`: the largest component. */
  function Max3(c: V3): (r: real)
    ensures r >= c.x && r >= c.y && r >= c.z
    ensures r == c.x || r == c.y || r == c.z
  {
    Max(Max(c.x, c.y), c.z)
  }

  /** GLSL `clamp(v, lo, hi)` for `lo <= hi`. */
  function Clamp(v: real, lo: real, hi: real): (r: real)
    requires lo <= hi
    ensures lo <= r <= hi
    ensures lo <= v <= hi ==> r == v
    ensures v < lo ==> r == lo
    ensures v > hi ==> r == hi
  {
    if v < lo then lo else if v > hi then hi else v
  }

  ghost predicate NonNeg(v: V3) {
    v.x >= 0.0 && v.y >= 0.0 && v.z >= 0.0
  }

  lemma ProductNonNeg(a: real, b: real)
    requires a >= 0.0 && b >= 0.0
    ensures a * b >= 0.0
  {
  }

  lemma QuotientNonNeg(a: real, b: real)
    requires a >= 0.0 && b > 0.0
    ensures a / b >= 0.0
  {
  }

  /** Division by a common scalar distributes over a sum. */
  lemma DivAdd(a: V3, b: V3, s: real)
    requires s != 0.0
    ensures Add(Div(a, s), Div(b, s)) == Div(Add(a, b), s)
  {
  }

  /** Component-wise products, scalings and sums of non-negative vectors are non-negative. */
  lemma VectorNonNeg(a: V3, b: V3, s: real)
    requires NonNeg(a) && NonNeg(b) && s >= 0.0
    ensures NonNeg(Mul(a, b)) && NonNeg(Scale(a, s)) && NonNeg(Add(a, b))
    ensures s > 0.0 ==> NonNeg(Div(a, s))
  {
    ProductNonNeg(a.x, b.x);
    ProductNonNeg(a.y, b.y);
    ProductNonNeg(a.z, b.z);
    ProductNonNeg(a.x, s);
    ProductNonNeg(a.y, s);
    ProductNonNeg(a.z, s);
    if s > 0.0 {
      QuotientNonNeg(a.x, s);
      QuotientNonNeg(a.y, s);
      QuotientNonNeg(a.z, s);
    }
  }
}
