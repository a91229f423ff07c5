/** The host's read-back of the radiance buffer (pocketpt_ne.js:95-107, 253-268): the buffer
    is viewed as a flat array of 4 floats per cell, each float is floored and stored into a
    clamped byte array pre-filled with 128, and the bytes are copied into the canvas image
    with every fourth byte (alpha) forced to 255. */
module ReadBack {
  import opened Numeric
  import opened Accumulate

  /** `numComponents`: floats per cell of the radiance buffer. */
  const NumComponents: nat := 4

  /** Bytes per `Float32Array` element. */
  const BytesPerFloat: nat := 4

  /** Initial value of every byte of the `Uint8ClampedArray`. */
  const FillByte: nat := 128

  /** The opaque alpha written into every pixel of the canvas image. */
  const OpaqueAlpha: nat := 255

  /** `radiancesBufferLength` floats for a `w` x `h` canvas. */
  function RadianceLength(w: u32, h: u32): nat {
    NumComponents * w * h
  }

  /** Component `j` of a cell: `x`, `y`, `z`, `w` in that order. */
  function Channel(c: Cell, j: nat): real
    requires j < NumComponents
  {
    if j == 0 then c.x else if j == 1 then c.y else if j == 2 then c.z else c.w
  }

  /** The `Float32Array` view of a buffer of cells. */
  function Flatten(cells: seq<Cell>): (data: seq<real>)
    ensures |data| == NumComponents * |cells|
  {
    seq(NumComponents * |cells|, i requires 0 <= i < NumComponents * |cells| =>
      Channel(cells[i / NumComponents], i % NumComponents))
  }

  /** Float `4 k + j` of the view is component `j` of cell `k`: the view neither drops nor
      reorders anything. */
  lemma FlattenIndex(cells: seq<Cell>, k: nat, j: nat)
    requires k < |cells| && j < NumComponents
    ensures NumComponents * k + j < |Flatten(cells)|
    ensures (NumComponents * k + j) % NumComponents == j
    ensures Flatten(cells)[NumComponents * k + j] == Channel(cells[k], j)
  {
    var i := NumComponents * k + j;
    assert i / NumComponents == k && i % NumComponents == j;
  }

  /** The mapped-at-creation initialisation loop: the new buffer reads as all-zero cells. */
  method InitRadiance(w: u32, h: u32) returns (data: seq<real>)
    ensures |data| == RadianceLength(w, h)
    ensures data == Flatten(Zeros(w * h))
  {
    var len := RadianceLength(w, h);
    data := [];
    var i := 0;
    while i < len
      invariant 0 <= i <= len
      invariant |data| == i
      invariant forall k :: 0 <= k < i ==> data[k] == 0.0
    {
      data := data + [0.0];
      i := i + 1;
    }
    var cells := Zeros(w * h);
    forall k | 0 <= k < len
      ensures data[k] == Flatten(cells)[k]
    {
      assert Channel(cells[k / NumComponents], k % NumComponents) == 0.0;
    }
  }

  /** Storing an integer into a `Uint8ClampedArray`: saturation to [0, 255]. */
  function Clamp8(v: int): (b: nat)
    ensures b <= 255
    ensures 0 <= v <= 255 ==> b == v
    ensures v < 0 ==> b == 0
    ensures v > 255 ==> b == 255
  {
    if v < 0 then 0 else if v > 255 then 255 else v
  }

  /** `imgData[i] = Math.floor(data[i])`, for one float. */
  function ByteOf(v: real): nat {
    Clamp8(v.Floor)
  }

  /** The byte loop over a `w` x `h` image: starting from a fill of 128, every byte is
      overwritten with the clamped floor of the float at the same index, so no fill byte
      survives. */
  method ReadBackBytes(data: seq<real>, w: u32, h: u32) returns (img: seq<nat>)
    requires |data| == RadianceLength(w, h)
    ensures |img| == |data|
    ensures forall i :: 0 <= i < |img| ==> img[i] <= 255 && img[i] == ByteOf(data[i])
  {
    img := seq(NumComponents * w * h, _ => FillByte);
    var i := 0;
    while i < |img|
      invariant 0 <= i <= |img| == |data|
      invariant forall k :: 0 <= k < i ==> img[k] == ByteOf(data[k])
      invariant forall k :: i <= k < |img| ==> img[k] == FillByte
    {
      img := img[i := ByteOf(data[i])];
      i := i + 1;
    }
  }

  /** The copy into the canvas `ImageData`, whose bytes start as `init` (what `getImageData`
      returned): every colour byte is overwritten by the read-back byte and every alpha byte
      by the opaque value, so nothing of `init` survives. */
  method CanvasCopy(img: seq<nat>, init: seq<nat>) returns (out: seq<nat>)
    requires |init| == |img|
    ensures |out| == |img|
    ensures forall i :: 0 <= i < |out| && i % NumComponents == 3 ==> out[i] == OpaqueAlpha
    ensures forall i :: 0 <= i < |out| && i % NumComponents != 3 ==> out[i] == img[i]
  {
    out := init;
    var i := 0;
    while i < |img|
      invariant 0 <= i <= |img| == |out|
      invariant forall k :: 0 <= k < i && k % NumComponents == 3 ==> out[k] == OpaqueAlpha
      invariant forall k :: 0 <= k < i && k % NumComponents != 3 ==> out[k] == img[k]
    {
      out := out[i := img[i]];
      if i % NumComponents == 3 {
        out := out[i := OpaqueAlpha];
      }
      i := i + 1;
    }
  }

  /** A finalised channel needs no clamping on read-back: its byte is the encoded value
      rounded to the nearest integer, `floor(g * 255 + 0.5)`, within half a unit of
      `g * 255`. */
  lemma FinalByteRounds(gamma: real -> real, v: real)
    requires UnitGamma(gamma)
    ensures var g := gamma(Clamp(v, 0.0, 1.0));
            && ByteOf(Encode(gamma, v)) == (g * 255.0 + 0.5).Floor
            && (ByteOf(Encode(gamma, v)) as real) - 0.5 <= g * 255.0 < (ByteOf(Encode(gamma, v)) as real) + 0.5
  {
    var g := gamma(Clamp(v, 0.0, 1.0));
    assert 0.0 <= g <= 1.0;
    var e := g * 255.0 + 0.5;
    assert 0.5 <= e <= 255.5;
    assert 0 <= e.Floor <= 255;
  }
}
