/** The affine byte quantisation of cone data: a value in [-1, 1] is stored
    as one byte, 128 standing for zero and 127 steps per unit. */
module Quantize {

  type Byte = x: int | 0 <= x < 256

  /** Round to the nearest integer, ties to the even neighbour, as the
      engine's round-to-int does. */
  function RoundToInt(x: real): (r: int)
    ensures -0.5 <= r as real - x <= 0.5
    ensures (r as real - x == 0.5 || x - r as real == 0.5) ==> r % 2 == 0
  {
    var f := x.Floor;
    var d := x - f as real;
    if d < 0.5 then f
    else if d > 0.5 then f + 1
    else if f % 2 == 0 then f
    else f + 1
  }

  function Clamp(v: int, lo: int, hi: int): int
    requires lo <= hi
  {
    if v < lo then lo else if v > hi then hi else v
  }

  /** Scale by 127, shift by 128, round, and clamp into a byte. */
  function PackFloatToByte(f: real): Byte
  {
    Clamp(RoundToInt(f * 127.0 + 128.0), 0, 255)
  }

  /** The value a byte stands for. */
  function UnpackByteToFloat(b: Byte): real
  {
    (b - 128) as real / 127.0
  }

  /** Rounding an integer gives it back. */
  lemma RoundInteger(n: int)
    ensures RoundToInt(n as real) == n
  {
    assert (n as real).Floor == n;
  }

  /** Rounding never reverses order. */
  lemma RoundMonotone(x: real, y: real)
    requires x <= y
    ensures RoundToInt(x) <= RoundToInt(y)
  {
    // Both results are within a half of their inputs, so they could only
    // cross when x and y are the same tie rounded to neighbours, which
    // ties-to-even forbids.
  }

  /** Packing never reverses order. */
  lemma PackMonotone(x: real, y: real)
    requires x <= y
    ensures PackFloatToByte(x) <= PackFloatToByte(y)
  {
    RoundMonotone(x * 127.0 + 128.0, y * 127.0 + 128.0);
  }

  /** Unpacking then packing gives every byte back. */
  lemma PackUnpack(b: Byte)
    ensures PackFloatToByte(UnpackByteToFloat(b)) == b
  {
    var f := UnpackByteToFloat(b);
    assert f * 127.0 + 128.0 == b as real;
    RoundInteger(b);
  }

  /** On [-1, 1], packing then unpacking is off by at most half a step. */
  lemma UnpackPackError(x: real)
    requires -1.0 <= x <= 1.0
    ensures -0.5 / 127.0 <= UnpackByteToFloat(PackFloatToByte(x)) - x <= 0.5 / 127.0
  {
    var y := x * 127.0 + 128.0;
    var r := RoundToInt(y);
    assert 1 <= r <= 255;
    assert PackFloatToByte(x) == r;
    assert UnpackByteToFloat(r) - x == (r as real - y) / 127.0;
  }
}
