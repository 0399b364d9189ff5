/** 24-bit colours and the row-major fill order of the decoded raster
    (logo_gen_decoder.py, int_to_rgb24 and the counters i, j of decodeRLE24). */
module Pixels {
  import opened Wire

  /** A pixel as the raster stores it: red, green, blue. */
  datatype Rgb = Rgb(r: Byte, g: Byte, b: Byte)

  /** The colour every pixel of a new raster starts with. */
  const Black := Rgb(0, 0, 0)

  /** int_to_rgb24: red from bits 16..23, green from bits 8..15, blue from bits 0..7.
      Python's `>>` floors and `& 0xFF` keeps the non-negative low byte; for a
      positive divisor Dafny's `/` and `%` agree with both, negative `val` included.
      The three channels keep exactly the low 24 bits of `val`. */
  function IntToRgb24(val: int): (c: Rgb)
    ensures PackRgb24(c) == val % 0x100_0000
  {
    var t, m := val / 0x1_0000, val % 0x1_0000;
    var q := 0x100 * t + m / 0x100;
    DivUnique(val, 0x100, q, m % 0x100);
    DivUnique(q, 0x100, t, m / 0x100);
    DivUnique(val, 0x100_0000, t / 0x100, 0x1_0000 * (t % 0x100) + m);
    Rgb((val / 0x1_0000) % 0x100, (val / 0x100) % 0x100, val % 0x100)
  }

  /** The packed 0xRRGGBB value of a colour: the inverse of IntToRgb24. */
  function PackRgb24(c: Rgb): (v: nat)
    ensures v < 0x100_0000
  {
    c.r * 0x1_0000 + c.g * 0x100 + c.b
  }

  lemma UnpackPacked(c: Rgb)
    ensures IntToRgb24(PackRgb24(c)) == c
  {
    var v := PackRgb24(c);
    assert v / 0x100 == c.r * 0x100 + c.g;
    assert v / 0x1_0000 == c.r;
  }
}
