/** The width x height raster the decoder fills, and the fill position that
    advances one pixel per write (logo_gen_decoder.py, decodeRLE24: i, j and pixelsNew). */
module Raster {
  import opened Wire
  import opened Pixels

  /** One step of the fill position (i, j) = (x, y): x goes to (x + 1) mod width and
      y grows by one exactly when x wraps to 0. */
  function Advance(i: nat, j: nat, width: nat): (p: (nat, nat))
    requires i < width
    ensures p.0 < width
    ensures p.1 * width + p.0 == j * width + i + 1
    ensures p.0 == 0 <==> i + 1 == width
    ensures p.1 == if p.0 == 0 then j + 1 else j
  {
    var x := (i + 1) % width;
    DivUnique(i + 1, width, if i + 1 == width then 1 else 0, if i + 1 == width then 0 else i + 1);
    (x, if x == 0 then j + 1 else j)
  }

  /** Row-major coordinates are unique: (x, y) with x < width is pixel number y * width + x. */
  lemma RowMajorInjective(x: nat, y: nat, x': nat, y': nat, width: nat)
    requires x < width && x' < width
    requires y * width + x == y' * width + x'
    ensures x == x' && y == y'
  {
    DivUnique(y * width + x, width, y, x);
    DivUnique(y' * width + x', width, y', x');
  }

  /** The k-th pixel written (counting from 0) lands at (k mod width, k div width). */
  lemma PixelPlacement(k: nat, i: nat, j: nat, width: nat)
    requires i < width && j * width + i == k
    ensures i == k % width && j == k / width
  {
    DivUnique(k, width, j, i);
  }

  /** With x inside the row, row y lies inside a raster of `height` rows exactly when
      its pixel number is below width * height. */
  lemma InsideRaster(x: nat, y: nat, width: nat, height: nat)
    requires x < width
    ensures y < height <==> y * width + x < width * height
  {
    if y < height {
      MulMonotone(width, y + 1, height);
    } else {
      MulMonotone(width, height, y);
    }
  }

  /** The colour at (x, y) after the pixels `written` have been placed in row-major
      order into a raster that started black. */
  function PixelAt(written: seq<Rgb>, width: nat, x: nat, y: nat): Rgb
  {
    var k := y * width + x;
    if k < |written| then written[k] else Black
  }

  /** The raster shows the pixels `written`, placed in row-major order, and black elsewhere. */
  ghost predicate Shows(raster: array2<Rgb>, written: seq<Rgb>)
    reads raster
  {
    forall x, y :: 0 <= x < raster.Length0 && 0 <= y < raster.Length1 ==>
      raster[x, y] == PixelAt(written, raster.Length0, x, y)
  }

  /** In a raster that shows `written`, the k-th pixel written is the colour at
      (k mod width, k div width). */
  lemma PixelPlaced(raster: array2<Rgb>, written: seq<Rgb>, k: nat)
    requires Shows(raster, written)
    requires k < |written| <= raster.Length0 * raster.Length1
    ensures 0 < raster.Length0 && k / raster.Length0 < raster.Length1
    ensures raster[k % raster.Length0, k / raster.Length0] == written[k]
  {
    var width := raster.Length0;
    if width == 0 {
      assert false;
    }
    var x, y := k % width, k / width;
    PixelPlacement(k, x, y, width);
    InsideRaster(x, y, width, raster.Length1);
  }

  /** `pixelsNew[i, j] = color`: the write at the fill position, which is the next
      pixel in row-major order. */
  method Put(raster: array2<Rgb>, i: nat, j: nat, color: Rgb, ghost written: seq<Rgb>)
    requires i < raster.Length0 && j < raster.Length1
    requires j * raster.Length0 + i == |written|
    requires Shows(raster, written)
    modifies raster
    ensures Shows(raster, written + [color])
  {
    raster[i, j] := color;
    forall x, y | 0 <= x < raster.Length0 && 0 <= y < raster.Length1
      ensures raster[x, y] == PixelAt(written + [color], raster.Length0, x, y)
    {
      if x != i || y != j {
        if y * raster.Length0 + x == |written| {
          RowMajorInjective(x, y, i, j, raster.Length0);
        }
      }
    }
  }
}
