/** The image a block decoder produces, independent of the block format: pixel (x, y) is texel
    `TexelOf(x, y)` of block `BlockOf(width, x, y)`, where `texel(n, k)` is what the format decodes
    for texel `k` of block `n`. */
module BlockImage {
  import opened Raster

  function Pixel<T>(width: nat, texel: (nat, nat) -> T, x: nat, y: nat): T
  {
    texel(BlockOf(width, x, y), TexelOf(x, y))
  }

  /** The pixel at row-major index `i` (an empty-width image has no pixels; texel 0 of block 0
      stands in for the value nobody reads). */
  function PixelAt<T>(width: nat, texel: (nat, nat) -> T, i: nat): T
  {
    if width == 0 then texel(0, 0) else Pixel(width, texel, i % width, i / width)
  }

  function PixelFn<T>(width: nat, texel: (nat, nat) -> T): nat -> T
  {
    (i: nat) => PixelAt(width, texel, i)
  }

  /** The decoded `width * height` image, row-major. */
  function Image<T>(width: nat, height: nat, texel: (nat, nat) -> T): (img: seq<T>)
    ensures |img| == width * height
  {
    Tabulate(width * height, PixelFn(width, texel))
  }

  lemma PixelFnAt<T>(width: nat, height: nat, texel: (nat, nat) -> T, x: nat, y: nat)
    requires x < width && y < height
    ensures PixelFn(width, texel)(PixelIndex(width, height, x, y)) == Pixel(width, texel, x, y)
  {
    RowMajorDivMod(width, x, y);
  }

  /** Pixel (x, y) of the image sits at row-major index `y * width + x`. */
  lemma ImageAt<T>(width: nat, height: nat, texel: (nat, nat) -> T, x: nat, y: nat)
    requires x < width && y < height
    ensures Image(width, height, texel)[PixelIndex(width, height, x, y)] == texel(BlockOf(width, x, y), TexelOf(x, y))
  {
    PixelFnAt(width, height, texel, x, y);
    TabulateAt(width * height, PixelFn(width, texel), PixelIndex(width, height, x, y));
  }

  /** Pixel (x, y) = (xSource + k % 4, ySource + k / 4) is texel `k` of the block the loops are at. */
  lemma PixelInBlock<T>(width: nat, texel: (nat, nat) -> T, xSource: nat, ySource: nat, k: nat, x: nat, y: nat)
    requires xSource % 4 == 0 && ySource % 4 == 0 && k < 16
    requires x == xSource + k % 4 && y == ySource + k / 4
    ensures Pixel(width, texel, x, y) == texel(BlockOf(width, xSource, ySource), k)
  {
    TexelPixel(width, xSource, ySource, k, x, y);
  }

  lemma TexelLands<T>(width: nat, height: nat, texel: (nat, nat) -> T, xSource: nat, ySource: nat, k: nat)
    requires xSource % 4 == 0 && ySource % 4 == 0 && k < 16
    ensures TexelExpected(Image(width, height, texel), width, height, xSource, ySource, k,
                          texel(BlockOf(width, xSource, ySource), k))
  {
    var x, y := xSource + k % 4, ySource + k / 4;
    if x < width && y < height {
      PixelInBlock(width, texel, xSource, ySource, k, x, y);
      PixelFnAt(width, height, texel, x, y);
    }
    TabulateLands(width, height, PixelFn(width, texel), xSource, ySource, k, x, y,
                  texel(BlockOf(width, xSource, ySource), k));
  }

  /** Every texel of the block at (xSource, ySource) is, where it lands inside the image, the
      image's pixel there. */
  lemma BlockExpected<T>(width: nat, height: nat, texel: (nat, nat) -> T, xSource: nat, ySource: nat)
    requires xSource % 4 == 0 && ySource % 4 == 0
    ensures forall k | 0 <= k < 16 :: TexelExpected(Image(width, height, texel), width, height, xSource, ySource, k,
                                                    texel(BlockOf(width, xSource, ySource), k))
  {
    forall k | 0 <= k < 16
      ensures TexelExpected(Image(width, height, texel), width, height, xSource, ySource, k,
                            texel(BlockOf(width, xSource, ySource), k))
    {
      TexelLands(width, height, texel, xSource, ySource, k);
    }
  }

  /** The image depends only on the texels of the blocks the loops visit. */
  lemma ImageOfVisitedBlocks<T>(width: nat, height: nat, texel1: (nat, nat) -> T, texel2: (nat, nat) -> T)
    requires forall n, k | 0 <= n < BlockCount(width, height) && 0 <= k < 16 :: texel1(n, k) == texel2(n, k)
    ensures Image(width, height, texel1) == Image(width, height, texel2)
  {
    forall i | 0 <= i < width * height
      ensures PixelFn(width, texel1)(i) == PixelFn(width, texel2)(i)
    {
      InRangeBlock(width, height, i);
    }
    TabulateEqual(width * height, PixelFn(width, texel1), PixelFn(width, texel2));
  }
}
