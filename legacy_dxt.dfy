/** `DXTn::DecompressDXT3` and `DXTn::DecompressDXT5` (DXTn/DXT3.cpp, DXTn/DXT5.cpp): the legacy
    block decoders. They walk the 16-byte blocks through a bare pointer, with no length check, and
    write four bytes per pixel into a caller-supplied buffer: for each block, a colour pass over its
    sixteen texels stores bytes 0-2 of each pixel, then an alpha pass stores byte 3. The two differ
    only in the alpha half of the block. */
module LegacyDxt {
  import opened Bytes
  import opened Bits
  import opened Raster
  import opened Blocks
  import opened DxtColour
  import opened DxtAlpha
  import opened BlockImage
  import opened ByteRaster
  import Dxt3
  import Dxt5

  const BlockSize := 16

  /** The alpha half of a block: sixteen explicit 4-bit alphas (DXT3) or two endpoint alphas and
      sixteen 3-bit indices into their palette (DXT5). */
  datatype AlphaHalf = Explicit | Interpolated

  /** The colour palette of a block, from the `Colour565` words at bytes 8 and 10: the two
      endpoints and, channel by channel, the interpolants one third and two thirds of the way. */
  function Palette(blk: seq<bv8>): (p: seq<Rgba>)
    requires |blk| >= 12
    ensures |p| == 4 && p[0] == Expand565(U16(blk, 8), 255) && p[1] == Expand565(U16(blk, 10), 255)
    ensures p[2] == Rgba(Third(p[0].r, p[1].r), Third(p[0].g, p[1].g), Third(p[0].b, p[1].b), 255)
    ensures p[3] == Rgba(Third(p[1].r, p[0].r), Third(p[1].g, p[0].g), Third(p[1].b, p[0].b), 255)
  {
    FourColourPalette(Expand565(U16(blk, 8), 255), Expand565(U16(blk, 10), 255))
  }

  /** Texel `k` of a 16-byte block: the palette colour the bitmask at byte 12 selects, with the
      alpha of the block's alpha half. */
  function Texel(half: AlphaHalf, blk: seq<bv8>, k: nat): (c: Rgba)
    requires |blk| == BlockSize
  {
    var colour := Palette(blk)[ColourIndex(U32(blk, 12), k)];
    match half
    case Explicit => WithAlpha(colour, Dxt3.Alpha4(Digit(U64(blk, 0), 16, k)))
    case Interpolated => WithAlpha(colour, AlphaPalette(blk[0] as nat, blk[1] as nat)[AlphaIndex(blk, k)])
  }

  function BlockTexel(half: AlphaHalf, src: seq<bv8>): (nat, nat) -> Rgba
  {
    (n: nat, k: nat) => Texel(half, BlockBytes(src, n, BlockSize), k)
  }

  /** The `4 * width * height` bytes the decoder leaves at the start of `dst`. */
  function Decode(half: AlphaHalf, src: seq<bv8>, width: nat, height: nat): (bytes: seq<bv8>)
    ensures |bytes| == 4 * (width * height)
  {
    ImageBytes(width, height, BlockTexel(half, src))
  }

  /** Pixel (x, y) occupies bytes `y * 4 * width + 4 * x` to `+ 3`: red, green, blue and alpha of
      texel `TexelOf(x, y)` of its own block, which lies inside `src`. */
  lemma DecodedPixel(half: AlphaHalf, src: seq<bv8>, width: nat, height: nat, x: nat, y: nat)
    requires BlockSize * BlockCount(width, height) <= |src| && x < width && y < height
    ensures var n, o := BlockOf(width, x, y), y * (4 * width) + 4 * x;
      BlockSize * n + BlockSize <= |src| && o + 3 < 4 * (width * height) &&
      Decode(half, src, width, height)[o .. o + 4]
        == PixelBytes(Texel(half, src[BlockSize * n .. BlockSize * n + BlockSize], TexelOf(x, y)))
  {
    var n := BlockOf(width, x, y);
    BlockRead(width, height, x, y, src);
    ImageBytesAt(width, height, BlockTexel(half, src), x, y);
    assert BlockBytes(src, n, BlockSize) == src[BlockSize * n .. BlockSize * n + BlockSize];
  }

  /** The block holding an in-range pixel lies inside `src`. */
  lemma BlockRead(width: nat, height: nat, x: nat, y: nat, src: seq<bv8>)
    requires BlockSize * BlockCount(width, height) <= |src| && x < width && y < height
    ensures var n := BlockOf(width, x, y); BlockSize * (n + 1) <= |src|
  {
    BlockInRange(width, height, x, y);
    MulMono(BlockSize, BlockOf(width, x, y) + 1, BlockCount(width, height));
  }

  /** The legacy and the current decoders agree on every texel except that the current ones swap
      red and blue in the two interpolated palette entries. */
  lemma Generations(blk: seq<bv8>, k: nat)
    requires |blk| == BlockSize
    ensures var swap := ColourIndex(U32(blk, 12), k) >= 2;
      Dxt3.Texel(blk, k) == (if swap then SwapRedBlue(Texel(Explicit, blk, k)) else Texel(Explicit, blk, k)) &&
      Dxt5.Texel(blk, k) == (if swap then SwapRedBlue(Texel(Interpolated, blk, k)) else Texel(Interpolated, blk, k))
  {
    SrcPaletteSwapsRedBlue(Expand565(U16(blk, 8), 255), Expand565(U16(blk, 10), 255));
  }

  method DecompressDxt3(src: seq<bv8>, dst: array<bv8>, width: nat, height: nat)
    requires BlockSize * BlockCount(width, height) <= |src| && 4 * (width * height) <= dst.Length
    modifies dst
    ensures dst[..4 * (width * height)] == Decode(Explicit, src, width, height)
    ensures dst[4 * (width * height)..] == old(dst[4 * (width * height)..])
  {
    Decompress(Explicit, src, dst, width, height);
  }

  method DecompressDxt5(src: seq<bv8>, dst: array<bv8>, width: nat, height: nat)
    requires BlockSize * BlockCount(width, height) <= |src| && 4 * (width * height) <= dst.Length
    modifies dst
    ensures dst[..4 * (width * height)] == Decode(Interpolated, src, width, height)
    ensures dst[4 * (width * height)..] == old(dst[4 * (width * height)..])
  {
    Decompress(Interpolated, src, dst, width, height);
  }

  /** The block loops shared by both decoders: `temp` is the `Temp` pointer, 16 bytes further for
      each block; `rowBytes` is `iBps`, the bytes of one pixel row. */
  method Decompress(half: AlphaHalf, src: seq<bv8>, dst: array<bv8>, width: nat, height: nat)
    requires BlockSize * BlockCount(width, height) <= |src| && 4 * (width * height) <= dst.Length
    modifies dst
    ensures dst[..4 * (width * height)] == Decode(half, src, width, height)
    ensures dst[4 * (width * height)..] == old(dst[4 * (width * height)..])
  {
    ghost var size := 4 * (width * height);
    ghost var expected := Decode(half, src, width, height) + dst[size..];
    var rowBytes := 4 * width;
    var temp := 0;
    var y := 0;
    BytesFilledNone(dst[..], expected, width, height);
    while y < height
      invariant y % 4 == 0 && y < height + 4
      invariant temp == BlockSize * BlockOf(width, 0, y)
      invariant BytesFilled(dst[..], expected, width, height, 16 * BlockOf(width, 0, y), 16 * BlockOf(width, 0, y))
    {
      temp := DecodeBlockRow(half, src, dst, width, height, rowBytes, y, temp, expected);
      NextBoundary(y);
      y := y + 4;
    }
    LastBlockRow(width, height, y);
    BytesFilledAll(dst[..], expected, width, height);
    assert dst[..size] == expected[..size];
  }

  /** The `x` loop over the blocks of the block row at `y`. */
  method DecodeBlockRow(half: AlphaHalf, src: seq<bv8>, dst: array<bv8>, width: nat, height: nat, rowBytes: nat,
                        y: nat, temp: nat, ghost expected: seq<bv8>) returns (next: nat)
    requires y % 4 == 0 && y < height && rowBytes == 4 * width
    requires BlockSize * BlockCount(width, height) <= |src|
    requires dst.Length == |expected| && 4 * (width * height) <= dst.Length
    requires expected[..4 * (width * height)] == Decode(half, src, width, height)
    requires temp == BlockSize * BlockOf(width, 0, y)
    requires BytesFilled(dst[..], expected, width, height, 16 * BlockOf(width, 0, y), 16 * BlockOf(width, 0, y))
    modifies dst
    ensures next == BlockSize * BlockOf(width, 0, y + 4)
    ensures BytesFilled(dst[..], expected, width, height, 16 * BlockOf(width, 0, y + 4), 16 * BlockOf(width, 0, y + 4))
  {
    ghost var n := BlockOf(width, 0, y);
    next := temp;
    var x := 0;
    while x < width
      invariant x % 4 == 0 && x < width + 4
      invariant n == BlockOf(width, x, y) && next == BlockSize * n
      invariant BytesFilled(dst[..], expected, width, height, 16 * n, 16 * n)
    {
      DecodeBlockAt(half, src, dst, width, height, rowBytes, x, y, next, expected, n);
      NextBlock(width, x, y);
      x, n, next := x + 4, n + 1, next + BlockSize;
    }
    NextBlockRow(width, x, y);
  }

  /** One block: read its fields at `temp`, then the colour pass and the alpha pass. */
  method DecodeBlockAt(half: AlphaHalf, src: seq<bv8>, dst: array<bv8>, width: nat, height: nat, rowBytes: nat,
                       x: nat, y: nat, temp: nat, ghost expected: seq<bv8>, ghost n: nat)
    requires x % 4 == 0 && y % 4 == 0 && x < width && y < height && rowBytes == 4 * width
    requires BlockSize * BlockCount(width, height) <= |src|
    requires dst.Length == |expected| && 4 * (width * height) <= dst.Length
    requires expected[..4 * (width * height)] == Decode(half, src, width, height)
    requires n == BlockOf(width, x, y) && temp == BlockSize * n
    requires BytesFilled(dst[..], expected, width, height, 16 * n, 16 * n)
    modifies dst
    ensures BytesFilled(dst[..], expected, width, height, 16 * n + 16, 16 * n + 16)
  {
    BlockRead(width, height, x, y, src);
    var blk := src[temp .. temp + BlockSize];
    ghost var texel := BlockTexel(half, src);
    TexelsExpected(half, src, width, height, x, y, expected);
    BlockColours(half, src, n, blk);
    ColourPass(dst, width, height, rowBytes, x, y, Palette(blk), U32(blk, 12), expected, 16 * n, texel, n);
    AlphaPass(half, src, blk, dst, width, height, rowBytes, x, y, expected, n);
  }

  /** The alpha pass of the block at (x, y), after its colour pass: explicit or interpolated. */
  method AlphaPass(half: AlphaHalf, src: seq<bv8>, blk: seq<bv8>, dst: array<bv8>, width: nat, height: nat,
                   rowBytes: nat, x: nat, y: nat, ghost expected: seq<bv8>, ghost n: nat)
    requires x % 4 == 0 && y % 4 == 0 && x < width && rowBytes == 4 * width
    requires dst.Length == |expected| && 4 * (width * height) <= dst.Length
    requires n == BlockOf(width, x, y)
    requires BlockSize * (n + 1) <= |src| && blk == src[BlockSize * n .. BlockSize * n + BlockSize]
    requires forall k | 0 <= k < 16 :: TexelBytes(expected, width, height, x, y, k, BlockTexel(half, src)(n, k))
    requires BytesFilled(dst[..], expected, width, height, 16 * n + 16, 16 * n)
    modifies dst
    ensures BytesFilled(dst[..], expected, width, height, 16 * n + 16, 16 * n + 16)
  {
    ghost var texel := BlockTexel(half, src);
    if half == Explicit {
      ExplicitAlphas(src, n, blk);
      ExplicitAlphaPass(dst, width, height, rowBytes, x, y, Dxt3.AlphaRows(blk), expected, 16 * n, texel, n);
    } else {
      InterpolatedAlphas(src, n, blk);
      InterpolatedAlphaPass(dst, width, height, rowBytes, x, y, AlphaPalette(blk[0] as nat, blk[1] as nat),
                            U32(blk, 2), U32(blk, 5), expected, 16 * n, texel, n);
    }
  }

  /** Each texel of the block at (x, y) has its bytes where it lands in `expected`. */
  lemma TexelsExpected(half: AlphaHalf, src: seq<bv8>, width: nat, height: nat, x: nat, y: nat, expected: seq<bv8>)
    requires x % 4 == 0 && y % 4 == 0
    requires 4 * (width * height) <= |expected| && expected[..4 * (width * height)] == Decode(half, src, width, height)
    ensures forall k | 0 <= k < 16 :: TexelBytes(expected, width, height, x, y, k, BlockTexel(half, src)(BlockOf(width, x, y), k))
  {
    var size := 4 * (width * height);
    assert expected == ImageBytes(width, height, BlockTexel(half, src)) + expected[size..];
    BlockBytesExpected(width, height, BlockTexel(half, src), expected[size..], x, y);
  }

  /** `c` carries the red, green and blue of `v`. */
  ghost predicate SameColour(c: Rgba, v: Rgba)
  {
    c.r == v.r && c.g == v.g && c.b == v.b
  }

  lemma BlockColours(half: AlphaHalf, src: seq<bv8>, n: nat, blk: seq<bv8>)
    requires BlockSize * (n + 1) <= |src| && blk == src[BlockSize * n .. BlockSize * n + BlockSize]
    ensures forall k | 0 <= k < 16 :: SameColour(Palette(blk)[ColourIndex(U32(blk, 12), k)], BlockTexel(half, src)(n, k))
  {
  }

  /** The explicit alpha of texel `k` is nibble `k % 4` of the row word `k / 4`, widened. */
  lemma ExplicitAlphas(src: seq<bv8>, n: nat, blk: seq<bv8>)
    requires BlockSize * (n + 1) <= |src| && blk == src[BlockSize * n .. BlockSize * n + BlockSize]
    ensures forall k | 0 <= k < 16 :: Dxt3.Alpha4(Digit(Dxt3.AlphaRows(blk)[k / 4], 16, k % 4)) == BlockTexel(Explicit, src)(n, k).a
  {
    forall k | 0 <= k < 16
      ensures Dxt3.Alpha4(Digit(Dxt3.AlphaRows(blk)[k / 4], 16, k % 4)) == Texel(Explicit, blk, k).a
    {
      Dxt3.AlphaField(blk, k / 4, k % 4, k);
    }
  }

  /** The interpolated alpha of texel `k` is picked by field `k` of the word at byte 2 for rows 0-1
      and by field `k - 8` of the word at byte 5 for rows 2-3. */
  lemma InterpolatedAlphas(src: seq<bv8>, n: nat, blk: seq<bv8>)
    requires BlockSize * (n + 1) <= |src| && blk == src[BlockSize * n .. BlockSize * n + BlockSize]
    ensures var alphas := AlphaPalette(blk[0] as nat, blk[1] as nat);
      forall k | 0 <= k < 8 :: alphas[Digit(U32(blk, 2), 8, k)] == BlockTexel(Interpolated, src)(n, k).a
    ensures var alphas := AlphaPalette(blk[0] as nat, blk[1] as nat);
      forall k | 8 <= k < 16 :: alphas[Digit(U32(blk, 5), 8, k - 8)] == BlockTexel(Interpolated, src)(n, k).a
  {
    forall k | 0 <= k < 16
      ensures Texel(Interpolated, blk, k).a == AlphaPalette(blk[0] as nat, blk[1] as nat)[AlphaIndex(blk, k)]
    {
    }
    forall k | 0 <= k < 16
      ensures k < 8 ==> AlphaIndex(blk, k) == Digit(U32(blk, 2), 8, k)
      ensures k >= 8 ==> AlphaIndex(blk, k) == Digit(U32(blk, 5), 8, k - 8)
    {
      IndexWords(blk, k);
    }
  }

  /** The colour pass: texel `k = 4 * j + i` takes palette entry `(bitmask >> 2k) & 3`, whose red,
      green and blue go to bytes 0-2 of its pixel. */
  method ColourPass(dst: array<bv8>, width: nat, height: nat, rowBytes: nat, xSource: nat, ySource: nat,
                    colours: seq<Rgba>, bitmask: nat, ghost expected: seq<bv8>, ghost cur: nat,
                    ghost texel: (nat, nat) -> Rgba, ghost n: nat)
    requires dst.Length == |expected| && 4 * (width * height) <= dst.Length && rowBytes == 4 * width
    requires xSource % 4 == 0 && ySource % 4 == 0 && xSource < width
    requires n == BlockOf(width, xSource, ySource) && cur == 16 * n
    requires |colours| == 4 && forall k | 0 <= k < 16 :: SameColour(colours[ColourIndex(bitmask, k)], texel(n, k))
    requires forall k | 0 <= k < 16 :: TexelBytes(expected, width, height, xSource, ySource, k, texel(n, k))
    requires BytesFilled(dst[..], expected, width, height, cur, cur)
    modifies dst
    ensures BytesFilled(dst[..], expected, width, height, cur + 16, cur)
  {
    ghost var next := cur;
    var k := 0;
    for j := 0 to 4
      invariant k == 4 * j && next == cur + k
      invariant BytesFilled(dst[..], expected, width, height, next, cur)
    {
      for i := 0 to 4
        invariant k == 4 * j + i && next == cur + k
        invariant BytesFilled(dst[..], expected, width, height, next, cur)
      {
        var select := ColourIndex(bitmask, k);
        var col := colours[select];
        PlotColour(dst, width, height, rowBytes, xSource, ySource, i, j, xSource + i, ySource + j, k, col,
                   texel(n, k), expected, next, cur);
        k := k + 1;
        next := next + 1;
      }
    }
  }

  /** `word & 0x0F` stored, then or-ed with itself shifted left by 4: the nibble widened to a
      byte by repeating it. */
  function Widen(word: nat): (alpha: bv8)
    ensures alpha as nat == Dxt3.Alpha4(word % 16)
  {
    var nibble := (word % 16) as bv8;
    nibble | (nibble << 4)
  }

  /** The DXT3 alpha pass: row `j` starts from `alpha->row[j]`, stores its low nibble, widened, as
      byte 3 of each pixel and shifts right by 4. */
  method ExplicitAlphaPass(dst: array<bv8>, width: nat, height: nat, rowBytes: nat, xSource: nat, ySource: nat,
                           rows: seq<nat>, ghost expected: seq<bv8>, ghost cur: nat,
                           ghost texel: (nat, nat) -> Rgba, ghost n: nat)
    requires dst.Length == |expected| && 4 * (width * height) <= dst.Length && rowBytes == 4 * width
    requires xSource % 4 == 0 && ySource % 4 == 0 && xSource < width
    requires n == BlockOf(width, xSource, ySource) && cur == 16 * n
    requires |rows| == 4 && forall k | 0 <= k < 16 :: Dxt3.Alpha4(Digit(rows[k / 4], 16, k % 4)) == texel(n, k).a
    requires forall k | 0 <= k < 16 :: TexelBytes(expected, width, height, xSource, ySource, k, texel(n, k))
    requires BytesFilled(dst[..], expected, width, height, cur + 16, cur)
    modifies dst
    ensures BytesFilled(dst[..], expected, width, height, cur + 16, cur + 16)
  {
    for j := 0 to 4
      invariant BytesFilled(dst[..], expected, width, height, cur + 16, cur + 4 * j)
    {
      ExplicitAlphaRow(dst, width, height, rowBytes, xSource, ySource, rows, j, expected, cur, texel, n);
    }
  }

  /** Row `j` of the DXT3 alpha pass. */
  method ExplicitAlphaRow(dst: array<bv8>, width: nat, height: nat, rowBytes: nat, xSource: nat, ySource: nat,
                          rows: seq<nat>, j: nat, ghost expected: seq<bv8>, ghost cur: nat,
                          ghost texel: (nat, nat) -> Rgba, ghost n: nat)
    requires dst.Length == |expected| && 4 * (width * height) <= dst.Length && rowBytes == 4 * width
    requires xSource % 4 == 0 && ySource % 4 == 0 && xSource < width
    requires n == BlockOf(width, xSource, ySource) && cur == 16 * n && j < 4
    requires |rows| == 4 && forall k | 0 <= k < 16 :: Dxt3.Alpha4(Digit(rows[k / 4], 16, k % 4)) == texel(n, k).a
    requires forall k | 0 <= k < 16 :: TexelBytes(expected, width, height, xSource, ySource, k, texel(n, k))
    requires BytesFilled(dst[..], expected, width, height, cur + 16, cur + 4 * j)
    modifies dst
    ensures BytesFilled(dst[..], expected, width, height, cur + 16, cur + 4 * j + 4)
  {
    ghost var next := cur + 4 * j;
    var word := rows[j];
    for i := 0 to 4
      invariant next == cur + 4 * j + i
      invariant word == rows[j] / Pow(16, i)
      invariant BytesFilled(dst[..], expected, width, height, cur + 16, next)
    {
      ghost var k := 4 * j + i;
      var alpha := Widen(word);
      RowAndColumn(k, j, i);
      ShiftStep(rows[j], 16, i, word);
      PlotAlpha(dst, width, height, rowBytes, xSource, ySource, i, j, xSource + i, ySource + j, k, alpha,
                texel(n, k), expected, cur + 16, next);
      word := word / 16;
      next := next + 1;
    }
  }

  /** The DXT5 alpha pass: rows 0-1 take their 3-bit indices from `bits`, the word at byte 2, and
      rows 2-3 from the word at byte 5, lowest bits first, shifting right by 3 after each pixel. */
  method InterpolatedAlphaPass(dst: array<bv8>, width: nat, height: nat, rowBytes: nat, xSource: nat, ySource: nat,
                               alphas: seq<Channel>, lower: nat, upper: nat, ghost expected: seq<bv8>, ghost cur: nat,
                               ghost texel: (nat, nat) -> Rgba, ghost n: nat)
    requires dst.Length == |expected| && 4 * (width * height) <= dst.Length && rowBytes == 4 * width
    requires xSource % 4 == 0 && ySource % 4 == 0 && xSource < width
    requires n == BlockOf(width, xSource, ySource) && cur == 16 * n
    requires |alphas| == 8
    requires forall k | 0 <= k < 8 :: alphas[Digit(lower, 8, k)] == texel(n, k).a
    requires forall k | 8 <= k < 16 :: alphas[Digit(upper, 8, k - 8)] == texel(n, k).a
    requires forall k | 0 <= k < 16 :: TexelBytes(expected, width, height, xSource, ySource, k, texel(n, k))
    requires BytesFilled(dst[..], expected, width, height, cur + 16, cur)
    modifies dst
    ensures BytesFilled(dst[..], expected, width, height, cur + 16, cur + 16)
  {
    var bits := lower;
    IndexRows(dst, width, height, rowBytes, xSource, ySource, alphas, bits, 0, expected, cur, texel, n);
    bits := upper;
    IndexRows(dst, width, height, rowBytes, xSource, ySource, alphas, bits, 2, expected, cur, texel, n);
  }

  /** Rows `first` and `first + 1` of the DXT5 alpha pass: texel `k` takes alpha
      `alphas[bits & 7]` and `bits` shifts right by 3. */
  method IndexRows(dst: array<bv8>, width: nat, height: nat, rowBytes: nat, xSource: nat, ySource: nat,
                   alphas: seq<Channel>, word: nat, first: nat, ghost expected: seq<bv8>, ghost cur: nat,
                   ghost texel: (nat, nat) -> Rgba, ghost n: nat)
    requires dst.Length == |expected| && 4 * (width * height) <= dst.Length && rowBytes == 4 * width
    requires xSource % 4 == 0 && ySource % 4 == 0 && xSource < width
    requires n == BlockOf(width, xSource, ySource) && cur == 16 * n && first <= 2
    requires |alphas| == 8
    requires forall k | 4 * first <= k < 4 * first + 8 :: alphas[Digit(word, 8, k - 4 * first)] == texel(n, k).a
    requires forall k | 0 <= k < 16 :: TexelBytes(expected, width, height, xSource, ySource, k, texel(n, k))
    requires BytesFilled(dst[..], expected, width, height, cur + 16, cur + 4 * first)
    modifies dst
    ensures BytesFilled(dst[..], expected, width, height, cur + 16, cur + 4 * first + 8)
  {
    var bits := word;
    for j := first to first + 2
      invariant bits == word / Pow(8, 4 * (j - first))
      invariant BytesFilled(dst[..], expected, width, height, cur + 16, cur + 4 * j)
    {
      bits := IndexRow(dst, width, height, rowBytes, xSource, ySource, alphas, word, first, j, bits, expected, cur, texel, n);
    }
  }

  /** Row `j` of the DXT5 alpha pass, with `bits` shifted to its first texel; returns `bits`
      shifted past the row. */
  method IndexRow(dst: array<bv8>, width: nat, height: nat, rowBytes: nat, xSource: nat, ySource: nat,
                  alphas: seq<Channel>, ghost word: nat, ghost first: nat, j: nat, bits: nat,
                  ghost expected: seq<bv8>, ghost cur: nat, ghost texel: (nat, nat) -> Rgba, ghost n: nat)
    returns (rest: nat)
    requires dst.Length == |expected| && 4 * (width * height) <= dst.Length && rowBytes == 4 * width
    requires xSource % 4 == 0 && ySource % 4 == 0 && xSource < width
    requires n == BlockOf(width, xSource, ySource) && cur == 16 * n && first <= j < first + 2 && j < 4
    requires |alphas| == 8 && bits == word / Pow(8, 4 * (j - first))
    requires forall k | 4 * first <= k < 4 * first + 8 :: alphas[Digit(word, 8, k - 4 * first)] == texel(n, k).a
    requires forall k | 0 <= k < 16 :: TexelBytes(expected, width, height, xSource, ySource, k, texel(n, k))
    requires BytesFilled(dst[..], expected, width, height, cur + 16, cur + 4 * j)
    modifies dst
    ensures rest == word / Pow(8, 4 * (j - first) + 4)
    ensures BytesFilled(dst[..], expected, width, height, cur + 16, cur + 4 * j + 4)
  {
    ghost var next := cur + 4 * j;
    rest := bits;
    for i := 0 to 4
      invariant next == cur + 4 * j + i
      invariant rest == word / Pow(8, 4 * (j - first) + i)
      invariant BytesFilled(dst[..], expected, width, height, cur + 16, next)
    {
      ghost var k := 4 * j + i;
      IndexStep(alphas, word, first, rest, k, texel, n);
      var alpha := alphas[rest % 8] as bv8;
      ghost var v := texel(n, k);
      assert TexelBytes(expected, width, height, xSource, ySource, k, v) && alpha == v.a as bv8;
      PlotAlpha(dst, width, height, rowBytes, xSource, ySource, i, j, xSource + i, ySource + j, k, alpha,
                v, expected, cur + 16, next);
      rest := rest / 8;
      next := next + 1;
    }
  }

  /** The index `bits & 7` with `bits` shifted to texel `k` picks texel `k`'s alpha, and the next
      shift moves on to texel `k + 1`. */
  lemma IndexStep(alphas: seq<Channel>, word: nat, first: nat, bits: nat, k: nat,
                  texel: (nat, nat) -> Rgba, n: nat)
    requires |alphas| == 8 && 4 * first <= k < 4 * first + 8 && bits == word / Pow(8, k - 4 * first)
    requires forall k | 4 * first <= k < 4 * first + 8 :: alphas[Digit(word, 8, k - 4 * first)] == texel(n, k).a
    ensures alphas[bits % 8] == texel(n, k).a && bits / 8 == word / Pow(8, k - 4 * first + 1)
  {
    ShiftStep(word, 8, k - 4 * first, bits);
  }
}
