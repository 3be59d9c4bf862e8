/** `decompressDxt1` (src/dxt/dxt1.cpp): S3TC DXT1 (BC1) blocks of 8 bytes -- two 565 endpoints
    and sixteen 2-bit palette indices -- decoded into a `width * height` RGBA image. */
module Dxt1 {
  import opened Errors
  import opened Bytes
  import opened Raster
  import opened Blocks
  import opened DataView
  import opened DxtColour
  import opened BlockImage
  import opened Bits
  import opened BlockStream

  const BlockSize := 8

  /** The block palette: four-colour mode when the raw colour0 word exceeds colour1, otherwise
      three colours and a transparent black. */
  function Palette(word0: nat, word1: nat): (p: seq<Rgba>)
    ensures |p| == 4 && p[0] == Expand565(word0, 255) && p[1] == Expand565(word1, 255)
    ensures p[2].a == 255
    ensures p[3].a == 0 <==> word0 <= word1
    ensures word0 <= word1 ==> p[3] == Blank
    ensures word0 > word1 ==> p == ColourBlockPalette(word0, word1)
    ensures word0 <= word1 ==> p[2] == SwapRedBlue(Rgba(Half(p[0].r, p[1].r), Half(p[0].g, p[1].g), Half(p[0].b, p[1].b), 255))
  {
    var c0, c1 := Expand565(word0, 255), Expand565(word1, 255);
    if word0 > word1 then SrcFourColourPalette(c0, c1)
    else [c0, c1, Rgba(Half(c0.b, c1.b), Half(c0.g, c1.g), Half(c0.r, c1.r), 255), Rgba(0, 0, 0, 0)]
  }

  /** The S3TC (BC1) palette, channels assigned by name: the thirds in four-colour mode, the
      midpoint and transparent black in three-colour mode. */
  function S3tcPalette(word0: nat, word1: nat): seq<Rgba>
  {
    var c0, c1 := Expand565(word0, 255), Expand565(word1, 255);
    if word0 > word1 then FourColourPalette(c0, c1)
    else [c0, c1, Rgba(Half(c0.r, c1.r), Half(c0.g, c1.g), Half(c0.b, c1.b), 255), Blank]
  }

  /** The decoder's palette is the S3TC one with red and blue swapped in its interpolated
      entries: entries 2 and 3 in four-colour mode, the midpoint in three-colour mode. */
  lemma PaletteSwapsRedBlue(word0: nat, word1: nat)
    ensures var s := S3tcPalette(word0, word1);
      Palette(word0, word1) ==
        if word0 > word1 then s[2 := SwapRedBlue(s[2])][3 := SwapRedBlue(s[3])]
        else s[2 := SwapRedBlue(s[2])]
  {
    if word0 > word1 {
      SrcPaletteSwapsRedBlue(Expand565(word0, 255), Expand565(word1, 255));
    }
  }

  /** The swap shows in three-colour mode too: for a block blending black into pure red the
      S3TC midpoint is (124, 0, 0) and the decoder's is (0, 0, 124). */
  lemma ThreeColourSwapVisible()
    ensures S3tcPalette(0, 0xF800)[2] == Rgba(124, 0, 0, 255)
    ensures Palette(0, 0xF800)[2] == Rgba(0, 0, 124, 255)
  {
    var black, red := Expand565(0, 255), Expand565(0xF800, 255);
    assert black == Rgba(0, 0, 0, 255);
    assert red == Rgba(248, 0, 0, 255);
    assert Half(0, 248) == 124 && Half(0, 0) == 0;
  }

  /** Texel `k` of an 8-byte block: colour0 at byte 0, colour1 at byte 2, bitmask at byte 4. */
  function Texel(blk: seq<bv8>, k: nat): (c: Rgba)
    requires |blk| == BlockSize
  {
    Palette(U16(blk, 0), U16(blk, 2))[ColourIndex(U32(blk, 4), k)]
  }

  /** Texel `k` of block `n` of the source bytes. */
  function BlockTexel(bytes: seq<bv8>): (nat, nat) -> Rgba
  {
    (n: nat, k: nat) => Texel(BlockBytes(bytes, n, BlockSize), k)
  }

  /** What `decompressDxt1` returns: the image, or the error of the first read that fails. The
      reads of block `n` end at its last byte (the bitmask at bytes 4-7). */
  function Decode(src: Buffer, width: nat, height: nat): Result<seq<Rgba>>
  {
    match StreamError(src, BlockCount(width, height), BlockSize)
    case Some(e) => Err(e)
    case None => Ok(Image(width, height, BlockTexel(src.bytes)))
  }

  method DecompressDxt1(src: Buffer, width: nat, height: nat) returns (r: Result<seq<Rgba>>)
    ensures r == Decode(src, width, height)
  {
    var dataView := NewView(src);
    var output := new Rgba[width * height](_ => Blank);
    ghost var expected := Image(width, height, BlockTexel(src.bytes));
    var ySource := 0;
    FilledNone(output[..], expected, width);
    while ySource < height
      invariant ySource % 4 == 0 && ySource < height + 4
      invariant dataView.data == src && dataView.offset == BlockSize * BlockOf(width, 0, ySource)
      invariant BlockOf(width, 0, ySource) > 0 ==> !src.expired && BlockSize * BlockOf(width, 0, ySource) <= |src.bytes|
      invariant Filled(output[..], expected, width, 16 * BlockOf(width, 0, ySource))
    {
      dataView :- DecodeBlockRow(src, dataView, output, width, height, ySource, expected);
      NextBoundary(ySource);
      ySource := ySource + 4;
    }
    LastBlockRow(width, height, ySource);
    FilledAll(output[..], expected, width, height);
    return Ok(output[..]);
  }

  /** One pass of the `xSource` loop: the blocks of the block row at `ySource`, in order. On
      success the view stands at the first block of the next row. */
  method DecodeBlockRow(src: Buffer, dataView: OffsetDataView, output: array<Rgba>, width: nat, height: nat,
                        ySource: nat, ghost expected: seq<Rgba>) returns (r: Result<OffsetDataView>)
    requires ySource % 4 == 0 && ySource < height
    requires output.Length == width * height && expected == Image(width, height, BlockTexel(src.bytes))
    requires dataView.data == src && dataView.offset == BlockSize * BlockOf(width, 0, ySource)
    requires BlockOf(width, 0, ySource) > 0 ==> !src.expired && BlockSize * BlockOf(width, 0, ySource) <= |src.bytes|
    requires Filled(output[..], expected, width, 16 * BlockOf(width, 0, ySource))
    modifies output
    ensures r.Err? ==> Decode(src, width, height) == Err(r.error)
    ensures r.Ok? ==> var n := BlockOf(width, 0, ySource + 4);
      r.value.data == src && r.value.offset == BlockSize * n &&
      (n > 0 ==> !src.expired && BlockSize * n <= |src.bytes|) &&
      Filled(output[..], expected, width, 16 * n)
  {
    var view := dataView;
    ghost var n, cur := BlockOf(width, 0, ySource), 16 * BlockOf(width, 0, ySource);
    var xSource := 0;
    while xSource < width
      invariant xSource % 4 == 0 && xSource < width + 4
      invariant n == BlockOf(width, xSource, ySource) && cur == 16 * n
      invariant view.data == src && view.offset == BlockSize * n
      invariant n > 0 ==> !src.expired && BlockSize * n <= |src.bytes|
      invariant Filled(output[..], expected, width, cur)
    {
      view :- DecodeBlockAt(src, view, output, width, height, xSource, ySource, expected, n, cur);
      NextBlock(width, xSource, ySource);
      xSource, n, cur := xSource + 4, n + 1, cur + 16;
    }
    FilledNextRow(output[..], expected, width, xSource, ySource, cur);
    return Ok(view);
  }

  /** One pass of the block loop's body: read block `n`, step the view past it, and write its
      texels. */
  method DecodeBlockAt(src: Buffer, view: OffsetDataView, output: array<Rgba>, width: nat, height: nat,
                       xSource: nat, ySource: nat, ghost expected: seq<Rgba>, ghost n: nat, ghost cur: nat)
    returns (r: Result<OffsetDataView>)
    requires xSource % 4 == 0 && ySource % 4 == 0 && xSource < width && ySource < height
    requires output.Length == width * height && expected == Image(width, height, BlockTexel(src.bytes))
    requires n == BlockOf(width, xSource, ySource) && cur == 16 * n
    requires view.data == src && view.offset == BlockSize * n
    requires Filled(output[..], expected, width, cur)
    modifies output
    ensures r.Err? ==> Decode(src, width, height) == Err(r.error)
    ensures r.Ok? ==> r.value.data == src && r.value.offset == BlockSize * (n + 1)
    ensures r.Ok? ==> !src.expired && BlockSize * (n + 1) <= |src.bytes|
    ensures r.Ok? ==> Filled(output[..], expected, width, cur + 16)
  {
    BlockInRange(width, height, xSource, ySource);
    var block :- ReadBlock(view, src, width, height, n);
    var next := WithRelativeOffset(view, BlockSize);
    var (colours, bitmask) := block;
    BlockExpected(width, height, BlockTexel(src.bytes), xSource, ySource);
    BlockColours(src.bytes, n, colours, bitmask);
    DecodeBlock(output, width, height, xSource, ySource, colours, bitmask, expected, cur, BlockTexel(src.bytes), n);
    return Ok(next);
  }

  /** The three reads of block `n`: colour0 at byte 0, colour1 at byte 2 and the bitmask at
      byte 4, each through a 4-byte `Colour565`/`uint32_t` struct. The first that fails ends the
      decode with its error; otherwise the palette and bitmask are those of the block's bytes. */
  method ReadBlock(dataView: OffsetDataView, ghost src: Buffer, ghost width: nat, ghost height: nat,
                   ghost n: nat) returns (r: Result<(seq<Rgba>, nat)>)
    requires dataView.data == src && dataView.offset == BlockSize * n
    requires n < BlockCount(width, height)
    ensures r.Err? ==> Decode(src, width, height) == Err(r.error)
    ensures r.Ok? ==> !src.expired && BlockSize * (n + 1) <= |src.bytes|
    ensures r.Ok? ==> var blk := BlockBytes(src.bytes, n, BlockSize);
      r.value == (Palette(U16(blk, 0), U16(blk, 2)), U32(blk, 4))
  {
    ghost var count := BlockCount(width, height);
    ReadOutcome(src, count, BlockSize, n, 0, 4);
    ReadOutcome(src, count, BlockSize, n, 2, 4);
    ReadOutcome(src, count, BlockSize, n, 4, 4);
    var colour0 :- ParseStruct(dataView, 0, 4);
    var colour1 :- ParseStruct(dataView, 2, 4);
    var bitmask :- ParseStruct(dataView, 4, 4);
    ReadU16(src.bytes, n, BlockSize, 0, 4, colour0);
    ReadU16(src.bytes, n, BlockSize, 2, 4, colour1);
    ReadU32(src.bytes, n, BlockSize, 4, 4, bitmask);
    return Ok((Palette(U16(colour0, 0), U16(colour1, 0)), U32(bitmask, 0)));
  }

  /** The palette entry the bitmask selects for texel `k` is texel `k` of the block. */
  lemma BlockColours(bytes: seq<bv8>, n: nat, colours: seq<Rgba>, bitmask: nat)
    requires var blk := BlockBytes(bytes, n, BlockSize);
      colours == Palette(U16(blk, 0), U16(blk, 2)) && bitmask == U32(blk, 4)
    ensures forall k | 0 <= k < 16 :: colours[ColourIndex(bitmask, k)] == BlockTexel(bytes)(n, k)
  {
  }

  /** The two pixel loops of one block: texel `pixelIndex = 4 * yOffset + xOffset` takes palette
      entry `ColourIndex(bitmask, pixelIndex)` and is stored when it lies inside the image. */
  method DecodeBlock(output: array<Rgba>, width: nat, height: nat, xSource: nat, ySource: nat,
                     colours: seq<Rgba>, bitmask: nat, ghost expected: seq<Rgba>, ghost cur: nat,
                     ghost texel: (nat, nat) -> Rgba, ghost n: nat)
    requires output.Length == width * height == |expected|
    requires xSource % 4 == 0 && ySource % 4 == 0 && xSource < width
    requires n == BlockOf(width, xSource, ySource) && cur == 16 * n
    requires |colours| == 4 && forall k | 0 <= k < 16 :: colours[ColourIndex(bitmask, k)] == texel(n, k)
    requires forall k | 0 <= k < 16 :: TexelExpected(expected, width, height, xSource, ySource, k, texel(n, k))
    requires Filled(output[..], expected, width, cur)
    modifies output
    ensures Filled(output[..], expected, width, cur + 16)
  {
    ghost var next := cur;
    var pixelIndex := 0;
    for yOffset := 0 to 4
      invariant pixelIndex == 4 * yOffset && next == cur + pixelIndex
      invariant Filled(output[..], expected, width, next)
    {
      for xOffset := 0 to 4
        invariant pixelIndex == 4 * yOffset + xOffset && next == cur + pixelIndex
        invariant Filled(output[..], expected, width, next)
      {
        var yDest, xDest := ySource + yOffset, xSource + xOffset;
        var colour := colours[ColourIndex(bitmask, pixelIndex)];

        PlotTexel(output, width, height, xSource, ySource, xOffset, yOffset, xDest, yDest, pixelIndex, colour, expected, next);
        pixelIndex := pixelIndex + 1;
        next := next + 1;
      }
    }
  }

  /** A decoded pixel comes from the 8 source bytes of its own block, which lie inside the
      buffer: texel `4 * (y % 4) + x % 4` of block `(y / 4) * BlocksAlong(width) + x / 4`. */
  lemma DecodedPixel(src: Buffer, width: nat, height: nat, x: nat, y: nat)
    requires Decode(src, width, height).Ok? && x < width && y < height
    ensures var n := BlockOf(width, x, y);
      BlockSize * n + BlockSize <= |src.bytes| &&
      Decode(src, width, height).value[PixelIndex(width, height, x, y)]
        == Texel(src.bytes[BlockSize * n .. BlockSize * n + BlockSize], TexelOf(x, y))
  {
    BlockInRange(width, height, x, y);
    MulMono(BlockSize, BlockOf(width, x, y) + 1, BlockCount(width, height));
    ImageAt(width, height, BlockTexel(src.bytes), x, y);
  }

  /** Only the first `8 * BlockCount` bytes matter: buffers that agree on them decode alike. */
  lemma DecodeReadsOnlyBlocks(src1: Buffer, src2: Buffer, width: nat, height: nat)
    requires src1.expired == src2.expired
    requires var size := BlockSize * BlockCount(width, height);
      size <= |src1.bytes| && size <= |src2.bytes| && src1.bytes[..size] == src2.bytes[..size]
    ensures Decode(src1, width, height) == Decode(src2, width, height)
  {
    forall n, k | 0 <= n < BlockCount(width, height) && 0 <= k < 16
      ensures BlockTexel(src1.bytes)(n, k) == BlockTexel(src2.bytes)(n, k)
    {
      SameBlock(src1.bytes, src2.bytes, n, BlockCount(width, height), BlockSize);
    }
    ImageOfVisitedBlocks(width, height, BlockTexel(src1.bytes), BlockTexel(src2.bytes));
  }
}
