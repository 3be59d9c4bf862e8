/** `decompressDxt3` (src/dxt/dxt3.cpp): S3TC DXT3 (BC2) blocks of 16 bytes -- an explicit alpha
    half of sixteen 4-bit alphas, then a colour half laid out as a DXT1 block -- decoded into a
    `width * height` RGBA image. */
module Dxt3 {
  import opened Errors
  import opened Bytes
  import opened Raster
  import opened Blocks
  import opened DataView
  import opened DxtColour
  import opened BlockImage
  import opened BlockStream
  import opened Bits

  const BlockSize := 16

  /** `maskedAlphaWord | (maskedAlphaWord << 4)`: a 4-bit alpha widened to 8 bits by repeating it
      in both nibbles (the nibbles do not overlap, so the `|` adds them). */
  function Alpha4(nibble: nat): (a: Channel)
    requires nibble < 16
    ensures a / 16 == nibble && a % 16 == nibble
  {
    nibble * 16 + nibble
  }

  /** Texel `k` of a 16-byte block: the `k`-th 4-bit field of the little-endian 64-bit alpha half,
      on the colour the bitmask at byte 12 picks from the palette of the words at bytes 8 and 10. */
  function Texel(blk: seq<bv8>, k: nat): (c: Rgba)
    requires |blk| == BlockSize
  {
    var colours := ColourBlockPalette(U16(blk, 8), U16(blk, 10));
    WithAlpha(colours[ColourIndex(U32(blk, 12), k)], Alpha4(Digit(U64(blk, 0), 16, k)))
  }

  /** Texel `k` of block `n` of the source bytes. */
  function BlockTexel(bytes: seq<bv8>): (nat, nat) -> Rgba
  {
    (n: nat, k: nat) => Texel(BlockBytes(bytes, n, BlockSize), k)
  }

  /** The texels' alphas, 4 bits each, texel 0 in the low nibble of byte 0: the alpha of texel
      `k` is nibble `k % 2` of byte `k / 2`, repeated. */
  lemma {:induction false} TexelAlpha(blk: seq<bv8>, k: nat)
    requires |blk| == BlockSize && k < 16
    ensures Texel(blk, k).a == 17 * Digit(blk[k / 2] as nat, 16, k % 2)
  {
    assert Texel(blk, k).a == 17 * Digit(U64(blk, 0), 16, k);
    AlphaField(blk, k / 4, k % 4, k);
    RowNibble(blk, k / 4, k % 4, k);
  }

  /** Field `j` of the 16-bit word `row[r]` is nibble `j % 2` of its byte `j / 2`. */
  lemma RowNibble(blk: seq<bv8>, r: nat, j: nat, k: nat)
    requires |blk| >= 8 && r < 4 && j < 4 && k == 4 * r + j
    ensures k / 2 < |blk| && Digit(U16(blk, 2 * r), 16, j) == Digit(blk[k / 2] as nat, 16, k % 2)
  {
    var lo, hi := blk[2 * r] as nat, blk[2 * r + 1] as nat;
    WordBytes(blk, 2 * r);
    DigitSplit(lo, hi, 16, 2, j);
    ByteOfTexel(r, j, k);
  }

  lemma WordBytes(blk: seq<bv8>, at: nat)
    requires at + 2 <= |blk|
    ensures U16(blk, at) == blk[at] as nat + Pow(16, 2) * blk[at + 1] as nat
  {
    assert Pow(16, 2) == 0x100;
  }

  lemma ByteOfTexel(r: nat, j: nat, k: nat)
    requires j < 4 && k == 4 * r + j
    ensures j < 2 ==> k / 2 == 2 * r && k % 2 == j
    ensures j >= 2 ==> k / 2 == 2 * r + 1 && k % 2 == j - 2
  {
  }

  /** The 4-bit field `k = 4 * r + j` of the alpha half is field `j` of the 16-bit word `row[r]`. */
  lemma AlphaField(blk: seq<bv8>, r: nat, j: nat, k: nat)
    requires |blk| >= 8 && r < 4 && j < 4 && k == 4 * r + j
    ensures Digit(U64(blk, 0), 16, k) == Digit(U16(blk, 2 * r), 16, j)
  {
    var rows := [U16(blk, 0), U16(blk, 2), U16(blk, 4), U16(blk, 6)];
    WideWord(blk);
    DoubleWord(blk, 0);
    DoubleWord(blk, 4);
    NibbleOfRows(U64(blk, 0), rows[0], rows[1], rows[2], rows[3], r, j, k);
    assert rows[r] == U16(blk, 2 * r);
  }

  /** Four 16-bit words side by side, least significant first: nibble `4 * r + j` of the whole is
      nibble `j` of word `r`. */
  lemma NibbleOfRows(x: nat, w0: nat, w1: nat, w2: nat, w3: nat, r: nat, j: nat, k: nat)
    requires w0 < Pow(16, 4) && w1 < Pow(16, 4) && w2 < Pow(16, 4)
    requires x == (w0 + Pow(16, 4) * w1) + Pow(16, 8) * (w2 + Pow(16, 4) * w3)
    requires r < 4 && j < 4 && k == 4 * r + j
    ensures Digit(x, 16, k) == Digit([w0, w1, w2, w3][r], 16, j)
  {
    var low, high := w0 + Pow(16, 4) * w1, w2 + Pow(16, 4) * w3;
    assert Pow(16, 8) == 0x1_0000_0000 && Pow(16, 4) == 0x1_0000;
    DigitSplit(low, high, 16, 8, k);
    if r < 2 {
      DigitSplit(w0, w1, 16, 4, k);
    } else {
      DigitSplit(w2, w3, 16, 4, k - 8);
    }
  }

  lemma WideWord(blk: seq<bv8>)
    requires |blk| >= 8
    ensures U32(blk, 0) < Pow(16, 8) && U64(blk, 0) == U32(blk, 0) + Pow(16, 8) * U32(blk, 4)
  {
    assert Pow(16, 8) == 0x1_0000_0000;
  }

  lemma DoubleWord(blk: seq<bv8>, at: nat)
    requires at + 4 <= |blk|
    ensures U16(blk, at) < Pow(16, 4) && U32(blk, at) == U16(blk, at) + Pow(16, 4) * U16(blk, at + 2)
  {
    assert Pow(16, 4) == 0x1_0000;
  }

  /** What `decompressDxt3` returns: the image, or the error of the first read that fails. The
      reads of block `n` end at its last byte (the bitmask at bytes 12-15). */
  function Decode(src: Buffer, width: nat, height: nat): Result<seq<Rgba>>
  {
    match StreamError(src, BlockCount(width, height), BlockSize)
    case Some(e) => Err(e)
    case None => Ok(Image(width, height, BlockTexel(src.bytes)))
  }

  /** The fields the loops use, as read from one block: the four 16-bit rows of the
      `DXTAlphaBlockExplicit`, the palette and the colour bitmask. */
  datatype Block = Block(alphaRows: seq<nat>, colours: seq<Rgba>, bitmask: nat)

  /** The fields of a 16-byte block. */
  function Fields(blk: seq<bv8>): (b: Block)
    requires |blk| == BlockSize
    ensures |b.alphaRows| == 4 && |b.colours| == 4
  {
    Block(AlphaRows(blk), ColourBlockPalette(U16(blk, 8), U16(blk, 10)), U32(blk, 12))
  }

  /** `DXTAlphaBlockExplicit::row`: the four little-endian 16-bit words at the start of `half`. */
  function AlphaRows(half: seq<bv8>): (rows: seq<nat>)
    requires |half| >= 8
    ensures |rows| == 4 && forall r | 0 <= r < 4 :: rows[r] == U16(half, 2 * r)
  {
    [U16(half, 0), U16(half, 2), U16(half, 4), U16(half, 6)]
  }

  /** The rows read from the alpha record are the rows of the block. */
  lemma AlphaRowsOfRecord(record: seq<bv8>, blk: seq<bv8>)
    requires |blk| >= 8 && record == blk[..8]
    ensures AlphaRows(record) == AlphaRows(blk)
  {
    assert record[..8] == blk[..8];
  }

  /** What the loops make of texel `k` of a block: its palette colour, and the low nibble of the
      row word after `k % 4` shifts by 4, widened. */
  function LoopTexel(b: Block, k: nat): (c: Rgba)
    requires |b.alphaRows| == 4 && |b.colours| == 4 && k < 16
  {
    WithAlpha(b.colours[ColourIndex(b.bitmask, k)], Alpha4(Digit(b.alphaRows[k / 4], 16, k % 4)))
  }

  /** Texel `4 * row + j` takes its alpha from the low nibble of its row's word shifted right
      by `4 * j`. */
  lemma LoopAlpha(b: Block, k: nat, row: nat, j: nat, word: nat)
    requires |b.alphaRows| == 4 && |b.colours| == 4 && row < 4 && j < 4 && k == 4 * row + j
    requires word == b.alphaRows[row] / Pow(16, j)
    ensures LoopTexel(b, k) == WithAlpha(b.colours[ColourIndex(b.bitmask, k)], Alpha4(word % 16))
  {
    RowAndColumn(k, row, j);
  }

  /** The loops decode every texel of a block's fields as `Texel` does. */
  lemma FieldTexels(bytes: seq<bv8>, n: nat)
    ensures var b := Fields(BlockBytes(bytes, n, BlockSize));
      forall k | 0 <= k < 16 :: LoopTexel(b, k) == BlockTexel(bytes)(n, k)
  {
    var blk := BlockBytes(bytes, n, BlockSize);
    forall k | 0 <= k < 16
      ensures LoopTexel(Fields(blk), k) == Texel(blk, k)
    {
      AlphaField(blk, k / 4, k % 4, k);
    }
  }

  method DecompressDxt3(src: Buffer, width: nat, height: nat) returns (r: Result<seq<Rgba>>)
    ensures r == Decode(src, width, height)
  {
    var dataView := NewView(src);
    var output := new Rgba[width * height](_ => Blank);
    ghost var expected := Image(width, height, BlockTexel(src.bytes));
    var ySource := 0;
    FilledNone(output[..], expected, width);
    while ySource < height
      invariant ySource % 4 == 0 && ySource < height + 4
      invariant dataView.data == src && dataView.offset == BlockSize * BlockOf(width, 0, ySource)
      invariant BlockOf(width, 0, ySource) > 0 ==> !src.expired && BlockSize * BlockOf(width, 0, ySource) <= |src.bytes|
      invariant Filled(output[..], expected, width, 16 * BlockOf(width, 0, ySource))
    {
      dataView :- DecodeBlockRow(src, dataView, output, width, height, ySource, expected);
      NextBoundary(ySource);
      ySource := ySource + 4;
    }
    LastBlockRow(width, height, ySource);
    FilledAll(output[..], expected, width, height);
    return Ok(output[..]);
  }

  /** One pass of the `xSource` loop: the blocks of the block row at `ySource`, in order. On
      success the view stands at the first block of the next row. */
  method DecodeBlockRow(src: Buffer, dataView: OffsetDataView, output: array<Rgba>, width: nat, height: nat,
                        ySource: nat, ghost expected: seq<Rgba>) returns (r: Result<OffsetDataView>)
    requires ySource % 4 == 0 && ySource < height
    requires output.Length == width * height && expected == Image(width, height, BlockTexel(src.bytes))
    requires dataView.data == src && dataView.offset == BlockSize * BlockOf(width, 0, ySource)
    requires BlockOf(width, 0, ySource) > 0 ==> !src.expired && BlockSize * BlockOf(width, 0, ySource) <= |src.bytes|
    requires Filled(output[..], expected, width, 16 * BlockOf(width, 0, ySource))
    modifies output
    ensures r.Err? ==> Decode(src, width, height) == Err(r.error)
    ensures r.Ok? ==> var n := BlockOf(width, 0, ySource + 4);
      r.value.data == src && r.value.offset == BlockSize * n &&
      (n > 0 ==> !src.expired && BlockSize * n <= |src.bytes|) &&
      Filled(output[..], expected, width, 16 * n)
  {
    var view := dataView;
    ghost var n, cur := BlockOf(width, 0, ySource), 16 * BlockOf(width, 0, ySource);
    var xSource := 0;
    while xSource < width
      invariant xSource % 4 == 0 && xSource < width + 4
      invariant n == BlockOf(width, xSource, ySource) && cur == 16 * n
      invariant view.data == src && view.offset == BlockSize * n
      invariant n > 0 ==> !src.expired && BlockSize * n <= |src.bytes|
      invariant Filled(output[..], expected, width, cur)
    {
      view :- DecodeBlockAt(src, view, output, width, height, xSource, ySource, expected, n, cur);
      NextBlock(width, xSource, ySource);
      xSource, n, cur := xSource + 4, n + 1, cur + 16;
    }
    FilledNextRow(output[..], expected, width, xSource, ySource, cur);
    return Ok(view);
  }

  /** One pass of the block loop's body: read block `n`, stepping the view past its two halves,
      and write its texels. */
  method DecodeBlockAt(src: Buffer, view: OffsetDataView, output: array<Rgba>, width: nat, height: nat,
                       xSource: nat, ySource: nat, ghost expected: seq<Rgba>, ghost n: nat, ghost cur: nat)
    returns (r: Result<OffsetDataView>)
    requires xSource % 4 == 0 && ySource % 4 == 0 && xSource < width && ySource < height
    requires output.Length == width * height && expected == Image(width, height, BlockTexel(src.bytes))
    requires n == BlockOf(width, xSource, ySource) && cur == 16 * n
    requires view.data == src && view.offset == BlockSize * n
    requires Filled(output[..], expected, width, cur)
    modifies output
    ensures r.Err? ==> Decode(src, width, height) == Err(r.error)
    ensures r.Ok? ==> r.value.data == src && r.value.offset == BlockSize * (n + 1)
    ensures r.Ok? ==> !src.expired && BlockSize * (n + 1) <= |src.bytes|
    ensures r.Ok? ==> Filled(output[..], expected, width, cur + 16)
  {
    BlockInRange(width, height, xSource, ySource);
    var read :- ReadBlock(view, src, width, height, n);
    var (block, next) := read;
    BlockExpected(width, height, BlockTexel(src.bytes), xSource, ySource);
    FieldTexels(src.bytes, n);
    DecodeBlock(output, width, height, xSource, ySource, block, expected, cur, BlockTexel(src.bytes), n);
    return Ok(next);
  }

  /** The reads of block `n`: the 8-byte alpha block at byte 0, then the colour half. The first
      read that fails ends the decode with its error. */
  method ReadBlock(dataView: OffsetDataView, ghost src: Buffer, ghost width: nat, ghost height: nat,
                   ghost n: nat) returns (r: Result<(Block, OffsetDataView)>)
    requires dataView.data == src && dataView.offset == BlockSize * n
    requires n < BlockCount(width, height)
    ensures r.Err? ==> Decode(src, width, height) == Err(r.error)
    ensures r.Ok? ==> !src.expired && BlockSize * (n + 1) <= |src.bytes|
    ensures r.Ok? ==> r.value.0 == Fields(BlockBytes(src.bytes, n, BlockSize))
    ensures r.Ok? ==> r.value.1.data == src && r.value.1.offset == BlockSize * (n + 1)
  {
    ghost var count := BlockCount(width, height);
    ReadOutcome(src, count, BlockSize, n, 0, 8);
    var alphaBlock :- ParseStruct(dataView, 0, 8);
    var colourHalf :- ReadColourHalf(dataView, src, count, n);
    var (colours, bitmask, next) := colourHalf;
    ReadBytes(src.bytes, n, BlockSize, 0, 8, alphaBlock);
    AlphaRowsOfRecord(alphaBlock, BlockBytes(src.bytes, n, BlockSize));
    return Ok((Block(AlphaRows(alphaBlock), colours, bitmask), next));
  }

  /** The two pixel loops of one block. Row `yOffset` starts from its 16-bit alpha word, whose
      low nibble is the alpha of the texel at hand and which shifts right by 4 after each texel. */
  method DecodeBlock(output: array<Rgba>, width: nat, height: nat, xSource: nat, ySource: nat,
                     block: Block, ghost expected: seq<Rgba>, ghost cur: nat,
                     ghost texel: (nat, nat) -> Rgba, ghost n: nat)
    requires output.Length == width * height == |expected|
    requires xSource % 4 == 0 && ySource % 4 == 0 && xSource < width
    requires n == BlockOf(width, xSource, ySource) && cur == 16 * n
    requires |block.alphaRows| == 4 && |block.colours| == 4
    requires forall k | 0 <= k < 16 :: LoopTexel(block, k) == texel(n, k)
    requires forall k | 0 <= k < 16 :: TexelExpected(expected, width, height, xSource, ySource, k, texel(n, k))
    requires Filled(output[..], expected, width, cur)
    modifies output
    ensures Filled(output[..], expected, width, cur + 16)
  {
    ghost var next := cur;
    var pixelIndex := 0;
    for yOffset := 0 to 4
      invariant pixelIndex == 4 * yOffset && next == cur + pixelIndex
      invariant Filled(output[..], expected, width, next)
    {
      var yDest := ySource + yOffset;
      var alphaBlockWord := block.alphaRows[yOffset];
      for xOffset := 0 to 4
        invariant pixelIndex == 4 * yOffset + xOffset && next == cur + pixelIndex
        invariant alphaBlockWord == block.alphaRows[yOffset] / Pow(16, xOffset)
        invariant Filled(output[..], expected, width, next)
      {
        var xDest := xSource + xOffset;
        var colour := block.colours[ColourIndex(block.bitmask, pixelIndex)];
        var pixel := WithAlpha(colour, Alpha4(alphaBlockWord % 16));

        LoopAlpha(block, pixelIndex, yOffset, xOffset, alphaBlockWord);
        PlotTexel(output, width, height, xSource, ySource, xOffset, yOffset, xDest, yDest, pixelIndex, pixel, expected, next);
        ShiftField(block.alphaRows[yOffset], 16, xOffset);
        alphaBlockWord := alphaBlockWord / 16;
        pixelIndex := pixelIndex + 1;
        next := next + 1;
      }
    }
  }

  /** A decoded pixel comes from the 16 source bytes of its own block, which lie inside the
      buffer. */
  lemma DecodedPixel(src: Buffer, width: nat, height: nat, x: nat, y: nat)
    requires Decode(src, width, height).Ok? && x < width && y < height
    ensures var n := BlockOf(width, x, y);
      BlockSize * n + BlockSize <= |src.bytes| &&
      Decode(src, width, height).value[PixelIndex(width, height, x, y)]
        == Texel(src.bytes[BlockSize * n .. BlockSize * n + BlockSize], TexelOf(x, y))
  {
    BlockInRange(width, height, x, y);
    MulMono(BlockSize, BlockOf(width, x, y) + 1, BlockCount(width, height));
    ImageAt(width, height, BlockTexel(src.bytes), x, y);
  }

  /** Only the first `16 * BlockCount` bytes matter: buffers that agree on them decode alike. */
  lemma DecodeReadsOnlyBlocks(src1: Buffer, src2: Buffer, width: nat, height: nat)
    requires src1.expired == src2.expired
    requires var size := BlockSize * BlockCount(width, height);
      size <= |src1.bytes| && size <= |src2.bytes| && src1.bytes[..size] == src2.bytes[..size]
    ensures Decode(src1, width, height) == Decode(src2, width, height)
  {
    forall n, k | 0 <= n < BlockCount(width, height) && 0 <= k < 16
      ensures BlockTexel(src1.bytes)(n, k) == BlockTexel(src2.bytes)(n, k)
    {
      SameBlock(src1.bytes, src2.bytes, n, BlockCount(width, height), BlockSize);
    }
    ImageOfVisitedBlocks(width, height, BlockTexel(src1.bytes), BlockTexel(src2.bytes));
  }
}
