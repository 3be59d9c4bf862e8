/** `decompressDxt5` (src/dxt/dxt5.cpp): S3TC DXT5 (BC3) blocks of 16 bytes -- an interpolated
    alpha half (two endpoint alphas and sixteen 3-bit indices) then a colour half laid out as a
    DXT1 block -- decoded into a `width * height` RGBA image. The decoder here is the one the code
    evidently intends; the three places where the code as written departs from it are modelled
    separately at the end of the module. */
module Dxt5 {
  import opened Errors
  import opened Bytes
  import opened Raster
  import opened Blocks
  import opened DataView
  import opened DxtColour
  import opened DxtAlpha
  import opened BlockImage
  import opened BlockStream
  import opened Bits

  const BlockSize := 16

  /** Texel `k` of a 16-byte block: the colour the bitmask at byte 12 picks from the palette of
      the words at bytes 8 and 10, with the alpha that the 3-bit index `k` picks from the palette
      of the endpoint alphas at bytes 0 and 1. */
  function Texel(blk: seq<bv8>, k: nat): (c: Rgba)
    requires |blk| == BlockSize
  {
    var colours := ColourBlockPalette(U16(blk, 8), U16(blk, 10));
    WithAlpha(colours[ColourIndex(U32(blk, 12), k)], AlphaPalette(blk[0] as nat, blk[1] as nat)[AlphaIndex(blk, k)])
  }

  /** Texel `k` of block `n` of the source bytes. */
  function BlockTexel(bytes: seq<bv8>): (nat, nat) -> Rgba
  {
    (n: nat, k: nat) => Texel(BlockBytes(bytes, n, BlockSize), k)
  }

  /** What `decompressDxt5` returns: the image, or the error of the first read that fails. The
      reads of block `n` end at its last byte (the bitmask at bytes 12-15). */
  function Decode(src: Buffer, width: nat, height: nat): Result<seq<Rgba>>
  {
    match StreamError(src, BlockCount(width, height), BlockSize)
    case Some(e) => Err(e)
    case None => Ok(Image(width, height, BlockTexel(src.bytes)))
  }

  /** The fields the loops use, as read from one block: the alpha palette, the `LowerAlphaMask`
      and `UpperAlphaMask` words, the colour palette and the colour bitmask. */
  datatype Block = Block(alphas: seq<Channel>, lowerMask: nat, upperMask: nat, colours: seq<Rgba>, bitmask: nat)

  /** The fields of a 16-byte block, the upper mask read as the 32-bit word at byte 5. */
  function Fields(blk: seq<bv8>): (b: Block)
    requires |blk| == BlockSize
    ensures |b.alphas| == 8 && |b.colours| == 4
  {
    Block(AlphaPalette(blk[0] as nat, blk[1] as nat), U32(blk, 2), U32(blk, 5),
          ColourBlockPalette(U16(blk, 8), U16(blk, 10)), U32(blk, 12))
  }

  /** The mask row `row` shifts: the lower mask for rows 0 and 1, the upper one for rows 2 and 3. */
  function MaskWord(b: Block, row: nat): nat
  {
    if row < 2 then b.lowerMask else b.upperMask
  }

  /** What the loops make of texel `k` of a block: its palette colour, and the alpha that the low
      three bits of its row's mask pick after the shifts by 3 of the texels before it that share
      the mask (row 1 continues where row 0 left the lower mask, row 3 where row 2 left the
      upper one). */
  function LoopTexel(b: Block, k: nat): (c: Rgba)
    requires |b.alphas| == 8 && |b.colours| == 4
  {
    WithAlpha(b.colours[ColourIndex(b.bitmask, k)], b.alphas[Digit(MaskWord(b, k / 4), 8, 4 * (k / 4 % 2) + k % 4)])
  }

  /** The 3-bit field of a mask word that texel `k` uses. */
  lemma MaskField(k: nat)
    requires k < 16
    ensures k < 8 ==> k / 4 < 2 && 4 * (k / 4 % 2) + k % 4 == k
    ensures k >= 8 ==> k / 4 >= 2 && 4 * (k / 4 % 2) + k % 4 == k - 8
  {
  }

  /** The mask of row `row` after `j` of its texels: shifted right by 3 once for each texel
      before it that shares the mask. */
  function Shifted(b: Block, row: nat, j: nat): nat
  {
    MaskWord(b, row) / Pow(8, 4 * (row % 2) + j)
  }

  /** One `alphaMask >>= 3` moves to the next texel's mask, whose low three bits are the field
      `LoopTexel` uses. */
  lemma ShiftedStep(b: Block, row: nat, j: nat)
    ensures Shifted(b, row, j) / 8 == Shifted(b, row, j + 1)
    ensures Shifted(b, row, j) % 8 == Digit(MaskWord(b, row), 8, 4 * (row % 2) + j)
  {
    ShiftField(MaskWord(b, row), 8, 4 * (row % 2) + j);
  }

  /** Rows 0 and 2 start from the masks as read. */
  lemma MaskStart(b: Block)
    ensures Shifted(b, 0, 0) == b.lowerMask && Shifted(b, 2, 0) == b.upperMask
  {
  }

  /** Row 1 starts where row 0 leaves the lower mask, row 3 where row 2 leaves the upper one. */
  lemma NextRowMask(b: Block, row: nat)
    ensures row % 2 == 0 ==> Shifted(b, row, 4) == Shifted(b, row + 1, 0)
  {
  }

  /** Texel `k = 4 * row + j` takes its alpha from the low three bits of `Shifted(b, row, j)`. */
  lemma LoopAlpha(b: Block, k: nat, row: nat, j: nat)
    requires |b.alphas| == 8 && |b.colours| == 4 && j < 4 && k == 4 * row + j
    ensures LoopTexel(b, k) == WithAlpha(b.colours[ColourIndex(b.bitmask, k)], b.alphas[Shifted(b, row, j) % 8])
  {
    RowAndColumn(k, row, j);
    assert Digit(MaskWord(b, k / 4), 8, 4 * (k / 4 % 2) + k % 4) == Shifted(b, row, j) % 8;
  }


  /** The loops decode every texel of a block's fields as `Texel` does. */
  lemma FieldTexels(bytes: seq<bv8>, n: nat)
    ensures var b := Fields(BlockBytes(bytes, n, BlockSize));
      forall k | 0 <= k < 16 :: LoopTexel(b, k) == BlockTexel(bytes)(n, k)
  {
    var blk := BlockBytes(bytes, n, BlockSize);
    forall k | 0 <= k < 16
      ensures LoopTexel(Fields(blk), k) == Texel(blk, k)
    {
      FieldTexel(blk, k);
    }
  }

  lemma FieldTexel(blk: seq<bv8>, k: nat)
    requires |blk| == BlockSize && k < 16
    ensures LoopTexel(Fields(blk), k) == Texel(blk, k)
  {
    var b := Fields(blk);
    var field := 4 * (k / 4 % 2) + k % 4;
    MaskField(k);
    IndexWords(blk, k);
    if k < 8 {
      assert MaskWord(b, k / 4) == U32(blk, 2) && field == k;
    } else {
      assert MaskWord(b, k / 4) == U32(blk, 5) && field == k - 8;
    }
    assert Digit(MaskWord(b, k / 4), 8, field) == AlphaIndex(blk, k);
  }

  method DecompressDxt5(src: Buffer, width: nat, height: nat) returns (r: Result<seq<Rgba>>)
    ensures r == Decode(src, width, height)
  {
    var dataView := NewView(src);
    var output := new Rgba[width * height](_ => Blank);
    ghost var expected := Image(width, height, BlockTexel(src.bytes));
    var ySource := 0;
    FilledNone(output[..], expected, width);
    while ySource < height
      invariant ySource % 4 == 0 && ySource < height + 4
      invariant dataView.data == src && dataView.offset == BlockSize * BlockOf(width, 0, ySource)
      invariant BlockOf(width, 0, ySource) > 0 ==> !src.expired && BlockSize * BlockOf(width, 0, ySource) <= |src.bytes|
      invariant Filled(output[..], expected, width, 16 * BlockOf(width, 0, ySource))
    {
      dataView :- DecodeBlockRow(src, dataView, output, width, height, ySource, expected);
      NextBoundary(ySource);
      ySource := ySource + 4;
    }
    LastBlockRow(width, height, ySource);
    FilledAll(output[..], expected, width, height);
    return Ok(output[..]);
  }

  /** One pass of the `xSource` loop: the blocks of the block row at `ySource`, in order. On
      success the view stands at the first block of the next row. */
  method DecodeBlockRow(src: Buffer, dataView: OffsetDataView, output: array<Rgba>, width: nat, height: nat,
                        ySource: nat, ghost expected: seq<Rgba>) returns (r: Result<OffsetDataView>)
    requires ySource % 4 == 0 && ySource < height
    requires output.Length == width * height && expected == Image(width, height, BlockTexel(src.bytes))
    requires dataView.data == src && dataView.offset == BlockSize * BlockOf(width, 0, ySource)
    requires BlockOf(width, 0, ySource) > 0 ==> !src.expired && BlockSize * BlockOf(width, 0, ySource) <= |src.bytes|
    requires Filled(output[..], expected, width, 16 * BlockOf(width, 0, ySource))
    modifies output
    ensures r.Err? ==> Decode(src, width, height) == Err(r.error)
    ensures r.Ok? ==> var n := BlockOf(width, 0, ySource + 4);
      r.value.data == src && r.value.offset == BlockSize * n &&
      (n > 0 ==> !src.expired && BlockSize * n <= |src.bytes|) &&
      Filled(output[..], expected, width, 16 * n)
  {
    var view := dataView;
    ghost var n, cur := BlockOf(width, 0, ySource), 16 * BlockOf(width, 0, ySource);
    var xSource := 0;
    while xSource < width
      invariant xSource % 4 == 0 && xSource < width + 4
      invariant n == BlockOf(width, xSource, ySource) && cur == 16 * n
      invariant view.data == src && view.offset == BlockSize * n
      invariant n > 0 ==> !src.expired && BlockSize * n <= |src.bytes|
      invariant Filled(output[..], expected, width, cur)
    {
      view :- DecodeBlockAt(src, view, output, width, height, xSource, ySource, expected, n, cur);
      NextBlock(width, xSource, ySource);
      xSource, n, cur := xSource + 4, n + 1, cur + 16;
    }
    FilledNextRow(output[..], expected, width, xSource, ySource, cur);
    return Ok(view);
  }

  /** One pass of the block loop's body: read block `n`, stepping the view past its two halves,
      and write its texels. */
  method DecodeBlockAt(src: Buffer, view: OffsetDataView, output: array<Rgba>, width: nat, height: nat,
                       xSource: nat, ySource: nat, ghost expected: seq<Rgba>, ghost n: nat, ghost cur: nat)
    returns (r: Result<OffsetDataView>)
    requires xSource % 4 == 0 && ySource % 4 == 0 && xSource < width && ySource < height
    requires output.Length == width * height && expected == Image(width, height, BlockTexel(src.bytes))
    requires n == BlockOf(width, xSource, ySource) && cur == 16 * n
    requires view.data == src && view.offset == BlockSize * n
    requires Filled(output[..], expected, width, cur)
    modifies output
    ensures r.Err? ==> Decode(src, width, height) == Err(r.error)
    ensures r.Ok? ==> r.value.data == src && r.value.offset == BlockSize * (n + 1)
    ensures r.Ok? ==> !src.expired && BlockSize * (n + 1) <= |src.bytes|
    ensures r.Ok? ==> Filled(output[..], expected, width, cur + 16)
  {
    BlockInRange(width, height, xSource, ySource);
    var read :- ReadBlock(view, src, width, height, n);
    var (block, next) := read;
    BlockExpected(width, height, BlockTexel(src.bytes), xSource, ySource);
    FieldTexels(src.bytes, n);
    DecodeBlock(output, width, height, xSource, ySource, block, expected, cur, BlockTexel(src.bytes), n);
    return Ok(next);
  }

  /** The reads of block `n`: the alpha half, then the colour half. The first read that fails
      ends the decode with its error. */
  method ReadBlock(dataView: OffsetDataView, ghost src: Buffer, ghost width: nat, ghost height: nat,
                   ghost n: nat) returns (r: Result<(Block, OffsetDataView)>)
    requires dataView.data == src && dataView.offset == BlockSize * n
    requires n < BlockCount(width, height)
    ensures r.Err? ==> Decode(src, width, height) == Err(r.error)
    ensures r.Ok? ==> !src.expired && BlockSize * (n + 1) <= |src.bytes|
    ensures r.Ok? ==> r.value.0 == Fields(BlockBytes(src.bytes, n, BlockSize))
    ensures r.Ok? ==> r.value.1.data == src && r.value.1.offset == BlockSize * (n + 1)
  {
    ghost var count := BlockCount(width, height);
    var alphaHalf :- ReadAlphaHalf(dataView, src, count, n);
    var (alpha0, alpha1, lowerAlphaMask, upperAlphaMask) := alphaHalf;
    var colourHalf :- ReadColourHalf(dataView, src, count, n);
    var (colours, bitmask, next) := colourHalf;
    var alphas := AlphaPalette(alpha0 as nat, alpha1 as nat);
    return Ok((Block(alphas, lowerAlphaMask, upperAlphaMask, colours, bitmask), next));
  }

  /** The alpha reads of block `n`, through the view at its start: alpha0 at byte 0, alpha1 at
      byte 1, the lower mask at byte 2 and the upper mask at byte 5. */
  method ReadAlphaHalf(dataView: OffsetDataView, ghost src: Buffer, ghost count: nat, ghost n: nat)
    returns (r: Result<(bv8, bv8, nat, nat)>)
    requires dataView.data == src && dataView.offset == BlockSize * n && n < count
    ensures r.Err? ==> StreamError(src, count, BlockSize) == Some(r.error)
    ensures r.Ok? && BlockSize * (n + 1) <= |src.bytes| ==> var blk := BlockBytes(src.bytes, n, BlockSize);
      r.value == (blk[0], blk[1], U32(blk, 2), U32(blk, 5))
  {
    ReadOutcome(src, count, BlockSize, n, 0, 1);
    ReadOutcome(src, count, BlockSize, n, 1, 1);
    ReadOutcome(src, count, BlockSize, n, 2, 4);
    ReadOutcome(src, count, BlockSize, n, 5, 4);
    var alpha0 :- ParseStruct(dataView, 0, 1);
    var alpha1 :- ParseStruct(dataView, 1, 1);
    var lowerAlphaMask :- ParseStruct(dataView, 2, 4);
    var upperAlphaMask :- ParseStruct(dataView, 5, 4);
    if BlockSize * (n + 1) <= |src.bytes| {
      AlphaReads(src.bytes, n, alpha0, alpha1, lowerAlphaMask, upperAlphaMask);
    }
    return Ok((alpha0[0], alpha1[0], U32(lowerAlphaMask, 0), U32(upperAlphaMask, 0)));
  }

  /** The four alpha records of block `n` hold its bytes 0 and 1 and its words at bytes 2 and 5. */
  lemma AlphaReads(bytes: seq<bv8>, n: nat, alpha0: seq<bv8>, alpha1: seq<bv8>, lower: seq<bv8>, upper: seq<bv8>)
    requires BlockSize * (n + 1) <= |bytes|
    requires alpha0 == bytes[BlockSize * n .. BlockSize * n + 1] && alpha1 == bytes[BlockSize * n + 1 .. BlockSize * n + 2]
    requires lower == bytes[BlockSize * n + 2 .. BlockSize * n + 6] && upper == bytes[BlockSize * n + 5 .. BlockSize * n + 9]
    ensures var blk := BlockBytes(bytes, n, BlockSize);
      alpha0[0] == blk[0] && alpha1[0] == blk[1] && U32(lower, 0) == U32(blk, 2) && U32(upper, 0) == U32(blk, 5)
  {
    ReadByte(bytes, n, BlockSize, 0, 1, alpha0);
    ReadByte(bytes, n, BlockSize, 1, 1, alpha1);
    ReadU32(bytes, n, BlockSize, 2, 4, lower);
    ReadU32(bytes, n, BlockSize, 5, 4, upper);
  }

  /** The two pixel loops of one block. The mask of the row at hand starts where the previous
      row sharing it left it: row 1 continues the lower mask after row 0's shifts, row 3 the upper
      mask after row 2's. */
  method DecodeBlock(output: array<Rgba>, width: nat, height: nat, xSource: nat, ySource: nat,
                     block: Block, ghost expected: seq<Rgba>, ghost cur: nat,
                     ghost texel: (nat, nat) -> Rgba, ghost n: nat)
    requires output.Length == width * height == |expected|
    requires xSource % 4 == 0 && ySource % 4 == 0 && xSource < width
    requires n == BlockOf(width, xSource, ySource) && cur == 16 * n
    requires |block.alphas| == 8 && |block.colours| == 4
    requires forall k | 0 <= k < 16 :: LoopTexel(block, k) == texel(n, k)
    requires forall k | 0 <= k < 16 :: TexelExpected(expected, width, height, xSource, ySource, k, texel(n, k))
    requires Filled(output[..], expected, width, cur)
    modifies output
    ensures Filled(output[..], expected, width, cur + 16)
  {
    var lowerAlphaMask, upperAlphaMask := block.lowerMask, block.upperMask;
    MaskStart(block);
    for yOffset := 0 to 4
      invariant yOffset < 2 ==> lowerAlphaMask == Shifted(block, yOffset, 0) && upperAlphaMask == Shifted(block, 2, 0)
      invariant 2 <= yOffset < 4 ==> upperAlphaMask == Shifted(block, yOffset, 0)
      invariant Filled(output[..], expected, width, cur + 4 * yOffset)
    {
      var alphaMask := if yOffset < 2 then lowerAlphaMask else upperAlphaMask;
      alphaMask := DecodeRow(output, width, height, xSource, ySource, yOffset, alphaMask, block, expected, cur, texel, n);
      NextRowMask(block, yOffset);
      if yOffset < 2 {
        lowerAlphaMask := alphaMask;
      } else {
        upperAlphaMask := alphaMask;
      }
    }
  }

  /** One pass of the `xOffset` loop, for the row `yOffset` of a block: the low three bits of the
      mask pick the alpha of the texel at hand and the mask shifts right by 3 after each texel.
      Returns the mask as the row leaves it. */
  method DecodeRow(output: array<Rgba>, width: nat, height: nat, xSource: nat, ySource: nat, yOffset: nat,
                   alphaMask: nat, block: Block, ghost expected: seq<Rgba>, ghost cur: nat,
                   ghost texel: (nat, nat) -> Rgba, ghost n: nat) returns (shifted: nat)
    requires output.Length == width * height == |expected|
    requires xSource % 4 == 0 && ySource % 4 == 0 && xSource < width && yOffset < 4
    requires n == BlockOf(width, xSource, ySource) && cur == 16 * n
    requires |block.alphas| == 8 && |block.colours| == 4
    requires alphaMask == Shifted(block, yOffset, 0)
    requires forall k | 0 <= k < 16 :: LoopTexel(block, k) == texel(n, k)
    requires forall k | 0 <= k < 16 :: TexelExpected(expected, width, height, xSource, ySource, k, texel(n, k))
    requires Filled(output[..], expected, width, cur + 4 * yOffset)
    modifies output
    ensures shifted == Shifted(block, yOffset, 4)
    ensures Filled(output[..], expected, width, cur + 4 * yOffset + 4)
  {
    var yDest := ySource + yOffset;
    var pixelIndex := 4 * yOffset;
    ghost var next := cur + pixelIndex;
    shifted := alphaMask;
    for xOffset := 0 to 4
      invariant pixelIndex == 4 * yOffset + xOffset && next == cur + pixelIndex
      invariant shifted == Shifted(block, yOffset, xOffset)
      invariant Filled(output[..], expected, width, next)
    {
      var xDest := xSource + xOffset;
      var colour := block.colours[ColourIndex(block.bitmask, pixelIndex)];
      var pixel := WithAlpha(colour, block.alphas[shifted % 8]);

      LoopAlpha(block, pixelIndex, yOffset, xOffset);
      PlotTexel(output, width, height, xSource, ySource, xOffset, yOffset, xDest, yDest, pixelIndex, pixel, expected, next);
      ShiftedStep(block, yOffset, xOffset);
      shifted := shifted / 8;
      pixelIndex := pixelIndex + 1;
      next := next + 1;
    }
  }

  /** A decoded pixel comes from the 16 source bytes of its own block, which lie inside the
      buffer. */
  lemma DecodedPixel(src: Buffer, width: nat, height: nat, x: nat, y: nat)
    requires Decode(src, width, height).Ok? && x < width && y < height
    ensures var n := BlockOf(width, x, y);
      BlockSize * n + BlockSize <= |src.bytes| &&
      Decode(src, width, height).value[PixelIndex(width, height, x, y)]
        == Texel(src.bytes[BlockSize * n .. BlockSize * n + BlockSize], TexelOf(x, y))
  {
    BlockInRange(width, height, x, y);
    MulMono(BlockSize, BlockOf(width, x, y) + 1, BlockCount(width, height));
    ImageAt(width, height, BlockTexel(src.bytes), x, y);
  }

  /** Only the first `16 * BlockCount` bytes matter: buffers that agree on them decode alike. */
  lemma DecodeReadsOnlyBlocks(src1: Buffer, src2: Buffer, width: nat, height: nat)
    requires src1.expired == src2.expired
    requires var size := BlockSize * BlockCount(width, height);
      size <= |src1.bytes| && size <= |src2.bytes| && src1.bytes[..size] == src2.bytes[..size]
    ensures Decode(src1, width, height) == Decode(src2, width, height)
  {
    forall n, k | 0 <= n < BlockCount(width, height) && 0 <= k < 16
      ensures BlockTexel(src1.bytes)(n, k) == BlockTexel(src2.bytes)(n, k)
    {
      SameBlock(src1.bytes, src2.bytes, n, BlockCount(width, height), BlockSize);
    }
    ImageOfVisitedBlocks(width, height, BlockTexel(src1.bytes), BlockTexel(src2.bytes));
  }

  // The code as written. Each of the three functions below is what one step of
  // src/dxt/dxt5.cpp computes; the lemma after it names an input on which it departs from the
  // decoder above.

  /** `UpperAlphaMask` as declared: three padding bytes, then a `uint32_t` that alignment places
      at offset 4 of the struct. The struct is read at byte 2 of the block, so its mask is the
      word at block byte 6, one byte past the word at byte 5 that holds rows 2 and 3. */
  function UpperMaskAsWritten(record: seq<bv8>): nat
    requires |record| == 8
  {
    U32(record, 4)
  }

  /** The record read at byte 2 yields the block's word at byte 6. */
  lemma UpperMaskAsWrittenAt(blk: seq<bv8>)
    requires |blk| == BlockSize
    ensures UpperMaskAsWritten(blk[2..10]) == U32(blk, 6)
  {
    assert blk[2..10][4..8] == blk[6..10];
  }

  /** The fields as the code reads them: those of `Fields`, but with the upper mask taken from
      block byte 6. */
  function FieldsAsWritten(blk: seq<bv8>): (b: Block)
    requires |blk| == BlockSize
    ensures |b.alphas| == 8 && |b.colours| == 4
  {
    Fields(blk).(upperMask := UpperMaskAsWritten(blk[2..10]))
  }

  /** Texel 8 takes its alpha index from the low three bits of byte 5, but the code takes it
      from those of byte 6. */
  lemma UpperMaskMisread(blk: seq<bv8>)
    requires |blk| == BlockSize
    ensures Texel(blk, 8).a == AlphaPalette(blk[0] as nat, blk[1] as nat)[blk[5] as nat % 8]
    ensures LoopTexel(FieldsAsWritten(blk), 8).a == AlphaPalette(blk[0] as nat, blk[1] as nat)[blk[6] as nat % 8]
  {
    var written := FieldsAsWritten(blk);
    FieldTexel(blk, 8);
    LoopAlpha(Fields(blk), 8, 2, 0);
    LoopAlpha(written, 8, 2, 0);
    MaskStart(Fields(blk));
    MaskStart(written);
    UpperMaskAsWrittenAt(blk);
    LowBits(blk, 5);
    LowBits(blk, 6);
  }

  lemma LowBits(blk: seq<bv8>, at: nat)
    requires at + 4 <= |blk|
    ensures U32(blk, at) % 8 == blk[at] as nat % 8
  {
    var low, rest := blk[at] as nat, 32 * blk[at + 1] as nat + 8192 * U16(blk, at + 2);
    DivAddMultiple(low, 8, rest);
  }

  /** Every block with endpoint alphas 255 and 0 whose byte 5 is 1 and byte 6 is 0 (so texel 8
      has alpha index 1): the texel is transparent, but the code makes it opaque. */
  lemma UpperMaskCounterexample(blk: seq<bv8>)
    requires |blk| == BlockSize && blk[0] == 255 && blk[1] == 0 && blk[5] == 1 && blk[6] == 0
    ensures Texel(blk, 8).a == 0 && LoopTexel(FieldsAsWritten(blk), 8).a == 255
  {
    var a0, a1, i5, i6 := blk[0] as nat, blk[1] as nat, blk[5] as nat % 8, blk[6] as nat % 8;
    assert a0 == 255 && a1 == 0 && i5 == 1 && i6 == 0;
    UpperMaskMisread(blk);
    var p := AlphaPalette(a0, a1);
    assert p[i5] == 0 && p[i6] == 255;
  }

  /** The colour index the code computes for texel `k`: `pixelIndex` is incremented twice per
      texel, so it is `2 * k` when texel `k` is decoded and the shift is `4 * k` bits; shifting a
      32-bit value by 32 bits or more is undefined (None). */
  function ColourIndexAsWritten(bitmask: nat, k: nat): (i: Option<nat>)
    ensures i.Some? <==> k < 8
    ensures i.Some? ==> i.value < 4
  {
    if 4 * k < 32 then Some(Digit(bitmask, 4, 2 * k)) else None
  }

  /** With bitmask 4, texel 1 has colour index 1, but the code reads index 0; texel 8 has no
      defined index. */
  lemma DoubleStepMisindexes()
    ensures ColourIndex(4, 1) == 1 && ColourIndexAsWritten(4, 1) == Some(0)
    ensures ColourIndexAsWritten(4, 8) == None
  {
    assert Pow(4, 1) == 4 && Pow(4, 2) == 16;
  }

  /** The output slot the code stores texel `k` of the block at (`xSource`, `ySource`) in, or None
      when its guard, which tests `yDest < width` where `xDest < width` is meant, skips it. */
  function StoreAsWritten(width: nat, height: nat, xSource: nat, ySource: nat, k: nat): (slot: Option<nat>)
    ensures slot.Some? <==> ySource + k / 4 < width && ySource + k / 4 < height
  {
    var xDest, yDest := xSource + k % 4, ySource + k / 4;
    if yDest < width && yDest < height then Some(yDest * width + xDest) else None
  }

  /** In a 4x8 image the pixel (0, 4) is never stored; in a 5x5 image texel 1 of the block at
      (4, 0), which lies at x = 5 outside the image, is stored over the pixel (0, 1). */
  lemma GuardAsWrittenMisplaces()
    ensures PixelIndex(4, 8, 0, 4) < 4 * 8 && StoreAsWritten(4, 8, 0, 4, 0) == None
    ensures StoreAsWritten(5, 5, 4, 0, 1) == Some(PixelIndex(5, 5, 0, 1))
  {
  }
}
