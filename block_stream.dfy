/** How a block decoder's reads fail. Every decoder reads its blocks through one `OffsetDataView`
    that advances block by block; each read lies inside the current block and the last read of a
    block ends exactly at the block's end. So the decode fails exactly when the buffer has been
    released or is shorter than the blocks it must hold, and the error does not depend on which
    read fails first. */
module BlockStream {
  import opened Errors
  import opened DataView
  import opened Bits
  import opened Bytes
  import opened Blocks
  import opened DxtColour

  /** The error of reading `count` blocks of `size` bytes from `src`, or None when every read
      succeeds. */
  function StreamError(src: Buffer, count: nat, size: nat): (e: Option<Error>)
    ensures e == None <==> count == 0 || (!src.expired && size * count <= |src.bytes|)
    ensures e != None ==> e == Some(ExpiredData) || e == Some(OutOfBoundsAccess)
  {
    if count == 0 then None
    else if src.expired then Some(ExpiredData)
    else if |src.bytes| < size * count then Some(OutOfBoundsAccess)
    else None
  }

  /** A read of `len` bytes at `rel` inside block `n` of `count` fails with the stream's error,
      and succeeds only inside the buffer. */
  lemma ReadOutcome(src: Buffer, count: nat, size: nat, n: nat, rel: nat, len: nat)
    requires n < count && rel + len <= size && len > 0
    ensures var read := ParseStruct(OffsetDataView(src, size * n), rel, len);
      (read.Err? ==> StreamError(src, count, size) == Some(read.error)) &&
      (read.Ok? ==> !src.expired && size * n + rel + len <= |src.bytes|)
  {
    MulMono(size, n + 1, count);
  }

  /** The colour half of a 16-byte DXT3 or DXT5 block, read through a view 8 bytes past the
      start of block `n`: colour0 at 0, colour1 at 2 and the bitmask at 4, each through a 4-byte
      struct; the view then moves 8 bytes on, to the next block. */
  method ReadColourHalf(blockView: OffsetDataView, ghost src: Buffer, ghost count: nat, ghost n: nat)
    returns (r: Result<(seq<Rgba>, nat, OffsetDataView)>)
    requires blockView.data == src && blockView.offset == 16 * n && n < count
    ensures r.Err? ==> StreamError(src, count, 16) == Some(r.error)
    ensures r.Ok? ==> !src.expired && 16 * (n + 1) <= |src.bytes|
    ensures r.Ok? ==> var blk := BlockBytes(src.bytes, n, 16);
      r.value.0 == ColourBlockPalette(U16(blk, 8), U16(blk, 10)) && r.value.1 == U32(blk, 12)
    ensures r.Ok? ==> r.value.2.data == src && r.value.2.offset == 16 * (n + 1)
  {
    ReadOutcome(src, count, 16, n, 8, 4);
    ReadOutcome(src, count, 16, n, 10, 4);
    ReadOutcome(src, count, 16, n, 12, 4);
    var dataView := WithRelativeOffset(blockView, 8);
    ParseAfterMove(blockView, 8, 0, 4);
    ParseAfterMove(blockView, 8, 2, 4);
    ParseAfterMove(blockView, 8, 4, 4);
    var colour0 :- ParseStruct(dataView, 0, 4);
    var colour1 :- ParseStruct(dataView, 2, 4);
    var bitmask :- ParseStruct(dataView, 4, 4);
    ReadU16(src.bytes, n, 16, 8, 4, colour0);
    ReadU16(src.bytes, n, 16, 10, 4, colour1);
    ReadU32(src.bytes, n, 16, 12, 4, bitmask);
    return Ok((ColourBlockPalette(U16(colour0, 0), U16(colour1, 0)), U32(bitmask, 0), WithRelativeOffset(dataView, 8)));
  }
}
