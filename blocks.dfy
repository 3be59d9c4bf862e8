/** The compressed stream is a row-major sequence of fixed-size blocks, one per 4x4 pixel block.
    `BlockBytes` names block `n`; the read lemmas connect what `parseStruct` returns for a view
    standing at the start of block `n` with the fields of that block. */
module Blocks {
  import opened Bytes
  import opened Bits

  /** The `size` bytes of block `n`; blocks past the end of the stream read as zeros (such blocks
      are never decoded: the decoders fail before reaching them). */
  function BlockBytes(bytes: seq<bv8>, n: nat, size: nat): (blk: seq<bv8>)
    ensures |blk| == size
    ensures size * (n + 1) <= |bytes| ==> blk == bytes[size * n .. size * n + size]
  {
    if size * n + size <= |bytes| then bytes[size * n .. size * n + size] else Zeros(size)
  }

  /** A record read at `rel` inside block `n` is the block's bytes from `rel` on. */
  lemma ReadBytes(bytes: seq<bv8>, n: nat, size: nat, rel: nat, count: nat, s: seq<bv8>)
    requires size * (n + 1) <= |bytes| && rel + count <= size
    requires s == bytes[size * n + rel .. size * n + rel + count]
    ensures s == BlockBytes(bytes, n, size)[rel .. rel + count]
  {
  }

  /** A record read at `rel` inside block `n` starts with the block's byte `rel`. */
  lemma ReadByte(bytes: seq<bv8>, n: nat, size: nat, rel: nat, count: nat, s: seq<bv8>)
    requires size * (n + 1) <= |bytes| && 1 <= count && rel + count <= size
    requires s == bytes[size * n + rel .. size * n + rel + count]
    ensures s[0] == BlockBytes(bytes, n, size)[rel]
  {
  }

  /** A record read at `rel` inside block `n` starts with the block's 16-bit word at `rel`. */
  lemma ReadU16(bytes: seq<bv8>, n: nat, size: nat, rel: nat, count: nat, s: seq<bv8>)
    requires size * (n + 1) <= |bytes| && 2 <= count && rel + count <= size
    requires s == bytes[size * n + rel .. size * n + rel + count]
    ensures U16(s, 0) == U16(BlockBytes(bytes, n, size), rel)
  {
    var blk := BlockBytes(bytes, n, size);
    assert s[0] == blk[rel] && s[1] == blk[rel + 1];
  }

  /** A record read at `rel` inside block `n` starts with the block's 32-bit word at `rel`. */
  lemma ReadU32(bytes: seq<bv8>, n: nat, size: nat, rel: nat, count: nat, s: seq<bv8>)
    requires size * (n + 1) <= |bytes| && 4 <= count && rel + count <= size
    requires s == bytes[size * n + rel .. size * n + rel + count]
    ensures U32(s, 0) == U32(BlockBytes(bytes, n, size), rel)
  {
    var blk := BlockBytes(bytes, n, size);
    assert s[0] == blk[rel] && s[1] == blk[rel + 1] && s[2] == blk[rel + 2] && s[3] == blk[rel + 3];
  }

  /** Streams that agree on their first `count` blocks have the same bytes for each of them. */
  lemma SameBlock(bytes1: seq<bv8>, bytes2: seq<bv8>, n: nat, count: nat, size: nat)
    requires n < count && size * count <= |bytes1| && size * count <= |bytes2|
    requires bytes1[..size * count] == bytes2[..size * count]
    ensures BlockBytes(bytes1, n, size) == BlockBytes(bytes2, n, size)
  {
    MulMono(size, n + 1, count);
    assert bytes1[size * n .. size * n + size] == bytes1[..size * count][size * n .. size * n + size];
    assert bytes2[size * n .. size * n + size] == bytes2[..size * count][size * n .. size * n + size];
  }
}
