/** The interpolated alpha half of a DXT5 (BC3) block, shared by `decompressDxt5`
    (src/dxt/dxt5.cpp) and `DXTn::DecompressDXT5` (DXTn/DXT5.cpp): two 8-bit endpoint alphas at
    bytes 0 and 1 and sixteen 3-bit palette indices packed least significant first into the
    48 bits at bytes 2-7. */
module DxtAlpha {
  import opened Bytes
  import opened Bits
  import opened DxtColour

  /** The eight-entry alpha palette of the endpoints `a0` and `a1`. When `a0 > a1` the six
      entries after the endpoints step from `a0` towards `a1` in sevenths, rounded to nearest;
      otherwise four entries step in fifths and the last two are fully transparent and fully
      opaque. */
  function AlphaPalette(a0: Channel, a1: Channel): (p: seq<Channel>)
    ensures |p| == 8 && p[0] == a0 && p[1] == a1
    ensures a0 <= a1 ==> p[6] == 0 && p[7] == 255
  {
    if a0 > a1 then
      [a0, a1,
       (6 * a0 + 1 * a1 + 3) / 7, (5 * a0 + 2 * a1 + 3) / 7, (4 * a0 + 3 * a1 + 3) / 7,
       (3 * a0 + 4 * a1 + 3) / 7, (2 * a0 + 5 * a1 + 3) / 7, (1 * a0 + 6 * a1 + 3) / 7]
    else
      [a0, a1,
       (4 * a0 + 1 * a1 + 2) / 5, (3 * a0 + 2 * a1 + 2) / 5, (2 * a0 + 3 * a1 + 2) / 5,
       (1 * a0 + 4 * a1 + 2) / 5, 0, 255]
  }

  /** The eight-alpha block: the six interpolants fall from `a0` to `a1` in order, and entry
      `k + 1` is `((7 - k) * a0 + k * a1) / 7` rounded to nearest, for `k` in 1..6. */
  lemma EightAlphaRamp(a0: Channel, a1: Channel)
    requires a0 > a1
    ensures var p := AlphaPalette(a0, a1);
      p[0] >= p[2] && p[7] >= p[1] && (forall i | 2 <= i < 7 :: p[i] >= p[i + 1])
    ensures var p := AlphaPalette(a0, a1);
      Nearest(p[2], 6 * a0 + 1 * a1, 7) && Nearest(p[3], 5 * a0 + 2 * a1, 7) &&
      Nearest(p[4], 4 * a0 + 3 * a1, 7) && Nearest(p[5], 3 * a0 + 4 * a1, 7) &&
      Nearest(p[6], 2 * a0 + 5 * a1, 7) && Nearest(p[7], 1 * a0 + 6 * a1, 7)
  {
  }

  /** The six-alpha block: the four interpolants rise from `a0` to `a1` in order, entry `k + 1`
      is `((5 - k) * a0 + k * a1) / 5` rounded to nearest, for `k` in 1..4, and the last two
      entries are the extremes 0 and 255. */
  lemma SixAlphaRamp(a0: Channel, a1: Channel)
    requires a0 <= a1
    ensures var p := AlphaPalette(a0, a1);
      p[0] <= p[2] && p[5] <= p[1] && (forall i | 2 <= i < 5 :: p[i] <= p[i + 1]) &&
      p[6] == 0 && p[7] == 255
    ensures var p := AlphaPalette(a0, a1);
      Nearest(p[2], 4 * a0 + 1 * a1, 5) && Nearest(p[3], 3 * a0 + 2 * a1, 5) &&
      Nearest(p[4], 2 * a0 + 3 * a1, 5) && Nearest(p[5], 1 * a0 + 4 * a1, 5)
  {
  }

  /** `v` is `sum / d` rounded to nearest, halves rounding up. */
  ghost predicate Nearest(v: nat, sum: nat, d: nat)
  {
    2 * sum < d * (2 * v + 1) + 1 && d * (2 * v - 1) <= 2 * sum
  }

  /** The 48-bit little-endian index field at bytes 2-7 of a block. */
  function IndexBits(blk: seq<bv8>): nat
    requires |blk| >= 8
  {
    U16(blk, 2) + 0x1_0000 * U32(blk, 4)
  }

  /** The alpha palette index of texel `k`: 3-bit field `k` of the index bits. */
  function AlphaIndex(blk: seq<bv8>, k: nat): (i: nat)
    requires |blk| >= 8
    ensures i < 8
  {
    Digit(IndexBits(blk), 8, k)
  }

  /** The bytes below `at + 3`, as a 24-bit value. */
  function U24(blk: seq<bv8>, at: nat): (v: nat)
    requires at + 3 <= |blk|
    ensures v < Pow(8, 8)
  {
    assert Pow(8, 8) == 0x100_0000;
    U16(blk, at) + 0x1_0000 * blk[at + 2] as nat
  }

  /** Both decoders read the index bits as two 32-bit words, at byte 2 for rows 0-1 and at
      byte 5 for rows 2-3, each used for eight 3-bit fields: texel `k` is field `k` of the first
      word or field `k - 8` of the second. */
  lemma {:induction false} IndexWords(blk: seq<bv8>, k: nat)
    requires |blk| >= 9 && k < 16
    ensures k < 8 ==> AlphaIndex(blk, k) == Digit(U32(blk, 2), 8, k)
    ensures k >= 8 ==> AlphaIndex(blk, k) == Digit(U32(blk, 5), 8, k - 8)
  {
    WordHalves(blk);
    if k < 8 {
      WordOfU24(blk, 2);
      LowField(IndexBits(blk), U32(blk, 2), U24(blk, 2), U24(blk, 5), blk[5] as nat, k);
    } else {
      WordOfU24(blk, 5);
      HighField(IndexBits(blk), U32(blk, 5), U24(blk, 2), U24(blk, 5), blk[8] as nat, k);
    }
  }

  /** Below field 8, `low + 8^8 * high` and `low + 8^8 * top` agree. */
  lemma LowField(x: nat, w: nat, low: nat, high: nat, top: nat, k: nat)
    requires low < Pow(8, 8) && x == low + Pow(8, 8) * high && w == low + Pow(8, 8) * top && k < 8
    ensures Digit(x, 8, k) == Digit(w, 8, k)
  {
    DigitSplit(low, high, 8, 8, k);
    DigitSplit(low, top, 8, 8, k);
  }

  /** From field 8 on, `low + 8^8 * high` has the fields of `high`, which `high + 8^8 * top`
      has below field 8. */
  lemma HighField(x: nat, w: nat, low: nat, high: nat, top: nat, k: nat)
    requires low < Pow(8, 8) && high < Pow(8, 8) && x == low + Pow(8, 8) * high && w == high + Pow(8, 8) * top
    requires 8 <= k < 16
    ensures Digit(x, 8, k) == Digit(w, 8, k - 8)
  {
    DigitSplit(low, high, 8, 8, k);
    DigitSplit(high, top, 8, 8, k - 8);
  }

  lemma WordHalves(blk: seq<bv8>)
    requires |blk| >= 8
    ensures IndexBits(blk) == U24(blk, 2) + Pow(8, 8) * U24(blk, 5)
  {
    assert Pow(8, 8) == 0x100_0000;
  }

  lemma WordOfU24(blk: seq<bv8>, at: nat)
    requires at + 4 <= |blk|
    ensures U32(blk, at) == U24(blk, at) + Pow(8, 8) * blk[at + 3] as nat
  {
    assert Pow(8, 8) == 0x100_0000;
  }
}
