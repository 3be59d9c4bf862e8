/** The output of the legacy decoders (DXTn/DXT3.cpp, DXTn/DXT5.cpp): a raw buffer of four bytes
    per pixel, r, g, b, a, the pixels row-major, so that pixel (x, y) starts at
    `y * (4 * width) + 4 * x`. The decoders fill it in two passes per block, first the colour bytes
    of the block's sixteen texels and then their alpha bytes; `BytesFilled` tracks the two passes
    with one decode-order ordinal each. */
module ByteRaster {
  import opened Raster
  import opened BlockImage
  import opened DxtColour

  /** The four bytes of a pixel in the buffer: red, green, blue, then alpha. */
  function PixelBytes(p: Rgba): (bytes: seq<bv8>)
    ensures |bytes| == 4
  {
    [p.r as bv8, p.g as bv8, p.b as bv8, p.a as bv8]
  }

  /** The bytes of the first `n` pixels, one pixel after another. */
  function Flatten(img: seq<Rgba>, n: nat): (bytes: seq<bv8>)
    requires n <= |img|
    ensures |bytes| == 4 * n
  {
    if n == 0 then [] else Flatten(img, n - 1) + PixelBytes(img[n - 1])
  }

  /** Byte `4 * i + c` of a flattened image is byte `c` of pixel `i`. */
  lemma {:induction false} FlattenAt(img: seq<Rgba>, n: nat, i: nat, c: nat)
    requires i < n <= |img| && c < 4
    ensures 4 * i + c < |Flatten(img, n)| && Flatten(img, n)[4 * i + c] == PixelBytes(img[i])[c]
  {
    if i < n - 1 {
      FlattenAt(img, n - 1, i, c);
    }
  }

  /** The `4 * width * height` bytes of the decoded image. */
  function ImageBytes(w: nat, h: nat, texel: (nat, nat) -> Rgba): (bytes: seq<bv8>)
    ensures |bytes| == 4 * (w * h)
  {
    var img := Image(w, h, texel);
    Flatten(img, |img|)
  }

  /** Pixel (x, y) starts at byte `y * rowBytes + x * 4` when a row holds `rowBytes = 4 * w`
      bytes: the legacy decoders' `Offset`. */
  lemma PixelOffset(w: nat, h: nat, rowBytes: nat, x: nat, y: nat)
    requires rowBytes == 4 * w && x < w && y < h
    ensures y * rowBytes + x * 4 == 4 * PixelIndex(w, h, x, y)
  {
    assert y * rowBytes == 4 * (y * w);
  }

  /** The four bytes of pixel (x, y) in the buffer are those of texel `TexelOf(x, y)` of its
      block. */
  lemma ImageBytesAt(w: nat, h: nat, texel: (nat, nat) -> Rgba, x: nat, y: nat)
    requires x < w && y < h
    ensures var o := y * (4 * w) + 4 * x;
      o + 3 < 4 * (w * h) && ImageBytes(w, h, texel)[o .. o + 4] == PixelBytes(texel(BlockOf(w, x, y), TexelOf(x, y)))
  {
    var i := PixelIndex(w, h, x, y);
    PixelOffset(w, h, 4 * w, x, y);
    var img := Image(w, h, texel);
    ImageAt(w, h, texel, x, y);
    PixelBytesAt(ImageBytes(w, h, texel), img[i], img, i);
  }

  /** The four bytes of texel `k` of the block at (xSource, ySource) are those of `v`, whenever the
      texel lands inside the image. */
  ghost predicate TexelBytes(expected: seq<bv8>, w: nat, h: nat, xSource: nat, ySource: nat, k: nat, v: Rgba)
    requires 4 * (w * h) <= |expected|
  {
    xSource + k % 4 < w && ySource + k / 4 < h ==>
      var o := 4 * PixelIndex(w, h, xSource + k % 4, ySource + k / 4);
      forall c | 0 <= c < 4 :: expected[o + c] == PixelBytes(v)[c]
  }

  /** What `TexelBytes` says about the four bytes at `offset`, the start of the pixel the texel
      lands on. */
  lemma ExpectedBytes(expected: seq<bv8>, w: nat, h: nat, xSource: nat, ySource: nat, k: nat, x: nat, y: nat,
                      offset: nat, v: Rgba)
    requires 4 * (w * h) <= |expected| && TexelBytes(expected, w, h, xSource, ySource, k, v)
    requires xSource + k % 4 == x && ySource + k / 4 == y && x < w && y < h
    requires offset == 4 * PixelIndex(w, h, x, y)
    ensures offset + 3 < 4 * (w * h)
    ensures expected[offset] == v.r as bv8 && expected[offset + 1] == v.g as bv8
    ensures expected[offset + 2] == v.b as bv8 && expected[offset + 3] == v.a as bv8
  {
    assert expected[offset + 0] == PixelBytes(v)[0];
    assert expected[offset + 1] == PixelBytes(v)[1];
    assert expected[offset + 2] == PixelBytes(v)[2];
    assert expected[offset + 3] == PixelBytes(v)[3];
  }

  /** Every texel of the block at (xSource, ySource) has, where it lands, its bytes in the byte
      image, whatever follows the image in the buffer. */
  lemma BlockBytesExpected(w: nat, h: nat, texel: (nat, nat) -> Rgba, tail: seq<bv8>, xSource: nat, ySource: nat)
    requires xSource % 4 == 0 && ySource % 4 == 0
    ensures forall k | 0 <= k < 16 :: TexelBytes(ImageBytes(w, h, texel) + tail, w, h, xSource, ySource, k,
                                                 texel(BlockOf(w, xSource, ySource), k))
  {
    forall k | 0 <= k < 16
      ensures TexelBytes(ImageBytes(w, h, texel) + tail, w, h, xSource, ySource, k,
                         texel(BlockOf(w, xSource, ySource), k))
    {
      var x, y := xSource + k % 4, ySource + k / 4;
      if x < w && y < h {
        TexelLandsBytes(w, h, texel, tail, xSource, ySource, k, x, y);
      }
    }
  }

  lemma TexelLandsBytes(w: nat, h: nat, texel: (nat, nat) -> Rgba, tail: seq<bv8>, xSource: nat, ySource: nat,
                        k: nat, x: nat, y: nat)
    requires xSource % 4 == 0 && ySource % 4 == 0 && k < 16
    requires x == xSource + k % 4 && y == ySource + k / 4 && x < w && y < h
    ensures TexelBytes(ImageBytes(w, h, texel) + tail, w, h, xSource, ySource, k,
                       texel(BlockOf(w, xSource, ySource), k))
  {
    var i, v := PixelIndex(w, h, x, y), texel(BlockOf(w, xSource, ySource), k);
    var img, bytes := Image(w, h, texel), ImageBytes(w, h, texel);
    assert img[i] == v by {
      ImageAt(w, h, texel, x, y);
      TexelPixel(w, xSource, ySource, k, x, y);
    }
    PixelBytesAt(bytes, v, img, i);
    var all := bytes + tail;
    forall c | 0 <= c < 4
      ensures all[4 * i + c] == PixelBytes(v)[c]
    {
    }
    LandsAt(all, w, h, xSource, ySource, k, v, i);
  }

  lemma LandsAt(expected: seq<bv8>, w: nat, h: nat, xSource: nat, ySource: nat, k: nat, v: Rgba, i: nat)
    requires 4 * (w * h) <= |expected| && xSource + k % 4 < w && ySource + k / 4 < h
    requires i == PixelIndex(w, h, xSource + k % 4, ySource + k / 4)
    requires forall c | 0 <= c < 4 :: expected[4 * i + c] == PixelBytes(v)[c]
    ensures TexelBytes(expected, w, h, xSource, ySource, k, v)
  {
  }

  /** The four bytes of pixel `i` of a flattened image. */
  lemma PixelBytesAt(bytes: seq<bv8>, v: Rgba, img: seq<Rgba>, i: nat)
    requires i < |img| && bytes == Flatten(img, |img|) && v == img[i]
    ensures 4 * i + 3 < |bytes|
    ensures forall c | 0 <= c < 4 :: bytes[4 * i + c] == PixelBytes(v)[c]
    ensures bytes[4 * i .. 4 * i + 4] == PixelBytes(v)
  {
    forall c | 0 <= c < 4
      ensures bytes[4 * i + c] == PixelBytes(v)[c]
    {
      FlattenAt(img, |img|, i, c);
    }
  }

  /** The bytes after the image hold what `expected` says, and each in-range pixel holds its
      colour bytes once its texel's ordinal is below `colourCur` and its alpha byte once it is
      below `alphaCur`. */
  ghost predicate BytesFilled(out: seq<bv8>, expected: seq<bv8>, w: nat, h: nat, colourCur: nat, alphaCur: nat)
    requires |out| == |expected| && 4 * (w * h) <= |out|
  {
    out[4 * (w * h)..] == expected[4 * (w * h)..] &&
    forall i :: PixelBytesFilled(out, expected, w, h, colourCur, alphaCur, i)
  }

  ghost predicate PixelBytesFilled(out: seq<bv8>, expected: seq<bv8>, w: nat, h: nat, colourCur: nat, alphaCur: nat, i: int)
    requires |out| == |expected| && 4 * (w * h) <= |out|
  {
    0 <= i < w * h && w > 0 ==>
      (OrdAt(w, i) < colourCur ==>
         out[4 * i] == expected[4 * i] && out[4 * i + 1] == expected[4 * i + 1] && out[4 * i + 2] == expected[4 * i + 2]) &&
      (OrdAt(w, i) < alphaCur ==> out[4 * i + 3] == expected[4 * i + 3])
  }

  /** Before the first texel only the bytes after the image are claimed. */
  lemma BytesFilledNone(out: seq<bv8>, expected: seq<bv8>, w: nat, h: nat)
    requires |out| == |expected| && 4 * (w * h) <= |out|
    requires out[4 * (w * h)..] == expected[4 * (w * h)..]
    ensures BytesFilled(out, expected, w, h, 0, 0)
  {
  }

  /** Once both passes have covered every texel the loops visit, the buffer is `expected`. */
  lemma BytesFilledAll(out: seq<bv8>, expected: seq<bv8>, w: nat, h: nat)
    requires |out| == |expected| && 4 * (w * h) <= |out|
    requires BytesFilled(out, expected, w, h, 16 * BlockCount(w, h), 16 * BlockCount(w, h))
    ensures out == expected
  {
    forall b | 0 <= b < |out|
      ensures out[b] == expected[b]
    {
      if b < 4 * (w * h) {
        var i := b / 4;
        InRangeOrd(w, h, i);
        assert PixelBytesFilled(out, expected, w, h, 16 * BlockCount(w, h), 16 * BlockCount(w, h), i);
      } else {
        assert out[b] == out[4 * (w * h)..][b - 4 * (w * h)];
      }
    }
  }

  /** Writing the colour bytes of the texel with ordinal `cur` (when it lands in the image)
      completes the colour pass up to `cur + 1`. */
  lemma ColourStep(before: seq<bv8>, after: seq<bv8>, expected: seq<bv8>, w: nat, h: nat, x: nat, y: nat,
                   cur: nat, alphaCur: nat)
    requires |before| == |after| == |expected| && 4 * (w * h) <= |before|
    requires x / 4 < BlocksAlong(w) && Ord(w, x, y) == cur
    requires x < w && y < h ==> var o := 4 * PixelIndex(w, h, x, y);
      after == before[o := expected[o]][o + 1 := expected[o + 1]][o + 2 := expected[o + 2]]
    requires !(x < w && y < h) ==> after == before
    requires BytesFilled(before, expected, w, h, cur, alphaCur)
    ensures BytesFilled(after, expected, w, h, cur + 1, alphaCur)
  {
    if x < w && y < h {
      assert after[4 * (w * h)..] == before[4 * (w * h)..];
    }
    var next := cur + 1;
    forall i
      ensures PixelBytesFilled(after, expected, w, h, next, alphaCur, i)
    {
      if 0 <= i < w * h && w > 0 {
        assert PixelBytesFilled(before, expected, w, h, cur, alphaCur, i);
        OrdOnlyAt(w, h, x, y, i);
        if x < w && y < h {
          OrdAtPixel(w, h, x, y);
        }
      }
    }
  }

  /** Writing the alpha byte of the texel with ordinal `cur` (when it lands in the image)
      completes the alpha pass up to `cur + 1`. */
  lemma AlphaStep(before: seq<bv8>, after: seq<bv8>, expected: seq<bv8>, w: nat, h: nat, x: nat, y: nat,
                  colourCur: nat, cur: nat)
    requires |before| == |after| == |expected| && 4 * (w * h) <= |before|
    requires x / 4 < BlocksAlong(w) && Ord(w, x, y) == cur
    requires x < w && y < h ==> var o := 4 * PixelIndex(w, h, x, y) + 3;
      after == before[o := expected[o]]
    requires !(x < w && y < h) ==> after == before
    requires BytesFilled(before, expected, w, h, colourCur, cur)
    ensures BytesFilled(after, expected, w, h, colourCur, cur + 1)
  {
    if x < w && y < h {
      assert after[4 * (w * h)..] == before[4 * (w * h)..];
    }
    var next := cur + 1;
    forall i
      ensures PixelBytesFilled(after, expected, w, h, colourCur, next, i)
    {
      if 0 <= i < w * h && w > 0 {
        assert PixelBytesFilled(before, expected, w, h, colourCur, cur, i);
        OrdOnlyAt(w, h, x, y, i);
        if x < w && y < h {
          OrdAtPixel(w, h, x, y);
        }
      }
    }
  }

  /** The colour stores of texel `k = 4 * yOffset + xOffset` of the block at (xSource, ySource):
      bytes 0-2 of pixel (x, y) = (xSource + xOffset, ySource + yOffset), at
      `y * rowBytes + x * 4`, when that pixel is inside the image. */
  method PlotColour(dst: array<bv8>, w: nat, h: nat, rowBytes: nat, xSource: nat, ySource: nat,
                    xOffset: nat, yOffset: nat, x: nat, y: nat, ghost k: nat, col: Rgba, ghost v: Rgba,
                    ghost expected: seq<bv8>, ghost cur: nat, ghost alphaCur: nat)
    requires dst.Length == |expected| && 4 * (w * h) <= dst.Length && rowBytes == 4 * w
    requires xSource % 4 == 0 && ySource % 4 == 0 && xSource < w && xOffset < 4 && yOffset < 4
    requires x == xSource + xOffset && y == ySource + yOffset && k == 4 * yOffset + xOffset
    requires cur == 16 * BlockOf(w, xSource, ySource) + k
    requires TexelBytes(expected, w, h, xSource, ySource, k, v) && col.r == v.r && col.g == v.g && col.b == v.b
    requires BytesFilled(dst[..], expected, w, h, cur, alphaCur)
    modifies dst
    ensures BytesFilled(dst[..], expected, w, h, cur + 1, alphaCur)
  {
    TexelOrd(w, xSource, ySource, xOffset, yOffset, x, y, k);
    ghost var before := dst[..];
    if x < w && y < h {
      var offset := y * rowBytes + x * 4;
      PixelOffset(w, h, rowBytes, x, y);
      ExpectedBytes(expected, w, h, xSource, ySource, k, x, y, offset, v);
      dst[offset] := col.r as bv8;
      dst[offset + 1] := col.g as bv8;
      dst[offset + 2] := col.b as bv8;
    }
    ColourStep(before, dst[..], expected, w, h, x, y, cur, alphaCur);
  }

  /** The alpha store of texel `k = 4 * yOffset + xOffset`: byte 3 of pixel (x, y), at
      `y * rowBytes + x * 4 + 3`, when that pixel is inside the image. */
  method PlotAlpha(dst: array<bv8>, w: nat, h: nat, rowBytes: nat, xSource: nat, ySource: nat,
                   xOffset: nat, yOffset: nat, x: nat, y: nat, ghost k: nat, alpha: bv8, ghost v: Rgba,
                   ghost expected: seq<bv8>, ghost colourCur: nat, ghost cur: nat)
    requires dst.Length == |expected| && 4 * (w * h) <= dst.Length && rowBytes == 4 * w
    requires xSource % 4 == 0 && ySource % 4 == 0 && xSource < w && xOffset < 4 && yOffset < 4
    requires x == xSource + xOffset && y == ySource + yOffset && k == 4 * yOffset + xOffset
    requires cur == 16 * BlockOf(w, xSource, ySource) + k
    requires TexelBytes(expected, w, h, xSource, ySource, k, v) && alpha == v.a as bv8
    requires BytesFilled(dst[..], expected, w, h, colourCur, cur)
    modifies dst
    ensures BytesFilled(dst[..], expected, w, h, colourCur, cur + 1)
  {
    TexelOrd(w, xSource, ySource, xOffset, yOffset, x, y, k);
    ghost var before := dst[..];
    if x < w && y < h {
      PixelOffset(w, h, rowBytes, x, y);
      ExpectedBytes(expected, w, h, xSource, ySource, k, x, y, y * rowBytes + x * 4, v);
      var offset := y * rowBytes + x * 4 + 3;
      dst[offset] := alpha;
    }
    AlphaStep(before, dst[..], expected, w, h, x, y, colourCur, cur);
  }
}
