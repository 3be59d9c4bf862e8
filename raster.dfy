/** Geometry shared by every block decoder: an image is covered by 4x4 blocks visited row-major,
    and each block's 16 texels are visited row-major too. `Ord` numbers the texels in that visiting
    order; the decoders' loop invariants say "every in-range pixel whose texel comes before `cur`
    already holds its decoded value". */
module Raster {
  import opened Bits

  /** Number of 4-pixel blocks that cover `n` pixels along one axis (the `x += 4` loop's trip count). */
  function BlocksAlong(n: nat): nat
  {
    (n + 3) / 4
  }

  /** Index of the first block of block row `row`: `row` rows of `BlocksAlong(w)` blocks come
      before it. */
  function RowStart(w: nat, row: nat): nat
  {
    if row == 0 then 0 else RowStart(w, row - 1) + BlocksAlong(w)
  }

  lemma {:induction false} RowStartProduct(w: nat, row: nat)
    ensures RowStart(w, row) == row * BlocksAlong(w)
  {
    if row > 0 {
      RowStartProduct(w, row - 1);
    }
  }

  /** Number of blocks the block loops visit for a `w` x `h` image: the block after the last row. */
  function BlockCount(w: nat, h: nat): nat
  {
    RowStart(w, BlocksAlong(h))
  }

  lemma BlockCountProduct(w: nat, h: nat)
    ensures BlockCount(w, h) == BlocksAlong(w) * BlocksAlong(h)
  {
    RowStartProduct(w, BlocksAlong(h));
  }

  /** Index, in the block loops' row-major order, of the block holding pixel (x, y). */
  function BlockOf(w: nat, x: nat, y: nat): nat
  {
    RowStart(w, y / 4) + x / 4
  }

  /** Position of pixel (x, y) inside its block: `pixelIndex` = 4 * yOffset + xOffset. */
  function TexelOf(x: nat, y: nat): (k: nat)
    ensures k < 16
  {
    4 * (y % 4) + x % 4
  }

  /** Decode-order ordinal of the texel that lands on pixel (x, y). */
  function Ord(w: nat, x: nat, y: nat): nat
  {
    16 * BlockOf(w, x, y) + TexelOf(x, y)
  }

  /** Decode-order ordinal of the texel that lands on row-major index `i`. */
  function OrdAt(w: nat, i: nat): nat
    requires w > 0
  {
    Ord(w, i % w, i / w)
  }

  /** Row-major index of pixel (x, y) in a `w` x `h` image (`yDest * width + xDest`). */
  function PixelIndex(w: nat, h: nat, x: nat, y: nat): (i: nat)
    requires x < w && y < h
    ensures i < w * h
  {
    RowMajorInRange(w, h, x, y);
    y * w + x
  }

  lemma RowMajorInRange(w: nat, h: nat, x: nat, y: nat)
    requires x < w && y < h
    ensures y * w + x < w * h
  {
    calc {
      y * w + x;
    <  y * w + w;
    == (y + 1) * w;
    <= { MulMono(w, y + 1, h); }
      h * w;
    }
  }

  /** Row-major indexing is undone by division and remainder. */
  lemma {:induction false} RowMajorDivMod(w: nat, x: nat, y: nat)
    requires x < w
    ensures (y * w + x) / w == y && (y * w + x) % w == x
  {
    var n := y * w + x;
    var q, r := n / w, n % w;
    assert q * w + r == n;
    if q < y {
      MulMono(w, q + 1, y);
      assert false;
    } else if q > y {
      MulMono(w, y + 1, q);
      assert false;
    }
  }

  /** An index inside a `w` x `h` image splits into an in-range column and row. */
  lemma {:induction false} IndexSplits(w: nat, h: nat, i: nat)
    requires i < w * h
    ensures w > 0 && i % w < w && i / w < h && i == (i / w) * w + i % w
  {
    if i / w >= h {
      MulMono(w, h, i / w);
      assert false;
    }
  }

  /** Two pixels whose texels share an ordinal are the same pixel (each pixel is written once). */
  lemma {:induction false} OrdInjective(w: nat, x1: nat, y1: nat, x2: nat, y2: nat)
    requires x1 / 4 < BlocksAlong(w) && x2 / 4 < BlocksAlong(w)
    requires Ord(w, x1, y1) == Ord(w, x2, y2)
    ensures x1 == x2 && y1 == y2
  {
    var ba := BlocksAlong(w);
    assert BlockOf(w, x1, y1) == BlockOf(w, x2, y2) && TexelOf(x1, y1) == TexelOf(x2, y2);
    RowStartProduct(w, y1 / 4);
    RowStartProduct(w, y2 / 4);
    RowMajorDivMod(ba, x1 / 4, y1 / 4);
    RowMajorDivMod(ba, x2 / 4, y2 / 4);
    assert x1 / 4 == x2 / 4 && y1 / 4 == y2 / 4;
    assert x1 % 4 == x2 % 4 && y1 % 4 == y2 % 4;
    QuotRem(x1, x2);
    QuotRem(y1, y2);
  }

  lemma QuotRem(a: nat, b: nat)
    requires a / 4 == b / 4 && a % 4 == b % 4
    ensures a == b
  {
  }

  /** Every in-range pixel's ordinal falls inside the texels the block loops visit. */
  lemma {:induction false} OrdBound(w: nat, h: nat, x: nat, y: nat)
    requires x < w && y < h
    ensures x / 4 < BlocksAlong(w)
    ensures Ord(w, x, y) < 16 * BlockCount(w, h)
  {
    var ba, bd := BlocksAlong(w), BlocksAlong(h);
    assert y / 4 < bd;
    RowMajorInRange(ba, bd, x / 4, y / 4);
    RowStartProduct(w, y / 4);
    BlockCountProduct(w, h);
    assert BlockOf(w, x, y) < ba * bd;
  }

  /** Every pixel of a `w` x `h` image is visited by the block loops. */
  lemma InRangeOrd(w: nat, h: nat, i: nat)
    requires i < w * h
    ensures w > 0 && OrdAt(w, i) < 16 * BlockCount(w, h)
  {
    IndexSplits(w, h, i);
    OrdBound(w, h, i % w, i / w);
  }

  /** Every pixel of a `w` x `h` image lies in a block the loops visit. */
  lemma InRangeBlock(w: nat, h: nat, i: nat)
    requires i < w * h
    ensures w > 0 && BlockOf(w, i % w, i / w) < BlockCount(w, h)
  {
    IndexSplits(w, h, i);
    BlockInRange(w, h, i % w, i / w);
  }

  lemma OrdAtPixel(w: nat, h: nat, x: nat, y: nat)
    requires x < w && y < h
    ensures OrdAt(w, PixelIndex(w, h, x, y)) == Ord(w, x, y)
  {
    RowMajorDivMod(w, x, y);
  }

  /** A texel with ordinal `cur` landing on (x, y) lands on no other pixel of the image. */
  lemma OrdOnlyAt(w: nat, h: nat, x: nat, y: nat, i: nat)
    requires x / 4 < BlocksAlong(w) && i < w * h
    ensures w > 0
    ensures OrdAt(w, i) == Ord(w, x, y) ==> x < w && y < h && i == PixelIndex(w, h, x, y)
  {
    IndexSplits(w, h, i);
    var col, row := i % w, i / w;
    assert col / 4 < BlocksAlong(w);
    if Ord(w, col, row) == Ord(w, x, y) {
      OrdInjective(w, col, row, x, y);
      SamePixel(w, h, i, x, y);
    }
  }

  lemma SamePixel(w: nat, h: nat, i: nat, x: nat, y: nat)
    requires i < w * h && w > 0 && i % w == x && i / w == y
    ensures x < w && y < h && i == PixelIndex(w, h, x, y)
  {
    IndexSplits(w, h, i);
  }

  /** The pixel at `xSource + xOffset`, `ySource + yOffset` lies in the block the loops are at,
      at texel `4 * yOffset + xOffset`. */
  lemma InBlock(w: nat, xSource: nat, ySource: nat, xOffset: nat, yOffset: nat)
    requires xSource % 4 == 0 && ySource % 4 == 0 && xOffset < 4 && yOffset < 4
    ensures (xSource + xOffset) / 4 == xSource / 4
    ensures BlockOf(w, xSource + xOffset, ySource + yOffset) == BlockOf(w, xSource, ySource)
    ensures TexelOf(xSource + xOffset, ySource + yOffset) == 4 * yOffset + xOffset
    ensures Ord(w, xSource + xOffset, ySource + yOffset) == 16 * BlockOf(w, xSource, ySource) + 4 * yOffset + xOffset
  {
  }

  /** Texel `k` of the block at (xSource, ySource) lands on pixel (xSource + k % 4, ySource + k / 4). */
  lemma TexelPixel(w: nat, xSource: nat, ySource: nat, k: nat, x: nat, y: nat)
    requires xSource % 4 == 0 && ySource % 4 == 0 && k < 16
    requires x == xSource + k % 4 && y == ySource + k / 4
    ensures BlockOf(w, x, y) == BlockOf(w, xSource, ySource) && TexelOf(x, y) == k
  {
    InBlock(w, xSource, ySource, k % 4, k / 4);
  }

  /** The ordinal of texel `4 * yOffset + xOffset` of the block at (xSource, ySource), and the
      column bound `Plot` needs. */
  lemma TexelOrd(w: nat, xSource: nat, ySource: nat, xOffset: nat, yOffset: nat, x: nat, y: nat, k: nat)
    requires xSource % 4 == 0 && ySource % 4 == 0 && xSource < w && xOffset < 4 && yOffset < 4
    requires x == xSource + xOffset && y == ySource + yOffset && k == 4 * yOffset + xOffset
    ensures x / 4 < BlocksAlong(w) && xSource + k % 4 == x && ySource + k / 4 == y
    ensures Ord(w, x, y) == 16 * BlockOf(w, xSource, ySource) + k
  {
    InBlock(w, xSource, ySource, xOffset, yOffset);
  }

  /** The block the loops are at precedes the end of the block loops. */
  lemma {:induction false} BlockInRange(w: nat, h: nat, x: nat, y: nat)
    requires x < w && y < h
    ensures BlockOf(w, x, y) < BlockCount(w, h)
  {
    OrdBound(w, h, x, y);
  }

  /** The block loops' `+= 4` steps keep a coordinate on a block boundary. */
  lemma NextBoundary(x: nat)
    requires x % 4 == 0
    ensures (x + 4) % 4 == 0
  {
  }

  /** Moving one block right or one block row down advances the block index by one block or one
      row of blocks. */
  lemma NextBlock(w: nat, x: nat, y: nat)
    requires x % 4 == 0
    ensures (x + 4) % 4 == 0 && BlockOf(w, x + 4, y) == BlockOf(w, x, y) + 1
  {
  }

  lemma NextBlockRow(w: nat, x: nat, y: nat)
    requires x % 4 == 0 && w <= x < w + 4 && y % 4 == 0
    ensures (y + 4) % 4 == 0 && BlockOf(w, x, y) == BlockOf(w, 0, y + 4)
  {
    assert x / 4 == BlocksAlong(w);
    assert (y + 4) / 4 == y / 4 + 1;
  }

  /** What the texel loops have filled when a block row ends is what the next row starts from. */
  lemma FilledNextRow<T>(out: seq<T>, expected: seq<T>, w: nat, x: nat, y: nat, cur: nat)
    requires x % 4 == 0 && w <= x < w + 4 && y % 4 == 0 && |out| == |expected|
    requires cur == 16 * BlockOf(w, x, y) && Filled(out, expected, w, cur)
    ensures BlockOf(w, x, y) == BlockOf(w, 0, y + 4)
    ensures Filled(out, expected, w, 16 * BlockOf(w, 0, y + 4))
  {
    NextBlockRow(w, x, y);
  }

  /** After the last block row the loops have visited every block. */
  lemma LastBlockRow(w: nat, h: nat, y: nat)
    requires y % 4 == 0 && h <= y < h + 4
    ensures BlockOf(w, 0, y) == BlockCount(w, h)
  {
    assert y / 4 == BlocksAlong(h);
  }

  /** Texel `k` of the block at (xSource, ySource) is expected to decode to `c`, whenever it lands
      inside the image. */
  ghost predicate TexelExpected<T>(expected: seq<T>, w: nat, h: nat, xSource: nat, ySource: nat, k: nat, c: T)
    requires |expected| == w * h
  {
    xSource + k % 4 < w && ySource + k / 4 < h ==> expected[PixelIndex(w, h, xSource + k % 4, ySource + k / 4)] == c
  }

  /** Texel `4 * row + j` of a block lies in row `row`, column `j`. */
  lemma RowAndColumn(k: nat, row: nat, j: nat)
    requires j < 4 && k == 4 * row + j
    ensures k / 4 == row && k % 4 == j
  {
  }

  /** What `TexelExpected` says about the pixel the texel lands on. */
  lemma ExpectedAt<T>(expected: seq<T>, w: nat, h: nat, xSource: nat, ySource: nat, k: nat, x: nat, y: nat, c: T)
    requires |expected| == w * h && TexelExpected(expected, w, h, xSource, ySource, k, c)
    requires xSource + k % 4 == x && ySource + k / 4 == y
    ensures x < w && y < h ==> c == expected[PixelIndex(w, h, x, y)]
  {
  }

  /** `[f(0), ..., f(count - 1)]`, built one element at a time. The recursion goes through
      `Append`, so unfolding `Tabulate` once exposes no element: the verifier learns an element
      only through `TabulateAt`. */
  function Tabulate<T>(count: nat, f: nat -> T): (s: seq<T>)
    ensures |s| == count
    decreases count, 1
  {
    if count == 0 then [] else Append(count - 1, f)
  }

  /** `Tabulate(i, f)` followed by `f(i)`. */
  function Append<T>(i: nat, f: nat -> T): (s: seq<T>)
    ensures |s| == i + 1
    decreases i + 1, 0
  {
    Tabulate(i, f) + [f(i)]
  }

  lemma {:induction false} TabulateAt<T>(count: nat, f: nat -> T, i: nat)
    requires i < count
    ensures Tabulate(count, f)[i] == f(i)
  {
    assert Tabulate(count, f) == Append(count - 1, f);
    if i < count - 1 {
      TabulateAt(count - 1, f, i);
    }
  }

  /** Texel `k` of the block at (xSource, ySource) is expected to be `c` in a tabulated image
      whose element at the texel's pixel is `c`. */
  lemma TabulateLands<T>(w: nat, h: nat, f: nat -> T, xSource: nat, ySource: nat, k: nat, x: nat, y: nat, c: T)
    requires x == xSource + k % 4 && y == ySource + k / 4
    requires x < w && y < h ==> f(PixelIndex(w, h, x, y)) == c
    ensures TexelExpected(Tabulate(w * h, f), w, h, xSource, ySource, k, c)
  {
    if x < w && y < h {
      TabulateAt(w * h, f, PixelIndex(w, h, x, y));
    }
  }

  /** Two tabulations agree when their functions agree below `count`. */
  lemma {:induction false} TabulateEqual<T>(count: nat, f: nat -> T, g: nat -> T)
    requires forall i | 0 <= i < count :: f(i) == g(i)
    ensures Tabulate(count, f) == Tabulate(count, g)
  {
    if count > 0 {
      assert Tabulate(count, f) == Append(count - 1, f);
      assert Tabulate(count, g) == Append(count - 1, g);
      TabulateEqual(count - 1, f, g);
    }
  }

  /** Every pixel of `out` whose texel comes before `cur` in decode order already holds its
      expected value. */
  ghost predicate Filled<T>(out: seq<T>, expected: seq<T>, w: nat, cur: nat)
    requires |out| == |expected|
  {
    forall i :: FilledAtIndex(out, expected, w, cur, i)
  }

  ghost predicate FilledAtIndex<T>(out: seq<T>, expected: seq<T>, w: nat, cur: nat, i: int)
    requires |out| == |expected|
  {
    0 <= i < |out| && w > 0 && OrdAt(w, i) < cur ==> out[i] == expected[i]
  }

  /** Before the first texel nothing is claimed. */
  lemma FilledNone<T>(out: seq<T>, expected: seq<T>, w: nat)
    requires |out| == |expected|
    ensures Filled(out, expected, w, 0)
  {
  }

  lemma FilledAt<T>(out: seq<T>, expected: seq<T>, w: nat, cur: nat, i: nat)
    requires |out| == |expected| && Filled(out, expected, w, cur)
    requires i < |out| && w > 0 && OrdAt(w, i) < cur
    ensures out[i] == expected[i]
  {
    assert FilledAtIndex(out, expected, w, cur, i);
  }

  /** A filled prefix covering every texel the loops visit is the whole image. */
  lemma FilledAll<T>(out: seq<T>, expected: seq<T>, w: nat, h: nat)
    requires |out| == |expected| == w * h
    requires Filled(out, expected, w, 16 * BlockCount(w, h))
    ensures out == expected
  {
    forall i | 0 <= i < |out|
      ensures out[i] == expected[i]
    {
      InRangeOrd(w, h, i);
      FilledAt(out, expected, w, 16 * BlockCount(w, h), i);
    }
  }

  lemma PlotStep<T>(before: seq<T>, after: seq<T>, expected: seq<T>, w: nat, h: nat, x: nat, y: nat, v: T, cur: nat)
    requires |before| == |after| == |expected| == w * h
    requires x / 4 < BlocksAlong(w) && Ord(w, x, y) == cur
    requires x < w && y < h ==> v == expected[PixelIndex(w, h, x, y)] && after == before[PixelIndex(w, h, x, y) := v]
    requires !(x < w && y < h) ==> after == before
    requires Filled(before, expected, w, cur)
    ensures Filled(after, expected, w, cur + 1)
  {
    var next := cur + 1;
    forall i
      ensures FilledAtIndex(after, expected, w, next, i)
    {
      if 0 <= i < |after| && w > 0 && OrdAt(w, i) < next {
        OrdOnlyAt(w, h, x, y, i);
        if OrdAt(w, i) < cur {
          FilledAt(before, expected, w, cur, i);
          if x < w && y < h {
            OrdAtPixel(w, h, x, y);
            assert i != PixelIndex(w, h, x, y);
          }
        }
      }
    }
  }

  /** One step of a block loop: the texel with ordinal `cur` lands on (x, y), which is written
      with `v` when it lies inside the image (the decoders' `if (xDest < width && yDest < height)`). */
  method Plot<T>(out: array<T>, w: nat, h: nat, x: nat, y: nat, v: T, ghost expected: seq<T>, ghost cur: nat)
    requires out.Length == w * h == |expected|
    requires x / 4 < BlocksAlong(w) && Ord(w, x, y) == cur
    requires x < w && y < h ==> v == expected[PixelIndex(w, h, x, y)]
    requires Filled(out[..], expected, w, cur)
    modifies out
    ensures Filled(out[..], expected, w, cur + 1)
  {
    ghost var before := out[..];
    if x < w && y < h {
      out[PixelIndex(w, h, x, y)] := v;
    }
    PlotStep(before, out[..], expected, w, h, x, y, v, cur);
  }

  /** The store of texel `k = 4 * yOffset + xOffset` of the block at (`xSource`, `ySource`): it
      goes to the pixel (`x`, `y`) = (`xSource + xOffset`, `ySource + yOffset`) when that pixel is
      inside the image, and it is the next texel in decode order. */
  method PlotTexel<T>(out: array<T>, w: nat, h: nat, xSource: nat, ySource: nat, xOffset: nat, yOffset: nat,
                      x: nat, y: nat, k: nat, v: T, ghost expected: seq<T>, ghost cur: nat)
    requires out.Length == w * h == |expected|
    requires xSource % 4 == 0 && ySource % 4 == 0 && xSource < w && xOffset < 4 && yOffset < 4
    requires x == xSource + xOffset && y == ySource + yOffset && k == 4 * yOffset + xOffset
    requires cur == 16 * BlockOf(w, xSource, ySource) + k
    requires TexelExpected(expected, w, h, xSource, ySource, k, v)
    requires Filled(out[..], expected, w, cur)
    modifies out
    ensures Filled(out[..], expected, w, cur + 1)
  {
    TexelOrd(w, xSource, ySource, xOffset, yOffset, x, y, k);
    ExpectedAt(expected, w, h, xSource, ySource, k, x, y, v);
    Plot(out, w, h, x, y, v, expected, cur);
  }
}
