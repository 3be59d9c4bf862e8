/** The colour records of the block decoders (src/dxt/structs.hpp, DXTn/DXTn.h) and the colour
    palette every S3TC colour block derives from its two 565 endpoints. */
module DxtColour {
  import opened Bits

  /** An 8-bit colour channel. */
  type Channel = c: nat | c < 256

  /** `Colour8888` (four `uint8_t` fields r, g, b, a) and the output pixel `Colour<4, uint8_t>`. */
  datatype Rgba = Rgba(r: Channel, g: Channel, b: Channel, a: Channel)

  /** `Colour<4, uint8_t>{}`: what a pixel of a freshly sized output vector holds. */
  const Blank := Rgba(0, 0, 0, 0)

  /** The `Colour565` bit fields of a 16-bit word: blue in bits 0-4, green in bits 5-10 and red in
      bits 11-15. */
  function Blue5(word: nat): (v: nat)
    ensures v < 32
  {
    word % 32
  }

  function Green6(word: nat): (v: nat)
    ensures v < 64
  {
    (word / 32) % 64
  }

  function Red5(word: nat): (v: nat)
    ensures v < 32
  {
    (word / 2048) % 32
  }

  /** The three fields tile the 16-bit word exactly: no bit is lost or shared. */
  lemma Colour565Layout(word: nat)
    requires word < 0x1_0000
    ensures word == Red5(word) * 2048 + Green6(word) * 32 + Blue5(word)
  {
  }

  /** `Colour8888(const Colour565&, alpha)`: each field shifted up to 8 bits without replicating
      its high bits, so red and blue never exceed 248 and green never exceeds 252. */
  function Expand565(word: nat, alpha: Channel): (c: Rgba)
    ensures c.r == 8 * Red5(word) && c.r <= 248
    ensures c.g == 4 * Green6(word) && c.g <= 252
    ensures c.b == 8 * Blue5(word) && c.b <= 248
    ensures c.a == alpha
  {
    Rgba(Red5(word) * 8, Green6(word) * 4, Blue5(word) * 8, alpha)
  }

  /** The expansion loses no information: distinct 565 words give distinct colours. */
  lemma {:induction false} ExpandInjective(word1: nat, word2: nat, alpha: Channel)
    requires word1 < 0x1_0000 && word2 < 0x1_0000
    requires Expand565(word1, alpha) == Expand565(word2, alpha)
    ensures word1 == word2
  {
    Colour565Layout(word1);
    Colour565Layout(word2);
  }

  /** The interpolant one third of the way from `near` to `far`, `(2 * near + far + 1) / 3`:
      the nearest integer to (2 * near + far) / 3, inside the endpoints' range. */
  function Third(near: Channel, far: Channel): (v: Channel)
    ensures near <= far ==> near <= v <= far
    ensures far <= near ==> far <= v <= near
    ensures 2 * near + far <= 3 * v + 1 && 3 * v <= 2 * near + far + 1
  {
    (2 * near + far + 1) / 3
  }

  /** The midpoint `(a + b) / 2`, rounded down. */
  function Half(x: Channel, y: Channel): (v: Channel)
    ensures x <= y ==> x <= v <= y
    ensures y <= x ==> y <= v <= x
    ensures x + y <= 2 * v + 1 && 2 * v <= x + y
  {
    (x + y) / 2
  }

  /** The four-colour palette with entries 2 and 3 assigned channel by channel (DXTn/DXT3.cpp and
      DXTn/DXT5.cpp): the S3TC palette. */
  function FourColourPalette(c0: Rgba, c1: Rgba): (p: seq<Rgba>)
    ensures |p| == 4 && p[0] == c0 && p[1] == c1
    ensures p[2].a == 255 && p[3].a == 255
  {
    [ c0,
      c1,
      Rgba(Third(c0.r, c1.r), Third(c0.g, c1.g), Third(c0.b, c1.b), 255),
      Rgba(Third(c1.r, c0.r), Third(c1.g, c0.g), Third(c1.b, c0.b), 255) ]
  }

  /** The four-colour palette as src/dxt builds it: the blue-derived interpolant is passed first to
      the positional `Colour8888(r, g, b, a)` constructor and the red-derived one third. */
  function SrcFourColourPalette(c0: Rgba, c1: Rgba): (p: seq<Rgba>)
    ensures |p| == 4 && p[0] == c0 && p[1] == c1
    ensures p[2].a == 255 && p[3].a == 255
  {
    [ c0,
      c1,
      Rgba(Third(c0.b, c1.b), Third(c0.g, c1.g), Third(c0.r, c1.r), 255),
      Rgba(Third(c1.b, c0.b), Third(c1.g, c0.g), Third(c1.r, c0.r), 255) ]
  }

  /** The palette src/dxt builds for the colour half of a DXT3 or DXT5 block: always four
      colours, whatever the order of the endpoints. */
  function ColourBlockPalette(word0: nat, word1: nat): (p: seq<Rgba>)
    ensures |p| == 4 && p[0] == Expand565(word0, 255) && p[1] == Expand565(word1, 255)
    ensures forall i | 0 <= i < 4 :: p[i].a == 255
  {
    SrcFourColourPalette(Expand565(word0, 255), Expand565(word1, 255))
  }

  /** The output pixel `Colour<4, uint8_t>{colour.r, colour.g, colour.b, alpha}`: a palette
      colour with the alpha of the block's alpha half. */
  function WithAlpha(c: Rgba, alpha: Channel): (p: Rgba)
    ensures p.r == c.r && p.g == c.g && p.b == c.b && p.a == alpha
  {
    Rgba(c.r, c.g, c.b, alpha)
  }

  function SwapRedBlue(c: Rgba): (s: Rgba)
    ensures s.r == c.b && s.g == c.g && s.b == c.r && s.a == c.a
  {
    Rgba(c.b, c.g, c.r, c.a)
  }

  /** The src/dxt palette differs from the S3TC one exactly by a red/blue swap of its two
      interpolated entries. */
  lemma SrcPaletteSwapsRedBlue(c0: Rgba, c1: Rgba)
    ensures SrcFourColourPalette(c0, c1)
         == FourColourPalette(c0, c1)[2 := SwapRedBlue(FourColourPalette(c0, c1)[2])]
                                     [3 := SwapRedBlue(FourColourPalette(c0, c1)[3])]
  {
  }

  /** The swap is visible exactly when the red and blue interpolants differ ... */
  lemma SrcPaletteSwapVisible(c0: Rgba, c1: Rgba)
    ensures SrcFourColourPalette(c0, c1)[2] == FourColourPalette(c0, c1)[2]
        <==> Third(c0.r, c1.r) == Third(c0.b, c1.b)
  {
  }

  /** ... which they do for a block blending pure red into black: the S3TC entry 2 is
      (165, 0, 0) and the src/dxt one (0, 0, 165). */
  lemma RedBlackInterpolants()
    ensures Expand565(0xF800, 255) == Rgba(248, 0, 0, 255)
    ensures Expand565(0, 255) == Rgba(0, 0, 0, 255)
    ensures Third(248, 0) == 165 && Third(0, 0) == 0
  {
    assert Red5(0xF800) == 31 && Green6(0xF800) == 0 && Blue5(0xF800) == 0;
  }

  /** Index of texel `k` in a colour bitmask, `(bitmask & (3 << 2k)) >> 2k`. */
  function ColourIndex(bitmask: nat, k: nat): (i: nat)
    ensures i < 4
  {
    Digit(bitmask, 4, k)
  }
}
