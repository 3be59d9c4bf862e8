/** `ImageFormat` (src/file-format-objects/enums.hpp): a 32-bit signed enumeration numbered from
    NONE = -1, then RGBA8888 = 0 and on, one by one, to UVLX8888 = 26. A header field holds any
    32-bit value, so the format logic works on the raw code and treats every code outside that
    range as unrecognised. The legacy parser numbers its `IMAGE_FORMAT` the same way (its format
    table is indexed by the code). */
module ImageFormats {
  import opened Errors

  datatype ImageFormat =
    | NONE | RGBA8888 | ABGR8888 | RGB888 | BGR888 | RGB565 | I8 | IA88 | P8 | A8
    | RGB888_BLUESCREEN | BGR888_BLUESCREEN | ARGB8888 | BGRA8888 | DXT1 | DXT3 | DXT5
    | BGRX8888 | BGR565 | BGRX5551 | BGRA4444 | DXT1_ONEBITALPHA | BGRA5551 | UV88 | UVWQ8888
    | RGBA16161616F | RGBA16161616 | UVLX8888

  /** The numeric value of a format. */
  function Code(f: ImageFormat): (c: int)
    ensures -1 <= c <= 26
  {
    match f
    case NONE => -1
    case RGBA8888 => 0
    case ABGR8888 => 1
    case RGB888 => 2
    case BGR888 => 3
    case RGB565 => 4
    case I8 => 5
    case IA88 => 6
    case P8 => 7
    case A8 => 8
    case RGB888_BLUESCREEN => 9
    case BGR888_BLUESCREEN => 10
    case ARGB8888 => 11
    case BGRA8888 => 12
    case DXT1 => 13
    case DXT3 => 14
    case DXT5 => 15
    case BGRX8888 => 16
    case BGR565 => 17
    case BGRX5551 => 18
    case BGRA4444 => 19
    case DXT1_ONEBITALPHA => 20
    case BGRA5551 => 21
    case UV88 => 22
    case UVWQ8888 => 23
    case RGBA16161616F => 24
    case RGBA16161616 => 25
    case UVLX8888 => 26
  }

  /** The format a raw code names, if any. */
  function FormatOf(c: int): (f: Option<ImageFormat>)
    ensures f.Some? <==> -1 <= c <= 26
  {
    match c
    case -1 => Some(NONE)
    case 0 => Some(RGBA8888)
    case 1 => Some(ABGR8888)
    case 2 => Some(RGB888)
    case 3 => Some(BGR888)
    case 4 => Some(RGB565)
    case 5 => Some(I8)
    case 6 => Some(IA88)
    case 7 => Some(P8)
    case 8 => Some(A8)
    case 9 => Some(RGB888_BLUESCREEN)
    case 10 => Some(BGR888_BLUESCREEN)
    case 11 => Some(ARGB8888)
    case 12 => Some(BGRA8888)
    case 13 => Some(DXT1)
    case 14 => Some(DXT3)
    case 15 => Some(DXT5)
    case 16 => Some(BGRX8888)
    case 17 => Some(BGR565)
    case 18 => Some(BGRX5551)
    case 19 => Some(BGRA4444)
    case 20 => Some(DXT1_ONEBITALPHA)
    case 21 => Some(BGRA5551)
    case 22 => Some(UV88)
    case 23 => Some(UVWQ8888)
    case 24 => Some(RGBA16161616F)
    case 25 => Some(RGBA16161616)
    case 26 => Some(UVLX8888)
    case _ => None
  }

  /** Every format has its own code: the numbering has no repeats. */
  lemma CodeRoundTrip(f: ImageFormat)
    ensures FormatOf(Code(f)) == Some(f)
  {
  }

  /** Every code from -1 to 26 names a format: the numbering has no gaps. */
  lemma FormatRoundTrip(c: int)
    requires FormatOf(c).Some?
    ensures Code(FormatOf(c).value) == c
  {
  }

  /** The codes the size logic tests for by name. */
  const NoneCode := -1
  const P8Code := 7
  const Dxt1Code := 13
  const Dxt3Code := 14
  const Dxt5Code := 15
  const Dxt1OneBitAlphaCode := 20
  const LastCode := 26

  /** The named codes are the codes of their formats. */
  lemma NamedCodes()
    ensures Code(NONE) == NoneCode && Code(P8) == P8Code && Code(UVLX8888) == LastCode
    ensures Code(DXT1) == Dxt1Code && Code(DXT1_ONEBITALPHA) == Dxt1OneBitAlphaCode
    ensures Code(DXT3) == Dxt3Code && Code(DXT5) == Dxt5Code
  {
  }

  /** The four block-compressed formats. */
  predicate IsDxt(c: int)
  {
    c == Dxt1Code || c == Dxt1OneBitAlphaCode || c == Dxt3Code || c == Dxt5Code
  }
}

/** `TextureFlags` (src/file-format-objects/enums.hpp): a 32-bit flag set, with the two operators
    the header code combines flags with. Both operators cast their operands to `uint8_t` first, and
    `operator|` computes an AND. */
module TextureFlags {
  const NONE: bv32 := 0
  const POINTSAMPLE: bv32 := 0x0000_0001
  const TRILINEAR: bv32 := 0x0000_0002
  const CLAMPS: bv32 := 0x0000_0004
  const CLAMPT: bv32 := 0x0000_0008
  const ANISOTROPIC: bv32 := 0x0000_0010
  const HINT_DXT5: bv32 := 0x0000_0020
  /** Shares its value with SRGB. */
  const PWL_CORRECTED: bv32 := 0x0000_0040
  const SRGB: bv32 := 0x0000_0040
  const NORMAL: bv32 := 0x0000_0080
  const NOMIP: bv32 := 0x0000_0100
  const NOLOD: bv32 := 0x0000_0200
  const ALL_MIPS: bv32 := 0x0000_0400
  const PROCEDURAL: bv32 := 0x0000_0800
  const ONEBITALPHA: bv32 := 0x0000_1000
  const EIGHTBITALPHA: bv32 := 0x0000_2000
  const ENVMAP: bv32 := 0x0000_4000
  const RENDERTARGET: bv32 := 0x0000_8000
  const DEPTHRENDERTARGET: bv32 := 0x0001_0000
  const NODEBUGOVERRIDE: bv32 := 0x0002_0000
  const SINGLECOPY: bv32 := 0x0004_0000
  const PRE_SRGB: bv32 := 0x0008_0000
  const NODEPTHBUFFER: bv32 := 0x0080_0000
  const CLAMPU: bv32 := 0x0200_0000
  const VERTEXTEXTURE: bv32 := 0x0400_0000
  const SSBUMP: bv32 := 0x0800_0000
  const BORDER: bv32 := 0x2000_0000

  /** `static_cast<uint8_t>`: the low byte. */
  function LowByte(a: bv32): bv8
  {
    (a & 0xFF) as bv8
  }

  /** `operator&`: the AND of the operands' low bytes. */
  function FlagsAnd(a: bv32, b: bv32): (r: bv32)
    ensures r == a & b & 0xFF
  {
    (LowByte(a) & LowByte(b)) as bv32
  }

  /** `operator|`: the same expression as `operator&`. */
  function FlagsOr(a: bv32, b: bv32): bv32
  {
    (LowByte(a) & LowByte(b)) as bv32
  }

  /** Below 0x100 `operator&` is the intersection of the flag sets. */
  lemma AndOfLowFlags(a: bv32, f: bv32)
    requires f < 0x100
    ensures FlagsAnd(a, f) == a & f
  {
  }

  /** A flag of 0x100 or more never survives `operator&`: testing for it always gives NONE. */
  lemma HighFlagsVanish(a: bv32, f: bv32)
    requires f & 0xFF == 0
    ensures FlagsAnd(a, f) == NONE && FlagsAnd(f, a) == NONE
  {
  }

  /** In particular no flag set ever shows ENVMAP. */
  lemma EnvmapNeverSeen(flags: bv32)
    ensures FlagsAnd(flags, ENVMAP) == NONE
  {
    HighFlagsVanish(flags, ENVMAP);
  }

  /** `operator|` is `operator&`: combining two distinct flags gives NONE, not their union. */
  lemma OrIsAnd(a: bv32, b: bv32)
    ensures FlagsOr(a, b) == FlagsAnd(a, b)
    ensures FlagsOr(POINTSAMPLE, TRILINEAR) == NONE != POINTSAMPLE | TRILINEAR
  {
  }
}
