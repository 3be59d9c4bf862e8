/** The legacy format table and size calculations (FileFormat/Parser.cpp:6-87). Formats are the
    same codes as `ImageFormat`: NONE is -1 and the table row of a format is its code. Sizes are
    natural numbers; the `uint32_t` and `int` arithmetic of the source is not wrapped. */
module LegacyFormats {
  import opened Errors
  import opened ImageFormats
  import opened Layout
  import opened Bits

  /** `ImageFormatInfo` (FileFormat/Structs.h). */
  datatype ImageFormatInfo = ImageFormatInfo(
    name: string, bitsPerPixel: nat, bytesPerPixel: nat,
    redBitsPerPixel: nat, greenBitsPerPixel: nat, blueBitsPerPixel: nat, alphaBitsPerPixel: nat,
    isCompressed: bool, isSupported: bool)

  /** `VTFImageFormatInfo`: one row per format, in code order. */
  const FormatTable: seq<ImageFormatInfo> := [
    ImageFormatInfo("RGBA8888", 32, 4, 8, 8, 8, 8, false, true),
    ImageFormatInfo("ABGR8888", 32, 4, 8, 8, 8, 8, false, true),
    ImageFormatInfo("RGB888", 24, 3, 8, 8, 8, 0, false, true),
    ImageFormatInfo("BGR888", 24, 3, 8, 8, 8, 0, false, true),
    ImageFormatInfo("RGB565", 16, 2, 5, 6, 5, 0, false, true),
    ImageFormatInfo("I8", 8, 1, 0, 0, 0, 0, false, true),
    ImageFormatInfo("IA88", 16, 2, 0, 0, 0, 8, false, true),
    ImageFormatInfo("P8", 8, 1, 0, 0, 0, 0, false, false),
    ImageFormatInfo("A8", 8, 1, 0, 0, 0, 8, false, true),
    ImageFormatInfo("RGB888 Bluescreen", 24, 3, 8, 8, 8, 0, false, true),
    ImageFormatInfo("BGR888 Bluescreen", 24, 3, 8, 8, 8, 0, false, true),
    ImageFormatInfo("ARGB8888", 32, 4, 8, 8, 8, 8, false, true),
    ImageFormatInfo("BGRA8888", 32, 4, 8, 8, 8, 8, false, true),
    ImageFormatInfo("DXT1", 4, 0, 0, 0, 0, 0, true, true),
    ImageFormatInfo("DXT3", 8, 0, 0, 0, 0, 8, true, true),
    ImageFormatInfo("DXT5", 8, 0, 0, 0, 0, 8, true, true),
    ImageFormatInfo("BGRX8888", 32, 4, 8, 8, 8, 0, false, true),
    ImageFormatInfo("BGR565", 16, 2, 5, 6, 5, 0, false, true),
    ImageFormatInfo("BGRX5551", 16, 2, 5, 5, 5, 0, false, true),
    ImageFormatInfo("BGRA4444", 16, 2, 4, 4, 4, 4, false, true),
    ImageFormatInfo("DXT1 One Bit Alpha", 4, 0, 0, 0, 0, 1, true, true),
    ImageFormatInfo("BGRA5551", 16, 2, 5, 5, 5, 1, false, true),
    ImageFormatInfo("UV88", 16, 2, 8, 8, 0, 0, false, true),
    ImageFormatInfo("UVWQ8888", 32, 4, 8, 8, 8, 8, false, true),
    ImageFormatInfo("RGBA16161616F", 64, 8, 16, 16, 16, 16, false, true),
    ImageFormatInfo("RGBA16161616", 64, 8, 16, 16, 16, 16, false, true),
    ImageFormatInfo("UVLX8888", 32, 4, 8, 8, 8, 8, false, true)
  ]

  /** The record returned for a code outside the table. */
  const InvalidFormat := ImageFormatInfo("Invalid Format", 0, 0, 0, 0, 0, 0, false, false)

  /** `GetImageFormatInfo`: the table row of a format, or the zeroed record for NONE and every
      code past UVLX8888. */
  function GetImageFormatInfo(format: int): (info: ImageFormatInfo)
    ensures !(0 <= format <= LastCode) ==> info == InvalidFormat
  {
    if format <= NoneCode || format > LastCode then InvalidFormat
    else FormatTable[format]
  }

  /** Of the named formats only P8 is unsupported. */
  lemma SupportedFormats(format: int)
    ensures GetImageFormatInfo(format).isSupported <==> 0 <= format <= LastCode && format != P8Code
  {
  }

  /** Only the four DXT formats are compressed. */
  lemma CompressedFormats(format: int)
    ensures GetImageFormatInfo(format).isCompressed <==> IsDxt(format)
  {
  }

  /** The DXT formats and the codes outside the table alone have no whole bytes per pixel. */
  lemma WholeBytesPerPixel(format: int)
    ensures GetImageFormatInfo(format).bytesPerPixel == 0 <==> !(0 <= format <= LastCode) || IsDxt(format)
  {
  }

  /** The bit counts fit the byte counts: whole bytes for the uncompressed formats, and for the
      compressed ones 16 pixels' worth of bits is exactly one block of the current code. */
  lemma BitsPerPixel(format: int)
    requires 0 <= format <= LastCode
    ensures var info := GetImageFormatInfo(format);
      if IsDxt(format) then 16 * info.bitsPerPixel == 8 * DxtBlockSize(format)
      else info.bitsPerPixel == 8 * info.bytesPerPixel
  {
  }

  /** The table and the current code's `getPixelSizeBytes` give every uncompressed format the
      same pixel size. */
  lemma BytesPerPixelAgrees(format: int)
    requires 0 <= format <= LastCode && !IsDxt(format)
    ensures PixelSizeBytes(format) == Ok(GetImageFormatInfo(format).bytesPerPixel)
  {
    if format < Dxt1Code {
      BytesPerPixelBelowDxt(format);
    } else if format < Dxt1OneBitAlphaCode {
      BytesPerPixelBetweenDxt(format);
    } else {
      BytesPerPixelAboveDxt(format);
    }
  }

  lemma BytesPerPixelBelowDxt(format: int)
    requires 0 <= format < Dxt1Code
    ensures PixelSizeBytes(format) == Ok(GetImageFormatInfo(format).bytesPerPixel)
  {
  }

  lemma BytesPerPixelBetweenDxt(format: int)
    requires Dxt5Code < format < Dxt1OneBitAlphaCode
    ensures PixelSizeBytes(format) == Ok(GetImageFormatInfo(format).bytesPerPixel)
  {
  }

  lemma BytesPerPixelAboveDxt(format: int)
    requires Dxt1OneBitAlphaCode < format <= LastCode
    ensures PixelSizeBytes(format) == Ok(GetImageFormatInfo(format).bytesPerPixel)
  {
  }

  /** A DXT extent of 1 to 3 is raised to 4; 0 is left alone. */
  function RaiseToBlock(d: nat): nat
  {
    if d < 4 && d > 0 then 4 else d
  }

  /** `CalcImageSize(width, height, depth, format)`: one mip level of one frame and face. */
  function CalcImageSize(width: nat, height: nat, depth: nat, format: int): nat
  {
    if format == Dxt1Code || format == Dxt1OneBitAlphaCode then DxtImageSize(width, height, depth, 8)
    else if format == Dxt3Code || format == Dxt5Code then DxtImageSize(width, height, depth, 16)
    else PixelImageSize(width, height, depth, GetImageFormatInfo(format).bytesPerPixel)
  }

  /** The compressed branches: whole 4x4 blocks of `blockSize` bytes per slice. */
  function DxtImageSize(width: nat, height: nat, depth: nat, blockSize: nat): nat
  {
    ((RaiseToBlock(width) + 3) / 4) * ((RaiseToBlock(height) + 3) / 4) * blockSize * depth
  }

  /** The uncompressed branch: `bytesPerPixel` per pixel. */
  function PixelImageSize(width: nat, height: nat, depth: nat, bytesPerPixel: nat): nat
  {
    width * height * depth * bytesPerPixel
  }

  /** For a non-empty image of a format the current code knows, the legacy size of a level is
      the current slice size times the depth. */
  lemma CalcMatchesSlice(width: nat, height: nat, depth: nat, format: int)
    requires width >= 1 && height >= 1 && KnownFormat(format)
    ensures CalcImageSize(width, height, depth, format)
         == SliceSizeBytes(ImageSizeInfo(format, width, height, depth, 1, 1, 1)).value * depth
  {
    if IsDxt(format) {
      assert RaiseToBlock(width) == Max(width, 4) && RaiseToBlock(height) == Max(height, 4);
    } else {
      PixelMatchesSlice(width, height, depth, format);
    }
  }

  lemma PixelMatchesSlice(width: nat, height: nat, depth: nat, format: int)
    requires 0 <= format <= LastCode && !IsDxt(format) && KnownFormat(format)
    ensures CalcImageSize(width, height, depth, format)
         == SliceSizeBytes(ImageSizeInfo(format, width, height, depth, 1, 1, 1)).value * depth
  {
    BytesPerPixelAgrees(format);
    var p := GetImageFormatInfo(format).bytesPerPixel;
    assert width * height * depth * p == width * height * p * depth;
  }

  /** Where the generations part: an empty DXT extent gives 0 bytes here but one block in the
      current code, and a format the current code rejects gives 0 bytes here. */
  lemma CalcEdgeCases(width: nat, height: nat, depth: nat, format: int)
    ensures IsDxt(format) && (width == 0 || height == 0) ==> CalcImageSize(width, height, depth, format) == 0
    ensures IsDxt(format) && width == 0 && height == 0 ==>
      SliceSizeBytes(ImageSizeInfo(format, width, height, depth, 1, 1, 1)) == Ok(DxtBlockSize(format))
    ensures !KnownFormat(format) ==> CalcImageSize(width, height, depth, format) == 0
    ensures !KnownFormat(format) ==> SliceSizeBytes(ImageSizeInfo(format, width, height, depth, 1, 1, 1)).Err?
  {
    if !KnownFormat(format) {
      WholeBytesPerPixel(format);
      if 0 <= format <= LastCode {
        BytesPerPixelAgrees(format);
      }
    }
  }

  /** One halving step of the mip loop: `d >>= 1`, then raised to 1. */
  function Halve(d: nat): nat
  {
    if d / 2 < 1 then 1 else d / 2
  }

  /** Halving step by step is the current code's `max(d >> i, 1)`. */
  lemma HalveStep(d: nat, i: nat)
    ensures Halve(Halved(d, i)) == Halved(d, i + 1)
  {
    var p := Pow(2, i);
    assert Pow(2, i + 1) == p * 2;
    DivDiv(d, p, 2);
  }

  /** `numMips` levels from the given extents, each level halved from the one before. */
  function MipChainSize(width: nat, height: nat, depth: nat, format: int, numMips: nat): nat
    decreases numMips
  {
    if numMips == 0 then 0
    else
      CalcImageSize(width, height, depth, format)
      + MipChainSize(Halve(width), Halve(height), Halve(depth), format, numMips - 1)
  }

  /** `CalcImageSize(width, height, depth, numMips, format)`: 0 when any extent or the mip count
      is 0. */
  function LegacyImageSize(width: nat, height: nat, depth: nat, numMips: nat, format: int): nat
  {
    if width == 0 || height == 0 || depth == 0 || numMips == 0 then 0
    else MipChainSize(width, height, depth, format, numMips)
  }

  /** The loop of the mip `CalcImageSize`. */
  method CalcImageSizeMips(width: nat, height: nat, depth: nat, numMips: nat, format: int) returns (imageSize: nat)
    ensures imageSize == LegacyImageSize(width, height, depth, numMips, format)
  {
    if width == 0 || height == 0 || depth == 0 || numMips == 0 {
      return 0;
    }
    imageSize := 0;
    var w, h, d := width, height, depth;
    var i := 0;
    while i < numMips
      invariant i <= numMips
      invariant imageSize + MipChainSize(w, h, d, format, numMips - i) == MipChainSize(width, height, depth, format, numMips)
    {
      imageSize := imageSize + CalcImageSize(w, h, d, format);
      w, h, d := w / 2, h / 2, d / 2;
      if w < 1 {
        w := 1;
      }
      if h < 1 {
        h := 1;
      }
      if d < 1 {
        d := 1;
      }
      i := i + 1;
    }
  }

  /** The legacy sizes of mip levels `from` to `to - 1` of `info`, each level computed from the
      current code's extents of that level. */
  function LegacyLevels(info: ImageSizeInfo, from: nat, to: nat): nat
    decreases if from < to then to - from else 0
  {
    if from >= to then 0
    else
      var m := AtMip(info, from);
      CalcImageSize(m.width, m.height, m.depth, info.format) + LegacyLevels(info, from + 1, to)
  }

  /** Halving the extents step by step from level `i` gives the levels of the current code. */
  lemma {:induction false} ChainIsLevels(info: ImageSizeInfo, i: nat)
    requires i <= info.mipLevels
    ensures MipChainSize(Halved(info.width, i), Halved(info.height, i), Halved(info.depth, i), info.format, info.mipLevels - i)
         == LegacyLevels(info, i, info.mipLevels)
    decreases info.mipLevels - i
  {
    if i < info.mipLevels {
      ChainIsLevels(info, i + 1);
      HalveStep(info.width, i);
      HalveStep(info.height, i);
      HalveStep(info.depth, i);
    }
  }

  /** From level `i` on, the legacy levels times frames and faces are the current size. */
  lemma {:induction false} LevelsMatchMips(info: ImageSizeInfo, i: nat)
    requires info.width >= 1 && info.height >= 1 && KnownFormat(info.format) && i <= info.mipLevels
    ensures MipsSize(info, i, info.mipLevels).Ok?
    ensures LegacyLevels(info, i, info.mipLevels) * info.frames * info.faces == MipsSize(info, i, info.mipLevels).value
    decreases info.mipLevels - i
  {
    MipsSizeOk(info, i, info.mipLevels);
    if i < info.mipLevels {
      LevelsMatchMips(info, i + 1);
      MipsSizeOk(info, i + 1, info.mipLevels);
      LevelMatchesMip(info, i);
      Distribute(CalcImageSize(Halved(info.width, i), Halved(info.height, i), Halved(info.depth, i), info.format),
                 LegacyLevels(info, i + 1, info.mipLevels), info.frames, info.faces);
    }
  }

  /** One level: the legacy size times frames and faces is the current mip size. */
  lemma LevelMatchesMip(info: ImageSizeInfo, i: nat)
    requires KnownFormat(info.format)
    ensures MipSizeBytes(AtMip(info, i)).Ok?
    ensures CalcImageSize(Halved(info.width, i), Halved(info.height, i), Halved(info.depth, i), info.format) * info.frames * info.faces
         == MipSizeBytes(AtMip(info, i)).value
  {
    var m := AtMip(info, i);
    MipSizeProduct(m);
    CalcMatchesSlice(m.width, m.height, m.depth, info.format);
    assert SliceSizeBytes(m) == SliceSizeBytes(ImageSizeInfo(info.format, m.width, m.height, m.depth, 1, 1, 1));
    Reorder(SliceSizeBytes(m).value, m.depth, info.frames, info.faces);
  }

  lemma Reorder(slice: nat, depth: nat, frames: nat, faces: nat)
    ensures slice * depth * frames * faces == slice * depth * faces * frames
  {
  }

  lemma Distribute(a: nat, b: nat, x: nat, y: nat)
    ensures (a + b) * x * y == a * x * y + b * x * y
  {
  }

  /** For a non-empty image the legacy size of the high-resolution data, the mip chain times
      frames times faces, is the current `getImageSizeBytes`. */
  lemma LegacyMatchesCurrent(info: ImageSizeInfo)
    requires info.width >= 1 && info.height >= 1 && info.depth >= 1 && KnownFormat(info.format)
    ensures ImageSizeBytes(info).Ok?
    ensures LegacyImageSize(info.width, info.height, info.depth, info.mipLevels, info.format) * info.frames * info.faces
         == ImageSizeBytes(info).value
  {
    ChainIsLevels(info, 0);
    LevelsMatchMips(info, 0);
    assert Halved(info.width, 0) == info.width && Halved(info.height, 0) == info.height && Halved(info.depth, 0) == info.depth;
    MipsSizeOk(info, 0, info.mipLevels);
  }
}
