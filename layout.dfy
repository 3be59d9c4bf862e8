/** Byte sizes of the image data of a VTF file (src/vtf.cpp:24-119). The high-resolution data is
    a chain of mip levels; each mip holds `frames` frames, each frame `faces` faces, each face
    `depth` slices, and a slice is one 2-D image: whole 4x4 blocks for the block-compressed
    formats, `width * height` pixels otherwise. Mip level `i` has each extent halved `i` times,
    but never below 1. */
module Layout {
  import opened Errors
  import opened Bits
  import opened ImageFormats
  import Raster

  /** `ImageSizeInfo`: the format and extents of one image chain. */
  datatype ImageSizeInfo = ImageSizeInfo(format: int, width: nat, height: nat, depth: nat,
                                         faces: nat, frames: nat, mipLevels: nat)

  /** `getPixelSizeBytes`: bytes per pixel of the uncompressed formats; every other code, the
      block-compressed ones and NONE included, is rejected as InvalidHeader. */
  function PixelSizeBytes(format: int): (r: Result<nat>)
    ensures r.Ok? <==> FormatOf(format).Some? && format != NoneCode && !IsDxt(format)
    ensures r.Ok? ==> r.value in {1, 2, 3, 4, 8}
    ensures r.Err? ==> r.error == InvalidHeader
  {
    match FormatOf(format)
    case Some(RGBA16161616F) => Ok(8)
    case Some(RGBA16161616) => Ok(8)
    case Some(RGBA8888) => Ok(4)
    case Some(ABGR8888) => Ok(4)
    case Some(ARGB8888) => Ok(4)
    case Some(BGRA8888) => Ok(4)
    case Some(BGRX8888) => Ok(4)
    case Some(UVWQ8888) => Ok(4)
    case Some(UVLX8888) => Ok(4)
    case Some(RGB888) => Ok(3)
    case Some(BGR888) => Ok(3)
    case Some(RGB888_BLUESCREEN) => Ok(3)
    case Some(BGR888_BLUESCREEN) => Ok(3)
    case Some(RGB565) => Ok(2)
    case Some(IA88) => Ok(2)
    case Some(BGR565) => Ok(2)
    case Some(BGRX5551) => Ok(2)
    case Some(BGRA4444) => Ok(2)
    case Some(BGRA5551) => Ok(2)
    case Some(UV88) => Ok(2)
    case Some(I8) => Ok(1)
    case Some(P8) => Ok(1)
    case Some(A8) => Ok(1)
    case _ => Err(InvalidHeader)
  }

  /** Formats whose sizes can be computed: the block-compressed ones and those with a pixel size. */
  predicate KnownFormat(format: int)
  {
    IsDxt(format) || PixelSizeBytes(format).Ok?
  }

  /** Bytes of one 4x4 block: 8 for DXT1 (with or without one-bit alpha), 16 for DXT3 and DXT5. */
  function DxtBlockSize(format: int): (n: nat)
    requires IsDxt(format)
    ensures n == 8 || n == 16
  {
    if format == Dxt1Code || format == Dxt1OneBitAlphaCode then 8 else 16
  }

  function Max(a: nat, b: nat): nat
  {
    if a < b then b else a
  }

  /** `getSliceSizeBytes`. */
  function SliceSizeBytes(info: ImageSizeInfo): (r: Result<nat>)
    ensures r.Ok? <==> KnownFormat(info.format)
    ensures r.Err? ==> r.error == InvalidHeader
  {
    if IsDxt(info.format) then
      var width, height := Max(info.width, 4), Max(info.height, 4);
      Ok(((width + 3) / 4) * ((height + 3) / 4) * DxtBlockSize(info.format))
    else
      var pixelSize :- PixelSizeBytes(info.format);
      Ok(info.width * info.height * pixelSize)
  }

  /** `getFaceSizeBytes`: `depth` slices. */
  function FaceSizeBytes(info: ImageSizeInfo): Result<nat>
  {
    var slice :- SliceSizeBytes(info);
    Ok(slice * info.depth)
  }

  /** `getFrameSizeBytes`: `faces` faces. */
  function FrameSizeBytes(info: ImageSizeInfo): Result<nat>
  {
    var face :- FaceSizeBytes(info);
    Ok(face * info.faces)
  }

  /** `getMipSizeBytes`: `frames` frames. */
  function MipSizeBytes(info: ImageSizeInfo): Result<nat>
  {
    var frame :- FrameSizeBytes(info);
    Ok(frame * info.frames)
  }

  /** A mip level holds `frames * faces * depth` slices, and its size is known exactly when the
      slice size is. */
  lemma MipSizeProduct(info: ImageSizeInfo)
    ensures MipSizeBytes(info).Ok? <==> KnownFormat(info.format)
    ensures MipSizeBytes(info).Err? ==> MipSizeBytes(info).error == InvalidHeader
    ensures MipSizeBytes(info).Ok? ==>
      MipSizeBytes(info).value == SliceSizeBytes(info).value * info.depth * info.faces * info.frames
  {
  }

  /** `max(d >> i, 1)`: an extent halved `i` times, never below 1. */
  function Halved(d: nat, i: nat): (r: nat)
    ensures 1 <= r
  {
    var shifted := d / Pow(2, i);
    if shifted < 1 then 1 else shifted
  }

  /** The extents of mip level `i`. */
  function AtMip(info: ImageSizeInfo, i: nat): (m: ImageSizeInfo)
    ensures m.format == info.format && m.faces == info.faces && m.frames == info.frames
    ensures m.width == Halved(info.width, i) && m.height == Halved(info.height, i) && m.depth == Halved(info.depth, i)
  {
    info.(width := Halved(info.width, i), height := Halved(info.height, i), depth := Halved(info.depth, i))
  }

  /** The bytes of mip levels `from` to `to - 1`. */
  function MipsSize(info: ImageSizeInfo, from: nat, to: nat): Result<nat>
    decreases if from < to then to - from else 0
  {
    if from >= to then Ok(0)
    else
      var mip :- MipSizeBytes(AtMip(info, from));
      var rest :- MipsSize(info, from + 1, to);
      Ok(mip + rest)
  }

  /** `getImageSizeBytes`: every mip level of the chain. */
  function ImageSizeBytes(info: ImageSizeInfo): (r: Result<nat>)
    ensures r.Ok? <==> KnownFormat(info.format) || info.mipLevels == 0
    ensures r.Err? ==> r.error == InvalidHeader
  {
    MipsSizeOk(info, 0, info.mipLevels);
    MipsSize(info, 0, info.mipLevels)
  }

  /** A run of mip levels has a size exactly when the format is known or the run is empty; an
      empty run is 0 bytes whatever the format. */
  lemma {:induction false} MipsSizeOk(info: ImageSizeInfo, from: nat, to: nat)
    ensures MipsSize(info, from, to).Ok? <==> KnownFormat(info.format) || from >= to
    ensures MipsSize(info, from, to).Err? ==> MipsSize(info, from, to).error == InvalidHeader
    ensures from >= to ==> MipsSize(info, from, to) == Ok(0)
    decreases if from < to then to - from else 0
  {
    if from < to {
      MipSizeProduct(AtMip(info, from));
      MipsSizeOk(info, from + 1, to);
    }
  }

  /** Consecutive runs of mip levels add up. */
  lemma {:induction false} MipsSplit(info: ImageSizeInfo, a: nat, b: nat, c: nat)
    requires KnownFormat(info.format) && a <= b <= c
    ensures MipsSize(info, a, b).Ok? && MipsSize(info, b, c).Ok? && MipsSize(info, a, c).Ok?
    ensures MipsSize(info, a, c).value == MipsSize(info, a, b).value + MipsSize(info, b, c).value
    decreases b - a
  {
    MipsSizeOk(info, a, b);
    MipsSizeOk(info, b, c);
    MipsSizeOk(info, a, c);
    if a < b {
      MipsSplit(info, a + 1, b, c);
      MipsSizeOk(info, a + 1, b);
      MipsSizeOk(info, a + 1, c);
    }
  }

  /** The loop of `getImageSizeBytes`: the size of each mip level, added up from level 0. */
  method GetImageSizeBytes(info: ImageSizeInfo) returns (r: Result<nat>)
    ensures r == ImageSizeBytes(info)
  {
    var size: nat := 0;
    var mipLevel := 0;
    MipsSizeOk(info, 0, info.mipLevels);
    while mipLevel < info.mipLevels
      invariant mipLevel <= info.mipLevels
      invariant MipsSize(info, 0, mipLevel) == Ok(size)
    {
      var mipSize := MipSizeBytes(AtMip(info, mipLevel));
      MipSizeProduct(AtMip(info, mipLevel));
      if mipSize.Err? {
        return Err(mipSize.error);
      }
      MipsSplit(info, 0, mipLevel, mipLevel + 1);
      size := size + mipSize.value;
      mipLevel := mipLevel + 1;
    }
    r := Ok(size);
  }

  /** For a block-compressed format and a non-empty image, a slice is exactly the blocks the
      decoders read: one per 4x4 block of the image, of 8 or 16 bytes. */
  lemma SliceIsBlocks(info: ImageSizeInfo)
    requires IsDxt(info.format) && info.width >= 1 && info.height >= 1
    ensures SliceSizeBytes(info) == Ok(Raster.BlockCount(info.width, info.height) * DxtBlockSize(info.format))
  {
    Raster.BlockCountProduct(info.width, info.height);
  }

  /** Even an empty extent is given one block along each axis. */
  lemma EmptySliceIsOneBlock(info: ImageSizeInfo)
    requires IsDxt(info.format) && info.width == 0 && info.height == 0
    ensures SliceSizeBytes(info) == Ok(DxtBlockSize(info.format))
  {
  }
}
