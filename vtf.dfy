/** `Vtf` (src/vtf.hpp, src/vtf.cpp:122-269): a parsed VTF file. Construction checks the header,
    applies the version fix-ups, works out the sizes of the low- and high-resolution image data and
    locates both inside the file; afterwards the object is only read. The image data views are
    (offset, length) pairs into the file that are not checked against its size. */
module VtfFile {
  import opened Errors
  import opened VtfHeader
  import opened ImageFormats
  import opened Layout
  import TextureFlags
  import Bounds

  const SupportedMajorVersion := 7
  const MaxSupportedMinorVersion := 5
  /** First minor version with a resource dictionary. */
  const MinResourceInfoMinorVersion := 3

  /** A `std::span` over the file's bytes: where it starts and how long it is. */
  datatype Span = Span(offset: nat, length: nat)

  /** A default-constructed span. */
  const EmptySpan := Span(0, 0)

  datatype Vtf = Vtf(data: seq<bv8>, header: Header, lowResImageData: Span, highResImageData: Span)

  /** What construction establishes about every `Vtf`. */
  predicate WellFormed(v: Vtf)
  {
    |v.data| >= HeaderSize && v.header == FixUp(DecodeHeader(v.data))
    && v.header.signature == FileId
    && v.header.majorVersion == SupportedMajorVersion && v.header.minorVersion <= MaxSupportedMinorVersion
    && v.header.highResImageFormat != NoneCode && v.header.numResources <= MaxResources
  }

  /** `getFaces`: 1 unless the ENVMAP flag is seen, then 7 for an old cube map whose first frame is
      0xffff and 6 otherwise. The test goes through `operator&` of `TextureFlags`. */
  function Faces(h: Header): (n: int)
    requires FieldsInRange(h)
    ensures n == 1 || n == 6 || n == 7
  {
    if TextureFlags.FlagsAnd(h.flags as bv32, TextureFlags.ENVMAP) == TextureFlags.NONE then 1
    else if h.firstFrame == 0xffff && h.minorVersion < 5 then 7
    else 6
  }

  /** Because `operator&` keeps only the low byte, ENVMAP (0x4000) is never seen and every texture
      has a single face, cube maps included. */
  lemma FacesAlwaysOne(h: Header)
    requires FieldsInRange(h)
    ensures Faces(h) == 1
  {
    TextureFlags.EnvmapNeverSeen(h.flags as bv32);
  }

  /** The thumbnail: one 2-D image, one mip level. */
  function LowResSizeInfo(h: Header): (info: ImageSizeInfo)
    ensures info.format == h.lowResImageFormat && info.width == h.lowResImageWidth && info.height == h.lowResImageHeight
    ensures info.depth == 1 && info.faces == 1 && info.frames == 1 && info.mipLevels == 1
  {
    ImageSizeInfo(h.lowResImageFormat, h.lowResImageWidth, h.lowResImageHeight, 1, 1, 1, 1)
  }

  /** The main image: the header's extents, frames and mip count, and `getFaces()` faces. */
  function HighResSizeInfo(h: Header): (info: ImageSizeInfo)
    requires FieldsInRange(h)
    ensures info.format == h.highResImageFormat && info.width == h.width && info.height == h.height
    ensures info.depth == h.depth && info.faces == Faces(h) && info.frames == h.frames && info.mipLevels == h.mipmapCount
  {
    ImageSizeInfo(h.highResImageFormat, h.width, h.height, h.depth, Faces(h), h.frames, h.mipmapCount)
  }

  /** The span the resource loop leaves for `tag` after the first `n` entries: each entry with
      that tag replaces the span, so the last one wins; none leaves the span empty. */
  function ResourceSpan(entries: seq<ResourceEntry>, n: nat, tag: seq<bv8>, size: nat): Span
    requires n <= |entries|
  {
    if n == 0 then EmptySpan
    else if entries[n - 1].tag == tag then Span(entries[n - 1].data, size)
    else ResourceSpan(entries, n - 1, tag, size)
  }

  /** The span is the one of the last entry carrying the tag. */
  lemma {:induction false} LastTaggedWins(entries: seq<ResourceEntry>, n: nat, tag: seq<bv8>, size: nat, i: nat)
    requires i < n <= |entries| && entries[i].tag == tag
    requires forall j | i < j < n :: entries[j].tag != tag
    ensures ResourceSpan(entries, n, tag, size) == Span(entries[i].data, size)
  {
    if i < n - 1 {
      LastTaggedWins(entries, n - 1, tag, size, i);
    }
  }

  /** Without an entry carrying the tag the span stays empty. */
  lemma {:induction false} UntaggedIsEmpty(entries: seq<ResourceEntry>, n: nat, tag: seq<bv8>, size: nat)
    requires n <= |entries|
    requires forall j | 0 <= j < n :: entries[j].tag != tag
    ensures ResourceSpan(entries, n, tag, size) == EmptySpan
  {
    if n > 0 {
      UntaggedIsEmpty(entries, n - 1, tag, size);
    }
  }

  /** The image data spans: from the resource dictionary from 7.3 on, else the thumbnail right
      after the header and the main image right after the thumbnail. */
  function ImageSpans(h: Header, lowResSize: nat, highResSize: nat): (spans: (Span, Span))
    requires h.numResources <= |h.resourceInfos|
  {
    if h.minorVersion >= MinResourceInfoMinorVersion then
      (ResourceSpan(h.resourceInfos, h.numResources, LowResTag, lowResSize),
       ResourceSpan(h.resourceInfos, h.numResources, HighResTag, highResSize))
    else
      (Span(h.headerSize, lowResSize), Span(h.headerSize + lowResSize, highResSize))
  }

  /** The fixed-up headers the constructor accepts: a main image format other than NONE, at most
      32 resources, a thumbnail format with a size, and a main image format with a size unless
      the image has no mip levels. */
  predicate Accepted(h: Header)
  {
    h.highResImageFormat != NoneCode && h.numResources <= MaxResources
    && KnownFormat(h.lowResImageFormat)
    && (KnownFormat(h.highResImageFormat) || h.mipmapCount == 0)
  }

  /** `Vtf::Vtf` from the fix-ups on: the checks on the fixed-up header, the image sizes and the
      image spans. Every failure here is an invalid header. */
  function LocateImages(data: seq<bv8>, header: Header): (r: Result<Vtf>)
    requires FieldsInRange(header)
    ensures r.Ok? <==> Accepted(header)
    ensures r.Err? ==> r.error == InvalidHeader
    ensures r.Ok? ==> r.value.data == data && r.value.header == header
    ensures r.Ok? ==>
      && ImageSizeBytes(LowResSizeInfo(header)).Ok? && ImageSizeBytes(HighResSizeInfo(header)).Ok?
      && (r.value.lowResImageData, r.value.highResImageData)
         == ImageSpans(header, ImageSizeBytes(LowResSizeInfo(header)).value, ImageSizeBytes(HighResSizeInfo(header)).value)
  {
    if header.highResImageFormat == NoneCode then Err(InvalidHeader)
    else if header.numResources > MaxResources then Err(InvalidHeader)
    else
      var lowResSize :- ImageSizeBytes(LowResSizeInfo(header));
      var highResSize :- ImageSizeBytes(HighResSizeInfo(header));
      var spans := ImageSpans(header, lowResSize, highResSize);
      Ok(Vtf(data, header, spans.0, spans.1))
  }

  /** `Vtf::Vtf`: the checks in the order the constructor makes them. */
  function ParseVtf(data: seq<bv8>): (r: Result<Vtf>)
    ensures r.Ok? ==> WellFormed(r.value) && r.value.data == data
    ensures r.Ok? ==> var h := r.value.header;
      ImageSizeBytes(LowResSizeInfo(h)).Ok? && ImageSizeBytes(HighResSizeInfo(h)).Ok?
      && (r.value.lowResImageData, r.value.highResImageData)
         == ImageSpans(h, ImageSizeBytes(LowResSizeInfo(h)).value, ImageSizeBytes(HighResSizeInfo(h)).value)
    ensures r.Err? ==> r.error != ExpiredData
    ensures r == Err(OutOfBoundsAccess) <==> |data| < HeaderSize
    ensures |data| >= HeaderSize && DecodeHeader(data).signature != FileId ==> r == Err(InvalidHeader)
    ensures r == Err(UnsupportedVersion) <==>
      |data| >= HeaderSize && DecodeHeader(data).signature == FileId
      && (DecodeHeader(data).majorVersion != SupportedMajorVersion || DecodeHeader(data).minorVersion > MaxSupportedMinorVersion)
    ensures |data| >= HeaderSize && DecodeHeader(data).signature == FileId
      && DecodeHeader(data).majorVersion == SupportedMajorVersion && DecodeHeader(data).minorVersion <= MaxSupportedMinorVersion
      ==> (r.Ok? <==> Accepted(FixUp(DecodeHeader(data))))
  {
    if Bounds.CheckBounds(0, HeaderSize, |data|).Fail? then Err(OutOfBoundsAccess)
    else
      var raw := DecodeHeader(data);
      if raw.signature != FileId then Err(InvalidHeader)
      else if raw.majorVersion != SupportedMajorVersion || raw.minorVersion > MaxSupportedMinorVersion then Err(UnsupportedVersion)
      else LocateImages(data, FixUp(raw))
  }

  /** Each image span found is exactly as long as its image; before 7.3 both are always found,
      thumbnail first, right after the header. */
  lemma SpanLengths(data: seq<bv8>)
    requires ParseVtf(data).Ok?
    ensures var v := ParseVtf(data).value;
      && (v.lowResImageData == EmptySpan || v.lowResImageData.length == ImageSizeBytes(LowResSizeInfo(v.header)).value)
      && (v.highResImageData == EmptySpan || v.highResImageData.length == ImageSizeBytes(HighResSizeInfo(v.header)).value)
      && (v.header.minorVersion < MinResourceInfoMinorVersion ==>
            v.lowResImageData == Span(v.header.headerSize, ImageSizeBytes(LowResSizeInfo(v.header)).value)
            && v.highResImageData.offset == v.header.headerSize + v.lowResImageData.length)
  {
    var v := ParseVtf(data).value;
    var h := v.header;
    var lowResSize, highResSize := ImageSizeBytes(LowResSizeInfo(h)).value, ImageSizeBytes(HighResSizeInfo(h)).value;
    if h.minorVersion >= MinResourceInfoMinorVersion {
      ResourceSpanShape(h.resourceInfos, h.numResources, LowResTag, lowResSize);
      ResourceSpanShape(h.resourceInfos, h.numResources, HighResTag, highResSize);
    }
  }

  /** From 7.3 on, the main image starts at the data offset of the last resource entry tagged
      as the main image; entries with other tags play no part. */
  lemma HighResFromLastEntry(data: seq<bv8>, i: nat)
    requires ParseVtf(data).Ok?
    requires var h := ParseVtf(data).value.header;
      h.minorVersion >= MinResourceInfoMinorVersion && i < h.numResources && h.resourceInfos[i].tag == HighResTag
      && forall j | i < j < h.numResources :: h.resourceInfos[j].tag != HighResTag
    ensures var v := ParseVtf(data).value;
      v.highResImageData == Span(v.header.resourceInfos[i].data, ImageSizeBytes(HighResSizeInfo(v.header)).value)
  {
    var h := ParseVtf(data).value.header;
    LastTaggedWins(h.resourceInfos, h.numResources, HighResTag, ImageSizeBytes(HighResSizeInfo(h)).value, i);
  }

  /** Likewise the thumbnail, from the last entry tagged as the thumbnail. */
  lemma LowResFromLastEntry(data: seq<bv8>, i: nat)
    requires ParseVtf(data).Ok?
    requires var h := ParseVtf(data).value.header;
      h.minorVersion >= MinResourceInfoMinorVersion && i < h.numResources && h.resourceInfos[i].tag == LowResTag
      && forall j | i < j < h.numResources :: h.resourceInfos[j].tag != LowResTag
    ensures var v := ParseVtf(data).value;
      v.lowResImageData == Span(v.header.resourceInfos[i].data, ImageSizeBytes(LowResSizeInfo(v.header)).value)
  {
    var h := ParseVtf(data).value.header;
    LastTaggedWins(h.resourceInfos, h.numResources, LowResTag, ImageSizeBytes(LowResSizeInfo(h)).value, i);
  }

  /** From 7.3 on, an image without a resource entry gets an empty span, and construction still
      succeeds. */
  lemma UntaggedImagesEmpty(data: seq<bv8>)
    requires ParseVtf(data).Ok?
    requires ParseVtf(data).value.header.minorVersion >= MinResourceInfoMinorVersion
    ensures var v := ParseVtf(data).value; var h := v.header;
      && ((forall j | 0 <= j < h.numResources :: h.resourceInfos[j].tag != LowResTag) ==> v.lowResImageData == EmptySpan)
      && ((forall j | 0 <= j < h.numResources :: h.resourceInfos[j].tag != HighResTag) ==> v.highResImageData == EmptySpan)
  {
    var h := ParseVtf(data).value.header;
    if forall j | 0 <= j < h.numResources :: h.resourceInfos[j].tag != LowResTag {
      UntaggedIsEmpty(h.resourceInfos, h.numResources, LowResTag, ImageSizeBytes(LowResSizeInfo(h)).value);
    }
    if forall j | 0 <= j < h.numResources :: h.resourceInfos[j].tag != HighResTag {
      UntaggedIsEmpty(h.resourceInfos, h.numResources, HighResTag, ImageSizeBytes(HighResSizeInfo(h)).value);
    }
  }

  lemma {:induction false} ResourceSpanShape(entries: seq<ResourceEntry>, n: nat, tag: seq<bv8>, size: nat)
    requires n <= |entries|
    ensures ResourceSpan(entries, n, tag, size) == EmptySpan || ResourceSpan(entries, n, tag, size).length == size
  {
    if n > 0 {
      ResourceSpanShape(entries, n - 1, tag, size);
    }
  }

  /** A thumbnail format of NONE has no pixel size, so a header that names it is rejected
      whatever else it holds. */
  lemma LowResNoneRejected(data: seq<bv8>, header: Header)
    requires FieldsInRange(header)
    requires header.lowResImageFormat == NoneCode
    ensures LocateImages(data, header) == Err(InvalidHeader)
  {
    MipsSizeOk(LowResSizeInfo(header), 0, 1);
  }

  /** The resource loop of the constructor. */
  method FindResources(h: Header, lowResSize: nat, highResSize: nat) returns (low: Span, high: Span)
    requires h.numResources <= |h.resourceInfos|
    ensures low == ResourceSpan(h.resourceInfos, h.numResources, LowResTag, lowResSize)
    ensures high == ResourceSpan(h.resourceInfos, h.numResources, HighResTag, highResSize)
  {
    low, high := EmptySpan, EmptySpan;
    var i := 0;
    while i < h.numResources
      invariant i <= h.numResources
      invariant low == ResourceSpan(h.resourceInfos, i, LowResTag, lowResSize)
      invariant high == ResourceSpan(h.resourceInfos, i, HighResTag, highResSize)
    {
      var resourceInfo := h.resourceInfos[i];
      if resourceInfo.tag == LowResTag {
        low := Span(resourceInfo.data, lowResSize);
      } else if resourceInfo.tag == HighResTag {
        high := Span(resourceInfo.data, highResSize);
      }
      i := i + 1;
    }
  }

  /** `Vtf::Vtf` step by step: the checks, and the fix-ups written into the header. */
  method NewVtf(data: seq<bv8>) returns (r: Result<Vtf>)
    ensures r == ParseVtf(data)
  {
    var bounds := Bounds.CheckBounds(0, HeaderSize, |data|);
    if bounds.Fail? {
      return Err(bounds.error);
    }
    var header := DecodeHeader(data);
    if header.signature != FileId {
      return Err(InvalidHeader);
    }
    if header.majorVersion != SupportedMajorVersion || header.minorVersion > MaxSupportedMinorVersion {
      return Err(UnsupportedVersion);
    }
    if header.minorVersion < 2 {
      header := header.(depth := 1);
    }
    if header.minorVersion < MinResourceInfoMinorVersion {
      header := header.(numResources := 0);
    }
    r := FindImages(data, header);
  }

  /** The rest of `Vtf::Vtf`: the two size loops and the resource loop. */
  method FindImages(data: seq<bv8>, header: Header) returns (r: Result<Vtf>)
    requires FieldsInRange(header)
    ensures r == LocateImages(data, header)
  {
    if header.highResImageFormat == NoneCode {
      return Err(InvalidHeader);
    }
    if header.numResources > MaxResources {
      return Err(InvalidHeader);
    }
    var lowResSize := GetImageSizeBytes(LowResSizeInfo(header));
    if lowResSize.Err? {
      return Err(lowResSize.error);
    }
    var highResSize := GetImageSizeBytes(HighResSizeInfo(header));
    if highResSize.Err? {
      return Err(highResSize.error);
    }
    var low, high;
    if header.minorVersion >= MinResourceInfoMinorVersion {
      low, high := FindResources(header, lowResSize.value, highResSize.value);
    } else {
      low := Span(header.headerSize, lowResSize.value);
      high := Span(header.headerSize + lowResSize.value, highResSize.value);
    }
    r := Ok(Vtf(data, header, low, high));
  }

  datatype HighResImageExtent = HighResImageExtent(width: nat, height: nat, depth: nat)

  /** `getHighResImageExtent`: the extents of a mip level, halved per level and at least 1. */
  function GetHighResImageExtent(v: Vtf, mipLevel: nat): (e: HighResImageExtent)
    requires FieldsInRange(v.header)
    ensures e.width >= 1 && e.height >= 1 && e.depth >= 1
    ensures var m := AtMip(HighResSizeInfo(v.header), mipLevel); e == HighResImageExtent(m.width, m.height, m.depth)
  {
    HighResImageExtent(Halved(v.header.width, mipLevel), Halved(v.header.height, mipLevel), Halved(v.header.depth, mipLevel))
  }

  /** The largest mip level has the header's extents, as long as they are not 0. */
  lemma TopMipExtent(v: Vtf)
    requires FieldsInRange(v.header) && v.header.width >= 1 && v.header.height >= 1 && v.header.depth >= 1
    ensures GetHighResImageExtent(v, 0) == HighResImageExtent(v.header.width, v.header.height, v.header.depth)
  {
  }

  /** `getImageSliceOffset`: the mip levels smaller than the target are stored first, then
      whole frames, whole faces and whole slices before the one asked for. The loop starts at
      `mipLevel + 1` computed in `uint8_t`. */
  function SliceOffset(h: Header, mipLevel: nat, frame: nat, face: nat, depth: nat): Result<nat>
    requires FieldsInRange(h)
  {
    var info := HighResSizeInfo(h);
    var target := AtMip(info, mipLevel);
    var smaller :- MipsSize(info, (mipLevel + 1) % 0x100, info.mipLevels);
    var frameSize :- FrameSizeBytes(target);
    var faceSize :- FaceSizeBytes(target);
    var sliceSize :- SliceSizeBytes(target);
    ProductIsNat(frameSize, frame);
    ProductIsNat(faceSize, face);
    ProductIsNat(sliceSize, depth);
    Ok(smaller + frameSize * frame + faceSize * face + sliceSize * depth)
  }

  method GetImageSliceOffset(v: Vtf, mipLevel: nat, frame: nat, face: nat, depth: nat) returns (r: Result<nat>)
    requires FieldsInRange(v.header) && mipLevel < 0x100 && frame < 0x1_0000 && face < 0x100 && depth < 0x1_0000
    ensures r == SliceOffset(v.header, mipLevel, frame, face, depth)
  {
    var info := HighResSizeInfo(v.header);
    var target := AtMip(info, mipLevel);
    var offset: nat := 0;
    var i := (mipLevel + 1) % 0x100;
    var start := i;
    MipsSizeOk(info, start, info.mipLevels);
    while i < info.mipLevels
      invariant start <= i && (i <= info.mipLevels || i == start)
      invariant MipsSize(info, start, i) == Ok(offset)
    {
      var mipSize := MipSizeBytes(AtMip(info, i));
      MipSizeProduct(AtMip(info, i));
      if mipSize.Err? {
        return Err(mipSize.error);
      }
      MipsSplit(info, start, i, i + 1);
      offset := offset + mipSize.value;
      i := i + 1;
    }
    var frameSize := FrameSizeBytes(target);
    if frameSize.Err? {
      return Err(frameSize.error);
    }
    var faceSize := FaceSizeBytes(target);
    var sliceSize := SliceSizeBytes(target);
    ProductIsNat(frameSize.value, frame);
    offset := offset + frameSize.value * frame;
    ProductIsNat(faceSize.value, face);
    offset := offset + faceSize.value * face;
    ProductIsNat(sliceSize.value, depth);
    offset := offset + sliceSize.value * depth;
    r := Ok(offset);
  }

  lemma ProductIsNat(a: nat, b: nat)
    ensures a * b >= 0
  {
  }

  /** `i` whole blocks and a part of one more fit in `n` blocks. */
  lemma NestedOffset(i: nat, n: nat, inner: nat, block: nat)
    requires i < n && inner <= block
    ensures block * i + inner <= block * n
  {
    MulMono(block, i + 1, n);
  }

  lemma MulMono(d: nat, a: nat, b: nat)
    requires a <= b
    ensures d * a <= d * b
  {
  }

  /** The slice asked for lies inside the main image: for a mip level, frame, face and depth of
      the image, its offset plus one slice is at most the size of the whole mip chain. */
  lemma SliceWithinImage(v: Vtf, mipLevel: nat, frame: nat, face: nat, depth: nat)
    requires FieldsInRange(v.header) && KnownFormat(v.header.highResImageFormat)
    requires mipLevel < v.header.mipmapCount && frame < v.header.frames && face < Faces(v.header)
    requires depth < Halved(v.header.depth, mipLevel)
    ensures ImageSizeBytes(HighResSizeInfo(v.header)).Ok? && SliceOffset(v.header, mipLevel, frame, face, depth).Ok?
    ensures SliceOffset(v.header, mipLevel, frame, face, depth).value + SliceSizeBytes(AtMip(HighResSizeInfo(v.header), mipLevel)).value
         <= ImageSizeBytes(HighResSizeInfo(v.header)).value
  {
    var info := HighResSizeInfo(v.header);
    var target := AtMip(info, mipLevel);
    var n := info.mipLevels;
    MipsSplit(info, 0, mipLevel, n);
    var next := mipLevel + 1;
    MipsSplit(info, mipLevel, next, n);
    assert next % 0x100 == next;
    MipSizeProduct(target);
    var mipSize := MipSizeBytes(target).value;
    assert MipsSize(info, mipLevel, next) == Ok(mipSize) by {
      assert MipsSize(info, next, next) == Ok(0);
    }
    WithinMip(target, frame, face, depth);
  }

  /** Inside one mip level: the frames, faces and slices stored before the one asked for, plus
      that slice, fit in the level. */
  lemma WithinMip(target: ImageSizeInfo, frame: nat, face: nat, depth: nat)
    requires KnownFormat(target.format) && frame < target.frames && face < target.faces && depth < target.depth
    ensures MipSizeBytes(target).Ok?
    ensures FrameSizeBytes(target).value * frame + FaceSizeBytes(target).value * face
          + SliceSizeBytes(target).value * depth + SliceSizeBytes(target).value <= MipSizeBytes(target).value
  {
    MipSizeProduct(target);
    var sliceSize := SliceSizeBytes(target).value;
    var faceSize := FaceSizeBytes(target).value;
    var frameSize := FrameSizeBytes(target).value;
    var frameBytes, faceBytes, sliceBytes := frameSize * frame, faceSize * face, sliceSize * depth;
    NestedOffset(depth, target.depth, sliceSize, sliceSize);
    var inFace := sliceBytes + sliceSize;
    NestedOffset(face, target.faces, inFace, faceSize);
    var inFrame := faceBytes + inFace;
    NestedOffset(frame, target.frames, inFrame, frameSize);
  }
}
