/** The legacy parser entry points (FileFormat/Parser.cpp:89-154): `GetFaceCount`, `ParseHeader`,
    which copies the header bytes of a file into a caller's `VTFHeader`, and `ParseImageData`,
    which locates the high-resolution image data and copies it out. The caller's header is the
    336 bytes of a `VTFHeader`, an array; its fields are read with `DecodeHeader`. A null pointer
    is `None` for the file data and `null` for the header. */
module LegacyParser {
  import opened Errors
  import opened Bytes
  import opened VtfHeader
  import opened ImageFormats
  import opened Layout
  import opened LegacyFormats
  import TextureFlags
  import VtfFile

  /** The major version and the newest minor version the legacy parser accepts. */
  const LegacyMajorVersion := 7
  const LegacyMaxMinorVersion := 5

  /** Faces of a header: 1 without ENVMAP; with it 7 when `firstFrame` is not 0xffff and the minor
      version is below 5, else 6. */
  function FaceCount(h: Header): (n: nat)
    requires FieldsInRange(h)
    ensures n == 1 || n == 6 || n == 7
  {
    if (h.flags as bv32) & TextureFlags.ENVMAP != 0 then
      if h.firstFrame != 0xffff && h.minorVersion < 5 then 7 else 6
    else 1
  }

  /** `GetFaceCount`: 0 for a null header. */
  function GetFaceCount(header: array?<bv8>): (n: nat)
    requires header != null ==> header.Length == HeaderSize
    reads header
    ensures n == 0 <==> header == null
    ensures header != null ==> n == FaceCount(DecodeHeader(header[..]))
  {
    if header == null then 0 else FaceCount(DecodeHeader(header[..]))
  }

  /** The two generations read the ENVMAP flag differently and, where both see it, pick 6 and 7
      the opposite way round: the current code never sees the flag and counts one face, while the
      legacy code, for a file before 7.5, counts 7 faces exactly when `firstFrame` is not 0xffff,
      the case in which the current rule would count 6. */
  lemma FaceRulesDisagree(h: Header)
    requires FieldsInRange(h) && (h.flags as bv32) & TextureFlags.ENVMAP != 0 && h.minorVersion < 5
    ensures VtfFile.Faces(h) == 1
    ensures FaceCount(h) == 7 <==> h.firstFrame != 0xffff
    ensures FaceCount(h) == 6 <==> h.firstFrame == 0xffff
  {
    TextureFlags.EnvmapNeverSeen(h.flags as bv32);
  }

  /** Without ENVMAP both generations count one face. */
  lemma SingleFaceAgrees(h: Header)
    requires FieldsInRange(h) && (h.flags as bv32) & TextureFlags.ENVMAP == 0
    ensures FaceCount(h) == 1 && VtfFile.Faces(h) == 1
  {
    TextureFlags.EnvmapNeverSeen(h.flags as bv32);
  }

  /** The header after `memset` to zero and `memcpy` of the first `headerSize` bytes of the file. */
  function Copied(data: seq<bv8>, headerSize: nat): (b: seq<bv8>)
    requires headerSize <= |data| && headerSize <= HeaderSize
    ensures |b| == HeaderSize
    ensures forall j | 0 <= j < headerSize :: b[j] == data[j]
    ensures forall j | headerSize <= j < HeaderSize :: b[j] == 0
  {
    data[..headerSize] + Zeros(HeaderSize - headerSize)
  }

  /** The two fix-ups as stores into the header bytes: `depth = 1` before 7.2 and
      `numResources = 0` before 7.3, decided by the minor version read from the file. */
  function WithFixUps(b: seq<bv8>, minor: nat): (f: seq<bv8>)
    requires |b| == HeaderSize
    ensures |f| == HeaderSize
  {
    var b1 := if minor < 2 then b[DepthAt := 1][DepthAt + 1 := 0] else b;
    if minor < 3 then b1[NumResourcesAt := 0][NumResourcesAt + 1 := 0][NumResourcesAt + 2 := 0][NumResourcesAt + 3 := 0]
    else b1
  }

  /** The stores are the header fix-ups of both generations. */
  lemma FixUpsAsBytes(b: seq<bv8>, minor: nat)
    requires |b| == HeaderSize && minor == U32(b, 8)
    ensures DecodeHeader(WithFixUps(b, minor)) == FixUp(DecodeHeader(b))
  {
    var b1 := if minor < 2 then b[DepthAt := 1][DepthAt + 1 := 0] else b;
    if minor < 2 {
      StoreDepth(b);
    }
    assert DecodeHeader(b1) == if minor < 2 then DecodeHeader(b).(depth := 1) else DecodeHeader(b);
    if minor < 3 {
      StoreNoResources(b1);
    }
  }

  /** What `ParseHeader` does to the caller's header: nothing, when it rejects the file before
      copying; the copied bytes, when the high-resolution format then reads NONE (it returns false
      with the header overwritten); or the copied bytes with the fix-ups applied. */
  datatype HeaderLoad = Untouched | Overwritten(bytes: seq<bv8>) | Accepted(bytes: seq<bv8>)

  function LoadHeader(data: seq<bv8>): (r: HeaderLoad)
    ensures !r.Untouched? ==> |r.bytes| == HeaderSize
  {
    if |data| < HeaderBaseSize then Untouched
    else if data[0..4] != FileId then Untouched
    else if U32(data, 4) != LegacyMajorVersion || U32(data, 8) > LegacyMaxMinorVersion then Untouched
    else if U32(data, 12) > |data| || U32(data, 12) > HeaderSize then Untouched
    else
      var copied := Copied(data, U32(data, 12));
      if I32(copied, 52) == NoneCode then Overwritten(copied)
      else Accepted(WithFixUps(copied, U32(data, 8)))
  }

  /** When the whole base header is copied, the accepted header is the copied one with the
      version fix-ups, and it never has the high-resolution format NONE. */
  lemma AcceptedHeader(data: seq<bv8>)
    requires LoadHeader(data).Accepted? && U32(data, 12) >= HeaderBaseSize
    ensures DecodeHeader(LoadHeader(data).bytes) == FixUp(DecodeHeader(Copied(data, U32(data, 12))))
    ensures DecodeHeader(LoadHeader(data).bytes).highResImageFormat != NoneCode
  {
    var copied := Copied(data, U32(data, 12));
    assert copied[8..12] == data[8..12];
    assert U32(copied, 8) == U32(data, 8);
    FixUpsAsBytes(copied, U32(data, 8));
  }

  /** The header bytes with a known size do not depend on what follows them. */
  lemma DecodePrefix(data: seq<bv8>)
    requires |data| >= HeaderSize
    ensures DecodeHeader(data[..HeaderSize]) == DecodeHeader(data)
  {
    AgreeOutsideFixUps(data[..HeaderSize], data);
    assert U16(data[..HeaderSize], DepthAt) == U16(data, DepthAt);
    assert U32(data[..HeaderSize], NumResourcesAt) == U32(data, NumResourcesAt);
  }

  /** For a file whose header declares the full 336 bytes, both generations reject the same
      signatures and versions, and whenever the current parser accepts the file the legacy one
      loads the same header. */
  lemma FullHeaderAgrees(data: seq<bv8>)
    requires |data| >= HeaderSize && U32(data, 12) == HeaderSize
    ensures LoadHeader(data).Untouched? <==>
      DecodeHeader(data).signature != FileId || VtfFile.ParseVtf(data) == Err(UnsupportedVersion)
    ensures VtfFile.ParseVtf(data).Ok? ==>
      LoadHeader(data).Accepted? && DecodeHeader(LoadHeader(data).bytes) == VtfFile.ParseVtf(data).value.header
  {
    var copied := Copied(data, HeaderSize);
    assert copied == data[..HeaderSize];
    DecodePrefix(data);
    assert data[0..4] == DecodeHeader(data).signature;
    if !LoadHeader(data).Untouched? {
      assert I32(copied, 52) == DecodeHeader(data).highResImageFormat;
      if LoadHeader(data).Accepted? {
        AcceptedHeader(data);
      }
    }
  }

  /** `ParseHeader`: the checks on the base header, then `memset` and `memcpy` into `header`, the
      NONE check and the fix-ups. `data` is the file and its size. */
  method ParseHeader(data: Option<seq<bv8>>, header: array?<bv8>) returns (ok: bool)
    requires header != null ==> header.Length == HeaderSize
    modifies header
    ensures ok <==> data.Some? && header != null && LoadHeader(data.value).Accepted?
    ensures data.Some? && header != null && !LoadHeader(data.value).Untouched? ==> header[..] == LoadHeader(data.value).bytes
    ensures header != null && (data.None? || LoadHeader(data.value).Untouched?) ==> unchanged(header)
  {
    if data.None? || header == null {
      return false;
    }
    var pData := data.value;
    if |pData| < HeaderBaseSize {
      return false;
    }
    if pData[0..4] != FileId {
      return false;
    }
    var minor := U32(pData, 8);
    if U32(pData, 4) != LegacyMajorVersion || minor > LegacyMaxMinorVersion {
      return false;
    }
    var headerSize := U32(pData, 12);
    if headerSize > |pData| || headerSize > HeaderSize {
      return false;
    }
    forall j | 0 <= j < header.Length {
      header[j] := 0;
    }
    forall j | 0 <= j < headerSize {
      header[j] := pData[j];
    }
    assert header[..] == Copied(pData, headerSize);
    if I32(header[..], 52) == NoneCode {
      return false;
    }
    ghost var copied := header[..];
    if minor < 2 {
      header[DepthAt] := 1;
      header[DepthAt + 1] := 0;
    }
    assert header[..] == if minor < 2 then copied[DepthAt := 1][DepthAt + 1 := 0] else copied;
    if minor < 3 {
      header[NumResourcesAt] := 0;
      header[NumResourcesAt + 1] := 0;
      header[NumResourcesAt + 2] := 0;
      header[NumResourcesAt + 3] := 0;
    }
    assert header[..] == WithFixUps(copied, minor);
    return true;
  }

  predicate IsHighRes(e: ResourceEntry)
  {
    e.tag == HighResTag
  }

  /** The resource loop of `ParseImageData` over the first `n` entries: the offset starts at 0
      and each high-resolution entry sets it, but one found while the offset is already non-zero
      fails the parse. */
  function ScanHighRes(entries: seq<ResourceEntry>, n: nat): Option<nat>
    requires n <= |entries|
  {
    if n == 0 then Some(0)
    else
      match ScanHighRes(entries, n - 1)
      case None => None
      case Some(offset) =>
        if IsHighRes(entries[n - 1]) then
          if offset != 0 then None else Some(entries[n - 1].data)
        else Some(offset)
  }

  /** Once the scan has failed it stays failed. */
  lemma {:induction false} ScanStaysFailed(entries: seq<ResourceEntry>, i: nat, n: nat)
    requires i <= n <= |entries| && ScanHighRes(entries, i).None?
    ensures ScanHighRes(entries, n).None?
    decreases n - i
  {
    if i < n {
      ScanStaysFailed(entries, i + 1, n);
    }
  }

  /** A scan that succeeds ends where the current parser's resource loop does: at the data of
      the last high-resolution entry, or 0 without one. */
  lemma {:induction false} ScanEndsAtLastEntry(entries: seq<ResourceEntry>, n: nat, size: nat)
    requires n <= |entries| && ScanHighRes(entries, n).Some?
    ensures ScanHighRes(entries, n).value == VtfFile.ResourceSpan(entries, n, HighResTag, size).offset
  {
    if n > 0 && !IsHighRes(entries[n - 1]) {
      ScanEndsAtLastEntry(entries, n - 1, size);
    }
  }

  /** A non-zero offset of the last tagged entry comes from some tagged entry. */
  lemma {:induction false} SpanFromEntry(entries: seq<ResourceEntry>, n: nat, size: nat)
    requires n <= |entries| && VtfFile.ResourceSpan(entries, n, HighResTag, size).offset != 0
    ensures exists i | 0 <= i < n :: IsHighRes(entries[i]) && entries[i].data == VtfFile.ResourceSpan(entries, n, HighResTag, size).offset
  {
    if !IsHighRes(entries[n - 1]) {
      SpanFromEntry(entries, n - 1, size);
    }
  }

  /** The scan fails exactly when a high-resolution entry with a non-zero offset is followed by
      another high-resolution entry: where the current code lets the later entry win, the
      legacy one gives up. */
  lemma {:induction false} ScanFails(entries: seq<ResourceEntry>, n: nat)
    requires n <= |entries|
    ensures ScanHighRes(entries, n).None? <==>
      exists i, j | 0 <= i < j < n :: IsHighRes(entries[i]) && IsHighRes(entries[j]) && entries[i].data != 0
  {
    if n > 0 {
      ScanFails(entries, n - 1);
      var prev := ScanHighRes(entries, n - 1);
      if ScanHighRes(entries, n).None? && prev.Some? {
        ScanEndsAtLastEntry(entries, n - 1, 0);
        SpanFromEntry(entries, n - 1, 0);
        var i :| 0 <= i < n - 1 && IsHighRes(entries[i]) && entries[i].data == prev.value;
        assert IsHighRes(entries[n - 1]);
      }
      if ScanHighRes(entries, n).Some? && IsHighRes(entries[n - 1]) {
        forall i | 0 <= i < n - 1 && IsHighRes(entries[i])
          ensures entries[i].data == 0
        {
          if entries[i].data != 0 {
            FirstFollowerFails(entries, n - 1, i);
          }
        }
      }
    }
  }

  /** A tagged entry with a non-zero offset and no pair before `n` leaves that offset or a
      failure behind it. */
  lemma FirstFollowerFails(entries: seq<ResourceEntry>, n: nat, i: nat)
    requires i < n <= |entries| && IsHighRes(entries[i]) && entries[i].data != 0
    requires ScanHighRes(entries, n).Some?
    requires !exists i, j | 0 <= i < j < n :: IsHighRes(entries[i]) && IsHighRes(entries[j]) && entries[i].data != 0
    ensures ScanHighRes(entries, n).value != 0
  {
    forall j | i < j < n
      ensures !IsHighRes(entries[j])
    {
    }
    VtfFile.LastTaggedWins(entries, n, HighResTag, 0, i);
    ScanEndsAtLastEntry(entries, n, 0);
  }

  /** Bytes of the high-resolution data: the mip chain of one frame and face, times frames and
      faces. */
  function ImageDataSize(h: Header): nat
    requires FieldsInRange(h)
  {
    var chain := LegacyImageSize(h.width, h.height, h.depth, h.mipmapCount, h.highResImageFormat);
    VtfFile.ProductIsNat(chain, h.frames);
    VtfFile.ProductIsNat(chain * h.frames, FaceCount(h));
    chain * h.frames * FaceCount(h)
  }

  /** Where the high-resolution data starts: from the resource dictionary when the header lists
      resources (more than 32 fails), else right after the header and the thumbnail. */
  function ImageDataOffset(h: Header): Option<nat>
    requires FieldsInRange(h)
  {
    if h.numResources > 0 then
      if h.numResources > MaxResources then None
      else ScanHighRes(h.resourceInfos, h.numResources)
    else
      var lowResImageSize := if h.lowResImageFormat != NoneCode
        then CalcImageSize(h.lowResImageWidth, h.lowResImageHeight, 1, h.lowResImageFormat) else 0;
      Some(h.headerSize + lowResImageSize)
  }

  /** The high-resolution data `ParseImageData` copies out of the file, or `None` when it fails. */
  function ImageData(data: seq<bv8>, h: Header): (r: Option<seq<bv8>>)
    requires FieldsInRange(h)
    ensures r.Some? <==> ImageDataOffset(h).Some? && Fits(ImageDataOffset(h).value, ImageDataSize(h), |data|)
    ensures r.Some? ==> |r.value| == ImageDataSize(h)
    ensures r.Some? ==> forall k | 0 <= k < |r.value| :: r.value[k] == data[ImageDataOffset(h).value + k]
  {
    match ImageDataOffset(h)
    case None => None
    case Some(offset) =>
      var size := ImageDataSize(h);
      if !Fits(offset, size, |data|) then None
      else Some(data[offset .. offset + size])
  }

  /** The bounds check on the copy, over unbounded integers. */
  predicate Fits(offset: nat, size: nat, dataSize: nat)
  {
    offset + size <= dataSize
  }

  /** The bounds check as written: `imageDataOffset + imageDataSize` is a `uint32_t` sum, so it
      wraps modulo 2^32 before it is compared with the file size. */
  predicate FitsAsWritten(offset: nat, size: nat, dataSize: nat)
    requires offset < 0x1_0000_0000 && size < 0x1_0000_0000
  {
    (offset + size) % 0x1_0000_0000 <= dataSize
  }

  /** The wrapped check admits a copy that starts past the end of the file: a resource offset of
      0xffffffff and one byte of image data pass it even for an empty file. */
  lemma WrappedCheckAdmitsOverread()
    ensures FitsAsWritten(0xffff_ffff, 1, 0) && !Fits(0xffff_ffff, 1, 0)
  {
  }

  /** Below 2^32 the two checks agree; they part only once the sum wraps. */
  lemma ChecksAgreeWithoutWrap(offset: nat, size: nat, dataSize: nat)
    requires offset + size < 0x1_0000_0000
    ensures FitsAsWritten(offset, size, dataSize) <==> Fits(offset, size, dataSize)
  {
  }

  /** `ParseImageData`: fails for a null file or header or a null size out-pointer (`sizeOut`
      false), else computes the size and offset of the high-resolution data and copies it out. */
  method ParseImageData(data: Option<seq<bv8>>, header: array?<bv8>, sizeOut: bool)
    returns (ok: bool, imageData: seq<bv8>, imageDataSize: nat)
    requires header != null ==> header.Length == HeaderSize
    ensures ok <==> data.Some? && header != null && sizeOut && ImageData(data.value, DecodeHeader(header[..])).Some?
    ensures ok ==> imageData == ImageData(data.value, DecodeHeader(header[..])).value
    ensures ok ==> imageDataSize == ImageDataSize(DecodeHeader(header[..]))
  {
    imageData, imageDataSize := [], 0;
    if data.None? || header == null || !sizeOut {
      return false, imageData, imageDataSize;
    }
    var pData := data.value;
    var h := DecodeHeader(header[..]);
    var chainSize := CalcImageSizeMips(h.width, h.height, h.depth, h.mipmapCount, h.highResImageFormat);
    var faces := GetFaceCount(header);
    VtfFile.ProductIsNat(chainSize, h.frames);
    VtfFile.ProductIsNat(chainSize * h.frames, faces);
    var size: nat := chainSize * h.frames * faces;
    assert size == ImageDataSize(h);
    var found := FindImageData(h);
    if found.None? {
      return false, imageData, imageDataSize;
    }
    var offset := found.value;
    if offset + size > |pData| {
      return false, imageData, imageDataSize;
    }
    imageData := pData[offset .. offset + size];
    imageDataSize := size;
    return true, imageData, imageDataSize;
  }

  /** The offset part of `ParseImageData`: the resource loop, or the header and thumbnail sizes. */
  method FindImageData(h: Header) returns (r: Option<nat>)
    requires FieldsInRange(h)
    ensures r == ImageDataOffset(h)
  {
    var offset: nat := 0;
    if h.numResources > 0 {
      if h.numResources > MaxResources {
        return None;
      }
      var i := 0;
      while i < h.numResources
        invariant i <= h.numResources
        invariant ScanHighRes(h.resourceInfos, i) == Some(offset)
      {
        if h.resourceInfos[i].tag == HighResTag {
          if offset != 0 {
            ScanStaysFailed(h.resourceInfos, i + 1, h.numResources);
            return None;
          }
          offset := h.resourceInfos[i].data;
        }
        i := i + 1;
      }
    } else {
      var lowResImageSize: nat := 0;
      if h.lowResImageFormat != NoneCode {
        lowResImageSize := CalcImageSize(h.lowResImageWidth, h.lowResImageHeight, 1, h.lowResImageFormat);
      }
      offset := h.headerSize + lowResImageSize;
    }
    return Some(offset);
  }

  /** Without ENVMAP, for a non-empty image of a format the current code knows, the legacy image
      data size is the current `getImageSizeBytes` of the high-resolution image. */
  lemma HighResSizeAgrees(h: Header)
    requires FieldsInRange(h) && (h.flags as bv32) & TextureFlags.ENVMAP == 0
    requires h.width >= 1 && h.height >= 1 && h.depth >= 1 && KnownFormat(h.highResImageFormat)
    ensures ImageSizeBytes(VtfFile.HighResSizeInfo(h)).Ok?
    ensures ImageDataSize(h) == ImageSizeBytes(VtfFile.HighResSizeInfo(h)).value
  {
    SingleFaceAgrees(h);
    LegacyMatchesCurrent(VtfFile.HighResSizeInfo(h));
  }

  /** Without resources both generations put the high-resolution data right after the header
      and a thumbnail of the same size, for a non-empty thumbnail of a format the current code
      knows. */
  lemma ThumbnailOffsetAgrees(h: Header)
    requires FieldsInRange(h) && h.numResources == 0
    requires h.lowResImageWidth >= 1 && h.lowResImageHeight >= 1 && KnownFormat(h.lowResImageFormat)
    ensures ImageSizeBytes(VtfFile.LowResSizeInfo(h)).Ok?
    ensures ImageDataOffset(h) == Some(h.headerSize + ImageSizeBytes(VtfFile.LowResSizeInfo(h)).value)
  {
    var info := VtfFile.LowResSizeInfo(h);
    LegacyMatchesCurrent(info);
    assert LegacyImageSize(info.width, info.height, 1, 1, info.format) == CalcImageSize(info.width, info.height, 1, info.format);
    assert h.lowResImageFormat != NoneCode;
  }
}
