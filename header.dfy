/** The VTF file header (src/file-format-objects/header.hpp, FileFormat/Structs.h), read field by
    field, little-endian, at its packed offsets:

      0 signature[4]   4 version[0]   8 version[1]   12 headerSize   16 width   18 height
     20 flags         24 frames      26 firstFrame   28..51 padding, reflectivity, bumpmapScale
     52 highResImageFormat   56 mipmapCount   57 lowResImageFormat   61 lowResImageWidth
     62 lowResImageHeight    63 depth         65..67 padding        68 numResources
     72..79 padding   80 + 8 * i resource entry i (tag[3], flags, data), i < 32

    so that the whole header is 336 bytes and the base part (signature, version, headerSize) 16. */
module VtfHeader {
  import opened Bytes

  const HeaderBaseSize := 16
  const HeaderSize := 336
  const MaxResources := 32
  const ResourcesAt := 80
  const ResourceEntrySize := 8

  /** Byte offsets of the fields the two fix-ups overwrite. */
  const DepthAt := 63
  const NumResourcesAt := 68

  /** The file signature "VTF\0". */
  const FileId: seq<bv8> := [0x56, 0x54, 0x46, 0x00]

  /** Tags of the low- and high-resolution image resources. */
  const LowResTag: seq<bv8> := [0x01, 0x00, 0x00]
  const HighResTag: seq<bv8> := [0x30, 0x00, 0x00]

  datatype ResourceEntry = ResourceEntry(tag: seq<bv8>, flags: bv8, data: nat)

  /** The header fields the parsers use. The floating-point fields (reflectivity, bumpmapScale)
      and the padding are not decoded. Image formats are raw `int32` codes. */
  datatype Header = Header(
    signature: seq<bv8>, majorVersion: nat, minorVersion: nat, headerSize: nat,
    width: nat, height: nat, flags: nat, frames: nat, firstFrame: nat,
    highResImageFormat: int, mipmapCount: nat,
    lowResImageFormat: int, lowResImageWidth: nat, lowResImageHeight: nat,
    depth: nat, numResources: nat, resourceInfos: seq<ResourceEntry>)

  function DecodeResource(b: seq<bv8>, at: nat): ResourceEntry
    requires at + ResourceEntrySize <= |b|
  {
    ResourceEntry(b[at .. at + 3], b[at + 3], U32(b, at + 4))
  }

  /** The 32 resource entries. */
  function DecodeResources(b: seq<bv8>): (entries: seq<ResourceEntry>)
    requires |b| >= HeaderSize
    ensures |entries| == MaxResources
    ensures forall i | 0 <= i < MaxResources :: entries[i] == DecodeResource(b, ResourcesAt + ResourceEntrySize * i)
  {
    seq(MaxResources, i requires 0 <= i < MaxResources => DecodeResource(b, ResourcesAt + ResourceEntrySize * i))
  }

  /** The fields the model uses hold values of their C++ types: `flags` a `uint32_t`, the extents,
      `frames` and `firstFrame` `uint16_t`, the mip count and thumbnail extents `uint8_t`, and
      there are 32 resource entries. */
  predicate FieldsInRange(h: Header)
  {
    && h.flags < 0x1_0000_0000
    && h.width < 0x1_0000 && h.height < 0x1_0000 && h.depth < 0x1_0000
    && h.frames < 0x1_0000 && h.firstFrame < 0x1_0000
    && h.mipmapCount < 0x100 && h.lowResImageWidth < 0x100 && h.lowResImageHeight < 0x100
    && |h.resourceInfos| == MaxResources
  }

  /** The header stored in the first 336 bytes of `b`. */
  function DecodeHeader(b: seq<bv8>): (h: Header)
    requires |b| >= HeaderSize
    ensures |h.signature| == 4 && FieldsInRange(h)
  {
    Header(
      b[0..4], U32(b, 4), U32(b, 8), U32(b, 12),
      U16(b, 16), U16(b, 18), U32(b, 20), U16(b, 24), U16(b, 26),
      I32(b, 52), b[56] as nat,
      I32(b, 57), b[61] as nat, b[62] as nat,
      U16(b, DepthAt), U32(b, NumResourcesAt), DecodeResources(b))
  }

  /** The version fix-ups both parsers apply: before 7.2 the depth field holds garbage and is
      taken as 1; before 7.3 there is no resource dictionary. */
  function FixUp(h: Header): (f: Header)
    ensures f.minorVersion < 2 ==> f.depth == 1
    ensures f.minorVersion < 3 ==> f.numResources == 0
    ensures f.(depth := h.depth, numResources := h.numResources) == h
    ensures FieldsInRange(h) ==> FieldsInRange(f)
  {
    var h1 := if h.minorVersion < 2 then h.(depth := 1) else h;
    if h.minorVersion < 3 then h1.(numResources := 0) else h1
  }

  /** Header bytes that agree from the resource dictionary on decode to the same entries. */
  lemma SameResources(b1: seq<bv8>, b2: seq<bv8>)
    requires |b1| >= HeaderSize && |b2| >= HeaderSize
    requires forall j | ResourcesAt <= j < HeaderSize :: b1[j] == b2[j]
    ensures DecodeResources(b1) == DecodeResources(b2)
  {
    forall i | 0 <= i < MaxResources
      ensures DecodeResource(b1, ResourcesAt + ResourceEntrySize * i) == DecodeResource(b2, ResourcesAt + ResourceEntrySize * i)
    {
      var at := ResourcesAt + ResourceEntrySize * i;
      assert at + ResourceEntrySize <= HeaderSize;
      assert b1[at .. at + 3] == b2[at .. at + 3];
    }
  }

  /** Two headers whose bytes differ only in `depth`, the padding after it and `numResources`
      differ only in those two fields. */
  lemma AgreeOutsideFixUps(b1: seq<bv8>, b2: seq<bv8>)
    requires |b1| >= HeaderSize && |b2| >= HeaderSize
    requires forall j | 0 <= j < HeaderSize && (j < DepthAt || j >= NumResourcesAt + 4) :: b1[j] == b2[j]
    ensures DecodeHeader(b1) == DecodeHeader(b2).(depth := U16(b1, DepthAt), numResources := U32(b1, NumResourcesAt))
  {
    assert b1[0..4] == b2[0..4];
    SameResources(b1, b2);
  }

  /** Storing 1 in the two bytes of `depth` changes that field of the decoded header and no other. */
  lemma StoreDepth(b: seq<bv8>)
    requires |b| >= HeaderSize
    ensures DecodeHeader(b[DepthAt := 1][DepthAt + 1 := 0]) == DecodeHeader(b).(depth := 1)
  {
    var b' := b[DepthAt := 1][DepthAt + 1 := 0];
    AgreeOutsideFixUps(b', b);
    assert U32(b', NumResourcesAt) == U32(b, NumResourcesAt);
  }

  /** Zeroing the four bytes of `numResources` changes that field of the decoded header and no other. */
  lemma StoreNoResources(b: seq<bv8>)
    requires |b| >= HeaderSize
    ensures DecodeHeader(b[NumResourcesAt := 0][NumResourcesAt + 1 := 0][NumResourcesAt + 2 := 0][NumResourcesAt + 3 := 0])
         == DecodeHeader(b).(numResources := 0)
  {
    var b' := b[NumResourcesAt := 0][NumResourcesAt + 1 := 0][NumResourcesAt + 2 := 0][NumResourcesAt + 3 := 0];
    AgreeOutsideFixUps(b', b);
    assert U16(b', DepthAt) == U16(b, DepthAt);
  }
}
