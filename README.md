# VTFParser in Dafny

A model of the core of VTFParser, a reader for Valve Texture Format (VTF) files. The model covers both generations of the library.

**The legacy C-style API** (`FileFormat/Parser.cpp`, `DXTn/`):
- `GetImageFormatInfo` and its 27-row format table.
- The two `CalcImageSize` overloads: one mip level, and a whole mip chain.
- `GetFaceCount`.
- `ParseHeader`: copies up to 336 header bytes into a caller's `VTFHeader`, then applies the version fix-ups.
- `ParseImageData`: finds the high-resolution image in the resource dictionary or after the thumbnail, bounds-checks it and copies it out.
- `DecompressDXT3` and `DecompressDXT5`: write RGBA bytes into a caller's buffer.

**The current C++ library** (`src/`):
- The `ImageFormat` and `TextureFlags` enumerations and the two `TextureFlags` operators.
- `checkBounds`.
- `OffsetDataView`: a weak pointer to the file plus an offset, with `parseStruct`.
- The `Vtf` constructor:
  - header checks and version fix-ups;
  - image sizes through `getPixelSizeBytes`, `getSliceSizeBytes` and `getImageSizeBytes`;
  - image spans from the resource dictionary or after the header.
- `getHighResImageExtent`, `getFaces` and `getImageSliceOffset`.
- The DXT1, DXT3 and DXT5 decoders: they return a vector of RGBA colours and throw on short or expired input.

## How it is modelled

**Values and errors:**
- Thrown exceptions become `Result` values carrying the error class. The classes are `InvalidHeader`, `UnsupportedVersion` and `OutOfBoundsAccess`, plus `ExpiredData` for the `std::runtime_error` of an expired weak pointer.
- The legacy API's `false` returns become `bool` or `Option` results.
- Null pointers are `None` for the file data and `null` for an array.

**The header (`VtfHeader`):**
- `DecodeHeader` reads the header field by field, little-endian, at packed offsets.
- The full header is 336 bytes: 80 bytes of fields, then 32 resource entries of 8 bytes. The base header is 16 bytes.

**The current library:**
- A `Vtf` is never changed after construction, so it is a datatype.
- `ParseVtf` is its specification.
- The methods `NewVtf`, `FindImages` and `FindResources` carry the constructor's resource loop, proved equal to `ParseVtf`.
- `GetImageSizeBytes` and `GetImageSliceOffset` keep their loops and are proved equal to the functions `ImageSizeBytes` and `SliceOffset`.

**The legacy library:**
- The caller's `VTFHeader` is a 336-byte `array<bv8>`. `ParseHeader` updates it in place.
- The DXTn decoders write into an `array<bv8>` in two passes per block, colour then alpha, exactly as the source loops do.
- Each decoder is proved to leave the first `4 * width * height` bytes equal to the specification `LegacyDxt.Decode` and everything after them untouched.

**The current decoders:**
- Each decoder is a method over an output `array` of colours, proved equal to a pure `Decode` function.
- `Decode` is defined texel by texel from the 8- or 16-byte block that covers each pixel.
- `DecodedPixel` states which block and texel each pixel comes from.
- `DecodeReadsOnlyBlocks` states that bytes past the last block are never read.
- src/dxt/dxt1.cpp, dxt3.cpp and dxt5.cpp repeat the same block loops and differ only in the block read and the texel. The model repeats them too: `DecompressDxtN`, `DecodeBlockRow` and `DecodeBlockAt` have the same shape in the three modules, and only `ReadBlock`, `Texel` and the block size differ.

## Behaviour reproduced as written

The following quirks of the source are modelled as the code behaves, and proved as lemmas:

- **`TextureFlags` operators** (src/file-format-objects/enums.hpp:180-185):
  - Both operators cast to `uint8_t` before combining, so flags above bit 7 vanish (`TextureFlags.HighFlagsVanish`).
  - `operator|` computes an AND (`TextureFlags.OrIsAnd`).
  - So `Vtf::getFaces` never sees ENVMAP, and every texture has one face (`VtfFile.FacesAlwaysOne`).
- **Face counts of the two generations.** The legacy `GetFaceCount` tests the flags with the built-in `&`, so it does see ENVMAP. Its 6/7 rule is the inverse of the current one: 7 when `firstFrame != 0xffff` (`LegacyParser.FaceRulesDisagree`).
- **Red and blue in the current decoders.** In the derived colours 2 and 3 of the palette, red and blue are swapped. The `Colour8888(r, g, b, a)` constructor is called with the blue, green, red values. This is visible only when the two channels differ In DXT1 three-colour mode the midpoint is swapped the same way. See `DxtColour.SrcPaletteSwapsRedBlue`, `DxtColour.SrcPaletteSwapVisible`, `Dxt1.PaletteSwapsRedBlue`, `Dxt1.ThreeColourSwapVisible` and `LegacyDxt.Generations`.
- **Duplicate resource entries.** The current constructor lets the last entry with a tag win (`VtfFile.LastTaggedWins`). The legacy `ParseImageData` fails on a second high-resolution entry after one with a non-zero offset (`LegacyParser.ScanFails`).
- **Unchecked spans.** The current constructor's `subspan` calls are not checked against the file size: spans are plain (offset, length) pairs. `headerSize` is used unchecked.
- **NONE thumbnails.** The current constructor rejects a file whose thumbnail format is NONE, because `getPixelSizeBytes` throws `InvalidHeader` (`VtfFile.LowResNoneRejected`). The legacy parser gives such a thumbnail size 0.
- **Files shorter than the header.** The current constructor needs 336 bytes of file even for versions whose header is shorter (`VtfFile.ParseVtf`).
- **Empty DXT images.** A 0x0 DXT image has 0 bytes in the legacy `CalcImageSize`, but one block in the current `getSliceSizeBytes` (`LegacyFormats.CalcEdgeCases`).
- **Unknown formats.** An unknown format has size 0 in the legacy table. The current code throws `InvalidHeader`.

## Model

| member | source | states |
|---|---|---|
| Bounds.CheckBounds | src/helpers/check-bounds.hpp:7-11 | passes exactly when the offset is inside the range and offset + count does not pass its end; otherwise fails with OutOfBoundsAccess |
| Bounds.CheckedReadInside | src/helpers/check-bounds.hpp:7-11 | every byte of a checked read lies inside the range |
| Bounds.EmptyReadAtEndFails | src/helpers/check-bounds.hpp:8 | a zero-length read at the end of the range is rejected, because the offset test is strict |
| DataView.NewView | src/helpers/offset-data-view.cpp:6 | a new view refers to the data at offset 0 |
| DataView.ViewAt | src/helpers/offset-data-view.cpp:8-9 | the copy constructor keeps the data and takes the new offset |
| DataView.WithRelativeOffset | src/helpers/offset-data-view.cpp:11-13 | the new view has the same data and the offset advanced by n |
| DataView.GetLockedData | src/helpers/offset-data-view.cpp:15-21 | succeeds with the bytes exactly when the pointer has not expired; otherwise ExpiredData |
| DataView.ParseStruct | src/helpers/offset-data-view.hpp:16-22 | an expired pointer gives ExpiredData before any bounds test; otherwise succeeds exactly when the bounds check passes at the absolute offset, and the value is those bytes |
| DataView.RelativeOffsetsCompose | src/helpers/offset-data-view.cpp:11-13 | two relative moves equal one move by their sum |
| DataView.ParseAfterMove | src/helpers/offset-data-view.hpp:16-22 | parsing after a move by n equals parsing n bytes further on the original view |
| ImageFormats.CodeRoundTrip | src/file-format-objects/enums.hpp:9-39 | every format's code maps back to that format |
| ImageFormats.FormatRoundTrip | src/file-format-objects/enums.hpp:9-39 | every code in -1..26 names a format whose code it is |
| ImageFormats.NamedCodes | src/file-format-objects/enums.hpp:9-39 | NONE is -1, P8 7, DXT1 13, DXT3 14, DXT5 15, DXT1_ONEBITALPHA 20 and UVLX8888 26 |
| TextureFlags.FlagsAnd | src/file-format-objects/enums.hpp:180-182 | the result is the AND of the operands' low bytes |
| TextureFlags.AndOfLowFlags | src/file-format-objects/enums.hpp:180-182 | with a flag below 0x100 the operator agrees with a true AND |
| TextureFlags.HighFlagsVanish | src/file-format-objects/enums.hpp:180-182 | any flag with no bit in the low byte, in either operand, gives NONE |
| TextureFlags.EnvmapNeverSeen | src/file-format-objects/enums.hpp:121 | masking any flag set with ENVMAP gives NONE |
| TextureFlags.OrIsAnd | src/file-format-objects/enums.hpp:183-185 | the OR operator equals the AND operator; POINTSAMPLE with TRILINEAR gives NONE instead of their union |
| VtfHeader.DecodeHeader | src/file-format-objects/header.hpp:14-130 | the decoded header has a 4-byte signature and every field within its C++ type's range |
| VtfHeader.FixUp | src/vtf.cpp:134-140 | before 7.2 depth is 1, before 7.3 there are no resources, and no other field changes |
| VtfHeader.StoreDepth | FileFormat/Parser.cpp:111 | storing 1 in the depth bytes changes the decoded depth and nothing else |
| VtfHeader.StoreNoResources | FileFormat/Parser.cpp:112 | zeroing the numResources bytes changes the decoded resource count and nothing else |
| Layout.PixelSizeBytes | src/vtf.cpp:40-73 | defined exactly for the named formats that are neither NONE nor DXT, with a size of 1, 2, 3, 4 or 8; otherwise InvalidHeader |
| Layout.SliceSizeBytes | src/vtf.cpp:75-94 | succeeds exactly for DXT formats and formats with a pixel size; failures are InvalidHeader |
| Layout.SliceIsBlocks | src/vtf.cpp:77-90 | a DXT slice is the number of 4x4 blocks covering it times 8 (DXT1) or 16 (DXT3/5) bytes |
| Layout.EmptySliceIsOneBlock | src/vtf.cpp:79-82 | a 0x0 DXT slice is rounded up to one block |
| Layout.MipSizeProduct | src/vtf.cpp:96-106 | a mip level is slice x depth x faces x frames bytes, and fails only for an unknown format |
| Layout.AtMip | src/vtf.cpp:111-114 | mip i keeps format, faces and frames and halves each extent i times, never below 1 |
| Layout.MipsSizeOk | src/vtf.cpp:108-119 | a run of mip levels has a size exactly when the format is known or the run is empty; an empty run is 0 |
| Layout.MipsSplit | src/vtf.cpp:108-119 | the size of mips a..c is the size of a..b plus b..c |
| Layout.ImageSizeBytes | src/vtf.cpp:108-119 | the image size exists exactly when the format is known or there are no mip levels; failures are InvalidHeader |
| Layout.GetImageSizeBytes | src/vtf.cpp:108-119 | the loop's total equals the sum over all mip levels (ImageSizeBytes) |
| VtfFile.Faces | src/vtf.cpp:196-202 | the face count is 1, 6 or 7 |
| VtfFile.FacesAlwaysOne | src/vtf.cpp:196-202 | because operator& drops ENVMAP, every header gives one face |
| VtfFile.LowResSizeInfo | src/vtf.cpp:150-158 | the thumbnail is one 2-D image with one mip level, one face and one frame, at the thumbnail format and extent |
| VtfFile.HighResSizeInfo | src/vtf.cpp:159-167 | the main image takes format, extents, frames and mip count from the header and the faces from getFaces |
| VtfFile.LastTaggedWins | src/vtf.cpp:171-177 | the span for a tag is that of the last entry carrying it, with the computed size |
| VtfFile.UntaggedIsEmpty | src/vtf.cpp:171-177 | without an entry carrying the tag the span stays empty |
| VtfFile.ResourceSpanShape | src/vtf.cpp:171-177 | a resource span is either empty or exactly the image's size long |
| VtfFile.LocateImages | src/vtf.cpp:142-181 | succeeds exactly when the high-res format is not NONE, there are at most 32 resources, the thumbnail format has a size and the main format has one unless there are no mips; fails only with InvalidHeader; on success keeps data and header and places the images at ImageSpans: the resource entries from 7.3 on, after the header otherwise |
| VtfFile.ParseVtf | src/vtf.cpp:122-181 | short data is OutOfBoundsAccess and nothing else is; a bad signature is InvalidHeader; UnsupportedVersion exactly for a good signature with a version other than 7.0-7.5; for a good signature and version, succeeds exactly when the fixed-up header is Accepted; never fails with the expired-data error; success gives a well-formed Vtf over the data whose spans are ImageSpans of its header |
| VtfFile.HighResFromLastEntry | src/vtf.cpp:170-177 | from 7.3 on, the main image starts at the data offset of the last entry tagged as the main image and is as long as its size |
| VtfFile.LowResFromLastEntry | src/vtf.cpp:170-177 | from 7.3 on, the thumbnail starts at the data offset of the last entry tagged as the thumbnail |
| VtfFile.UntaggedImagesEmpty | src/vtf.cpp:169-177 | from 7.3 on, an image without a matching entry has an empty span and construction still succeeds |
| VtfFile.SpanLengths | src/vtf.cpp:150-181 | each image span is empty or as long as its computed size; before 7.3 the thumbnail follows the header and the main image follows the thumbnail |
| VtfFile.LowResNoneRejected | src/vtf.cpp:150-158 | a NONE thumbnail format makes construction fail with InvalidHeader |
| VtfFile.FindResources | src/vtf.cpp:170-177 | the resource loop's spans are ResourceSpan of the low- and high-res tags |
| VtfFile.NewVtf | src/vtf.cpp:122-182 | the constructor's result equals ParseVtf |
| VtfFile.FindImages | src/vtf.cpp:142-181 | the constructor after the version checks equals LocateImages |
| VtfFile.GetHighResImageExtent | src/vtf.cpp:188-194 | each extent is at least 1 and is the header's extent at that mip level |
| VtfFile.TopMipExtent | src/vtf.cpp:188-194 | mip 0 of a non-empty image has the header's extents |
| VtfFile.GetImageSliceOffset | src/vtf.cpp:224-254 | the loop's offset equals SliceOffset: smaller mips first, with mipLevel + 1 in uint8_t, then whole frames, faces and slices |
| VtfFile.SliceWithinImage | src/vtf.cpp:224-254 | for any valid mip, frame, face and depth slice, the slice lies inside the image data |
| VtfFile.WithinMip | src/vtf.cpp:249-251 | frame, face and slice offsets plus one slice stay within one mip level |
| DxtColour.Colour565Layout | src/dxt/structs.hpp:14-18 | a 565 word is red in the top 5 bits, green in the middle 6 and blue in the low 5 |
| DxtColour.Expand565 | src/dxt/structs.hpp:30-31 | red and blue are scaled by 8 (at most 248), green by 4 (at most 252), alpha as given |
| DxtColour.ExpandInjective | src/dxt/structs.hpp:30-31 | different 565 words expand to different colours |
| DxtColour.Third | src/dxt/dxt1.cpp:34-46 | the two-thirds interpolant lies between the endpoints and is the rounded (2 near + far) / 3 |
| DxtColour.Half | src/dxt/dxt1.cpp:53-55 | the midpoint lies between the endpoints and is the floor of their mean |
| DxtColour.FourColourPalette | DXTn/DXT3.cpp:33-55 | four colours, the endpoints first, the derived ones opaque |
| DxtColour.SrcFourColourPalette | src/dxt/dxt3.cpp:28-47 | four colours, the endpoints first, the derived ones opaque |
| DxtColour.ColourBlockPalette | src/dxt/dxt3.cpp:28-47 | the endpoints are the expanded 565 words and all four colours are opaque |
| DxtColour.SrcPaletteSwapsRedBlue | src/dxt/dxt3.cpp:35-47 | the current palette is the legacy one with red and blue swapped in colours 2 and 3 |
| DxtColour.SrcPaletteSwapVisible | src/dxt/dxt3.cpp:35-40 | colour 2 differs between the generations exactly when its red and blue interpolants differ |
| DxtColour.RedBlackInterpolants | src/dxt/dxt3.cpp:35-40 | pure red against black yields red 165, so the swap shows on real data |
| DxtColour.ColourIndex | src/dxt/dxt1.cpp:65 | a texel's colour index is a 2-bit field, below 4 |
| DxtAlpha.AlphaPalette | src/dxt/dxt5.cpp:64-83 | eight alphas with the endpoints first; in six-alpha mode the last two are 0 and 255 |
| DxtAlpha.EightAlphaRamp | src/dxt/dxt5.cpp:65-73 | with a0 > a1 the alphas run down from a0 to a1, each the rounded weighted mean over 7 |
| DxtAlpha.SixAlphaRamp | src/dxt/dxt5.cpp:74-83 | with a0 <= a1 the alphas run up from a0 to a1, each the rounded weighted mean over 5, then 0 and 255 |
| DxtAlpha.IndexWords | src/dxt/dxt5.cpp:34-35 | texels 0-7 take their 3-bit index from the word at byte 2, texels 8-15 from the word at byte 5 |
| BlockStream.StreamError | src/dxt/dxt1.cpp:19-24 | a decode fails exactly when there is a block and the data is expired or shorter than all blocks, with ExpiredData or OutOfBoundsAccess |
| BlockStream.ReadOutcome | src/dxt/dxt1.cpp:21-23 | a failed read inside block n reports the decoder's error; a successful one lies inside the data |
| BlockStream.ReadColourHalf | src/dxt/dxt3.cpp:23-26 | reading the colour half of block n yields its palette and bitmask and moves the view to block n + 1, or reports the decoder's error |
| Dxt1.Palette | src/dxt/dxt1.cpp:26-58 | four-colour mode exactly when word0 > word1, with the same palette as a DXT3/5 colour block; otherwise colour 2 is the midpoint of the endpoints with red and blue swapped and colour 3 is transparent black |
| Dxt1.PaletteSwapsRedBlue | src/dxt/dxt1.cpp:34-55 | the palette is the S3TC one with red and blue swapped in colours 2 and 3 (four colours) or in colour 2 (three colours) |
| Dxt1.ThreeColourSwapVisible | src/dxt/dxt1.cpp:53-55 | black against pure red gives midpoint (0, 0, 124) instead of the S3TC (124, 0, 0) |
| Dxt1.ReadBlock | src/dxt/dxt1.cpp:21-24 | reads block n's palette and bitmask, or fails with the decoder's error |
| Dxt1.DecompressDxt1 | src/dxt/dxt1.cpp:12-79 | the decoder's result equals Decode: the stream error, or every pixel from its block |
| Dxt1.DecodedPixel | src/dxt/dxt1.cpp:61-74 | pixel (x, y) is texel (x mod 4, y mod 4) of the block covering it |
| Dxt1.DecodeReadsOnlyBlocks | src/dxt/dxt1.cpp:19-24 | inputs that agree on the block bytes decode alike |
| Dxt3.Alpha4 | src/dxt/dxt3.cpp:60-66 | a 4-bit alpha is widened by repeating the nibble in both halves of the byte |
| Dxt3.TexelAlpha | src/dxt/dxt3.cpp:52-70 | texel k's alpha is 17 times nibble k of the explicit alpha block |
| Dxt3.ReadBlock | src/dxt/dxt3.cpp:20-26 | reads block n's alpha rows, palette and bitmask and moves the view past it, or fails with the decoder's error |
| Dxt3.DecompressDxt3 | src/dxt/dxt3.cpp:11-78 | the decoder's result equals Decode |
| Dxt3.DecodedPixel | src/dxt/dxt3.cpp:50-72 | pixel (x, y) is texel (x mod 4, y mod 4) of the block covering it |
| Dxt3.DecodeReadsOnlyBlocks | src/dxt/dxt3.cpp:18-26 | inputs that agree on the block bytes decode alike |
| Dxt5.ReadBlock | src/dxt/dxt5.cpp:32-41 | reads block n's alphas, index words, palette and bitmask and moves the view past it, or fails with the decoder's error |
| Dxt5.DecompressDxt5 | src/dxt/dxt5.cpp:22-113 | the decoder, with the three corrections under Findings, equals Decode |
| Dxt5.DecodedPixel | src/dxt/dxt5.cpp:85-108 | pixel (x, y) is texel (x mod 4, y mod 4) of the block covering it |
| Dxt5.DecodeReadsOnlyBlocks | src/dxt/dxt5.cpp:30-41 | inputs that agree on the block bytes decode alike |
| Dxt5.UpperMaskAsWrittenAt | src/dxt/dxt5.cpp:16-19 | the padded UpperAlphaMask read at byte 2 yields the word at block byte 6 |
| Dxt5.UpperMaskMisread | src/dxt/dxt5.cpp:35 | texel 8's alpha index comes from byte 5, but the code takes it from byte 6 |
| Dxt5.UpperMaskCounterexample | src/dxt/dxt5.cpp:35 | a block with alphas 255/0, byte 5 = 1 and byte 6 = 0 decodes texel 8 transparent, but the code makes it opaque |
| Dxt5.ColourIndexAsWritten | src/dxt/dxt5.cpp:90-106 | with the double increment, texel k's shift is defined only for k < 8 |
| Dxt5.DoubleStepMisindexes | src/dxt/dxt5.cpp:90-106 | with bitmask 4, texel 1 should use colour 1, but the code reads colour 0; texel 8 has no defined index |
| Dxt5.StoreAsWritten | src/dxt/dxt5.cpp:93 | the guard stores a texel exactly when its row is below both the width and the height |
| Dxt5.GuardAsWrittenMisplaces | src/dxt/dxt5.cpp:93-97 | a 4x8 image never gets pixel (0, 4), and a 5x5 image has pixel (0, 1) overwritten by a texel outside it |
| LegacyFormats.GetImageFormatInfo | FileFormat/Parser.cpp:36-42 | codes outside 0..26 give the zeroed "Invalid Format" record |
| LegacyFormats.SupportedFormats | FileFormat/Parser.cpp:6-42 | a format is supported exactly when it is in the table and is not P8 |
| LegacyFormats.CompressedFormats | FileFormat/Parser.cpp:6-42 | a format is compressed exactly when it is one of the four DXT formats |
| LegacyFormats.WholeBytesPerPixel | FileFormat/Parser.cpp:6-42 | bytesPerPixel is 0 exactly for codes outside the table and DXT formats |
| LegacyFormats.BitsPerPixel | FileFormat/Parser.cpp:7-33 | bits per pixel is 8 x bytes per pixel, and for DXT formats a 16-texel block's bits fill the block size |
| LegacyFormats.BytesPerPixelAgrees | FileFormat/Parser.cpp:7-33 | for every uncompressed code the legacy table's bytes per pixel equal getPixelSizeBytes |
| LegacyFormats.CalcMatchesSlice | FileFormat/Parser.cpp:44-68 | for non-empty extents and known formats, CalcImageSize equals the current slice size times depth |
| LegacyFormats.CalcEdgeCases | FileFormat/Parser.cpp:44-68 | an empty DXT extent gives 0, where the current code gives one block; an unknown format gives 0, where the current code fails |
| LegacyFormats.HalveStep | FileFormat/Parser.cpp:78-84 | halving and clamping at 1 once more is the next mip's extent |
| LegacyFormats.CalcImageSizeMips | FileFormat/Parser.cpp:70-87 | the loop's total equals LegacyImageSize: 0 for any zero argument, else the sum over the mip chain |
| LegacyFormats.ChainIsLevels | FileFormat/Parser.cpp:75-85 | the chain halving step by step equals the sum of the per-level sizes at Halved extents |
| LegacyFormats.LevelsMatchMips | FileFormat/Parser.cpp:70-87 | the legacy level sums times frames and faces equal the current MipsSize |
| LegacyFormats.LevelMatchesMip | FileFormat/Parser.cpp:44-68 | one legacy level times frames and faces is the current mip size |
| LegacyFormats.LegacyMatchesCurrent | FileFormat/Parser.cpp:70-87 | for non-empty images of known format, the legacy total times frames and faces equals getImageSizeBytes |
| LegacyDxt.Palette | DXTn/DXT3.cpp:33-55 | the endpoints are the expanded 565 words at bytes 8 and 10; colours 2 and 3 are the opaque thirds in red, green, blue order |
| LegacyDxt.DecodedPixel | DXTn/DXT3.cpp:63-79 | the 4 bytes of pixel (x, y) are the RGBA of texel (x mod 4, y mod 4) of the block covering it |
| LegacyDxt.BlockRead | DXTn/DXT3.cpp:24-31 | the block covering any pixel lies within the source |
| LegacyDxt.Generations | src/dxt/dxt3.cpp:35-47 | the current DXT3/DXT5 texels are the legacy ones with red and blue swapped for colour indices 2 and 3 |
| LegacyDxt.DecompressDxt3 | DXTn/DXT3.cpp:8-86 | the first 4 x width x height bytes of dst become the decoded image and the rest is unchanged |
| LegacyDxt.DecompressDxt5 | DXTn/DXT5.cpp:8-130 | the first 4 x width x height bytes of dst become the decoded image and the rest is unchanged |
| LegacyDxt.ColourPass | DXTn/DXT3.cpp:57-70 | after the colour loop, all 16 texels' RGB bytes of the block are written |
| LegacyDxt.Widen | DXTn/DXT3.cpp:77-78 | the stored alpha is the low nibble repeated in both halves |
| LegacyDxt.ExplicitAlphas | DXTn/DXT3.cpp:72-83 | nibble k mod 4 of alpha row k / 4, widened, is texel k's alpha |
| LegacyDxt.ExplicitAlphaPass | DXTn/DXT3.cpp:72-83 | after the alpha loop, all 16 texels' alpha bytes are written |
| LegacyDxt.InterpolatedAlphas | DXTn/DXT5.cpp:103-127 | 3-bit fields of the word at byte 2 index rows 0-1, those of the word at byte 5 rows 2-3 |
| LegacyDxt.InterpolatedAlphaPass | DXTn/DXT5.cpp:103-127 | after both alpha loops, all 16 texels' alpha bytes are written |
| LegacyDxt.IndexRows | DXTn/DXT5.cpp:104-114 | one pair of rows shifted out of a word writes those 8 alpha bytes |
| LegacyDxt.IndexStep | DXTn/DXT5.cpp:110-112 | the low 3 bits of the shifted word select texel k's alpha, and shifting again exposes texel k + 1 |
| LegacyParser.FaceCount | FileFormat/Parser.cpp:92 | the face count is 1, 6 or 7 |
| LegacyParser.GetFaceCount | FileFormat/Parser.cpp:89-93 | 0 exactly for a null header, otherwise FaceCount of the stored header |
| LegacyParser.FaceRulesDisagree | FileFormat/Parser.cpp:92 | with ENVMAP set before 7.5, legacy gives 7 exactly when firstFrame is not 0xffff and 6 when it is, while the current getFaces gives 1 |
| LegacyParser.SingleFaceAgrees | FileFormat/Parser.cpp:92 | without ENVMAP both generations count one face |
| LegacyParser.Copied | FileFormat/Parser.cpp:107-108 | the header is the first headerSize bytes of the file, then zeros up to 336 bytes |
| LegacyParser.FixUpsAsBytes | FileFormat/Parser.cpp:111-112 | the two byte stores decode to the same header as the current FixUp |
| LegacyParser.AcceptedHeader | FileFormat/Parser.cpp:107-112 | an accepted header is the fixed-up copy and its high-res format is not NONE |
| LegacyParser.FullHeaderAgrees | FileFormat/Parser.cpp:95-115 | for a full 336-byte header the legacy checks reject exactly what the current constructor rejects for signature or version, and accept every file it parses with the same header |
| LegacyParser.ParseHeader | FileFormat/Parser.cpp:95-115 | returns true exactly when the header is accepted; whenever the checks before the copy pass, the caller's header holds the copied (and fixed-up) bytes even when false is returned; otherwise it is unchanged |
| LegacyParser.ScanStaysFailed | FileFormat/Parser.cpp:132-137 | once the resource scan has failed it stays failed |
| LegacyParser.ScanEndsAtLastEntry | FileFormat/Parser.cpp:132-137 | a successful scan yields the offset of the last high-res entry, as the current constructor does |
| LegacyParser.SpanFromEntry | FileFormat/Parser.cpp:132-137 | a non-zero high-res offset comes from some high-res entry |
| LegacyParser.ScanFails | FileFormat/Parser.cpp:132-137 | the scan fails exactly when a high-res entry with a non-zero offset is followed by another high-res entry |
| LegacyParser.FirstFollowerFails | FileFormat/Parser.cpp:134-135 | a successful scan that met a high-res entry with non-zero offset ends with a non-zero offset |
| LegacyParser.ImageData | FileFormat/Parser.cpp:147-153 | image data exists exactly when the offset is found and offset + size fits the file; it is the size bytes at that offset |
| LegacyParser.WrappedCheckAdmitsOverread | FileFormat/Parser.cpp:147 | with uint32 wrap-around, offset 0xffffffff with 1 byte passes the check on an empty file |
| LegacyParser.ChecksAgreeWithoutWrap | FileFormat/Parser.cpp:147 | when offset + size does not wrap, the written and the corrected checks agree |
| LegacyParser.ParseImageData | FileFormat/Parser.cpp:117-154 | true exactly when no pointer is null and ImageData exists; then it yields those bytes and their size |
| LegacyParser.FindImageData | FileFormat/Parser.cpp:128-145 | the resource loop's offset equals ImageDataOffset |
| LegacyParser.HighResSizeAgrees | FileFormat/Parser.cpp:122-126 | without ENVMAP, for a non-empty image of known format, the legacy image size equals the current high-res size |
| LegacyParser.ThumbnailOffsetAgrees | FileFormat/Parser.cpp:138-145 | without resources, the image starts after the header and a non-empty thumbnail, as in the current constructor before 7.3 |

## Left out

- Integer widths:
  - `LegacyFormats.CalcImageSize`, `LegacyFormats.CalcImageSizeMips`, `LegacyParser.ImageDataSize`: `uint32_t` wrap-around of the products and sums is not modelled; sizes are natural numbers.
  - The same holds for the `size_t` sums of the current code (`Layout.GetImageSizeBytes`, `VtfFile.GetImageSliceOffset`).
  - Only the bounds check at FileFormat/Parser.cpp:147 is modelled with its wrap-around (see Findings).
- `Layout.Halved`, `VtfFile.GetHighResImageExtent`: a shift by 32 or more bits is undefined in C++; the model divides by 2^i instead.
- `LegacyDxt.DecompressDxt3`, `LegacyDxt.DecompressDxt5`: the source has no length checks. The model requires the source to hold every block and the destination to hold 4 x width x height bytes, since reading or writing past a buffer is undefined behaviour.
- `LegacyParser.ParseImageData`:
  - `malloc` and `memcpy` are modelled as returning the copied subsequence; allocation failure is not modelled.
  - The `pImageDataSize` pointer is modelled as a flag saying whether it is null.
  - `ppImageData` is not checked by the source and is not modelled.
- Header layout:
  - The packed layout with the resource table at byte 80 (336-byte header) is the one the GCC/Clang ABI gives.
  - Under MSVC the aligned base would put it at 88 (352 bytes); that layout is not modelled.
  - The floating-point fields (reflectivity, bumpmap scale) are not decoded.
- The legacy `IMAGE_FORMAT` and `TEXTURE_FLAGS` enumerations are not part of this model. They are taken to have the same values as `ImageFormat` and `TextureFlags` in src/file-format-objects/enums.hpp.
- The format name strings of the legacy table are stored but no property is proved about them.
- `std::shared_ptr` / `std::weak_ptr` lifetime is reduced to an `expired` flag on the buffer. Concurrent expiry during a decode is not modelled.
- Not modelled:
  - file I/O;
  - the trivial getters of `Vtf` (`getFrames`, `getFlags`, ...), which return header fields;
  - the pixel sampler and wrapper in VTFParser.h and VTFParser.cpp;
  - the non-DXT pixel format conversions, which are outside the core.

## Findings

| source | as written | input that shows it | evidently intended | confidence | as-written member | corrected member |
|---|---|---|---|---|---|---|
| src/dxt/dxt5.cpp:16-35 | `UpperAlphaMask` is 3 padding bytes then a `uint32_t`, which alignment puts at struct offset 4; read at block byte 2, its mask is the word at byte 6 | a DXT5 block with alphas 255, 0, byte 5 = 1, byte 6 = 0: texel 8 should be alpha 0 but gets 255 | rows 2-3 take their indices from the 24 bits at byte 5 | not executed | Dxt5.UpperMaskCounterexample | Dxt5.DecompressDxt5 |
| src/dxt/dxt5.cpp:90-106 | `pixelIndex` is incremented twice per texel, so texel k reads colour field 2k and shifts by 32 bits or more from texel 8 on | bitmask 4: texel 1 should use colour 1 but reads colour 0 | one increment per texel | not executed | Dxt5.DoubleStepMisindexes | Dxt5.DecompressDxt5 |
| src/dxt/dxt5.cpp:93 | the store guard tests `yDest < width` | a 4x8 image: pixel (0, 4) is never written; a 5x5 image: texel 1 of block (4, 0) overwrites pixel (0, 1) | `xDest < width && yDest < height` | not executed | Dxt5.GuardAsWrittenMisplaces | Dxt5.DecompressDxt5 |
| FileFormat/Parser.cpp:147 | `imageDataOffset + imageDataSize` is summed in `uint32_t` and can wrap | a resource offset 0xffffffff with 1 byte of image data passes the check on an empty file, and `memcpy` then reads outside it | the check without wrap-around | not executed | LegacyParser.WrappedCheckAdmitsOverread | LegacyParser.ParseImageData |
