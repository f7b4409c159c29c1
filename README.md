# TIM2 texture parser and decoder, modelled in Dafny

TIM2 is the PlayStation 2 texture container. This project models and proves
properties of three parts of a C++ TIM2 tool:

- **The record layouts and bit helpers** (`Utils`, `Tim2Types`).
  - The 16-byte file header and the 48-byte picture header are decoded from
    their bytes, little-endian, and encoded back; the two directions are
    proved inverse.
  - It also covers the CLUT-type flags, the GS TEX0/TEX1 field views, RGB555+A
    widening, alignment rounding, byte swapping and the mip-dimension
    arithmetic.
- **The sequential parser** (`Tim2Parser`, `Tim2ParserProperties`).
  - `TIM2Parser` is a class with the fields of the C++ parser: the header
    bytes, the pictures, the valid flag and the last error.
  - Its `LoadFile` method walks a modelled `std::ifstream`, which is a byte
    sequence with a cursor and a good flag.
  - Each parse step is a method proved equal to a pure function of the bytes
    and the cursor. `LoadFile` as a whole is proved equal to the function
    `Load`.
  - Lemmas over those functions state:
    - where each part of a picture block lies: headers, user space, aligned
      image data, aligned CLUT data;
    - which bytes land in which field;
    - when a load is valid;
    - which error a failed load records.
- **The pixel and palette decoder** (`Tim2Picture`).
  - `Picture` is a value holding the header, the optional mipmap and extended
    headers, and the raw bytes.
  - `DecodeImage`, `GetClutColors` and `GetImageOffset` are the C++ loops,
    proved against the functions `LevelPixels`, `ClutColors` and
    `ImageOffset`.
  - Lemmas give the decoding of each pixel format (RGB16, RGB24, RGB32,
    IDTEX4, IDTEX8, and the formats that decode to `Color32{}`), the CSM1
    compound palette remap, and the row-major order of the decoded pixels.

The C++ reads its byte buffers without bounds checks. The model states, as
preconditions, which bytes each read needs. Lemmas give sufficient
conditions: `ClutSizeSuffices` and `TextureSizeSuffices`.

File system access is a parameter: `LoadFile` takes a map from file names to
file contents, and a name missing from the map is a file that does not open.
The "unknown format version" warning that the C++ writes to `std::cerr` is an
out-parameter of `ParseFileHeader` and `LoadFile`.

## Model

| member | source | states |
|---|---|---|
| Utils.LeBytesRoundTrip | src/tim2_types.h:63-66 | the little-endian byte views of 16-, 32- and 64-bit values read back as the same values (packed struct reads) |
| Utils.Read16Bytes | src/tim2_parser.cpp:91 | a 16-bit little-endian read sees exactly the two bytes at its offset |
| Utils.Read32Bytes | src/tim2_types.h:65-66 | a 32-bit read sees exactly its four bytes |
| Utils.Read64Bytes | src/tim2_parser.cpp:389-390 | a 64-bit read sees exactly its eight bytes |
| Utils.U64AtSlice | src/tim2_parser.cpp:389-390 | a register read from an 8-byte read buffer is the register stored at that place in the file |
| Utils.Num32AtSlice | src/tim2_parser.cpp:394 | a level size read from a 4-byte buffer is the number stored at that place in the file |
| Utils.ByteOfValue | src/tim2_types.h:58 | the byte built for a number below 256 has that number as its value |
| Utils.Num16RoundTrip | src/tim2_types.h:38 | writing a 16-bit count out little-endian and reading it back gives the count |
| Utils.Num32RoundTrip | src/tim2_types.h:52-54 | the same for 32-bit sizes |
| Utils.Bytes16RoundTrip | src/tim2_types.h:38 | any two bytes are the little-endian form of the number they encode |
| Utils.Bytes32RoundTrip | src/tim2_types.h:52-54 | any four bytes are the little-endian form of the number they encode |
| Utils.SwapEndian8 | src/utils.h:13-14 | the sizeof(T) == 1 branch; SwapEndianInvolution states that it returns its argument |
| Utils.SwapEndian16 | src/utils.h:15-16 | the 2-byte swap; SwapEndianReversesBytes states that it exchanges the two bytes |
| Utils.SwapEndian32 | src/utils.h:17-21 | the 4-byte mask-and-shift swap; SwapEndianReversesBytes states that it reverses the four bytes |
| Utils.SwapEndian64 | src/utils.h:22-30 | the 8-byte mask-and-shift swap; SwapEndianReversesBytes states that it reverses the eight bytes |
| Utils.SwapEndianReversesBytes | src/utils.h:15-31 | the 2-, 4- and 8-byte swaps reverse the little-endian byte order |
| Utils.SwapEndianInvolution | src/utils.h:11-33 | a one-byte value is its own swap, and swapping twice restores the value at every width |
| Utils.AlignUp | src/utils.h:53-55 | the result is a multiple of the alignment, at least the value and less than value + alignment |
| Utils.AlignUpIsNextMultiple | src/utils.h:53-55 | the division formula equals the first multiple at or above the value, counted out by repeated addition |
| Utils.AlignUpIdempotent | src/utils.h:53-59 | an aligned value is a fixed point, so rounding twice is rounding once |
| Utils.AlignedFixed | src/utils.h:57-59 | isAligned values are left unchanged by alignUp |
| Utils.IsAligned | src/utils.h:57-59 | no remainder on division by the alignment; AlignedFixed states that such values are fixed points of alignUp |
| Utils.ExtractBits | src/utils.h:62-64 | the result fits in `count` bits |
| Utils.SetBits | src/utils.h:66-69 | the word after the update; SetBitsKeepsOtherBits and SetBitsStoresField state which bits it holds |
| Utils.SetBitsKeepsOtherBits | src/utils.h:66-69 | every bit outside [start, start + count) keeps its old value |
| Utils.SetBitsStoresField | src/utils.h:66-69 | the field holds the low `count` bits of `bits`, shifted to `start` |
| Utils.Contract8to5 | src/utils.h:82-84 | narrows to a value below 32 |
| Utils.Contract8to6 | src/utils.h:86-88 | narrows to a value below 64 |
| Utils.Expand5to8 | src/utils.h:72-75 | 0 maps to 0, 31 to 255, and contracting the widened 5-bit value gives it back |
| Utils.Expand6to8 | src/utils.h:77-80 | 0 maps to 0, 63 to 255, and contracting the widened 6-bit value gives it back |
| Utils.ExpandMonotonic | src/utils.h:72-80 | widening keeps the order of channel values |
| Utils.CalculateTextureSize | src/utils.h:98-102 | the byte count is the bit count divided by 8, rounded up |
| Utils.MipDimension | src/utils.h:105-107 | every level is at least 1, and at most the base when the base is at least 1 |
| Utils.MipDimensionNonIncreasing | src/utils.h:105-107 | deeper levels are never larger |
| Utils.ShiftRight | src/utils.h:106 | `>>` on a non-negative value as repeated halving; ShiftRightIsDivision states that it is division by 2^count |
| Utils.ShiftRightIsDivision | src/tim2_parser.cpp:221 | shifting a non-negative value right by n is division by 2^n |
| Utils.ShiftRightSplit | src/tim2_parser.cpp:221 | a shift by a + b is a shift by a, then by b |
| Utils.ShiftRightAtMost | src/tim2_parser.cpp:221 | shifting right never increases a value |
| Utils.RequiredMultiple | src/utils.h:114-124 | the multiple is 2^(m+1) for IDTEX4, 2^m for IDTEX8, 2^(m-1) for other formats with m > 1, and 1 otherwise |
| Utils.RequiredExponent | src/utils.h:114-124 | the exponent is never below m - 1 |
| Utils.IsValidDimension | src/utils.h:110-127 | the dimension is a multiple of the required power of two; RequiredMultiple fixes that power per format, and ValidDimensionHalvesExactly states what validity guarantees |
| Utils.ValidDimensionHalvesExactly | src/utils.h:110-127 | a positive dimension valid for m levels is halved exactly by getMipDimension at every level below m |
| Tim2Types.FileHeader.GetAlignment | src/tim2_types.h:45-47 | 128 exactly when the format id is 0x01, and 16 otherwise |
| Tim2Types.FileHeader.Bytes | src/tim2_types.h:34-39 | the packed header is 16 bytes long |
| Tim2Types.FileHeaderOf | src/tim2_types.h:34-39 | a decoded header has a 4-byte id and 8 reserved bytes |
| Tim2Types.FileHeaderValidIff | src/tim2_types.h:41-43 | isValid holds exactly when bytes 0-3 are 'T','I','M','2' |
| Tim2Types.FileHeader.IsValid | src/tim2_types.h:41-43 | the id is "TIM2"; FileHeaderValidIff states it as a test of bytes 0-3 |
| Tim2Types.FileHeaderDecodeEncode | src/tim2_types.h:34-39 | decoding the 16 bytes of a header gives the header back (id 0-3, version 4, format id 5, count 6-7, reserved 8-15) |
| Tim2Types.FileHeaderEncodeDecode | src/tim2_types.h:34-39 | encoding a decoded header gives the 16 bytes back |
| Tim2Types.PictureHeader.GetClutPixelFormat | src/tim2_types.h:73-75 | the format is below 64 and, with the top two bits of clutType, makes up clutType |
| Tim2Types.PictureHeader.GetImagePixelFormat | src/tim2_types.h:69-71 | the image type byte as the pixel format |
| Tim2Types.PictureHeader.IsClutCSM2 | src/tim2_types.h:77 | bit 7 of clutType; ClutTypeSplits states that it, bit 6 and the format make up clutType |
| Tim2Types.PictureHeader.IsClutCompound | src/tim2_types.h:78 | bit 6 of clutType |
| Tim2Types.PictureHeader.HasClut | src/tim2_types.h:79 | a non-empty CLUT in a format other than NONE; ClutColorsShape states that the palette is empty exactly without one |
| Tim2Types.PictureHeader.HasMipMaps | src/tim2_types.h:80 | more than one level; MipStageLayout states that a mipmap header is read exactly then |
| Tim2Types.PictureHeader.Bytes | src/tim2_types.h:51-66 | the packed picture header is 48 bytes long |
| Tim2Types.ClutTypeSplits | src/tim2_types.h:73-78 | clutType is the CSM2 bit 7, the compound bit 6 and the six-bit format together |
| Tim2Types.PictureHeaderDecodeEncode | src/tim2_types.h:51-66 | decoding the 48 bytes of a header gives the header back |
| Tim2Types.DecodeSizes | src/tim2_types.h:52-53 | totalSize is read at offset 0 and clutSize at offset 4 |
| Tim2Types.DecodeCounts | src/tim2_types.h:54-56 | imageSize is read at offset 8, headerSize at 12 and clutColors at 14 |
| Tim2Types.DecodeShape | src/tim2_types.h:57-62 | the format bytes are read at 16-19, the width at 20 and the height at 22 |
| Tim2Types.DecodeTexRegisters | src/tim2_types.h:63-64 | TEX0 is read at offset 24 and TEX1 at offset 32 |
| Tim2Types.DecodeOtherRegisters | src/tim2_types.h:65-66 | TEXA/FBA/PABE is read at offset 40 and TEXCLUT at offset 44 |
| Tim2Types.PictureHeaderEncodeDecode | src/tim2_types.h:51-66 | encoding a decoded header gives the 48 bytes back |
| Tim2Types.PictureHeaderOf | src/tim2_types.h:51-66 | the packed struct laid over 48 bytes; DecodeSizes to DecodeOtherRegisters give each field's offset, and the two round trips state that it inverts PictureHeader.Bytes |
| Tim2Types.ExtendedHeaderOf | src/tim2_types.h:91-95 | the decoded header is well formed, with a 4-byte id; the round trips below state that it inverts ExtendedHeader.Bytes |
| Tim2Types.ExtendedHeader.Bytes | src/tim2_types.h:91-95 | the packed extended header is 16 bytes long: the id, then userSpaceSize, userDataSize and reserved, little-endian |
| Tim2Types.ExtendedHeaderDecodeEncode | src/tim2_types.h:91-95 | decoding the 16 bytes of an extended header gives the header back |
| Tim2Types.ExtendedHeaderEncodeDecode | src/tim2_types.h:91-95 | encoding a decoded extended header gives its 16 bytes back |
| Tim2Types.ExtendedHeaderValidIff | src/tim2_types.h:97-99 | isValid holds exactly when bytes 0-3 are 'e','X','t',NUL |
| Tim2Types.ExtendedHeader.IsValid | src/tim2_types.h:97-99 | the id is "eXt\0"; ExtendedHeaderValidIff states it as a test of bytes 0-3 |
| Tim2Types.ParseGsTex0 | src/tim2_types.h:117-132 | every TEX0 field is bounded by its mask, e.g. tbp0 < 2^14 and csm <= 1 |
| Tim2Types.GsTex0BitRanges | src/tim2_types.h:117-132 | each TEX0 field equals extractBits of its bit range |
| Tim2Types.ParseGsTex1 | src/tim2_types.h:144-154 | every TEX1 field is bounded by its mask, e.g. k < 4096 |
| Tim2Types.GsTex1BitRanges | src/tim2_types.h:144-154 | each TEX1 field equals extractBits of its bit range |
| Tim2Types.Color16.ToColor32 | src/tim2_types.h:170-176 | r, g and b are expand5to8 of the 5-bit fields at bits 0, 5 and 10; alpha is 255 when bit 15 is set and 0 otherwise |
| Tim2Types.DefaultColor | src/tim2_types.h:163 | `Color32{}`: the colour the default constructor gives, (0, 0, 0, 255); UndecodedPixel, UndecodedClutEntry and PaletteLookupEntry say where the decoder returns it |
| Tim2Types.Color16RoundTrip | src/tim2_types.h:170-176 | the widening is injective: packing the widened colour back gives the 16-bit value |
| Tim2Types.ChannelRoundTrip | src/tim2_types.h:171-173 | a widened 5-bit channel narrows back to itself |
| Tim2Types.AlphaBit | src/tim2_types.h:174 | the widened alpha is at least 128 exactly when bit 15 is set |
| Tim2Types.Color16Examples | src/tim2_types.h:170-176 | 0x7FFF widens to (255,255,255,0) and 0x8000 to (0,0,0,255) |
| Tim2Types.GetBitsPerPixel | src/tim2_types.h:192-201 | non-zero exactly for the five known formats, a multiple of 4, at most 32; BitsPerPixelIsStride gives each value |
| Tim2Picture.Picture.MipMapWidth | src/tim2_parser.cpp:220-222 | every level is at least one pixel wide |
| Tim2Picture.Picture.MipMapHeight | src/tim2_parser.cpp:227-229 | every level is at least one pixel high |
| Tim2Picture.Picture.MipMapIsMipDimension | src/tim2_parser.cpp:220-229 | below level 32 the level size is getMipDimension of the base size, i.e. max(1, W / 2^level) |
| Tim2Picture.Picture.MipMapNonIncreasing | src/tim2_parser.cpp:220-229 | deeper levels are never larger, and no level is larger than max(1, base) |
| Tim2Picture.Picture.ImageOffset | src/tim2_parser.cpp:207-215 | where a level starts; GetImageOffset is proved to compute it, and ImageOffsetStep and ImageOffsetMonotone state how it grows |
| Tim2Picture.Picture.GetImageOffset | src/tim2_parser.cpp:207-215 | the loop's sum is ImageOffset: 0 without a mipmap header or at level 0, otherwise the sum of the first min(level, number of sizes) level sizes |
| Tim2Picture.Picture.ImageOffsetStep | src/tim2_parser.cpp:210-213 | each listed level starts where the one before it ends |
| Tim2Picture.Picture.ImageOffsetMonotone | src/tim2_parser.cpp:207-215 | the offset never decreases with the level |
| Tim2Picture.SumPrefix | src/tim2_parser.cpp:210-213 | the sum of the first n level sizes that the offset loop accumulates; ImageOffsetStep and ImageOffsetMonotone state its properties |
| Tim2Picture.Picture.GetClutColors | src/tim2_parser.cpp:56-121 | the loop builds exactly the palette ClutColors |
| Tim2Picture.Picture.RemapClutIndex | src/tim2_parser.cpp:67-84 | the index is remapped only when CSM2 is clear and compound is set |
| Tim2Picture.Picture.ClutIndex | src/tim2_parser.cpp:67-84 | the slot palette entry i is read from; RemapClutIndex is proved to compute it, and ClutEntrySlot states when it is remapped |
| Tim2Picture.Picture.IsCsm1Compound | src/tim2_parser.cpp:71 | the CSM1 compound test: CSM2 bit clear and compound bit set; ClutEntrySlot states that the remap applies exactly then |
| Tim2Picture.Picture.ClutEntry | src/tim2_parser.cpp:86-115 | palette entry i; ClutEntrySlot states its format and slot |
| Tim2Picture.Picture.ClutColors | src/tim2_parser.cpp:56-121 | the palette; GetClutColors is proved to build it, and ClutColorsShape states its size and entries |
| Tim2Picture.Picture.ClutColorsShape | src/tim2_parser.cpp:58-66 | the palette is empty without a CLUT and otherwise has clutColors entries, entry i being palette entry i |
| Tim2Picture.Picture.ClutEntrySlot | src/tim2_parser.cpp:66-115 | entry i is the CLUT format's colour read at the remapped slot in compound CSM1 mode and at slot i otherwise |
| Tim2Picture.Picture.PaletteLookupEntry | src/tim2_parser.cpp:172-175 | an index below the palette size selects its entry, and any other index gives Color32{} |
| Tim2Picture.Picture.PaletteLookup | src/tim2_parser.cpp:172-175 | the palette colour of an index; PaletteLookupEntry states both cases |
| Tim2Picture.Picture.ClutSizeSuffices | src/tim2_parser.cpp:66-111 | a CLUT holding clutColors rounded up to whole 32-entry blocks covers every read getClutColors makes, including remapped ones |
| Tim2Picture.Picture.DecodeImage | src/tim2_parser.cpp:23-40 | empty when the level is not below mipMapTextures; otherwise exactly the level's pixels in row-major order |
| Tim2Picture.Picture.DecodeRow | src/tim2_parser.cpp:33-37 | the inner loop fills row y with the level's pixels and keeps the rows before it |
| Tim2Picture.Picture.LevelPixels | src/tim2_parser.cpp:28-31 | a level has width * height pixels |
| Tim2Picture.Picture.LevelPixelsRowMajor | src/tim2_parser.cpp:33-37 | entry y * width + x of the decoded level is getPixelColor(x, y, level) |
| Tim2Picture.Picture.PixelColor | src/tim2_parser.cpp:135-199 | getPixelColor; LevelPixelsRowMajor ties decodeImage to it, and the per-format lemmas below state each case |
| Tim2Picture.Picture.ColorOfIndex | src/tim2_parser.cpp:141-196 | the format switch of getPixelColor on the row-major index; Idtex8Pixel, Idtex4Pair, Rgb16Pixel, Rgb24Pixel, Rgb32Pixel and UndecodedPixel state each case |
| Tim2Picture.Picture.IndexReadable | src/tim2_parser.cpp:141-196 | the bytes getPixelColor reads exist: byte p for IDTEX8, byte p/2 for IDTEX4 (with a CLUT only), the stride bytes at p * stride for the true-colour formats, none otherwise |
| Tim2Picture.Picture.PixelOfIndex | src/tim2_parser.cpp:136-144 | a pixel inside the level has a row-major index inside the level and readable bytes |
| Tim2Picture.Picture.TextureSizeSuffices | src/tim2_parser.cpp:135-192 | calculateTextureSize bytes from the level's offset on hold every pixel of the level (with a readable CLUT for the indexed formats) |
| Tim2Picture.Picture.Idtex8Pixel | src/tim2_parser.cpp:168-178 | an IDTEX8 pixel is the palette entry its byte names, or Color32{} past the palette |
| Tim2Picture.Picture.Idtex4Pair | src/tim2_parser.cpp:179-191 | IDTEX4 pixels 2q and 2q+1 share byte q: the even one is the low nibble, the odd one the high nibble |
| Tim2Picture.Picture.Rgb32RoundTrip | src/tim2_parser.cpp:143-150 | pixels stored as r,g,b,a bytes at the level's offset decode to exactly those pixels |
| Tim2Picture.Picture.Rgb32Pixel | src/tim2_parser.cpp:143-150 | one pixel of that round trip, read at stride 4 |
| Tim2Picture.Picture.Rgb24RoundTrip | src/tim2_parser.cpp:151-161 | opaque pixels stored as r,g,b bytes at the level's offset decode to exactly those pixels |
| Tim2Picture.Picture.Rgb24Pixel | src/tim2_parser.cpp:151-161 | one pixel of that round trip, read at stride 3 with alpha 255 |
| Tim2Picture.Picture.Rgb16Words | src/tim2_parser.cpp:162-167 | RGB16 pixel p is the little-endian word at stride 2, widened by toColor32 |
| Tim2Picture.Picture.Rgb16Pixel | src/tim2_parser.cpp:162-167 | one pixel of Rgb16Words |
| Tim2Picture.Picture.TrueColorIndex | src/tim2_parser.cpp:143-167 | an RGB16, RGB24 or RGB32 pixel is readable exactly when its bytes lie in the image data, and is then the colour those bytes encode |
| Tim2Picture.Picture.UndecodedPixel | src/tim2_parser.cpp:168-195 | a pixel of an unknown format, or of IDTEX4/IDTEX8 without a CLUT, reads nothing and is Color32{} |
| Tim2Picture.Picture.UndecodedClutEntry | src/tim2_parser.cpp:112-114 | a CLUT entry in a format other than RGB16/24/32 is Color32{} |
| Tim2Picture.CompoundRemapInvolution | src/tim2_parser.cpp:71-84 | the compound remap is its own inverse and keeps each index in its block of 32 |
| Tim2Picture.CompoundRemapMoves | src/tim2_parser.cpp:77-81 | local slots 8-15 move up by 8, slots 16-23 down by 8, and the rest stay |
| Tim2Picture.CompoundRemapStaysInBlock | src/tim2_parser.cpp:72-83 | below a whole number of blocks, the remapped slot stays below it |
| Tim2Picture.CompoundRemap | src/tim2_parser.cpp:71-84 | the compound slot exchange; the three lemmas above state what it does |
| Tim2Picture.PixelFits | src/tim2_parser.cpp:144-185 | pixel p of n fits in calculateTextureSize bytes: byte p for IDTEX8, p/2 for IDTEX4, p * stride for the true-colour formats |
| Tim2Picture.Rgb32Bytes | src/tim2_parser.cpp:143-150 | 4 bytes per pixel |
| Tim2Picture.Rgb32BytesAt | src/tim2_parser.cpp:144-148 | colour i of the RGB32 bytes reads back as pixel i |
| Tim2Picture.Rgb24Bytes | src/tim2_parser.cpp:151-161 | 3 bytes per pixel |
| Tim2Picture.Rgb24BytesAt | src/tim2_parser.cpp:96-103 | colour i of the RGB24 bytes reads back as colour i with alpha 255, by induction |
| Tim2Picture.Rgb24BytesIn | src/tim2_parser.cpp:96-103 | the same for RGB24 bytes stored anywhere in a buffer |
| Tim2Picture.Rgb16Bytes | src/tim2_parser.cpp:162-167 | 2 bytes per pixel |
| Tim2Picture.Rgb16BytesAt | src/tim2_parser.cpp:89-95 | word i of the RGB16 bytes reads back as word i, by induction |
| Tim2Picture.Rgb16BytesIn | src/tim2_parser.cpp:89-95 | an RGB16 colour stored anywhere in a buffer decodes to its word widened by toColor32 |
| Tim2Picture.DecodeColor | src/tim2_parser.cpp:88-115 | the format switch of getClutColors; Rgb16BytesIn, Rgb24BytesIn, Rgb32BytesIn and UndecodedClutEntry state each case |
| Tim2Picture.BitsPerPixelIsStride | src/tim2_types.h:192-201 | 16, 24 and 32 bits are 8 times the bytes read per true-colour pixel; IDTEX8 is 8, IDTEX4 is 4, and other formats are 0 and read nothing |
| Tim2Picture.DecodeColorInSlice | src/tim2_parser.cpp:138 | a colour read from the level start onwards is the colour read at that offset in the whole buffer |
| Tim2Picture.RowMajorIndex | src/tim2_parser.cpp:35 | y * width + x lies inside the image and maps back to (x, y) |
| Tim2Parser.Delivered | src/tim2_parser.cpp:428-429 | a read delivers all n bytes exactly when they fit, and those are the bytes at the cursor |
| Tim2Parser.InputStream.Read | src/tim2_parser.cpp:289-291 | a read that fits advances the cursor by n; a short read clears the good flag for good |
| Tim2Parser.InputStream.Tell | src/tim2_parser.cpp:351 | tellg is the cursor |
| Tim2Parser.InputStream.Seek | src/tim2_parser.cpp:353 | seekg moves the cursor on a good stream |
| Tim2Parser.InputStream.Skip | src/tim2_parser.cpp:401 | a relative seekg moves the cursor forward on a good stream |
| Tim2Parser.InputStream.constructor | src/tim2_parser.cpp:253 | a newly opened stream is good and at position 0 |
| Tim2Parser.Zeros | src/tim2_parser.cpp:428 | a resized buffer holds n zero bytes |
| Tim2Parser.AlignOffset | src/tim2_parser.cpp:480-482 | alignOffset is alignUp |
| Tim2Parser.PaddedMipHeaderSize | src/tim2_parser.cpp:398-399 | the padded mipmap header is a multiple of 16, at least 16 + 4n and less than 32 + 4n |
| Tim2Parser.HeaderDataSize | src/tim2_parser.cpp:336-341 | the headers consumed so far: 48 bytes, plus the padded mipmap header when one was read (the same sum reappears at src/tim2_parser.cpp:418-423); UserStageLayout measures the user space from it |
| Tim2Parser.MipSizes | src/tim2_parser.cpp:392-395 | one size per level, level 0 included |
| Tim2Parser.MipMapHeaderAt | src/tim2_parser.cpp:385-405 | the mipmap header stage; MipStageLayout and MipSizesAreWords state its outcome |
| Tim2Parser.StrnLen | src/tim2_parser.cpp:449 | strnlen never goes past the bound |
| Tim2Parser.StrnLenStops | src/tim2_parser.cpp:449 | strnlen stops at the first NUL, or at the bound when there is none |
| Tim2Parser.ExtendedHeaderIn | src/tim2_parser.cpp:432-437 | an extended header is found only in a user space of at least 16 bytes, and it is the header laid over its first 16 bytes |
| Tim2Parser.CommentLimit | src/tim2_parser.cpp:444 | the comment limit never passes the end of the user space |
| Tim2Parser.CommentStart | src/tim2_parser.cpp:440 | the comment starts after the 16-byte extended header and its userDataSize bytes; CommentInStops states where the comment lies |
| Tim2Parser.CommentIn | src/tim2_parser.cpp:445-450 | the text from CommentStart up to the first NUL, never past CommentLimit; CommentInStops states it |
| Tim2Parser.WithUserSpace | src/tim2_parser.cpp:428-453 | the user space with the extended header and comment found in it; WithUserSpaceFresh, ExtendedHeaderInIff and CommentInStops state what it sets |
| Tim2Parser.UserSpaceAt | src/tim2_parser.cpp:417-456 | the user space stage; UserStageLayout states its outcome |
| Tim2Parser.ImageDataAt | src/tim2_parser.cpp:461-465 | the image data stage; SectionsAtLayout states its outcome |
| Tim2Parser.ClutDataAt | src/tim2_parser.cpp:470-474 | the CLUT data stage; SectionsAtLayout states its outcome |
| Tim2Parser.PictureHeaderAt | src/tim2_parser.cpp:322-326 | the 48-byte picture header stage; HeadersAtLayout states its outcome |
| Tim2Parser.HeadersAt | src/tim2_parser.cpp:320-347 | the headers of a picture; HeadersAtLayout states its outcome |
| Tim2Parser.SectionsAt | src/tim2_parser.cpp:349-377 | the aligned sections of a picture; SectionsAtLayout states its outcome |
| Tim2Parser.PictureAt | src/tim2_parser.cpp:320-378 | parsePicture on the bytes; PictureAtLayout states its outcome |
| Tim2Parser.MipStage | src/tim2_parser.cpp:328-333 | the mipmap header is read only with more than one level; MipStageLayout states its outcome |
| Tim2Parser.UserStage | src/tim2_parser.cpp:343-347 | the user space is read only when headerSize exceeds the headers read; UserStageLayout states its outcome |
| Tim2Parser.ExtraHeadersAt | src/tim2_parser.cpp:328-347 | the mipmap stage, then the user stage; ExtraHeadersLayout states its outcome |
| Tim2Parser.ImageStage | src/tim2_parser.cpp:349-361 | the image data at the next aligned position, read only when imageSize > 0; SectionsAtLayout states its outcome |
| Tim2Parser.ClutStage | src/tim2_parser.cpp:363-375 | the CLUT data at the next aligned position, read only when clutSize > 0; SectionsAtLayout states its outcome |
| Tim2Parser.HeaderAfterRead | src/tim2_parser.cpp:289 | the header bytes after the read; ShortHeaderRead states what a short file leaves |
| Tim2Parser.RunOf | src/tim2_parser.cpp:271-278 | count pictures read one after another, up to the first that fails; RunOfCount and RunOfStep state its shape |
| Tim2Parser.PicturesAt | src/tim2_parser.cpp:271-278 | loadFile's run of pictures over the file; PicturesAtCount, PicturesAtStep, PicturesAtFail and LoadValidIff state its result |
| Tim2Parser.Load | src/tim2_parser.cpp:248-308 | loadFile on the bytes of a file; LoadValidIff, LoadValidContents, LoadErrors and LoadWarnsIff state its outcome |
| Tim2Parser.RunOfStep | src/tim2_parser.cpp:271-278 | a picture that parses is the first of the run, and the rest of the run continues after it |
| Tim2Parser.PicturesAtStep | src/tim2_parser.cpp:271-278 | the same for the run of pictures of a file |
| Tim2Parser.PicturesAtFail | src/tim2_parser.cpp:273-276 | a picture that fails ends the run, incomplete |
| Tim2Parser.TIM2Parser.constructor | src/tim2_parser.h:35 | a new parser holds no pictures, no error, a zero header and is not valid (m_valid starts false) |
| Tim2Parser.TIM2Parser.IsValid | src/tim2_parser.h:42 | the valid flag |
| Tim2Parser.TIM2Parser.GetPictures | src/tim2_parser.h:48 | the pictures held |
| Tim2Parser.TIM2Parser.GetLastError | src/tim2_parser.h:60 | the error recorded by the last load |
| Tim2Parser.TIM2Parser.GetFileHeader | src/tim2_parser.h:45 | the header record is well formed and its bytes are the stored header bytes |
| Tim2Parser.TIM2Parser.GetPicture | src/tim2_parser.h:51-54 | null exactly when the index is past the end, and otherwise the picture at that index |
| Tim2Parser.TIM2Parser.GetPictureCount | src/tim2_parser.h:57 | the number of pictures held |
| Tim2Parser.TIM2Parser.LoadFile | src/tim2_parser.cpp:248-308 | the result, the valid flag, the header bytes, the pictures, the error and the unknown-version warning are those of Load on the file's bytes |
| Tim2Parser.TIM2Parser.ParsePictures | src/tim2_parser.cpp:270-278 | the loop keeps the pictures parsed before the first failure and records PictureFailed(i) for the failed index |
| Tim2Parser.TIM2Parser.ParseFileHeader | src/tim2_parser.cpp:288-308 | the first 16 bytes, or as many as exist, overwrite the header; failure comes from a short read or a bad signature, with their errors; an unknown version is reported but not fatal |
| Tim2Parser.TIM2Parser.SkipAlignment | src/tim2_parser.cpp:488-494 | the cursor moves to the next multiple of the alignment |
| Tim2Parser.TIM2Parser.ParsePicture | src/tim2_parser.cpp:320-378 | the picture and the cursor are those of PictureAt; a short picture header records its error |
| Tim2Parser.TIM2Parser.ParseHeaders | src/tim2_parser.cpp:320-347 | the picture header, the mipmap header and the user space are those of HeadersAt |
| Tim2Parser.TIM2Parser.ParseSections | src/tim2_parser.cpp:349-377 | the aligned image data and the aligned CLUT data are those of SectionsAt |
| Tim2Parser.TIM2Parser.ParseMipMapHeader | src/tim2_parser.cpp:385-405 | the two registers, one size per level and the skipped padding are those of MipMapHeaderAt |
| Tim2Parser.TIM2Parser.ReadLevelSizes | src/tim2_parser.cpp:392-395 | the loop reads the level sizes as consecutive 4-byte words |
| Tim2Parser.TIM2Parser.ParseUserSpace | src/tim2_parser.cpp:417-456 | the user space, the extended header and the comment are those of UserSpaceAt |
| Tim2Parser.TIM2Parser.ParseImageData | src/tim2_parser.cpp:461-465 | imageSize raw bytes at the cursor, as ImageDataAt |
| Tim2Parser.TIM2Parser.ParseClutData | src/tim2_parser.cpp:470-474 | clutSize raw bytes at the cursor, as ClutDataAt |
| Tim2ParserProperties.AlignOffsetLeastMultiple | src/tim2_parser.cpp:480-482 | alignOffset is the least multiple of the alignment not below the offset, and is idempotent |
| Tim2ParserProperties.AlignOffsetExample | src/tim2_parser.cpp:477-482 | alignOffset(17, 16) == 32 |
| Tim2ParserProperties.LayoutOrder | src/tim2_parser.cpp:349-368 | the image data starts at alignOffset of the end of the headers and user space, the CLUT data at alignOffset of the end of the image data, each within one alignment step |
| Tim2ParserProperties.WithUserSpaceFresh | src/tim2_parser.cpp:428-453 | on a fresh picture, parseUserSpace sets the user data, the extended header found in it and its comment |
| Tim2ParserProperties.MipStageLayout | src/tim2_parser.cpp:328-333 | the mipmap stage succeeds exactly when no mipmap header is due or it fits; a header is read only with more than one level; the cursor ends at 48 + the padded mipmap size past the picture start |
| Tim2ParserProperties.UserStageLayout | src/tim2_parser.cpp:343-347 | the user stage succeeds exactly when the user space fits; it reads headerSize minus the headers read, when positive |
| Tim2ParserProperties.HeadersFit | src/tim2_parser.cpp:328-347 | what must lie inside the file for the headers stage to succeed: the mipmap header when there is more than one level, and the user space |
| Tim2ParserProperties.HeadersPicture | src/tim2_parser.cpp:328-347 | the picture the headers stage leaves: the header, the mipmap header, the user space with its extended header and comment, and no image or CLUT data yet |
| Tim2ParserProperties.ExtraHeadersLayout | src/tim2_parser.cpp:328-347 | the mipmap header and the user space together succeed exactly when HeadersFit holds, and then give HeadersPicture, in terms of the picture header alone |
| Tim2ParserProperties.UserStageAfterMip | src/tim2_parser.cpp:343-347 | the user stage after the mipmap stage succeeds exactly when HeadersFit holds, and then gives HeadersPicture |
| Tim2ParserProperties.HeadersAtLayout | src/tim2_parser.cpp:320-347 | the headers of a picture parse exactly when the picture header, the mipmap header and the user space fit, and hold exactly those bytes |
| Tim2ParserProperties.SectionsAtLayout | src/tim2_parser.cpp:349-377 | the image and CLUT sections parse exactly when both fit at their aligned starts; each holds exactly imageSize and clutSize bytes, and a section of size 0 is not read |
| Tim2ParserProperties.PictureAtLayout | src/tim2_parser.cpp:320-378 | a picture block parses exactly when every part fits at the place the header's sizes give it; which bytes go into every field; where the cursor ends |
| Tim2ParserProperties.PictureAfterHeaders | src/tim2_parser.cpp:320-378 | once the headers are read, parsePicture's outcome is that of the aligned sections after them |
| Tim2ParserProperties.PictureNeedsHeaders | src/tim2_parser.cpp:320-347 | parsePicture fails when reading its headers fails |
| Tim2ParserProperties.SectionsAfterHeaders | src/tim2_parser.cpp:349-377 | the sections after HeadersPicture succeed exactly when the image and CLUT data fit at their aligned starts, and then hold exactly those bytes |
| Tim2ParserProperties.MipSizesAreWords | src/tim2_parser.cpp:392-395 | level size i is the little-endian word at 16 + 4i past the mipmap header start |
| Tim2ParserProperties.ExtendedHeaderInIff | src/tim2_parser.cpp:432-437 | the extended header is set exactly when the user space has at least 16 bytes and starts with "eXt\0" |
| Tim2ParserProperties.CommentInStops | src/tim2_parser.cpp:440-450 | the comment starts at 16 + userDataSize, stops at the first NUL, contains no NUL and never passes min(user space size, ext.userSpaceSize) |
| Tim2ParserProperties.CommentOfEmpty | src/tim2_parser.cpp:436-451 | a non-empty comment needs an extended header and a start below the limit |
| Tim2ParserProperties.RunOfCount | src/tim2_parser.cpp:271-278 | a run holds at most count pictures, and it is complete exactly when it holds count |
| Tim2ParserProperties.PicturesAtCount | src/tim2_parser.cpp:271-281 | the same for the pictures of a file |
| Tim2ParserProperties.FirstPictureOffset | src/tim2_parser.cpp:264-267 | after the 16-byte file header, the first picture starts at 16 or at 128 |
| Tim2ParserProperties.LoadValidIff | src/tim2_parser.cpp:248-308 | a load is valid exactly when no error is recorded, and exactly when the file opens, has 16 bytes, starts with "TIM2" and all announced pictures parse; the version byte plays no part |
| Tim2ParserProperties.SignatureBytes | src/tim2_parser.cpp:296-299 | the signature comparison is the byte-by-byte test of "TIM2" |
| Tim2ParserProperties.LoadWarnsIff | src/tim2_parser.cpp:296-305 | the unknown-version warning is given exactly when the file opens, has a whole header, has the "TIM2" signature and a version byte other than 0x04 |
| Tim2ParserProperties.LoadValidContents | src/tim2_parser.cpp:260-281 | a valid load holds the file's first 16 bytes and exactly as many pictures as the header announces |
| Tim2ParserProperties.LoadErrors | src/tim2_parser.cpp:248-299 | each error exactly: open failure (old header kept), short header, bad signature; a file with a good signature that fails to load records PictureFailed with the index of the first failed picture, which is below the announced count; "Failed to read picture header" never survives, because loadFile overwrites it |
| Tim2ParserProperties.ShortHeaderRead | src/tim2_parser.cpp:289 | a short file overwrites only the start of the old header |

## Left out

- File I/O: the file system is a map from names to contents. `std::ifstream` is modelled as a byte sequence with a cursor and a good flag. Its other state bits, `tellg` on a failed stream and seeks before the start are not modelled.
- The "unknown format version" message on `std::cerr` is not printed. `ParseFileHeader` and `LoadFile` return it as a flag.
- `m_lastError` is a datatype with one constructor per message instead of a string. The message text, including the index as decimal text, is not modelled.
- Tim2Parser.TIM2Parser.constructor: the C++ leaves `m_fileHeader` default-initialised (its bytes are not set). The model starts from 16 zero bytes. Those bytes show through `GetFileHeader` in three cases: before the first load, after a load whose file does not open (the header is left as it was), and after a load of a file shorter than 16 bytes (the bytes past the short read).
- Tim2Parser.TIM2Parser.ParseMipMapHeader: a register whose read comes up short is 0 in the model, where C++ may have stored part of it. The picture is discarded on that path.
- Tim2Parser.TIM2Parser.ParseUserSpace: the C++ subtracts in `size_t` and is only called when `headerSize` exceeds the headers read. The model requires `headerSize` to be at least that, instead of modelling the wrap-around.
- The parse methods return the updated `Picture` value instead of filling a `Picture&` in place. `Picture` is a value type that loadFile moves into `m_pictures`.
- Helper splits not present as separate functions in the C++:
  - `ParseHeaders` and `ParseSections` are the two halves of parsePicture.
  - `ParsePictures` is loadFile's loop.
  - `ReadLevelSizes` is parseMipMapHeader's loop.
  - `RunOf` and `PictureStep` are the run of pictures.
  - parsePicture's inline align-and-seek blocks are calls of `SkipAlignment`, which has the same logic.
- Utils.NextMultiple is a counting form of alignUp/alignOffset, used in the specification functions. It is proved equal to the division formula (`AlignUpIsNextMultiple`).
- Integer widths: `size_t` and `int` arithmetic is done on unbounded integers. No wrap-around is modelled for sizes, offsets, cursor positions or `width * height` products.
- Utils.ExtractBits: proved bounded by its mask and used for the GS field views. Its equality with division and modulo by powers of two on integers is not proved, because relating the 64-bit shifts and masks to integer arithmetic needs bitvector-to-integer conversions that exhaust the resource limit.
- Utils.SetBits: a function returning the new word, instead of updating a `uint64_t&` in place.
- Utils.IsValidDimension: shift counts of 32 and more are undefined in C++ and excluded by its preconditions. At count 31 the model uses 2^31 for C++20's INT_MIN, which has the same multiples.
- `imageWidth >> level` for level 32 and above is undefined in C++. The model halves once per level (`ShiftRight`), which is `W / 2^level`.
- The CSM1 intra-block byte swap and the GS RGB24 swizzle are not modelled. The C++ does not implement either.
- Out-of-range buffer reads in the decoder are undefined in C++. They are excluded by preconditions `ClutReadable`, `IndexReadable` and `ImageReadable`. A partial last block under the compound remap can need CLUT bytes past `clutColors` entries (see `ClutSizeSuffices`).
- `pixelFormatToString` is left out: it only produces display text.
- `hexDump` is left out: it is console output.
- `isBigEndian` and `fromLittleEndian` are left out: they depend on the host. The model always decodes little-endian.
- `calculateGSAddress` is left out: it is unused.
- The command-line tool, the tables it prints and the BMP/PNG/ANSI image output are left out: they are I/O around `loadFile` and `decodeImage`.
