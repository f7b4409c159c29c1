/**
 * One parsed TIM2 picture and its pixel decoder (src/tim2_parser.h:10-31,
 * src/tim2_parser.cpp:23-229).
 *
 * A Picture holds its header, the optional mipmap and extended headers and
 * the raw user, image and CLUT bytes. Decoding is a function of those bytes:
 * the CLUT becomes a palette of Color32 (with the CSM1 compound index remap),
 * and every pixel of a mip level is read at the level's offset, directly for
 * the true-colour formats and through the palette for the indexed ones.
 *
 * The C++ indexes the byte buffers without bounds checks; here each read
 * demands, as a precondition, that the bytes it touches exist.
 */
module Tim2Picture {
  import opened Utils
  import opened Wrappers
  import opened Tim2Types

  datatype Picture = Picture(
    header: PictureHeader,
    mipMapHeader: Option<MipMapHeader>,
    userData: seq<u8>,
    imageData: seq<u8>,
    clutData: seq<u8>,
    extHeader: Option<ExtendedHeader>,
    comment: seq<u8>)
  {
    // -------------------------------------------------------------------
    // Geometry of the mip levels
    // -------------------------------------------------------------------

    /** getMipMapWidth: the width halved `level` times, at least 1. */
    function MipMapWidth(level: nat): (w: nat)
      ensures 1 <= w
    {
      Max(1, ShiftRight(header.imageWidth, level))
    }

    /** getMipMapHeight: the height halved `level` times, at least 1. */
    function MipMapHeight(level: nat): (h: nat)
      ensures 1 <= h
    {
      Max(1, ShiftRight(header.imageHeight, level))
    }

    /** getImageOffset: where level `level` starts in the image bytes. */
    function ImageOffset(level: nat): (r: nat)
    {
      if mipMapHeader.None? || level == 0 then 0
      else
        var sizes := mipMapHeader.value.sizes;
        SumPrefix(sizes, if level < |sizes| then level else |sizes|)
    }

    /** getImageOffset, accumulating the level sizes in a loop. */
    method GetImageOffset(level: nat) returns (offset: nat)
      ensures offset == ImageOffset(level)
    {
      if mipMapHeader.None? || level == 0 {
        return 0;
      }
      var sizes := mipMapHeader.value.sizes;
      offset := 0;
      var i := 0;
      while i < level && i < |sizes|
        invariant i <= level && i <= |sizes|
        invariant offset == SumPrefix(sizes, i)
      {
        offset := offset + sizes[i];
        i := i + 1;
      }
    }

    // -------------------------------------------------------------------
    // The CLUT
    // -------------------------------------------------------------------

    /** The CSM1 compound remap applies: the mode bit is clear and the compound bit set. */
    predicate IsCsm1Compound() { !header.IsClutCSM2() && header.IsClutCompound() }

    /** The raw CLUT slot palette entry `i` is read from. */
    function ClutIndex(i: nat): (slot: nat)
    {
      if IsCsm1Compound() then CompoundRemap(i) else i
    }

    /** Every palette entry's bytes lie inside the CLUT bytes. */
    predicate ClutReadable()
    {
      var stride := Stride(header.GetClutPixelFormat());
      forall i :: 0 <= i < header.clutColors ==> PixelByte(ClutIndex(i), header.GetClutPixelFormat()) + stride <= |clutData|
    }

    /** Palette entry `i`: the CLUT format's colour at the remapped slot. */
    function ClutEntry(i: nat): (c: Color32)
      requires ClutReadable() && i < header.clutColors
    {
      var fmt := header.GetClutPixelFormat();
      DecodeColor(fmt, clutData, PixelByte(ClutIndex(i), fmt))
    }

    /** The decoded palette: empty without a CLUT, else one entry per CLUT colour. */
    function ClutColors(): (colors: seq<Color32>)
      requires header.HasClut() ==> ClutReadable()
    {
      if !header.HasClut() then []
      else seq(header.clutColors, i requires 0 <= i < header.clutColors => ClutEntry(i))
    }

    /** getClutColors: build the palette entry by entry. */
    method GetClutColors() returns (colors: seq<Color32>)
      requires header.HasClut() ==> ClutReadable()
      ensures colors == ClutColors()
    {
      colors := [];
      if !header.HasClut() {
        return;
      }
      var fmt := header.GetClutPixelFormat();
      var i := 0;
      while i < header.clutColors
        invariant i <= header.clutColors
        invariant colors == ClutColors()[..i]
      {
        var index := RemapClutIndex(i);
        var color := DecodeColor(fmt, clutData, PixelByte(index, fmt));
        assert ClutColors()[..i + 1] == ClutColors()[..i] + [ClutColors()[i]];
        colors := colors + [color];
        i := i + 1;
      }
    }

    /** The index remap at the head of getClutColors' loop body. */
    method RemapClutIndex(i: nat) returns (index: nat)
      ensures index == ClutIndex(i)
    {
      index := i;
      if !header.IsClutCSM2() && header.IsClutCompound() {
        var block := i / 32;
        var localIdx := i % 32;
        if localIdx >= 8 && localIdx < 16 {
          localIdx := localIdx + 8;
        } else if localIdx >= 16 && localIdx < 24 {
          localIdx := localIdx - 8;
        }
        index := block * 32 + localIdx;
      }
    }

    // -------------------------------------------------------------------
    // Pixels
    // -------------------------------------------------------------------

    /** The index of pixel (x, y) among the pixels of `level`, row by row. */
    function PixelIndex(x: nat, y: nat, level: nat): nat
    {
      y * MipMapWidth(level) + x
    }

    /** The bytes getPixelColor reads for pixel (x, y) of `level` exist. */
    predicate PixelReadable(x: nat, y: nat, level: nat)
    {
      IndexReadable(ImageOffset(level), PixelIndex(x, y, level))
    }

    /** getPixelColor: the colour of pixel (x, y) of `level`. */
    function PixelColor(x: nat, y: nat, level: nat): (c: Color32)
      requires PixelReadable(x, y, level)
    {
      ColorOfIndex(ImageOffset(level), PixelIndex(x, y, level))
    }

    /** The bytes for pixel `p` of a level that starts at byte `at` exist. */
    predicate IndexReadable(at: nat, p: nat)
    {
      var fmt := header.GetImagePixelFormat();
      if fmt == TIM2_IDTEX8 then
        header.HasClut() ==> at + p < |imageData| && ClutReadable()
      else if fmt == TIM2_IDTEX4 then
        header.HasClut() ==> at + p / 2 < |imageData| && ClutReadable()
      else
        Stride(fmt) > 0 ==> at + PixelByte(p, fmt) + Stride(fmt) <= |imageData|
    }

    /** The colour of pixel `p` of a level that starts at byte `at`. */
    function ColorOfIndex(at: nat, p: nat): (c: Color32)
      requires IndexReadable(at, p)
    {
      var fmt := header.GetImagePixelFormat();
      if fmt == TIM2_IDTEX8 then
        if header.HasClut() then PaletteLookup(imageData[at + p]) else DefaultColor
      else if fmt == TIM2_IDTEX4 then
        if header.HasClut() then
          var packed := imageData[at + p / 2];
          PaletteLookup(if p % 2 == 1 then packed >> 4 else packed & 0x0F)
        else DefaultColor
      else
        DecodeColor(fmt, imageData, at + PixelByte(p, fmt))
    }

    /** The palette colour of an index, or Color32{} past the palette's end. */
    function PaletteLookup(colorIdx: u8): (c: Color32)
      requires header.HasClut() && ClutReadable()
    {
      var colors := ClutColors();
      if colorIdx as nat < |colors| then colors[colorIdx] else DefaultColor
    }

    /** The number of pixels of `level`. */
    function PixelCount(level: nat): nat
    {
      MipMapWidth(level) * MipMapHeight(level)
    }

    /** Every pixel of `level` can be read. */
    predicate ImageReadable(level: nat)
    {
      IndicesReadable(ImageOffset(level), PixelCount(level))
    }

    /** Pixels 0 .. n-1 of a level that starts at byte `at` can be read. */
    predicate IndicesReadable(at: nat, n: nat)
    {
      forall p :: 0 <= p < n ==> IndexReadable(at, p)
    }

    /** The colours of pixels 0 .. n-1 of a level that starts at byte `at`. */
    function ColorsOfIndices(at: nat, n: nat): (s: seq<Color32>)
      requires IndicesReadable(at, n)
      ensures |s| == n
    {
      seq(n, p requires 0 <= p < n => ColorOfIndex(at, p))
    }

    /** The pixels of `level` in row-major order. */
    function LevelPixels(level: nat): (s: seq<Color32>)
      requires ImageReadable(level)
      ensures |s| == MipMapWidth(level) * MipMapHeight(level)
    {
      ColorsOfIndices(ImageOffset(level), PixelCount(level))
    }

    /**
     * decodeImage: empty past the last mip level; otherwise every pixel of
     * the level, row by row.
     */
    method DecodeImage(level: nat) returns (result: seq<Color32>)
      requires level < header.mipMapTextures ==> ImageReadable(level)
      ensures level >= header.mipMapTextures ==> result == []
      ensures level < header.mipMapTextures ==> result == LevelPixels(level)
    {
      if level >= header.mipMapTextures {
        return [];
      }
      var width := MipMapWidth(level);
      var height := MipMapHeight(level);
      var pixels := new Color32[width * height](_ => DefaultColor);
      ghost var expected := LevelPixels(level);
      ghost var done := 0;
      var y := 0;
      while y < height
        invariant y <= height && done == y * width && done <= pixels.Length == |expected|
        invariant forall j :: 0 <= j < done ==> pixels[j] == expected[j]
      {
        RowEnd(y, width, height);
        DecodeRow(level, y, width, pixels, expected);
        done := done + width;
        y := y + 1;
      }
      assert done == pixels.Length by { assert height * width == width * height; }
      result := pixels[..];
    }

    /** The inner loop of decodeImage: fill row `y` of the level's pixels. */
    method DecodeRow(level: nat, y: nat, width: nat, pixels: array<Color32>, ghost expected: seq<Color32>)
      requires ImageReadable(level) && y < MipMapHeight(level) && width == MipMapWidth(level)
      requires expected == LevelPixels(level) && pixels.Length == |expected|
      requires y * width + width <= pixels.Length
      requires forall j :: 0 <= j < y * width ==> pixels[j] == expected[j]
      modifies pixels
      ensures forall j :: 0 <= j < y * width + width ==> pixels[j] == expected[j]
    {
      var x := 0;
      while x < width
        invariant x <= width
        invariant forall j :: 0 <= j < y * width + x ==> pixels[j] == expected[j]
      {
        LevelPixelsRowMajor(level, x, y);
        pixels[y * width + x] := PixelColor(x, y, level);
        x := x + 1;
      }
    }

    /** Pixel (x, y) of a readable level is its row-major index's colour. */
    lemma PixelOfIndex(level: nat, x: nat, y: nat)
      requires ImageReadable(level)
      requires x < MipMapWidth(level) && y < MipMapHeight(level)
      ensures PixelIndex(x, y, level) < PixelCount(level)
      ensures PixelReadable(x, y, level)
    {
      var w, h := MipMapWidth(level), MipMapHeight(level);
      var p := PixelIndex(x, y, level);
      RowMajorIndex(x, y, w, h);
      assert p < w * h;
      assert IndexReadable(ImageOffset(level), p);
    }

    /** Entry y * width + x of the decoded level is getPixelColor(x, y, level). */
    lemma LevelPixelsRowMajor(level: nat, x: nat, y: nat)
      requires ImageReadable(level)
      requires x < MipMapWidth(level) && y < MipMapHeight(level)
      ensures PixelReadable(x, y, level)
      ensures y * MipMapWidth(level) + x < |LevelPixels(level)|
      ensures LevelPixels(level)[y * MipMapWidth(level) + x] == PixelColor(x, y, level)
    {
      PixelOfIndex(level, x, y);
      assert PixelIndex(x, y, level) == y * MipMapWidth(level) + x;
    }

    // -------------------------------------------------------------------
    // Properties of the decoder
    // -------------------------------------------------------------------

    /** Level `level` has getMipDimension's size; below level 32 the two shifts agree. */
    lemma MipMapIsMipDimension(level: nat)
      requires level < 32
      ensures MipMapWidth(level) == MipDimension(header.imageWidth, level)
      ensures MipMapHeight(level) == MipDimension(header.imageHeight, level)
    {
      ShiftRightIsDivision(header.imageWidth, level);
      ShiftRightIsDivision(header.imageHeight, level);
    }

    /** Deeper levels are never larger, and no level is larger than the base image. */
    lemma {:induction false} MipMapNonIncreasing(l1: nat, l2: nat)
      requires l1 <= l2
      ensures MipMapWidth(l2) <= MipMapWidth(l1) && MipMapHeight(l2) <= MipMapHeight(l1)
      ensures MipMapWidth(l2) <= Max(1, header.imageWidth) && MipMapHeight(l2) <= Max(1, header.imageHeight)
    {
      ShiftRightSplit(header.imageWidth, l1, l2 - l1);
      ShiftRightSplit(header.imageHeight, l1, l2 - l1);
      ShiftRightAtMost(ShiftRight(header.imageWidth, l1), l2 - l1);
      ShiftRightAtMost(ShiftRight(header.imageHeight, l1), l2 - l1);
      ShiftRightAtMost(header.imageWidth, l2);
      ShiftRightAtMost(header.imageHeight, l2);
    }

    /** With a mipmap header, each listed level starts where the one before it ends. */
    lemma ImageOffsetStep(level: nat)
      requires mipMapHeader.Some?
      ensures var sizes := mipMapHeader.value.sizes;
              ImageOffset(level + 1) == ImageOffset(level) + (if level < |sizes| then sizes[level] else 0)
    {
    }

    /** Later levels never start earlier. */
    lemma {:induction false} ImageOffsetMonotone(l1: nat, l2: nat)
      requires l1 <= l2
      ensures ImageOffset(l1) <= ImageOffset(l2)
      decreases l2 - l1
    {
      if l1 < l2 {
        ImageOffsetMonotone(l1, l2 - 1);
        if mipMapHeader.Some? {
          ImageOffsetStep(l2 - 1);
        }
      }
    }

    /** The palette holds one entry per CLUT colour when there is a CLUT, none otherwise. */
    lemma ClutColorsShape()
      requires header.HasClut() ==> ClutReadable()
      ensures |ClutColors()| == (if header.HasClut() then header.clutColors else 0)
      ensures header.HasClut() ==> forall i :: 0 <= i < header.clutColors ==> ClutColors()[i] == ClutEntry(i)
    {
    }

    /** An index inside the palette selects its entry; one past it gives Color32{}. */
    lemma PaletteLookupEntry(colorIdx: u8)
      requires header.HasClut() && ClutReadable()
      ensures colorIdx as int < header.clutColors ==> PaletteLookup(colorIdx) == ClutEntry(colorIdx as int)
      ensures colorIdx as int >= header.clutColors ==> PaletteLookup(colorIdx) == DefaultColor
    {
    }

    /** In compound CSM1 mode, palette entry i is read from the remapped slot. */
    lemma ClutEntrySlot(i: nat)
      requires ClutReadable() && i < header.clutColors
      ensures IsCsm1Compound() ==> ClutEntry(i) == DecodeColor(header.GetClutPixelFormat(), clutData,
                                                               PixelByte(CompoundRemap(i), header.GetClutPixelFormat()))
      ensures !IsCsm1Compound() ==> ClutEntry(i) == DecodeColor(header.GetClutPixelFormat(), clutData,
                                                                PixelByte(i, header.GetClutPixelFormat()))
    {
    }

    /**
     * A CLUT of clutColors entries rounded up to whole 32-entry blocks has
     * every entry getClutColors reads, the remapped ones included.
     */
    lemma ClutSizeSuffices()
      requires AlignUp(header.clutColors, 32) * Stride(header.GetClutPixelFormat()) <= |clutData|
      ensures ClutReadable()
    {
      var fmt := header.GetClutPixelFormat();
      var bound := AlignUp(header.clutColors, 32);
      forall i | 0 <= i < header.clutColors
        ensures PixelByte(ClutIndex(i), fmt) + Stride(fmt) <= |clutData|
      {
        CompoundRemapStaysInBlock(i, bound);
        StrideBound(ClutIndex(i), bound, fmt);
      }
    }

    /**
     * An image buffer that holds calculateTextureSize bytes from the start of
     * the level has every pixel of the level (given the CLUT for the indexed
     * formats).
     */
    lemma TextureSizeSuffices(level: nat)
      requires header.HasClut() && (header.imageType == TIM2_IDTEX4 || header.imageType == TIM2_IDTEX8)
               ==> ClutReadable()
      requires ImageOffset(level) + CalculateTextureSize(MipMapWidth(level), MipMapHeight(level),
                                                         GetBitsPerPixel(header.imageType)) <= |imageData|
      ensures ImageReadable(level)
    {
      var at, n := ImageOffset(level), PixelCount(level);
      var size := CalculateTextureSize(MipMapWidth(level), MipMapHeight(level), GetBitsPerPixel(header.imageType));
      forall p | 0 <= p < n
        ensures IndexReadable(at, p)
      {
        PixelFits(p, n, header.imageType, size);
      }
    }

    /** An IDTEX8 pixel is the palette entry its byte names, or Color32{} past the palette. */
    lemma Idtex8Pixel(at: nat, p: nat)
      requires header.imageType == TIM2_IDTEX8 && header.HasClut() && IndexReadable(at, p)
      ensures imageData[at + p] as int < header.clutColors
              ==> ColorOfIndex(at, p) == ClutEntry(imageData[at + p] as int)
      ensures imageData[at + p] as int >= header.clutColors ==> ColorOfIndex(at, p) == DefaultColor
    {
      PaletteLookupEntry(imageData[at + p]);
    }

    /** Two neighbouring IDTEX4 pixels share a byte: the even one is its low nibble, the odd one its high nibble. */
    lemma Idtex4Pair(at: nat, q: nat)
      requires header.imageType == TIM2_IDTEX4 && header.HasClut() && IndexReadable(at, 2 * q)
      ensures IndexReadable(at, 2 * q + 1)
      ensures ColorOfIndex(at, 2 * q) == PaletteLookup(imageData[at + q] & 0x0F)
      ensures ColorOfIndex(at, 2 * q + 1) == PaletteLookup(imageData[at + q] >> 4)
    {
      assert (2 * q) / 2 == q && (2 * q + 1) / 2 == q;
      assert (2 * q) % 2 == 0 && (2 * q + 1) % 2 == 1;
    }

    /** Pixels written out as RGB32 bytes at the level's offset decode to themselves. */
    lemma Rgb32RoundTrip(level: nat, pixels: seq<Color32>)
      requires header.imageType == TIM2_RGB32 && |pixels| == PixelCount(level)
      requires ImageOffset(level) + 4 * |pixels| <= |imageData|
      requires imageData[ImageOffset(level)..ImageOffset(level) + 4 * |pixels|] == Rgb32Bytes(pixels)
      ensures ImageReadable(level) && LevelPixels(level) == pixels
    {
      var at := ImageOffset(level);
      forall p | 0 <= p < |pixels|
        ensures IndexReadable(at, p) && ColorOfIndex(at, p) == pixels[p]
      {
        Rgb32Pixel(at, pixels, p);
      }
    }

    /** One pixel of Rgb32RoundTrip. */
    lemma Rgb32Pixel(at: nat, pixels: seq<Color32>, p: nat)
      requires header.imageType == TIM2_RGB32 && p < |pixels|
      requires at + 4 * |pixels| <= |imageData| && imageData[at..at + 4 * |pixels|] == Rgb32Bytes(pixels)
      ensures IndexReadable(at, p) && ColorOfIndex(at, p) == pixels[p]
    {
      assert header.GetImagePixelFormat() == TIM2_RGB32;
      assert at + PixelByte(p, header.GetImagePixelFormat()) == at + 4 * p;
      assert at + 4 * p + 4 <= |imageData|;
      assert ColorOfIndex(at, p) == DecodeColor(TIM2_RGB32, imageData, at + 4 * p);
      Rgb32BytesIn(imageData, at, pixels, p);
    }

    /** Opaque pixels written out as RGB24 bytes at the level's offset decode to themselves. */
    lemma Rgb24RoundTrip(level: nat, pixels: seq<Color32>)
      requires header.imageType == TIM2_RGB24 && |pixels| == PixelCount(level)
      requires forall p :: 0 <= p < |pixels| ==> pixels[p].a == 255
      requires ImageOffset(level) + 3 * |pixels| <= |imageData|
      requires imageData[ImageOffset(level)..ImageOffset(level) + 3 * |pixels|] == Rgb24Bytes(pixels)
      ensures ImageReadable(level) && LevelPixels(level) == pixels
    {
      var at := ImageOffset(level);
      forall p | 0 <= p < |pixels|
        ensures IndexReadable(at, p) && ColorOfIndex(at, p) == pixels[p]
      {
        Rgb24Pixel(at, pixels, p);
      }
    }

    /** One pixel of Rgb24RoundTrip: three bytes at stride 3, alpha 255. */
    lemma Rgb24Pixel(at: nat, pixels: seq<Color32>, p: nat)
      requires header.imageType == TIM2_RGB24 && p < |pixels| && pixels[p].a == 255
      requires at + 3 * |pixels| <= |imageData| && imageData[at..at + 3 * |pixels|] == Rgb24Bytes(pixels)
      ensures IndexReadable(at, p) && ColorOfIndex(at, p) == pixels[p]
    {
      assert header.GetImagePixelFormat() == TIM2_RGB24;
      TrueColorIndex(at, p);
      Rgb24BytesIn(imageData, at, pixels, p);
    }

    /** RGB16 pixels are the little-endian words at stride 2, each widened by toColor32. */
    lemma Rgb16Words(level: nat, words: seq<u16>)
      requires header.imageType == TIM2_RGB16 && |words| == PixelCount(level)
      requires ImageOffset(level) + 2 * |words| <= |imageData|
      requires imageData[ImageOffset(level)..ImageOffset(level) + 2 * |words|] == Rgb16Bytes(words)
      ensures ImageReadable(level)
      ensures |LevelPixels(level)| == |words|
      ensures forall p :: 0 <= p < |words| ==> LevelPixels(level)[p] == Color16(words[p]).ToColor32()
    {
      var at := ImageOffset(level);
      forall p | 0 <= p < |words|
        ensures IndexReadable(at, p) && ColorOfIndex(at, p) == Color16(words[p]).ToColor32()
      {
        Rgb16Pixel(at, words, p);
      }
    }

    /** One pixel of Rgb16Words. */
    lemma Rgb16Pixel(at: nat, words: seq<u16>, p: nat)
      requires header.imageType == TIM2_RGB16 && p < |words|
      requires at + 2 * |words| <= |imageData| && imageData[at..at + 2 * |words|] == Rgb16Bytes(words)
      ensures IndexReadable(at, p) && ColorOfIndex(at, p) == Color16(words[p]).ToColor32()
    {
      assert header.GetImagePixelFormat() == TIM2_RGB16;
      TrueColorIndex(at, p);
      Rgb16BytesIn(imageData, at, words, p);
    }

    /** A true-colour pixel is readable when its bytes are, and is the colour they encode. */
    lemma TrueColorIndex(at: nat, p: nat)
      requires TIM2_RGB16 <= header.GetImagePixelFormat() <= TIM2_RGB32
      ensures var fmt := header.GetImagePixelFormat();
        IndexReadable(at, p) <==> at + PixelByte(p, fmt) + Stride(fmt) <= |imageData|
      ensures var fmt := header.GetImagePixelFormat();
        at + PixelByte(p, fmt) + Stride(fmt) <= |imageData| ==>
          ColorOfIndex(at, p) == DecodeColor(fmt, imageData, at + PixelByte(p, fmt))
    {
    }

    /**
     * A pixel of an unknown format, or of an indexed format without a CLUT,
     * reads no bytes and is Color32{}.
     */
    lemma UndecodedPixel(at: nat, p: nat)
      requires !(TIM2_RGB16 <= header.imageType <= TIM2_IDTEX8)
               || ((header.imageType == TIM2_IDTEX4 || header.imageType == TIM2_IDTEX8) && !header.HasClut())
      ensures IndexReadable(at, p) && ColorOfIndex(at, p) == DefaultColor
    {
    }

    /** A CLUT in a format getClutColors does not know gives Color32{} entries. */
    lemma UndecodedClutEntry(i: nat)
      requires !(TIM2_RGB16 <= header.GetClutPixelFormat() <= TIM2_RGB32)
      requires ClutReadable() && i < header.clutColors
      ensures ClutEntry(i) == DefaultColor
    {
    }
  }

  // ---------------------------------------------------------------------
  // Helpers shared by the CLUT and the pixel decoders
  // ---------------------------------------------------------------------

  /** sum of sizes[0..n]. */
  function SumPrefix(sizes: seq<uint32>, n: nat): nat
    requires n <= |sizes|
  {
    if n == 0 then 0 else SumPrefix(sizes, n - 1) + sizes[n - 1]
  }

  /** Within each block of 32, local slots [8,16) and [16,24) trade places. */
  function CompoundRemap(i: nat): (slot: nat)
  {
    var block := i / 32;
    var localIdx := i % 32;
    var moved := if 8 <= localIdx < 16 then localIdx + 8 else if 16 <= localIdx < 24 then localIdx - 8 else localIdx;
    block * 32 + moved
  }

  /** The remap is its own inverse and keeps every index in its block of 32. */
  lemma CompoundRemapInvolution(i: nat)
    ensures CompoundRemap(CompoundRemap(i)) == i
    ensures CompoundRemap(i) / 32 == i / 32
  {
    var block, localIdx := i / 32, i % 32;
    var moved := if 8 <= localIdx < 16 then localIdx + 8 else if 16 <= localIdx < 24 then localIdx - 8 else localIdx;
    DivUnique(block * 32 + moved, 32, block, moved);
  }

  /** Slots 8-15 of each block move up by 8, slots 16-23 down by 8, the rest stay. */
  lemma CompoundRemapMoves(i: nat)
    ensures 8 <= i % 32 < 16 ==> CompoundRemap(i) == i + 8
    ensures 16 <= i % 32 < 24 ==> CompoundRemap(i) == i - 8
    ensures i % 32 < 8 || 24 <= i % 32 ==> CompoundRemap(i) == i
  {
    DivModDef(i, 32);
  }

  /** Below a whole number of blocks, the remapped slot is below it too. */
  lemma CompoundRemapStaysInBlock(i: nat, bound: nat)
    requires i < bound && bound % 32 == 0
    ensures CompoundRemap(i) < bound
  {
    var block := i / 32;
    DivModDef(i, 32);
    DivModDef(bound, 32);
    assert block < bound / 32;
  }

  /** A slot below `bound` has its bytes inside `bound` entries. */
  lemma StrideBound(index: nat, bound: nat, fmt: u8)
    requires index < bound
    ensures PixelByte(index, fmt) + Stride(fmt) <= bound * Stride(fmt)
  {
  }

  /** Pixel p of n fits in calculateTextureSize bytes of its format. */
  lemma PixelFits(p: nat, n: nat, fmt: u8, size: nat)
    requires p < n && size * 8 >= n * GetBitsPerPixel(fmt)
    ensures fmt == TIM2_IDTEX8 ==> p < size
    ensures fmt == TIM2_IDTEX4 ==> p / 2 < size
    ensures fmt != TIM2_IDTEX8 && fmt != TIM2_IDTEX4 ==> PixelByte(p, fmt) + Stride(fmt) <= size
  {
  }

  /** The RGB32 bytes of a row-major pixel sequence: r, g, b, a per pixel. */
  function Rgb32Bytes(colors: seq<Color32>): (b: seq<u8>)
    ensures |b| == 4 * |colors|
  {
    if |colors| == 0 then [] else [colors[0].r, colors[0].g, colors[0].b, colors[0].a] + Rgb32Bytes(colors[1..])
  }

  /** Colour i of the RGB32 bytes reads back as the i-th colour. */
  lemma {:induction false} Rgb32BytesAt(colors: seq<Color32>, i: nat)
    requires i < |colors|
    ensures DecodeColor(TIM2_RGB32, Rgb32Bytes(colors), 4 * i) == colors[i]
  {
    if i > 0 {
      Rgb32BytesAt(colors[1..], i - 1);
    }
  }

  /** Colour p of RGB32 bytes stored at `at` in a buffer reads back as the p-th colour. */
  lemma Rgb32BytesIn(data: seq<u8>, at: nat, colors: seq<Color32>, p: nat)
    requires p < |colors| && at + 4 * |colors| <= |data| && data[at..at + 4 * |colors|] == Rgb32Bytes(colors)
    ensures DecodeColor(TIM2_RGB32, data, at + 4 * p) == colors[p]
  {
    Rgb32BytesAt(colors, p);
    DecodeColorInSlice(TIM2_RGB32, data, at, 4 * |colors|, 4 * p);
  }

  /** The RGB24 bytes of a row-major pixel sequence: r, g, b per pixel. */
  function Rgb24Bytes(colors: seq<Color32>): (b: seq<u8>)
    ensures |b| == 3 * |colors|
  {
    if |colors| == 0 then [] else [colors[0].r, colors[0].g, colors[0].b] + Rgb24Bytes(colors[1..])
  }

  /** Colour i of the RGB24 bytes reads back as the i-th colour made opaque. */
  lemma {:induction false} Rgb24BytesAt(colors: seq<Color32>, i: nat)
    requires i < |colors|
    ensures DecodeColor(TIM2_RGB24, Rgb24Bytes(colors), 3 * i) == colors[i].(a := 255)
  {
    if i > 0 {
      Rgb24BytesAt(colors[1..], i - 1);
    }
  }

  /** Colour p of RGB24 bytes stored at `at` in a buffer reads back as the p-th colour made opaque. */
  lemma Rgb24BytesIn(data: seq<u8>, at: nat, colors: seq<Color32>, p: nat)
    requires p < |colors| && at + 3 * |colors| <= |data| && data[at..at + 3 * |colors|] == Rgb24Bytes(colors)
    ensures DecodeColor(TIM2_RGB24, data, at + 3 * p) == colors[p].(a := 255)
  {
    Rgb24BytesAt(colors, p);
    DecodeColorInSlice(TIM2_RGB24, data, at, 3 * |colors|, 3 * p);
  }

  /** The RGB16 bytes of a row-major sequence of 16-bit colours: each word little-endian. */
  function Rgb16Bytes(words: seq<u16>): (b: seq<u8>)
    ensures |b| == 2 * |words|
  {
    if |words| == 0 then [] else LeBytes16(words[0]) + Rgb16Bytes(words[1..])
  }

  /** Word i of the RGB16 bytes reads back as the i-th word. */
  lemma {:induction false} Rgb16BytesAt(words: seq<u16>, i: nat)
    requires i < |words|
    ensures U16At(Rgb16Bytes(words), 2 * i) == words[i]
  {
    if i > 0 {
      Rgb16BytesAt(words[1..], i - 1);
      ReadSuffix(LeBytes16(words[0]), Rgb16Bytes(words[1..]), 2 * (i - 1));
    } else {
      LeBytesRoundTrip(words[0], 0, 0);
      ReadPrefix(LeBytes16(words[0]), Rgb16Bytes(words[1..]), 0);
    }
  }

  /** Pixel p of RGB16 bytes stored at `at` in a buffer is the p-th word widened. */
  lemma Rgb16BytesIn(data: seq<u8>, at: nat, words: seq<u16>, p: nat)
    requires p < |words| && at + 2 * |words| <= |data| && data[at..at + 2 * |words|] == Rgb16Bytes(words)
    ensures DecodeColor(TIM2_RGB16, data, at + 2 * p) == Color16(words[p]).ToColor32()
  {
    Rgb16BytesAt(words, p);
    DecodeColorInSlice(TIM2_RGB16, data, at, 2 * |words|, 2 * p);
  }

  /**
   * getBitsPerPixel agrees with what the decoder reads per pixel: eight bits
   * per byte of a true-colour pixel, one byte per IDTEX8 pixel and half a
   * byte per IDTEX4 pixel.
   */
  lemma BitsPerPixelIsStride(fmt: u8)
    ensures TIM2_RGB16 <= fmt <= TIM2_RGB32 ==> Stride(fmt) > 0 && GetBitsPerPixel(fmt) == 8 * Stride(fmt)
    ensures fmt == TIM2_RGB16 ==> GetBitsPerPixel(fmt) == 16
    ensures fmt == TIM2_RGB24 ==> GetBitsPerPixel(fmt) == 24
    ensures fmt == TIM2_RGB32 ==> GetBitsPerPixel(fmt) == 32
    ensures fmt == TIM2_IDTEX8 ==> GetBitsPerPixel(fmt) == 8
    ensures fmt == TIM2_IDTEX4 ==> GetBitsPerPixel(fmt) == 4
    ensures !(TIM2_RGB16 <= fmt <= TIM2_IDTEX8) ==> GetBitsPerPixel(fmt) == 0 && Stride(fmt) == 0
  {
  }

  /** A colour read from a slice is the same read from the whole buffer. */
  lemma DecodeColorInSlice(fmt: u8, data: seq<u8>, at: nat, n: nat, i: nat)
    requires at + n <= |data| && i + Stride(fmt) <= n
    ensures DecodeColor(fmt, data, at + i) == DecodeColor(fmt, data[at..at + n], i)
  {
  }

  /** The first byte of colour `p` in a true-colour format. */
  function PixelByte(p: nat, fmt: u8): nat
  {
    if fmt == TIM2_RGB32 then p * 4 else if fmt == TIM2_RGB24 then p * 3 else if fmt == TIM2_RGB16 then p * 2 else 0
  }

  /** Bytes per colour of a true-colour format; 0 for the others. */
  function Stride(fmt: u8): nat
  {
    if fmt == TIM2_RGB32 then 4 else if fmt == TIM2_RGB24 then 3 else if fmt == TIM2_RGB16 then 2 else 0
  }

  /** The colour stored at byte `at` in format `fmt`, or Color32{} for a format without one. */
  function DecodeColor(fmt: u8, data: seq<u8>, at: nat): (c: Color32)
    requires Stride(fmt) > 0 ==> at + Stride(fmt) <= |data|
  {
    if fmt == TIM2_RGB32 then Color32(data[at], data[at + 1], data[at + 2], data[at + 3])
    else if fmt == TIM2_RGB24 then Color32(data[at], data[at + 1], data[at + 2], 255)
    else if fmt == TIM2_RGB16 then Color16(U16At(data, at)).ToColor32()
    else DefaultColor
  }

  /** Row y of a width x height image ends inside the image, where row y + 1 starts. */
  lemma RowEnd(y: nat, width: nat, height: nat)
    requires y < height
    ensures y * width + width <= width * height
    ensures (y + 1) * width == y * width + width
  {
    if width > 0 {
      MulAtLeastFactor(height - y, width);
      assert (height - y) * width == width * height - y * width;
    }
  }

  /** Position y * width + x lies inside the image and maps back to (x, y). */
  lemma RowMajorIndex(x: nat, y: nat, width: nat, height: nat)
    requires x < width && y < height
    ensures y * width + x < width * height
    ensures (y * width + x) % width == x && (y * width + x) / width == y
  {
    DivUnique(y * width + x, width, y, x);
    MulAtLeastFactor(height - y, width);
    assert (height - y) * width == width * height - y * width;
  }
}
