/**
 * The fixed TIM2 records (src/tim2_types.h): the 16-byte file header, the
 * 48-byte picture header, the mipmap and extended headers, the GS register
 * field views, and the colour records with the RGB555+A conversion.
 *
 * The packed C++ structs are read from the file with `reinterpret_cast`;
 * here each record is decoded from its bytes at the struct's field offsets,
 * little-endian, and encoded back, and the two are proved inverse.
 */
module Tim2Types {
  import opened Utils

  const TIM2_FORMAT_VERSION: u8 := 0x04
  const TIM2_ALIGN_16: u8 := 0x00
  const TIM2_ALIGN_128: u8 := 0x01

  // PixelFormat: the image type, or the low six bits of the CLUT type.
  const TIM2_NONE: u8 := 0x00
  const TIM2_RGB16: u8 := 0x01
  const TIM2_RGB24: u8 := 0x02
  const TIM2_RGB32: u8 := 0x03
  const TIM2_IDTEX4: u8 := 0x04
  const TIM2_IDTEX8: u8 := 0x05

  // ClutMode: bit 7 of the CLUT type.
  const CLUT_CSM1: u8 := 0x00
  const CLUT_CSM2: u8 := 0x80

  const FILE_HEADER_SIZE: nat := 16
  const PICTURE_HEADER_SIZE: nat := 48
  const EXTENDED_HEADER_SIZE: nat := 16

  /** 'T','I','M','2' */
  const TIM2_ID: seq<u8> := [0x54, 0x49, 0x4D, 0x32]
  /** 'e','X','t','\0' */
  const EXT_ID: seq<u8> := [0x65, 0x58, 0x74, 0x00]

  // ---------------------------------------------------------------------
  // File header: id 0-3, version 4, format id 5, picture count 6-7,
  // reserved 8-15.
  // ---------------------------------------------------------------------

  datatype FileHeader = FileHeader(
    fileId: seq<u8>,
    formatVersion: u8,
    formatId: u8,
    pictures: uint16,
    reserved: seq<u8>)
  {
    /** The char arrays have their declared lengths. */
    predicate WellFormed() { |fileId| == 4 && |reserved| == 8 }

    /** isValid: the id spells "TIM2". */
    predicate IsValid() { fileId == TIM2_ID }

    /** getAlignment: 128 for the 128-byte format id, 16 for every other. */
    function GetAlignment(): (r: nat)
      ensures r == 128 <==> formatId == TIM2_ALIGN_128
      ensures r == 128 || r == 16
    {
      if formatId == TIM2_ALIGN_128 then 128 else 16
    }

    /** The 16 bytes of the packed struct. */
    function Bytes(): (b: seq<u8>)
      requires WellFormed()
      ensures |b| == FILE_HEADER_SIZE
    {
      fileId + [formatVersion, formatId] + NumBytes16(pictures) + reserved
    }
  }

  /** The header as the packed struct lays it over 16 bytes. */
  function FileHeaderOf(b: seq<u8>): (h: FileHeader)
    requires |b| == FILE_HEADER_SIZE
    ensures h.WellFormed()
  {
    FileHeader(b[0..4], b[4], b[5], Num16At(b, 6), b[8..16])
  }

  /** The signature test looks at exactly bytes 0-3. */
  lemma FileHeaderValidIff(b: seq<u8>)
    requires |b| == FILE_HEADER_SIZE
    ensures FileHeaderOf(b).IsValid() <==> b[0] == 0x54 && b[1] == 0x49 && b[2] == 0x4D && b[3] == 0x32
  {
    if b[0] == 0x54 && b[1] == 0x49 && b[2] == 0x4D && b[3] == 0x32 {
      assert b[0..4] == TIM2_ID;
    }
  }

  /** Decoding the encoded header gives the header back. */
  lemma FileHeaderDecodeEncode(h: FileHeader)
    requires h.WellFormed()
    ensures FileHeaderOf(h.Bytes()) == h
  {
    var b := h.Bytes();
    assert b[0..4] == h.fileId;
    assert b[8..16] == h.reserved;
    assert b[6..8] == NumBytes16(h.pictures);
    Num16AtBytes(b, 6, h.pictures);
  }

  /** Encoding the decoded header gives the bytes back. */
  lemma FileHeaderEncodeDecode(b: seq<u8>)
    requires |b| == FILE_HEADER_SIZE
    ensures FileHeaderOf(b).Bytes() == b
  {
    var h := FileHeaderOf(b);
    Bytes16RoundTrip(b, 6);
    assert b == b[0..4] + [b[4], b[5]] + b[6..8] + b[8..16];
  }

  // ---------------------------------------------------------------------
  // Picture header (48 bytes).
  // ---------------------------------------------------------------------

  datatype PictureHeader = PictureHeader(
    totalSize: uint32,      // offset 0
    clutSize: uint32,       // offset 4
    imageSize: uint32,      // offset 8
    headerSize: uint16,     // offset 12
    clutColors: uint16,     // offset 14
    pictFormat: u8,         // offset 16
    mipMapTextures: uint8,  // offset 17
    clutType: u8,           // offset 18
    imageType: u8,          // offset 19
    imageWidth: uint16,     // offset 20
    imageHeight: uint16,    // offset 22
    gsTex0: u64,         // offset 24
    gsTex1: u64,         // offset 32
    gsTexaFbaPabe: u32,  // offset 40
    gsTexClut: u32)      // offset 44
  {
    function GetImagePixelFormat(): u8 { imageType }

    /** getClutPixelFormat: the low six bits of the CLUT type. */
    function GetClutPixelFormat(): (f: u8)
      ensures f < 64
      ensures f | (clutType & 0xC0) == clutType
    {
      clutType & 0x3F
    }

    /** isClutCSM2: bit 7 of the CLUT type. */
    predicate IsClutCSM2() { clutType & CLUT_CSM2 != 0 }

    /** isClutCompound: bit 6 of the CLUT type. */
    predicate IsClutCompound() { clutType & 0x40 != 0 }

    /** hasClut: there are CLUT bytes and they have a pixel format. */
    predicate HasClut() { clutSize > 0 && GetClutPixelFormat() != TIM2_NONE }

    /** hasMipMaps: more than the base level. */
    predicate HasMipMaps() { mipMapTextures > 1 }

    /** The 48 bytes of the packed struct. */
    function Bytes(): (b: seq<u8>)
      ensures |b| == PICTURE_HEADER_SIZE
    {
      SizeBytes() + ShapeBytes() + RegisterBytes()
    }

    /** Bytes 0-15: the three sizes, the header size and the colour count. */
    function SizeBytes(): (b: seq<u8>)
      ensures |b| == 16
    {
      NumBytes32(totalSize) + NumBytes32(clutSize) + NumBytes32(imageSize)
      + NumBytes16(headerSize) + NumBytes16(clutColors)
    }

    /** Bytes 16-23: the four format bytes and the dimensions. */
    function ShapeBytes(): (b: seq<u8>)
      ensures |b| == 8
    {
      [pictFormat, ByteOf(mipMapTextures), clutType, imageType] + NumBytes16(imageWidth) + NumBytes16(imageHeight)
    }

    /** Bytes 24-47: the GS registers. */
    function RegisterBytes(): (b: seq<u8>)
      ensures |b| == 24
    {
      LeBytes64(gsTex0) + LeBytes64(gsTex1) + LeBytes32(gsTexaFbaPabe) + LeBytes32(gsTexClut)
    }
  }

  /** The header as the packed struct lays it over 48 bytes. */
  function PictureHeaderOf(b: seq<u8>): (h: PictureHeader)
    requires |b| == PICTURE_HEADER_SIZE
  {
    PictureHeader(
      Num32At(b, 0), Num32At(b, 4), Num32At(b, 8),
      Num16At(b, 12), Num16At(b, 14),
      b[16], b[17] as int, b[18], b[19],
      Num16At(b, 20), Num16At(b, 22),
      U64At(b, 24), U64At(b, 32),
      U32At(b, 40), U32At(b, 44))
  }

  /** The CLUT type splits into the mode bit, the compound bit and the format. */
  lemma ClutTypeSplits(h: PictureHeader)
    ensures h.clutType == (if h.IsClutCSM2() then 0x80 else 0) | (if h.IsClutCompound() then 0x40 else 0)
                          | h.GetClutPixelFormat()
  {
  }

  /** Decoding the encoded header gives the header back. */
  lemma PictureHeaderDecodeEncode(h: PictureHeader)
    ensures PictureHeaderOf(h.Bytes()) == h
  {
    DecodeSizes(h);
    DecodeCounts(h);
    DecodeShape(h);
    DecodeTexRegisters(h);
    DecodeOtherRegisters(h);
  }

  lemma DecodeSizes(h: PictureHeader)
    ensures Num32At(h.Bytes(), 0) == h.totalSize && Num32At(h.Bytes(), 4) == h.clutSize
  {
    var c := h.SizeBytes();
    assert c[0..4] == NumBytes32(h.totalSize);
    assert c[4..8] == NumBytes32(h.clutSize);
    Num32AtBytes(c, 0, h.totalSize);
    Num32AtBytes(c, 4, h.clutSize);
    InGroup(h, 0);
    InGroup(h, 4);
  }

  lemma DecodeCounts(h: PictureHeader)
    ensures Num32At(h.Bytes(), 8) == h.imageSize
    ensures Num16At(h.Bytes(), 12) == h.headerSize && Num16At(h.Bytes(), 14) == h.clutColors
  {
    var c := h.SizeBytes();
    assert c[8..12] == NumBytes32(h.imageSize);
    assert c[12..14] == NumBytes16(h.headerSize);
    assert c[14..16] == NumBytes16(h.clutColors);
    Num32AtBytes(c, 8, h.imageSize);
    Num16AtBytes(c, 12, h.headerSize);
    Num16AtBytes(c, 14, h.clutColors);
    InGroup(h, 8);
    InGroup(h, 12);
    InGroup(h, 14);
  }

  lemma DecodeShape(h: PictureHeader)
    ensures h.Bytes()[16] == h.pictFormat && h.Bytes()[17] as int == h.mipMapTextures
    ensures h.Bytes()[18] == h.clutType && h.Bytes()[19] == h.imageType
    ensures Num16At(h.Bytes(), 20) == h.imageWidth && Num16At(h.Bytes(), 22) == h.imageHeight
  {
    var c := h.ShapeBytes();
    assert c[4..6] == NumBytes16(h.imageWidth);
    assert c[6..8] == NumBytes16(h.imageHeight);
    Num16AtBytes(c, 4, h.imageWidth);
    Num16AtBytes(c, 6, h.imageHeight);
    ByteOfValue(h.mipMapTextures);
    InGroup(h, 20);
    InGroup(h, 22);
    assert h.Bytes()[16..24] == c;
  }

  lemma DecodeTexRegisters(h: PictureHeader)
    ensures U64At(h.Bytes(), 24) == h.gsTex0 && U64At(h.Bytes(), 32) == h.gsTex1
  {
    var c := h.RegisterBytes();
    assert c[0..8] == LeBytes64(h.gsTex0);
    assert c[8..16] == LeBytes64(h.gsTex1);
    U64AtBytes(c, 0, h.gsTex0);
    U64AtBytes(c, 8, h.gsTex1);
    InGroup(h, 24);
    InGroup(h, 32);
  }

  lemma DecodeOtherRegisters(h: PictureHeader)
    ensures U32At(h.Bytes(), 40) == h.gsTexaFbaPabe && U32At(h.Bytes(), 44) == h.gsTexClut
  {
    var c := h.RegisterBytes();
    assert c[16..20] == LeBytes32(h.gsTexaFbaPabe);
    assert c[20..24] == LeBytes32(h.gsTexClut);
    U32AtBytes(c, 16, h.gsTexaFbaPabe);
    U32AtBytes(c, 20, h.gsTexClut);
    InGroup(h, 40);
    InGroup(h, 44);
  }

  /** A field read from the whole header is the same read from its group of fields. */
  lemma InGroup(h: PictureHeader, i: nat)
    ensures i + 2 <= 16 ==> Num16At(h.Bytes(), i) == Num16At(h.SizeBytes(), i)
    ensures i + 4 <= 16 ==> Num32At(h.Bytes(), i) == Num32At(h.SizeBytes(), i)
    ensures 16 <= i && i + 2 <= 24 ==> Num16At(h.Bytes(), i) == Num16At(h.ShapeBytes(), i - 16)
    ensures 24 <= i && i + 4 <= 48 ==> U32At(h.Bytes(), i) == U32At(h.RegisterBytes(), i - 24)
    ensures 24 <= i && i + 8 <= 48 ==> U64At(h.Bytes(), i) == U64At(h.RegisterBytes(), i - 24)
  {
    var s, t, r := h.SizeBytes(), h.ShapeBytes(), h.RegisterBytes();
    ReadPrefix(s + t, r, i);
    ReadPrefix(s, t, i);
    if i >= 16 {
      ReadSuffix(s, t, i - 16);
      NumReadSuffix(s, t, i - 16);
    }
    if i >= 24 {
      ReadSuffix(s + t, r, i - 24);
    }
  }

  /** Encoding the decoded header gives the bytes back. */
  lemma PictureHeaderEncodeDecode(b: seq<u8>)
    requires |b| == PICTURE_HEADER_SIZE
    ensures PictureHeaderOf(b).Bytes() == b
  {
    EncodeSizes(b);
    EncodeShape(b);
    EncodeRegisters(b);
    ConcatSlices(b, 0, 16, 24);
    ConcatSlices(b, 0, 24, 48);
    assert b[0..48] == b;
  }

  lemma EncodeSizes(b: seq<u8>)
    requires |b| == PICTURE_HEADER_SIZE
    ensures PictureHeaderOf(b).SizeBytes() == b[0..16]
  {
    Bytes32RoundTrip(b, 0);
    Bytes32RoundTrip(b, 4);
    Bytes32RoundTrip(b, 8);
    Bytes16RoundTrip(b, 12);
    Bytes16RoundTrip(b, 14);
    ConcatSlices(b, 0, 4, 8);
    ConcatSlices(b, 0, 8, 12);
    ConcatSlices(b, 0, 12, 14);
    ConcatSlices(b, 0, 14, 16);
  }

  lemma EncodeShape(b: seq<u8>)
    requires |b| == PICTURE_HEADER_SIZE
    ensures PictureHeaderOf(b).ShapeBytes() == b[16..24]
  {
    var h := PictureHeaderOf(b);
    ByteOfNumber(b[17]);
    assert [h.pictFormat, ByteOf(h.mipMapTextures), h.clutType, h.imageType] == b[16..20];
    Bytes16RoundTrip(b, 20);
    Bytes16RoundTrip(b, 22);
    ConcatSlices(b, 16, 20, 22);
    ConcatSlices(b, 16, 22, 24);
  }

  lemma EncodeRegisters(b: seq<u8>)
    requires |b| == PICTURE_HEADER_SIZE
    ensures PictureHeaderOf(b).RegisterBytes() == b[24..48]
  {
    Read64Bytes(b, 24);
    Read64Bytes(b, 32);
    Read32Bytes(b, 40);
    Read32Bytes(b, 44);
    ConcatSlices(b, 24, 32, 40);
    ConcatSlices(b, 24, 40, 44);
    ConcatSlices(b, 24, 44, 48);
  }

  lemma ConcatSlices(b: seq<u8>, i: nat, j: nat, k: nat)
    requires i <= j <= k <= |b|
    ensures b[i..j] + b[j..k] == b[i..k]
  {
  }

  // ---------------------------------------------------------------------
  // Mipmap header and extended header.
  // ---------------------------------------------------------------------

  /** Two GS registers and one byte size per level, level 0 included. */
  datatype MipMapHeader = MipMapHeader(gsMiptbp1: u64, gsMiptbp2: u64, sizes: seq<uint32>)

  datatype ExtendedHeader = ExtendedHeader(
    exHeaderId: seq<u8>,
    userSpaceSize: uint32,
    userDataSize: uint32,
    reserved: u32)
  {
    /** isValid: the id spells "eXt\0". */
    predicate IsValid() { exHeaderId == EXT_ID }

    /** The id has its declared length. */
    predicate WellFormed() { |exHeaderId| == 4 }

    /** The 16 bytes of the packed struct. */
    function Bytes(): (b: seq<u8>)
      requires WellFormed()
      ensures |b| == EXTENDED_HEADER_SIZE
    {
      exHeaderId + NumBytes32(userSpaceSize) + NumBytes32(userDataSize) + LeBytes32(reserved)
    }
  }

  /** The extended header as the packed struct lays it over the first 16 bytes. */
  function ExtendedHeaderOf(b: seq<u8>): (e: ExtendedHeader)
    requires |b| >= EXTENDED_HEADER_SIZE
    ensures |e.exHeaderId| == 4
  {
    ExtendedHeader(b[0..4], Num32At(b, 4), Num32At(b, 8), U32At(b, 12))
  }

  /** Decoding the encoded extended header gives the header back. */
  lemma ExtendedHeaderDecodeEncode(e: ExtendedHeader)
    requires e.WellFormed()
    ensures ExtendedHeaderOf(e.Bytes()) == e
  {
    var b := e.Bytes();
    assert b[0..4] == e.exHeaderId;
    assert b[4..8] == NumBytes32(e.userSpaceSize);
    assert b[8..12] == NumBytes32(e.userDataSize);
    assert b[12..16] == LeBytes32(e.reserved);
    Num32AtBytes(b, 4, e.userSpaceSize);
    Num32AtBytes(b, 8, e.userDataSize);
    U32AtBytes(b, 12, e.reserved);
  }

  /** Encoding the decoded extended header gives its 16 bytes back. */
  lemma ExtendedHeaderEncodeDecode(b: seq<u8>)
    requires |b| >= EXTENDED_HEADER_SIZE
    ensures ExtendedHeaderOf(b).Bytes() == b[..EXTENDED_HEADER_SIZE]
  {
    Bytes32RoundTrip(b, 4);
    Bytes32RoundTrip(b, 8);
    Read32Bytes(b, 12);
    assert b[..16] == b[0..4] + b[4..8] + b[8..12] + b[12..16];
  }

  /** The signature test looks at exactly bytes 0-3, the NUL included. */
  lemma ExtendedHeaderValidIff(b: seq<u8>)
    requires |b| >= EXTENDED_HEADER_SIZE
    ensures ExtendedHeaderOf(b).IsValid() <==> b[0] == 0x65 && b[1] == 0x58 && b[2] == 0x74 && b[3] == 0
  {
    if b[0] == 0x65 && b[1] == 0x58 && b[2] == 0x74 && b[3] == 0 {
      assert b[0..4] == EXT_ID;
    }
  }

  // ---------------------------------------------------------------------
  // GS register field views.
  // ---------------------------------------------------------------------

  datatype GsTex0Fields = GsTex0Fields(
    tbp0: u16, tbw: u8, psm: u8, tw: u8, th: u8, tcc: u8, tfx: u8,
    cbp: u16, cpsm: u8, csm: u8, csa: u8, cld: u8)

  /** GsTex0Fields::parse: each field is the masked bit range of TEX0. */
  function ParseGsTex0(tex0: u64): (f: GsTex0Fields)
    ensures f.tbp0 < 0x4000 && f.tbw < 64 && f.psm < 64 && f.tw < 16 && f.th < 16
    ensures f.tcc <= 1 && f.tfx < 4 && f.cbp < 0x4000 && f.cpsm < 16 && f.csm <= 1
    ensures f.csa < 32 && f.cld < 8
  {
    GsTex0Fields(
      (tex0 & 0x3FFF) as u16,
      ((tex0 >> 14) & 0x3F) as u8,
      ((tex0 >> 20) & 0x3F) as u8,
      ((tex0 >> 26) & 0x0F) as u8,
      ((tex0 >> 30) & 0x0F) as u8,
      ((tex0 >> 34) & 0x01) as u8,
      ((tex0 >> 35) & 0x03) as u8,
      ((tex0 >> 37) & 0x3FFF) as u16,
      ((tex0 >> 51) & 0x0F) as u8,
      ((tex0 >> 55) & 0x01) as u8,
      ((tex0 >> 56) & 0x1F) as u8,
      ((tex0 >> 61) & 0x07) as u8)
  }

  /** Each TEX0 field is extractBits of its bit range. */
  lemma GsTex0BitRanges(tex0: u64)
    ensures ParseGsTex0(tex0).tbp0 as u32 == ExtractBits(tex0, 0, 14)
    ensures ParseGsTex0(tex0).tbw as u32 == ExtractBits(tex0, 14, 6)
    ensures ParseGsTex0(tex0).psm as u32 == ExtractBits(tex0, 20, 6)
    ensures ParseGsTex0(tex0).tw as u32 == ExtractBits(tex0, 26, 4)
    ensures ParseGsTex0(tex0).th as u32 == ExtractBits(tex0, 30, 4)
    ensures ParseGsTex0(tex0).tcc as u32 == ExtractBits(tex0, 34, 1)
    ensures ParseGsTex0(tex0).tfx as u32 == ExtractBits(tex0, 35, 2)
    ensures ParseGsTex0(tex0).cbp as u32 == ExtractBits(tex0, 37, 14)
    ensures ParseGsTex0(tex0).cpsm as u32 == ExtractBits(tex0, 51, 4)
    ensures ParseGsTex0(tex0).csm as u32 == ExtractBits(tex0, 55, 1)
    ensures ParseGsTex0(tex0).csa as u32 == ExtractBits(tex0, 56, 5)
    ensures ParseGsTex0(tex0).cld as u32 == ExtractBits(tex0, 61, 3)
  {
  }

  datatype GsTex1Fields = GsTex1Fields(lcm: u8, mxl: u8, mmag: u8, mmin: u8, mtba: u8, l: u16, k: u16)

  /** GsTex1Fields::parse: each field is the masked bit range of TEX1. */
  function ParseGsTex1(tex1: u64): (f: GsTex1Fields)
    ensures f.lcm <= 1 && f.mxl < 8 && f.mmag <= 1 && f.mmin < 8 && f.mtba <= 1 && f.l < 4 && f.k < 4096
  {
    GsTex1Fields(
      (tex1 & 0x01) as u8,
      ((tex1 >> 2) & 0x07) as u8,
      ((tex1 >> 5) & 0x01) as u8,
      ((tex1 >> 6) & 0x07) as u8,
      ((tex1 >> 9) & 0x01) as u8,
      ((tex1 >> 19) & 0x03) as u16,
      ((tex1 >> 32) & 0xFFF) as u16)
  }

  /** Each TEX1 field is extractBits of its bit range. */
  lemma GsTex1BitRanges(tex1: u64)
    ensures ParseGsTex1(tex1).lcm as u32 == ExtractBits(tex1, 0, 1)
    ensures ParseGsTex1(tex1).mxl as u32 == ExtractBits(tex1, 2, 3)
    ensures ParseGsTex1(tex1).mmag as u32 == ExtractBits(tex1, 5, 1)
    ensures ParseGsTex1(tex1).mmin as u32 == ExtractBits(tex1, 6, 3)
    ensures ParseGsTex1(tex1).mtba as u32 == ExtractBits(tex1, 9, 1)
    ensures ParseGsTex1(tex1).l as u32 == ExtractBits(tex1, 19, 2)
    ensures ParseGsTex1(tex1).k as u32 == ExtractBits(tex1, 32, 12)
  {
  }

  // ---------------------------------------------------------------------
  // Colours.
  // ---------------------------------------------------------------------

  datatype Color32 = Color32(r: u8, g: u8, b: u8, a: u8)

  /** Color32{}: black with alpha 255, i.e. opaque. */
  const DefaultColor: Color32 := Color32(0, 0, 0, 255)

  /** A 16-bit colour: 5 bits each of red, green and blue from bit 0, alpha in bit 15. */
  datatype Color16 = Color16(value: u16)
  {
    /** toColor32: widen each 5-bit channel to 8 bits; bit 15 is full or no alpha. */
    function ToColor32(): (c: Color32)
      ensures c.r == Expand5to8((value & 0x1F) as u8)
      ensures c.g == Expand5to8(((value >> 5) & 0x1F) as u8)
      ensures c.b == Expand5to8(((value >> 10) & 0x1F) as u8)
      ensures c.a == (if value >> 15 == 1 then 255 else 0)
    {
      Color32(
        (((value & 0x001F) << 3) | ((value & 0x001F) >> 2)) as u8,
        (((value & 0x03E0) >> 2) | ((value & 0x03E0) >> 7)) as u8,
        (((value & 0x7C00) >> 7) | ((value & 0x7C00) >> 12)) as u8,
        if value & 0x8000 != 0 then 255 else 0)
    }
  }

  /** Narrow a colour back to 16 bits: contract each channel, alpha to bit 15. */
  function PackColor16(c: Color32): Color16
  {
    Color16((Contract8to5(c.r) as u16) | ((Contract8to5(c.g) as u16) << 5)
            | ((Contract8to5(c.b) as u16) << 10) | (if c.a >= 128 then 0x8000 else 0))
  }

  /** No two 16-bit colours widen to the same colour: packing undoes the widening. */
  lemma Color16RoundTrip(v: u16)
    ensures PackColor16(Color16(v).ToColor32()) == Color16(v)
  {
    ChannelRoundTrip(v & 0x1F);
    ChannelRoundTrip((v >> 5) & 0x1F);
    ChannelRoundTrip((v >> 10) & 0x1F);
    AlphaBit(v);
    Reassemble(v);
  }

  lemma ChannelRoundTrip(f: u16)
    requires f < 32
    ensures Contract8to5(Expand5to8(f as u8)) as u16 == f
  {
  }

  lemma AlphaBit(v: u16)
    ensures (Color16(v).ToColor32().a >= 128) == (v & 0x8000 != 0)
  {
  }

  lemma Reassemble(v: u16)
    ensures v == (v & 0x1F) | (((v >> 5) & 0x1F) << 5) | (((v >> 10) & 0x1F) << 10) | (v & 0x8000)
  {
  }

  /** The two extreme colours of the format. */
  lemma Color16Examples()
    ensures Color16(0x7FFF).ToColor32() == Color32(255, 255, 255, 0)
    ensures Color16(0x8000).ToColor32() == Color32(0, 0, 0, 255)
  {
  }

  /** getBitsPerPixel: 4, 8, 16, 24 or 32 for the known formats, 0 for any other. */
  function GetBitsPerPixel(fmt: u8): (bits: nat)
    ensures bits > 0 <==> TIM2_RGB16 <= fmt <= TIM2_IDTEX8
    ensures bits % 4 == 0 && bits <= 32
  {
    if fmt == TIM2_IDTEX4 then 4
    else if fmt == TIM2_IDTEX8 then 8
    else if fmt == TIM2_RGB16 then 16
    else if fmt == TIM2_RGB24 then 24
    else if fmt == TIM2_RGB32 then 32
    else 0
  }
}
