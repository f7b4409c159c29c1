/**
 * What the parser promises about a TIM2 file, stated over the functions of
 * Tim2Parser: where each part of a picture block lies, which bytes end up
 * in a picture, when loadFile succeeds and which error it records when it
 * does not.
 */
module Tim2ParserProperties {
  import opened Utils
  import opened Wrappers
  import opened Tim2Types
  import opened Tim2Picture
  import opened Tim2Parser

  // ---------------------------------------------------------------------
  // alignOffset
  // ---------------------------------------------------------------------

  /** alignOffset gives the least multiple of the alignment not below the offset, and is idempotent. */
  lemma AlignOffsetLeastMultiple(offset: nat, alignment: nat)
    requires alignment > 0
    ensures IsAligned(AlignOffset(offset, alignment), alignment)
    ensures offset <= AlignOffset(offset, alignment) < offset + alignment
    ensures AlignOffset(AlignOffset(offset, alignment), alignment) == AlignOffset(offset, alignment)
  {
    AlignUpIdempotent(offset, alignment);
  }

  /** alignOffset rounds 17 up to 32 at alignment 16. */
  lemma AlignOffsetExample()
    ensures AlignOffset(17, 16) == 32
  {
    assert (17 + 16 - 1) / 16 == 2;
  }

  // ---------------------------------------------------------------------
  // Layout of one picture block
  // ---------------------------------------------------------------------

  /** The bytes the headers take: the picture header and, with more than one level, the padded mipmap header. */
  function HeadersSize(h: PictureHeader): nat
  {
    PICTURE_HEADER_SIZE + (if h.mipMapTextures > 1 then PaddedMipHeaderSize(h.mipMapTextures) else 0)
  }

  /** The user space: whatever `headerSize` claims beyond the headers. */
  function UserSpaceSize(h: PictureHeader): nat
  {
    if h.headerSize > HeadersSize(h) then h.headerSize - HeadersSize(h) else 0
  }

  /** Where the image and CLUT data of a picture block start, and where the block ends. */
  datatype Layout = Layout(imageAt: nat, clutAt: nat, end: nat)

  /** The layout a header at `pos` describes, from its size fields alone. */
  function LayoutOf(h: PictureHeader, pos: nat, alignment: nat): Layout
    requires alignment > 0
  {
    var imageAt := NextMultiple(pos + HeadersSize(h) + UserSpaceSize(h), alignment);
    var clutAt := NextMultiple(imageAt + h.imageSize, alignment);
    Layout(imageAt, clutAt, clutAt + h.clutSize)
  }

  /**
   * The parts follow each other in the order of the file: after the
   * headers and the user space, the image data at the next multiple of the
   * alignment (alignOffset), then the CLUT data at the next multiple after
   * the image data.
   */
  lemma LayoutOrder(h: PictureHeader, pos: nat, alignment: nat)
    requires alignment > 0
    ensures var l := LayoutOf(h, pos, alignment);
      l.imageAt == AlignOffset(pos + HeadersSize(h) + UserSpaceSize(h), alignment) &&
      l.clutAt == AlignOffset(l.imageAt + h.imageSize, alignment) &&
      l.end == l.clutAt + h.clutSize
    ensures var l := LayoutOf(h, pos, alignment);
      pos + HeadersSize(h) + UserSpaceSize(h) <= l.imageAt < pos + HeadersSize(h) + UserSpaceSize(h) + alignment &&
      l.imageAt + h.imageSize <= l.clutAt < l.imageAt + h.imageSize + alignment &&
      IsAligned(l.imageAt, alignment) && IsAligned(l.clutAt, alignment)
  {
    var l := LayoutOf(h, pos, alignment);
    AlignUpIsNextMultiple(pos + HeadersSize(h) + UserSpaceSize(h), alignment);
    AlignUpIsNextMultiple(l.imageAt + h.imageSize, alignment);
  }

  /** The bytes a section of `n` bytes at `at` holds; a section of size 0 is not read. */
  function Section(data: seq<u8>, at: nat, n: nat): seq<u8>
    requires Fits(data, at, n)
  {
    if n == 0 then [] else data[at..at + n]
  }

  /** The mipmap header stored at `at`, present only with more than one level. */
  function MipMapHeaderIn(data: seq<u8>, at: nat, h: PictureHeader): Option<MipMapHeader>
    requires h.mipMapTextures > 1 ==> at + MipHeaderSize(h.mipMapTextures) <= |data|
  {
    if h.mipMapTextures > 1 then
      Some(MipMapHeader(U64At(data, at), U64At(data, at + 8), MipSizes(data, at + 16, h.mipMapTextures)))
    else None
  }

  /** The comment a picture without one gets from a user space. */
  function CommentOf(user: seq<u8>): seq<u8>
  {
    match ExtendedHeaderIn(user)
    case None => []
    case Some(ext) => if CommentStart(ext) < CommentLimit(user, ext) then CommentIn(user, ext) else []
  }

  /** parseUserSpace on a picture without extended header or comment sets all three fields. */
  lemma WithUserSpaceFresh(pic: Picture, user: seq<u8>)
    requires pic.extHeader.None? && pic.comment == []
    ensures WithUserSpace(pic, user) == pic.(userData := user, extHeader := ExtendedHeaderIn(user), comment := CommentOf(user))
  {
  }

  /** The mipmap stage after a picture header at `at - 48`. */
  lemma MipStageLayout(data: seq<u8>, h: PictureHeader, at: nat)
    ensures MipStage(data, Parsed(Blank(h), at)).Some? <==>
      (h.mipMapTextures > 1 ==> at + MipHeaderSize(h.mipMapTextures) <= |data|)
    ensures MipStage(data, Parsed(Blank(h), at)).Some? ==>
      MipStage(data, Parsed(Blank(h), at)).value ==
        Parsed(Blank(h).(mipMapHeader := MipMapHeaderIn(data, at, h)), at + HeadersSize(h) - PICTURE_HEADER_SIZE)
  {
  }

  /** The user stage: the excess of `headerSize` over the headers read, when it fits. */
  lemma UserStageLayout(data: seq<u8>, s: Parsed<Picture>, size: nat)
    requires s.value.userData == [] && s.value.extHeader.None? && s.value.comment == []
    requires size == if s.value.header.headerSize > HeaderDataSize(s.value) then s.value.header.headerSize - HeaderDataSize(s.value) else 0
    ensures UserStage(data, s).Some? <==> Fits(data, s.next, size)
    ensures UserStage(data, s).Some? ==>
      var user := Section(data, s.next, size);
      UserStage(data, s).value ==
        Parsed(s.value.(userData := user, extHeader := ExtendedHeaderIn(user), comment := CommentOf(user)), s.next + size)
  {
    if size == 0 {
      assert UserStage(data, s) == Some(s);
      assert ExtendedHeaderIn([]) == None;
      assert s.value.(userData := [], extHeader := None, comment := CommentOf([])) == s.value;
    } else if s.next + size <= |data| {
      var user := data[s.next..s.next + size];
      assert Section(data, s.next, size) == user;
      assert UserStage(data, s) == UserSpaceAt(data, s);
      assert UserSpaceAt(data, s) == Some(Parsed(WithUserSpace(s.value, user), s.next + size));
      WithUserSpaceFresh(s.value, user);
    }
  }

  /**
   * The mipmap header (with more than one level) and the user space of a
   * picture whose 48-byte header `h` starts at `pos` lie inside the file.
   */
  predicate HeadersFit(data: seq<u8>, h: PictureHeader, pos: nat)
  {
    (h.mipMapTextures > 1 ==> pos + PICTURE_HEADER_SIZE + MipHeaderSize(h.mipMapTextures) <= |data|) &&
    Fits(data, pos + HeadersSize(h), UserSpaceSize(h))
  }

  /**
   * The picture the headers stage leaves: header `h`, the mipmap header
   * after it, the user space after that with the extended header and the
   * comment found in it, and no image or CLUT data yet.
   */
  function HeadersPicture(data: seq<u8>, h: PictureHeader, pos: nat): Picture
    requires HeadersFit(data, h, pos)
  {
    var user := Section(data, pos + HeadersSize(h), UserSpaceSize(h));
    Picture(h, MipMapHeaderIn(data, pos + PICTURE_HEADER_SIZE, h), user, [], [], ExtendedHeaderIn(user), CommentOf(user))
  }

  /** The mipmap header and user space after a picture header `h` at `pos`. */
  lemma ExtraHeadersLayout(data: seq<u8>, h: PictureHeader, pos: nat)
    ensures ExtraHeadersAt(data, Parsed(Blank(h), pos + PICTURE_HEADER_SIZE)).Some? <==> HeadersFit(data, h, pos)
    ensures HeadersFit(data, h, pos) ==>
      ExtraHeadersAt(data, Parsed(Blank(h), pos + PICTURE_HEADER_SIZE)) ==
        Some(Parsed(HeadersPicture(data, h, pos), pos + HeadersSize(h) + UserSpaceSize(h)))
  {
    var at := pos + PICTURE_HEADER_SIZE;
    MipStageLayout(data, h, at);
    var m := MipStage(data, Parsed(Blank(h), at));
    if m.Some? {
      assert ExtraHeadersAt(data, Parsed(Blank(h), at)) == UserStage(data, m.value);
      UserStageAfterMip(data, h, pos, m.value);
    } else {
      assert ExtraHeadersAt(data, Parsed(Blank(h), at)).None?;
    }
  }

  /** The user stage after the mipmap stage of a picture header `h` at `pos`. */
  lemma UserStageAfterMip(data: seq<u8>, h: PictureHeader, pos: nat, s1: Parsed<Picture>)
    requires h.mipMapTextures > 1 ==> pos + PICTURE_HEADER_SIZE + MipHeaderSize(h.mipMapTextures) <= |data|
    requires s1 == Parsed(Blank(h).(mipMapHeader := MipMapHeaderIn(data, pos + PICTURE_HEADER_SIZE, h)), pos + HeadersSize(h))
    ensures UserStage(data, s1).Some? <==> HeadersFit(data, h, pos)
    ensures HeadersFit(data, h, pos) ==>
      UserStage(data, s1) == Some(Parsed(HeadersPicture(data, h, pos), pos + HeadersSize(h) + UserSpaceSize(h)))
  {
    assert HeaderDataSize(s1.value) == HeadersSize(h);
    UserStageLayout(data, s1, UserSpaceSize(h));
    if HeadersFit(data, h, pos) {
      var user := Section(data, pos + HeadersSize(h), UserSpaceSize(h));
      assert s1.value.(userData := user, extHeader := ExtendedHeaderIn(user), comment := CommentOf(user)) == HeadersPicture(data, h, pos);
    }
  }

  /** The header, mipmap header and user space succeed exactly when their bytes are in the file. */
  lemma HeadersAtLayout(data: seq<u8>, pos: nat)
    ensures HeadersAt(data, pos).Some? <==>
      pos + PICTURE_HEADER_SIZE <= |data| && HeadersFit(data, PictureHeaderOf(data[pos..pos + PICTURE_HEADER_SIZE]), pos)
    ensures pos + PICTURE_HEADER_SIZE <= |data| ==>
      var h := PictureHeaderOf(data[pos..pos + PICTURE_HEADER_SIZE]);
      HeadersFit(data, h, pos) ==>
        HeadersAt(data, pos) == Some(Parsed(HeadersPicture(data, h, pos), pos + HeadersSize(h) + UserSpaceSize(h)))
  {
    if pos + PICTURE_HEADER_SIZE <= |data| {
      var h := PictureHeaderOf(data[pos..pos + PICTURE_HEADER_SIZE]);
      assert PictureHeaderAt(data, pos) == Some(Parsed(Blank(h), pos + PICTURE_HEADER_SIZE));
      ExtraHeadersLayout(data, h, pos);
    }
  }

  /** The image and CLUT sections succeed exactly when each fits at its aligned position. */
  lemma SectionsAtLayout(data: seq<u8>, s: Parsed<Picture>, alignment: nat, imageAt: nat, clutAt: nat)
    requires alignment > 0
    requires imageAt == NextMultiple(s.next, alignment)
    requires clutAt == NextMultiple(imageAt + s.value.header.imageSize, alignment)
    requires s.value.imageData == [] && s.value.clutData == []
    ensures SectionsAt(data, s, alignment).Some? <==>
      Fits(data, imageAt, s.value.header.imageSize) && Fits(data, clutAt, s.value.header.clutSize)
    ensures SectionsAt(data, s, alignment).Some? ==>
      SectionsAt(data, s, alignment).value == Parsed(
        s.value.(imageData := Section(data, imageAt, s.value.header.imageSize), clutData := Section(data, clutAt, s.value.header.clutSize)),
        clutAt + s.value.header.clutSize)
  {
  }

  /**
   * parsePicture succeeds exactly when the picture header, the mipmap
   * header (with more than one level) and every section that is read lie
   * inside the file; the picture then holds exactly the bytes at the
   * positions its header describes, and the next picture starts where the
   * CLUT ends.
   */
  lemma PictureAtLayout(data: seq<u8>, pos: nat, alignment: nat)
    requires alignment > 0
    ensures PictureAt(data, pos, alignment).Some? <==>
      pos + PICTURE_HEADER_SIZE <= |data| &&
      var h := PictureHeaderOf(data[pos..pos + PICTURE_HEADER_SIZE]);
      var l := LayoutOf(h, pos, alignment);
      HeadersFit(data, h, pos) && Fits(data, l.imageAt, h.imageSize) && Fits(data, l.clutAt, h.clutSize)
    ensures pos + PICTURE_HEADER_SIZE <= |data| ==>
      var h := PictureHeaderOf(data[pos..pos + PICTURE_HEADER_SIZE]);
      var l := LayoutOf(h, pos, alignment);
      HeadersFit(data, h, pos) && Fits(data, l.imageAt, h.imageSize) && Fits(data, l.clutAt, h.clutSize) ==>
        PictureAt(data, pos, alignment) == Some(Parsed(
          HeadersPicture(data, h, pos).(imageData := Section(data, l.imageAt, h.imageSize), clutData := Section(data, l.clutAt, h.clutSize)),
          l.end))
  {
    HeadersAtLayout(data, pos);
    if pos + PICTURE_HEADER_SIZE <= |data| {
      var h := PictureHeaderOf(data[pos..pos + PICTURE_HEADER_SIZE]);
      if HeadersFit(data, h, pos) {
        PictureAfterHeaders(data, pos, alignment, Parsed(HeadersPicture(data, h, pos), pos + HeadersSize(h) + UserSpaceSize(h)));
        SectionsAfterHeaders(data, h, pos, alignment);
      } else {
        PictureNeedsHeaders(data, pos, alignment);
      }
    } else {
      PictureNeedsHeaders(data, pos, alignment);
    }
  }

  /** parsePicture fails when its headers do. */
  lemma PictureNeedsHeaders(data: seq<u8>, pos: nat, alignment: nat)
    requires alignment > 0 && HeadersAt(data, pos).None?
    ensures PictureAt(data, pos, alignment).None?
  {
  }

  /** The sections after the headers of a picture header `h` at `pos`. */
  lemma SectionsAfterHeaders(data: seq<u8>, h: PictureHeader, pos: nat, alignment: nat)
    requires alignment > 0 && HeadersFit(data, h, pos)
    ensures var s := Parsed(HeadersPicture(data, h, pos), pos + HeadersSize(h) + UserSpaceSize(h));
      var l := LayoutOf(h, pos, alignment);
      SectionsAt(data, s, alignment).Some? <==> Fits(data, l.imageAt, h.imageSize) && Fits(data, l.clutAt, h.clutSize)
    ensures var s := Parsed(HeadersPicture(data, h, pos), pos + HeadersSize(h) + UserSpaceSize(h));
      var l := LayoutOf(h, pos, alignment);
      Fits(data, l.imageAt, h.imageSize) && Fits(data, l.clutAt, h.clutSize) ==>
        SectionsAt(data, s, alignment) == Some(Parsed(
          HeadersPicture(data, h, pos).(imageData := Section(data, l.imageAt, h.imageSize), clutData := Section(data, l.clutAt, h.clutSize)),
          l.end))
  {
    var s := Parsed(HeadersPicture(data, h, pos), pos + HeadersSize(h) + UserSpaceSize(h));
    var l := LayoutOf(h, pos, alignment);
    SectionsAtLayout(data, s, alignment, l.imageAt, l.clutAt);
  }

  /** parsePicture continues with the sections once the headers are read. */
  lemma PictureAfterHeaders(data: seq<u8>, pos: nat, alignment: nat, s: Parsed<Picture>)
    requires alignment > 0 && HeadersAt(data, pos) == Some(s)
    ensures PictureAt(data, pos, alignment) == SectionsAt(data, s, alignment)
  {
  }

  /** Level i's size is the i-th little-endian word after the two registers. */
  lemma {:induction false} MipSizesAreWords(data: seq<u8>, at: nat, count: nat)
    requires Fits(data, at, 4 * count)
    ensures forall i :: 0 <= i < count ==> MipSizes(data, at, count)[i] == Num32At(data, at + 4 * i)
  {
    if count > 0 {
      MipSizesAreWords(data, at, count - 1);
      assert Fits(data, at, 4 * (count - 1));
    }
  }

  // ---------------------------------------------------------------------
  // The user space: extended header and comment
  // ---------------------------------------------------------------------

  /** The extended header is found exactly when the user space holds 16 bytes starting with "eXt\0". */
  lemma ExtendedHeaderInIff(user: seq<u8>)
    ensures ExtendedHeaderIn(user).Some? <==>
      |user| >= EXTENDED_HEADER_SIZE && user[0] == 0x65 && user[1] == 0x58 && user[2] == 0x74 && user[3] == 0
  {
    if |user| >= EXTENDED_HEADER_SIZE {
      ExtendedHeaderValidIff(user);
    }
  }

  /**
   * The comment is the text from `CommentStart` up to the first NUL, never
   * past `CommentLimit`.
   */
  lemma CommentInStops(user: seq<u8>, ext: ExtendedHeader)
    requires CommentStart(ext) < CommentLimit(user, ext)
    ensures var start := CommentStart(ext);
      var limit := CommentLimit(user, ext);
      var c := CommentIn(user, ext);
      start + |c| <= limit && c == user[start..start + |c|] &&
      (forall k :: 0 <= k < |c| ==> c[k] != 0) &&
      (start + |c| < limit ==> user[start + |c|] == 0)
  {
    var start := CommentStart(ext);
    var limit := CommentLimit(user, ext);
    var text := user[start..limit];
    StrnLenStops(text);
    var n := StrnLen(text);
    assert CommentIn(user, ext) == text[..n];
    assert text[..n] == user[start..start + n];
    if start + n < limit {
      assert user[start + n] == text[n];
    }
  }

  /** A picture gets a comment only with an extended header whose comment start lies below its limit. */
  lemma CommentOfEmpty(user: seq<u8>)
    ensures CommentOf(user) != [] ==>
      ExtendedHeaderIn(user).Some? && CommentStart(ExtendedHeaderIn(user).value) < CommentLimit(user, ExtendedHeaderIn(user).value) &&
      CommentOf(user) == CommentIn(user, ExtendedHeaderIn(user).value)
  {
  }

  // ---------------------------------------------------------------------
  // The run of pictures
  // ---------------------------------------------------------------------

  /** A run is complete exactly when it holds all `count` pictures, and never holds more. */
  lemma {:induction false} RunOfCount(step: nat -> Option<Parsed<Picture>>, pos: nat, count: nat)
    ensures |RunOf(step, pos, count).pictures| <= count
    ensures RunOf(step, pos, count).complete <==> |RunOf(step, pos, count).pictures| == count
    decreases count
  {
    if count > 0 && step(pos).Some? {
      RunOfCount(step, step(pos).value.next, count - 1);
    }
  }

  /** The same for the pictures of loadFile. */
  lemma PicturesAtCount(data: seq<u8>, pos: nat, alignment: nat, count: nat)
    requires alignment > 0
    ensures |PicturesAt(data, pos, alignment, count).pictures| <= count
    ensures PicturesAt(data, pos, alignment, count).complete <==> |PicturesAt(data, pos, alignment, count).pictures| == count
  {
    RunOfCount(PictureStep(data, alignment), pos, count);
  }

  // ---------------------------------------------------------------------
  // loadFile
  // ---------------------------------------------------------------------

  /** The first picture block starts at the first aligned offset after the file header. */
  lemma FirstPictureOffset(alignment: nat)
    requires alignment == 16 || alignment == 128
    ensures NextMultiple(FILE_HEADER_SIZE, alignment) == AlignOffset(FILE_HEADER_SIZE, alignment)
    ensures alignment == 16 ==> NextMultiple(FILE_HEADER_SIZE, alignment) == 16
    ensures alignment == 128 ==> NextMultiple(FILE_HEADER_SIZE, alignment) == 128
  {
    AlignUpIsNextMultiple(FILE_HEADER_SIZE, alignment);
  }

  /**
   * loadFile succeeds exactly when the file opens, holds a 16-byte header
   * whose id spells "TIM2", and every picture it announces parses; the
   * format version plays no part. The parser is valid exactly when no error
   * is recorded.
   */
  lemma LoadValidIff(files: map<string, seq<u8>>, filename: string, previous: HeaderBytes)
    ensures var r := Load(files, filename, previous);
      r.valid <==> r.error.None?
    ensures var r := Load(files, filename, previous);
      r.valid <==>
        filename in files && |files[filename]| >= FILE_HEADER_SIZE &&
        files[filename][..4] == TIM2_ID &&
        var fh := FileHeaderOf(files[filename][..FILE_HEADER_SIZE]);
        PicturesAt(files[filename], NextMultiple(FILE_HEADER_SIZE, fh.GetAlignment()), fh.GetAlignment(), fh.pictures).complete
  {
    if filename in files && |files[filename]| >= FILE_HEADER_SIZE {
      var data := files[filename];
      var header := data[..FILE_HEADER_SIZE];
      assert HeaderAfterRead(data, previous) == header;
      FileHeaderValidIff(header);
      SignatureBytes(data);
    }
  }

  /**
   * The unknown-version warning is given exactly when the file opens, has a
   * whole header with the "TIM2" signature, and its version byte is not 0x04,
   * whether or not the pictures then parse.
   */
  lemma LoadWarnsIff(files: map<string, seq<u8>>, filename: string, previous: HeaderBytes)
    ensures Load(files, filename, previous).unknownVersion <==>
      filename in files && |files[filename]| >= FILE_HEADER_SIZE &&
      files[filename][..4] == TIM2_ID && files[filename][4] != TIM2_FORMAT_VERSION
  {
    if filename in files && |files[filename]| >= FILE_HEADER_SIZE {
      var data := files[filename];
      var header := data[..FILE_HEADER_SIZE];
      assert HeaderAfterRead(data, previous) == header;
      FileHeaderValidIff(header);
      SignatureBytes(data);
    }
  }

  /** The four signature bytes compared byte by byte. */
  lemma SignatureBytes(data: seq<u8>)
    requires |data| >= FILE_HEADER_SIZE
    ensures var b := data[..FILE_HEADER_SIZE];
      data[..4] == TIM2_ID <==> b[0] == 0x54 && b[1] == 0x49 && b[2] == 0x4D && b[3] == 0x32
  {
    if data[0] == 0x54 && data[1] == 0x49 && data[2] == 0x4D && data[3] == 0x32 {
      assert data[..4] == TIM2_ID;
    }
  }

  /** A valid load holds the file's first 16 bytes and as many pictures as the header announces. */
  lemma LoadValidContents(files: map<string, seq<u8>>, filename: string, previous: HeaderBytes)
    requires Load(files, filename, previous).valid
    ensures var r := Load(files, filename, previous);
      filename in files && |files[filename]| >= FILE_HEADER_SIZE &&
      r.header == files[filename][..FILE_HEADER_SIZE] &&
      FileHeaderOf(r.header).IsValid() &&
      |r.pictures| == FileHeaderOf(r.header).pictures
  {
    var data := files[filename];
    var fh := FileHeaderOf(HeaderAfterRead(data, previous));
    PicturesAtCount(data, NextMultiple(FILE_HEADER_SIZE, fh.GetAlignment()), fh.GetAlignment(), fh.pictures);
  }

  /**
   * The error each failed load records: a file that does not open leaves
   * the old header; a file shorter than the header fails the header read;
   * a bad id fails the signature; otherwise the first picture that fails is
   * named by its index, with the pictures before it kept. A failed header
   * read inside a picture never survives: loadFile replaces it by the
   * picture's failure.
   */
  lemma LoadErrors(files: map<string, seq<u8>>, filename: string, previous: HeaderBytes)
    ensures var r := Load(files, filename, previous);
      r.error == Some(OpenFailed(filename)) <==> filename !in files
    ensures var r := Load(files, filename, previous);
      filename !in files ==> r.header == previous && r.pictures == [] && !r.valid
    ensures var r := Load(files, filename, previous);
      r.error == Some(HeaderReadFailed) <==> filename in files && |files[filename]| < FILE_HEADER_SIZE
    ensures var r := Load(files, filename, previous);
      r.error == Some(InvalidSignature) <==>
        filename in files && |files[filename]| >= FILE_HEADER_SIZE && files[filename][..4] != TIM2_ID
    ensures var r := Load(files, filename, previous);
      r.error.Some? && r.error.value.PictureFailed? ==>
        r.error.value.index == |r.pictures| < FileHeaderOf(r.header).pictures
    ensures var r := Load(files, filename, previous);
      r.error.Some? && !r.error.value.PictureFailed? ==> r.pictures == []
    ensures var r := Load(files, filename, previous);
      filename in files && |files[filename]| >= FILE_HEADER_SIZE && files[filename][..4] == TIM2_ID && !r.valid ==>
        r.error == Some(PictureFailed(|r.pictures|))
    ensures Load(files, filename, previous).error != Some(PictureHeaderReadFailed)
  {
    if filename in files && |files[filename]| >= FILE_HEADER_SIZE {
      var data := files[filename];
      var header := HeaderAfterRead(data, previous);
      assert header == data[..FILE_HEADER_SIZE];
      FileHeaderValidIff(header);
      assert header[..4] == data[..4];
      var fh := FileHeaderOf(header);
      PicturesAtCount(data, NextMultiple(FILE_HEADER_SIZE, fh.GetAlignment()), fh.GetAlignment(), fh.pictures);
    }
  }

  /** A short file fills the start of the header and leaves the rest of the old one. */
  lemma ShortHeaderRead(data: seq<u8>, previous: HeaderBytes)
    requires |data| < FILE_HEADER_SIZE
    ensures HeaderAfterRead(data, previous) == data + previous[|data|..]
  {
  }
}
