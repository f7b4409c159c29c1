/**
 * The sequential TIM2 file parser (src/tim2_parser.h:33-78,
 * src/tim2_parser.cpp:231-494).
 *
 * The input file is a byte sequence behind a small model of a binary
 * `std::ifstream`: an absolute cursor, which a seek may move past the end,
 * and a good flag that the first short read clears for good. Each parse
 * step of the C++ parser is a method over that stream, proved equal to a
 * pure function of the bytes and the cursor; `TIM2Parser.LoadFile` is
 * proved equal to `Load`, and the layout and outcome properties are lemmas
 * about those functions.
 */
module Tim2Parser {
  import opened Utils
  import opened Wrappers
  import opened Tim2Types
  import opened Tim2Picture

  // ---------------------------------------------------------------------
  // The input stream
  // ---------------------------------------------------------------------

  /** A read of `n` bytes at `pos` gets all of them. */
  predicate Fits(data: seq<u8>, pos: nat, n: nat)
  {
    n == 0 || pos + n <= |data|
  }

  /** The bytes a read of `n` bytes at `pos` delivers: all of them, or those before the end. */
  function Delivered(data: seq<u8>, pos: nat, n: nat): (b: seq<u8>)
    ensures |b| == n <==> Fits(data, pos, n)
    ensures |b| <= n
    ensures Fits(data, pos, n) && n > 0 ==> b == data[pos..pos + n]
  {
    if pos + n <= |data| then data[pos..pos + n]
    else if pos < |data| then data[pos..]
    else []
  }

  /**
   * A binary std::ifstream over the bytes of one file. A short read clears
   * `good`; a stream that is not good delivers nothing and ignores seeks.
   */
  class InputStream {
    const data: seq<u8>
    var pos: nat
    var good: bool

    constructor (contents: seq<u8>)
      ensures data == contents && pos == 0 && good
    {
      data := contents;
      pos := 0;
      good := true;
    }

    /** istream::read of `n` bytes. */
    method Read(n: nat) returns (bytes: seq<u8>)
      modifies this
      ensures good <==> old(good) && Fits(data, old(pos), n)
      ensures good ==> bytes == Delivered(data, old(pos), n) && pos == old(pos) + n
      ensures old(good) && !good ==> bytes == Delivered(data, old(pos), n) && pos == Max(old(pos), |data|)
      ensures !old(good) ==> bytes == [] && pos == old(pos)
    {
      if !good {
        return [];
      }
      bytes := Delivered(data, pos, n);
      if Fits(data, pos, n) {
        pos := pos + n;
      } else {
        good := false;
        pos := Max(pos, |data|);
      }
    }

    /** tellg on a good stream. */
    function Tell(): (p: nat)
      reads this
      requires good
      ensures p == pos
    {
      pos
    }

    /** seekg to an absolute position, which may lie past the end. */
    method Seek(target: nat)
      modifies this
      ensures good == old(good)
      ensures pos == if good then target else old(pos)
    {
      if good {
        pos := target;
      }
    }

    /** seekg relative to the cursor. */
    method Skip(offset: nat)
      modifies this
      ensures good == old(good)
      ensures pos == if good then old(pos) + offset else old(pos)
    {
      if good {
        pos := pos + offset;
      }
    }
  }

  /** `n` zero bytes: what a resized byte vector holds where no read reached. */
  function Zeros(n: nat): (z: seq<u8>)
    ensures |z| == n
  {
    seq(n, _ => 0)
  }

  // ---------------------------------------------------------------------
  // The parse steps as functions of the bytes and the cursor
  // ---------------------------------------------------------------------

  /** A value read from the file and the cursor after it. */
  datatype Parsed<T> = Parsed(value: T, next: nat)

  /**
   * The outcome of one parse step: `ok`, the stream's state (`good`, `pos`)
   * and the result agree with the specification `r`.
   */
  predicate Outcome(good: bool, pos: nat, ok: bool, result: Picture, r: Option<Parsed<Picture>>)
  {
    ok == r.Some? && good == ok && (ok ==> result == r.value.value && pos == r.value.next)
  }

  /** alignOffset: `offset` rounded up to the next multiple of `alignment`. */
  function AlignOffset(offset: nat, alignment: nat): (r: nat)
    requires alignment > 0
    ensures r == AlignUp(offset, alignment)
  {
    ((offset + alignment - 1) / alignment) * alignment
  }

  /** A newly declared Picture holding a header. */
  function Blank(header: PictureHeader): Picture
  {
    Picture(header, None, [], [], [], None, [])
  }

  /** The mipmap header before its padding: two registers and four bytes per level. */
  function MipHeaderSize(levels: nat): nat
  {
    16 + levels * 4
  }

  /** The mipmap header padded to 16 bytes. */
  function PaddedMipHeaderSize(levels: nat): (r: nat)
    ensures MipHeaderSize(levels) <= r < MipHeaderSize(levels) + 16 && IsAligned(r, 16)
  {
    AlignOffset(MipHeaderSize(levels), 16)
  }

  /** The picture header plus, when a mipmap header was read, its padded size. */
  function HeaderDataSize(pic: Picture): nat
  {
    PICTURE_HEADER_SIZE + (if pic.mipMapHeader.Some? then PaddedMipHeaderSize(pic.header.mipMapTextures) else 0)
  }

  /** The `count` level sizes stored as little-endian words from `at` on. */
  function MipSizes(data: seq<u8>, at: nat, count: nat): (sizes: seq<uint32>)
    requires Fits(data, at, 4 * count)
    ensures |sizes| == count
  {
    if count == 0 then []
    else MipSizes(data, at, count - 1) + [Num32At(data, at + 4 * (count - 1))]
  }

  lemma MipSizesStep(data: seq<u8>, at: nat, count: nat)
    requires at + 4 * (count + 1) <= |data|
    ensures MipSizes(data, at, count + 1) == MipSizes(data, at, count) + [Num32At(data, at + 4 * count)]
  {
  }

  /** parseMipMapHeader: the two registers and one size per level, then the padding skipped. */
  function MipMapHeaderAt(data: seq<u8>, s: Parsed<Picture>): (r: Option<Parsed<Picture>>)
  {
    var levels := s.value.header.mipMapTextures;
    if s.next + MipHeaderSize(levels) <= |data| then
      var mip := MipMapHeader(U64At(data, s.next), U64At(data, s.next + 8), MipSizes(data, s.next + 16, levels));
      Some(Parsed(s.value.(mipMapHeader := Some(mip)), s.next + PaddedMipHeaderSize(levels)))
    else None
  }

  /** strnlen: the length of the NUL-terminated string at the start of `s`, at most |s|. */
  function StrnLen(s: seq<u8>): (n: nat)
    ensures n <= |s|
  {
    if |s| == 0 || s[0] == 0 then 0 else 1 + StrnLen(s[1..])
  }

  /** strnlen stops at the first NUL, or at the end when there is none. */
  lemma {:induction false} StrnLenStops(s: seq<u8>)
    ensures forall k :: 0 <= k < StrnLen(s) ==> s[k] != 0
    ensures StrnLen(s) < |s| ==> s[StrnLen(s)] == 0
  {
    if |s| > 0 && s[0] != 0 {
      StrnLenStops(s[1..]);
      forall k | 1 <= k < StrnLen(s)
        ensures s[k] != 0
      {
        assert s[k] == s[1..][k - 1];
      }
    }
  }

  /** The extended header at the start of a user space that holds 16 bytes beginning with "eXt\0". */
  function ExtendedHeaderIn(user: seq<u8>): (e: Option<ExtendedHeader>)
    ensures e.Some? ==> |user| >= EXTENDED_HEADER_SIZE && e.value == ExtendedHeaderOf(user)
  {
    if |user| >= EXTENDED_HEADER_SIZE && ExtendedHeaderOf(user).IsValid() then Some(ExtendedHeaderOf(user)) else None
  }

  /** Where the comment starts: after the extended header and its user data. */
  function CommentStart(ext: ExtendedHeader): nat
  {
    EXTENDED_HEADER_SIZE + ext.userDataSize
  }

  /** Where the comment must end: at the end of the user space or at `userSpaceSize`, whichever comes first. */
  function CommentLimit(user: seq<u8>, ext: ExtendedHeader): (n: nat)
    ensures n <= |user|
  {
    Min(|user|, ext.userSpaceSize)
  }

  /** The comment: the NUL-terminated text between its start and its limit. */
  function CommentIn(user: seq<u8>, ext: ExtendedHeader): seq<u8>
    requires CommentStart(ext) < CommentLimit(user, ext)
  {
    var text := user[CommentStart(ext)..CommentLimit(user, ext)];
    text[..StrnLen(text)]
  }

  /**
   * The user space stored into a picture, with the extended header and the
   * comment found in it; the comment is set only when its start lies below
   * its limit.
   */
  function WithUserSpace(pic: Picture, user: seq<u8>): Picture
  {
    var p := pic.(userData := user);
    match ExtendedHeaderIn(user)
    case None => p
    case Some(ext) =>
      if CommentStart(ext) < CommentLimit(user, ext) then p.(extHeader := Some(ext), comment := CommentIn(user, ext))
      else p.(extHeader := Some(ext))
  }

  /** parseUserSpace: the bytes between the headers read so far and `headerSize`. */
  function UserSpaceAt(data: seq<u8>, s: Parsed<Picture>): (r: Option<Parsed<Picture>>)
    requires HeaderDataSize(s.value) <= s.value.header.headerSize
  {
    var size := s.value.header.headerSize - HeaderDataSize(s.value);
    if size == 0 then Some(s)
    else if s.next + size <= |data| then
      Some(Parsed(WithUserSpace(s.value, data[s.next..s.next + size]), s.next + size))
    else None
  }

  /** parseImageData: `imageSize` raw bytes. */
  function ImageDataAt(data: seq<u8>, s: Parsed<Picture>): (r: Option<Parsed<Picture>>)
  {
    var n := s.value.header.imageSize;
    if Fits(data, s.next, n) then Some(Parsed(s.value.(imageData := Delivered(data, s.next, n)), s.next + n))
    else None
  }

  /** parseClutData: `clutSize` raw bytes. */
  function ClutDataAt(data: seq<u8>, s: Parsed<Picture>): (r: Option<Parsed<Picture>>)
  {
    var n := s.value.header.clutSize;
    if Fits(data, s.next, n) then Some(Parsed(s.value.(clutData := Delivered(data, s.next, n)), s.next + n))
    else None
  }

  /** The 48-byte picture header at `pos`. */
  function PictureHeaderAt(data: seq<u8>, pos: nat): (r: Option<Parsed<Picture>>)
  {
    if pos + PICTURE_HEADER_SIZE <= |data| then
      Some(Parsed(Blank(PictureHeaderOf(data[pos..pos + PICTURE_HEADER_SIZE])), pos + PICTURE_HEADER_SIZE))
    else None
  }

  /** The mipmap header, read only when the picture has more than one level. */
  function MipStage(data: seq<u8>, s: Parsed<Picture>): Option<Parsed<Picture>>
  {
    if s.value.header.mipMapTextures > 1 then MipMapHeaderAt(data, s) else Some(s)
  }

  /** The user space, read only when `headerSize` exceeds the headers read so far. */
  function UserStage(data: seq<u8>, s: Parsed<Picture>): Option<Parsed<Picture>>
  {
    if s.value.header.headerSize > HeaderDataSize(s.value) then UserSpaceAt(data, s) else Some(s)
  }

  /** The image data at the next aligned position, read only when `imageSize` > 0. */
  function ImageStage(data: seq<u8>, s: Parsed<Picture>, alignment: nat): Option<Parsed<Picture>>
    requires alignment > 0
  {
    var start := Parsed(s.value, NextMultiple(s.next, alignment));
    if s.value.header.imageSize > 0 then ImageDataAt(data, start) else Some(start)
  }

  /** The CLUT data at the next aligned position, read only when `clutSize` > 0. */
  function ClutStage(data: seq<u8>, s: Parsed<Picture>, alignment: nat): Option<Parsed<Picture>>
    requires alignment > 0
  {
    var start := Parsed(s.value, NextMultiple(s.next, alignment));
    if s.value.header.clutSize > 0 then ClutDataAt(data, start) else Some(start)
  }

  /** The mipmap header and the user space after the picture header. */
  function ExtraHeadersAt(data: seq<u8>, s: Parsed<Picture>): (r: Option<Parsed<Picture>>)
  {
    var s1 := MipStage(data, s);
    if s1.None? then None else UserStage(data, s1.value)
  }

  /** The first half of parsePicture: the picture header, the mipmap header and the user space. */
  function HeadersAt(data: seq<u8>, pos: nat): (r: Option<Parsed<Picture>>)
  {
    var s0 := PictureHeaderAt(data, pos);
    if s0.None? then None else ExtraHeadersAt(data, s0.value)
  }

  /** The second half of parsePicture: the aligned image data, then the aligned CLUT data. */
  function SectionsAt(data: seq<u8>, s: Parsed<Picture>, alignment: nat): (r: Option<Parsed<Picture>>)
    requires alignment > 0
  {
    var s3 := ImageStage(data, s, alignment);
    if s3.None? then None else
    ClutStage(data, s3.value, alignment)
  }

  /** parsePicture: one picture block starting at `pos`. */
  function PictureAt(data: seq<u8>, pos: nat, alignment: nat): (r: Option<Parsed<Picture>>)
    requires alignment > 0
  {
    var h := HeadersAt(data, pos);
    if h.None? then None else SectionsAt(data, h.value, alignment)
  }

  /** The pictures parsed in a row, and whether all `count` of them were. */
  datatype Run = Run(pictures: seq<Picture>, complete: bool)

  /** `count` pictures read one after the other by `step` from `pos` on, up to the first that fails. */
  function RunOf(step: nat -> Option<Parsed<Picture>>, pos: nat, count: nat): (r: Run)
    decreases count
  {
    if count == 0 then Run([], true)
    else
      var p := step(pos);
      if p.None? then Run([], false)
      else
        var rest := RunOf(step, p.value.next, count - 1);
        Run([p.value.value] + rest.pictures, rest.complete)
  }

  /** One step that succeeds moves the run on by its picture. */
  lemma RunOfStep(step: nat -> Option<Parsed<Picture>>, pos: nat, count: nat, pic: Picture, next: nat)
    requires count > 0 && step(pos) == Some(Parsed(pic, next))
    ensures RunOf(step, pos, count).pictures == [pic] + RunOf(step, next, count - 1).pictures
    ensures RunOf(step, pos, count).complete == RunOf(step, next, count - 1).complete
  {
  }

  /** parsePicture as a step of the run. */
  function PictureStep(data: seq<u8>, alignment: nat): nat -> Option<Parsed<Picture>>
    requires alignment > 0
  {
    (pos: nat) => PictureAt(data, pos, alignment)
  }

  /** The loop of loadFile: `count` pictures one after the other from `pos` on, up to the first failure. */
  function PicturesAt(data: seq<u8>, pos: nat, alignment: nat, count: nat): (r: Run)
    requires alignment > 0
  {
    RunOf(PictureStep(data, alignment), pos, count)
  }

  /** One picture parsed moves the run on by that picture. */
  lemma PicturesAtStep(data: seq<u8>, pos: nat, alignment: nat, count: nat, pic: Picture, next: nat)
    requires alignment > 0 && count > 0 && PictureAt(data, pos, alignment) == Some(Parsed(pic, next))
    ensures PicturesAt(data, pos, alignment, count).pictures == [pic] + PicturesAt(data, next, alignment, count - 1).pictures
    ensures PicturesAt(data, pos, alignment, count).complete == PicturesAt(data, next, alignment, count - 1).complete
  {
    RunOfStep(PictureStep(data, alignment), pos, count, pic, next);
  }

  /**
   * Runs of equal length from the same place are the same run: congruence,
   * stated apart so that ParsePictures' loop proof does not have to find it
   * among the unfolded parse functions.
   */
  lemma SameRun(data: seq<u8>, pos: nat, alignment: nat, m: nat, n: nat)
    requires alignment > 0 && m == n
    ensures PicturesAt(data, pos, alignment, m) == PicturesAt(data, pos, alignment, n)
  {
  }

  /** A picture that fails ends the run there, incomplete. */
  lemma PicturesAtFail(data: seq<u8>, pos: nat, alignment: nat, count: nat)
    requires alignment > 0 && count > 0 && PictureAt(data, pos, alignment).None?
    ensures PicturesAt(data, pos, alignment, count) == Run([], false)
  {
  }

  /**
   * Moving the first picture of the rest of a run to the end of the part
   * already parsed: associativity of `+`, stated over plain sequences so that
   * ParsePictures' loop proof stays cheap.
   */
  lemma MoveToDone(all: seq<Picture>, done: seq<Picture>, pic: Picture, rest: seq<Picture>)
    requires all == done + ([pic] + rest)
    ensures all == (done + [pic]) + rest
  {
  }

  /**
   * A run whose rest is empty is the part already parsed: `s + [] == s`,
   * stated over plain sequences for the same reason as MoveToDone.
   */
  lemma NothingMore(all: seq<Picture>, done: seq<Picture>)
    requires all == done + []
    ensures all == done
  {
  }

  // ---------------------------------------------------------------------
  // loadFile
  // ---------------------------------------------------------------------

  /** m_lastError, one constructor per message. */
  datatype LoadError =
    | OpenFailed(filename: string)
    | HeaderReadFailed
    | InvalidSignature
    | PictureHeaderReadFailed
    | PictureFailed(index: nat)

  /** The raw bytes of m_fileHeader. */
  type HeaderBytes = b: seq<u8> | |b| == FILE_HEADER_SIZE witness Zeros(16)

  /**
   * The state loadFile leaves behind, and whether it warned about an
   * unknown format version.
   */
  datatype LoadOutcome = LoadOutcome(valid: bool, header: HeaderBytes, pictures: seq<Picture>, error: Option<LoadError>,
                                     unknownVersion: bool)

  /** The header bytes after a read of the first 16 bytes, which a short file fills only in part. */
  function HeaderAfterRead(data: seq<u8>, previous: HeaderBytes): (h: HeaderBytes)
  {
    var got := Delivered(data, 0, FILE_HEADER_SIZE);
    got + previous[|got|..]
  }

  /**
   * loadFile over a file system that maps each openable file name to its
   * bytes; `previous` is the header the parser held before the call.
   */
  function Load(files: map<string, seq<u8>>, filename: string, previous: HeaderBytes): (r: LoadOutcome)
  {
    if filename !in files then LoadOutcome(false, previous, [], Some(OpenFailed(filename)), false)
    else
      var data := files[filename];
      var header := HeaderAfterRead(data, previous);
      if !Fits(data, 0, FILE_HEADER_SIZE) then LoadOutcome(false, header, [], Some(HeaderReadFailed), false)
      else if !FileHeaderOf(header).IsValid() then LoadOutcome(false, header, [], Some(InvalidSignature), false)
      else
        var fileHeader := FileHeaderOf(header);
        var warned := fileHeader.formatVersion != TIM2_FORMAT_VERSION;
        var alignment := fileHeader.GetAlignment();
        var run := PicturesAt(data, NextMultiple(FILE_HEADER_SIZE, alignment), alignment, fileHeader.pictures);
        if run.complete then LoadOutcome(true, header, run.pictures, None, warned)
        else LoadOutcome(false, header, run.pictures, Some(PictureFailed(|run.pictures|)), warned)
  }

  class TIM2Parser {
    var fileHeaderBytes: HeaderBytes
    var pictures: seq<Picture>
    var valid: bool
    var lastError: Option<LoadError>

    /** A parser that holds nothing yet and is not valid. */
    constructor ()
      ensures fileHeaderBytes == Zeros(16) && pictures == [] && !valid && lastError == None
    {
      fileHeaderBytes := Zeros(16);
      pictures := [];
      valid := false;
      lastError := None;
    }

    /** isValid: whether the last load succeeded. */
    function IsValid(): (r: bool)
      reads this
      ensures r == valid
    {
      valid
    }

    /** getFileHeader: the header record laid over the stored bytes. */
    function GetFileHeader(): (h: FileHeader)
      reads this
      ensures h.WellFormed() && h.Bytes() == fileHeaderBytes
    {
      FileHeaderEncodeDecode(fileHeaderBytes);
      FileHeaderOf(fileHeaderBytes)
    }

    /** getPictures: the pictures of the last load, in file order. */
    function GetPictures(): (r: seq<Picture>)
      reads this
      ensures r == pictures
    {
      pictures
    }

    /** getPicture: the picture at `index`, or none past the end. */
    function GetPicture(index: nat): (r: Option<Picture>)
      reads this
      ensures r.None? <==> index >= |pictures|
      ensures r.Some? ==> r.value == pictures[index]
    {
      if index >= |pictures| then None else Some(pictures[index])
    }

    /** getPictureCount */
    function GetPictureCount(): (n: nat)
      reads this
      ensures n == |pictures|
    {
      |pictures|
    }

    /** getLastError: the error of the last load, if it recorded one. */
    function GetLastError(): (r: Option<LoadError>)
      reads this
      ensures r == lastError
    {
      lastError
    }

    /**
     * loadFile: parse the whole file `filename` of `files`. `unknownVersion`
     * is the warning parseFileHeader writes to std::cerr.
     */
    method LoadFile(files: map<string, seq<u8>>, filename: string) returns (ok: bool, unknownVersion: bool)
      modifies this
      ensures var r := Load(files, filename, old(fileHeaderBytes));
        ok == r.valid && valid == r.valid && fileHeaderBytes == r.header && pictures == r.pictures && lastError == r.error
        && unknownVersion == r.unknownVersion
    {
      valid := false;
      pictures := [];
      lastError := None;
      if filename !in files {
        lastError := Some(OpenFailed(filename));
        return false, false;
      }
      var file := new InputStream(files[filename]);
      ok, unknownVersion := ParseFileHeader(file);
      assert fileHeaderBytes == HeaderAfterRead(files[filename], old(fileHeaderBytes));
      if !ok {
        return false, false;
      }
      var header := GetFileHeader();
      var alignment := header.GetAlignment();
      SkipAlignment(file, alignment);
      assert file.pos == NextMultiple(FILE_HEADER_SIZE, alignment);
      ok := ParsePictures(file, alignment, header.pictures);
      valid := ok;
    }

    /** The loop of loadFile: `count` pictures in a row, stopping at the first that fails. */
    method ParsePictures(file: InputStream, alignment: nat, count: nat) returns (ok: bool)
      requires file.good && alignment > 0 && pictures == []
      modifies this, file
      ensures var run := PicturesAt(file.data, old(file.pos), alignment, count);
        ok == run.complete && pictures == run.pictures &&
        lastError == if ok then old(lastError) else Some(PictureFailed(|run.pictures|))
      ensures fileHeaderBytes == old(fileHeaderBytes) && valid == old(valid)
    {
      ghost var whole := PicturesAt(file.data, file.pos, alignment, count);
      var i := 0;
      assert count - i == count;
      assert whole.pictures == pictures + whole.pictures;
      while i < count
        invariant 0 <= i <= count && |pictures| == i
        invariant file.good && fileHeaderBytes == old(fileHeaderBytes) && valid == old(valid) && lastError == old(lastError)
        invariant whole.pictures == pictures + PicturesAt(file.data, file.pos, alignment, count - i).pictures
        invariant whole.complete == PicturesAt(file.data, file.pos, alignment, count - i).complete
      {
        ghost var here := file.pos;
        ghost var before := count - i;
        var picOk, pic := ParsePicture(file, alignment);
        if !picOk {
          PicturesAtFail(file.data, here, alignment, before);
          NothingMore(whole.pictures, pictures);
          lastError := Some(PictureFailed(i));
          return false;
        }
        i := i + 1;
        PicturesAtStep(file.data, here, alignment, before, pic, file.pos);
        SameRun(file.data, file.pos, alignment, before - 1, count - i);
        MoveToDone(whole.pictures, pictures, pic, PicturesAt(file.data, file.pos, alignment, count - i).pictures);
        pictures := pictures + [pic];
      }
      return true;
    }

    /**
     * parseFileHeader: read the 16 header bytes and check the signature; an
     * unknown format version is reported but not fatal.
     */
    method ParseFileHeader(file: InputStream) returns (ok: bool, unknownVersion: bool)
      requires file.good
      modifies this, file
      ensures var got := Delivered(file.data, old(file.pos), FILE_HEADER_SIZE);
        fileHeaderBytes == got + old(fileHeaderBytes)[|got|..]
      ensures file.good == Fits(file.data, old(file.pos), FILE_HEADER_SIZE)
      ensures file.good ==> file.pos == old(file.pos) + FILE_HEADER_SIZE
      ensures ok <==> file.good && FileHeaderOf(fileHeaderBytes).IsValid()
      ensures unknownVersion <==> ok && FileHeaderOf(fileHeaderBytes).formatVersion != TIM2_FORMAT_VERSION
      ensures lastError == if !file.good then Some(HeaderReadFailed) else if !ok then Some(InvalidSignature) else old(lastError)
      ensures pictures == old(pictures) && valid == old(valid)
    {
      var got := file.Read(FILE_HEADER_SIZE);
      fileHeaderBytes := got + fileHeaderBytes[|got|..];
      unknownVersion := false;
      if !file.good {
        lastError := Some(HeaderReadFailed);
        return false, false;
      }
      var header := FileHeaderOf(fileHeaderBytes);
      if !header.IsValid() {
        lastError := Some(InvalidSignature);
        return false, false;
      }
      unknownVersion := header.formatVersion != TIM2_FORMAT_VERSION;
      ok := true;
    }

    /** skipAlignment: move the cursor up to the next multiple of `alignment`. */
    method SkipAlignment(file: InputStream, alignment: nat)
      requires file.good && alignment > 0
      modifies file
      ensures file.good && file.pos == NextMultiple(old(file.pos), alignment)
    {
      var currentPos := file.Tell();
      var alignedPos := AlignOffset(currentPos, alignment);
      AlignUpIsNextMultiple(currentPos, alignment);
      if alignedPos > currentPos {
        file.Seek(alignedPos);
      }
    }

    /** parsePicture: one picture block at the cursor. */
    method ParsePicture(file: InputStream, alignment: nat) returns (ok: bool, pic: Picture)
      requires file.good && alignment > 0
      modifies this, file
      ensures Outcome(file.good, file.pos, ok, pic, PictureAt(file.data, old(file.pos), alignment))
      ensures lastError == if old(file.pos) + PICTURE_HEADER_SIZE <= |file.data| then old(lastError) else Some(PictureHeaderReadFailed)
      ensures fileHeaderBytes == old(fileHeaderBytes) && pictures == old(pictures) && valid == old(valid)
    {
      ok, pic := ParseHeaders(file);
      if !ok {
        return;
      }
      ok, pic := ParseSections(file, pic, alignment);
    }

    /** The headers of parsePicture: the picture header, then the mipmap header and the user space when present. */
    method ParseHeaders(file: InputStream) returns (ok: bool, pic: Picture)
      requires file.good
      modifies this, file
      ensures Outcome(file.good, file.pos, ok, pic, HeadersAt(file.data, old(file.pos)))
      ensures lastError == if old(file.pos) + PICTURE_HEADER_SIZE <= |file.data| then old(lastError) else Some(PictureHeaderReadFailed)
      ensures fileHeaderBytes == old(fileHeaderBytes) && pictures == old(pictures) && valid == old(valid)
    {
      ghost var s0 := PictureHeaderAt(file.data, file.pos);
      var bytes := file.Read(PICTURE_HEADER_SIZE);
      if !file.good {
        lastError := Some(PictureHeaderReadFailed);
        return false, Blank(PictureHeaderOf(bytes + Zeros(PICTURE_HEADER_SIZE - |bytes|)));
      }
      pic := Blank(PictureHeaderOf(bytes));
      assert Parsed(pic, file.pos) == s0.value;

      if pic.header.mipMapTextures > 1 {
        ok, pic := ParseMipMapHeader(file, pic);
        if !ok {
          return;
        }
      }
      ghost var s1 := MipStage(file.data, s0.value);
      assert s1 == Some(Parsed(pic, file.pos));

      if pic.header.headerSize > HeaderDataSize(pic) {
        ok, pic := ParseUserSpace(file, pic);
        if !ok {
          return;
        }
      }
      ok := true;
    }

    /** The data of parsePicture: image bytes, then CLUT bytes, each from the next aligned position. */
    method ParseSections(file: InputStream, pic: Picture, alignment: nat) returns (ok: bool, result: Picture)
      requires file.good && alignment > 0
      modifies file
      ensures Outcome(file.good, file.pos, ok, result, SectionsAt(file.data, Parsed(pic, old(file.pos)), alignment))
    {
      result := pic;
      SkipAlignment(file, alignment);
      if result.header.imageSize > 0 {
        ok, result := ParseImageData(file, result);
        if !ok {
          return;
        }
      }
      SkipAlignment(file, alignment);
      if result.header.clutSize > 0 {
        ok, result := ParseClutData(file, result);
        if !ok {
          return;
        }
      }
      ok := true;
    }

    /** parseMipMapHeader: two 8-byte registers, one 4-byte size per level, then the padding skipped. */
    method ParseMipMapHeader(file: InputStream, pic: Picture) returns (ok: bool, result: Picture)
      requires file.good
      modifies file
      ensures Outcome(file.good, file.pos, ok, result, MipMapHeaderAt(file.data, Parsed(pic, old(file.pos))))
    {
      ghost var start := file.pos;
      var levels := pic.header.mipMapTextures;
      var miptbp1: u64 := 0;
      var miptbp2: u64 := 0;
      var bytes := file.Read(8);
      if file.good {
        miptbp1 := U64At(bytes, 0);
        U64AtSlice(file.data, start);
      }
      bytes := file.Read(8);
      if file.good {
        miptbp2 := U64At(bytes, 0);
        U64AtSlice(file.data, start + 8);
        assert miptbp1 == U64At(file.data, start);
      }
      var sizes := ReadLevelSizes(file, levels);
      var mipHeaderSize := MipHeaderSize(levels);
      var paddedSize := AlignOffset(mipHeaderSize, 16);
      if paddedSize > mipHeaderSize {
        file.Skip(paddedSize - mipHeaderSize);
      }
      result := pic.(mipMapHeader := Some(MipMapHeader(miptbp1, miptbp2, sizes)));
      ok := file.good;
      assert ok <==> start + MipHeaderSize(levels) <= |file.data|;
      if ok {
        assert file.pos == start + PaddedMipHeaderSize(levels);
      }
    }

    /** The loop of parseMipMapHeader: one 4-byte size per level. */
    static method ReadLevelSizes(file: InputStream, levels: nat) returns (sizes: seq<uint32>)
      modifies file
      ensures file.good <==> old(file.good) && Fits(file.data, old(file.pos), 4 * levels)
      ensures file.good ==> file.pos == old(file.pos) + 4 * levels && sizes == MipSizes(file.data, old(file.pos), levels)
    {
      ghost var start := file.pos;
      ghost var wasGood := file.good;
      sizes := [];
      var i := 0;
      while i < levels
        invariant 0 <= i <= levels && |sizes| == i
        invariant file.good <==> wasGood && Fits(file.data, start, 4 * i)
        invariant file.good ==> file.pos == start + 4 * i
        invariant file.good ==> sizes == MipSizes(file.data, start, i)
      {
        ghost var at := file.pos;
        var bytes := file.Read(4);
        var size: uint32 := 0;
        if file.good {
          size := Num32At(bytes, 0);
          assert bytes == file.data[at..at + 4];
          Num32AtSlice(file.data, at);
          MipSizesStep(file.data, start, i);
        }
        sizes := sizes + [size];
        i := i + 1;
      }
    }

    /**
     * parseUserSpace: the bytes up to `headerSize`, and the extended header
     * and comment when the user space starts with one.
     */
    method ParseUserSpace(file: InputStream, pic: Picture) returns (ok: bool, result: Picture)
      requires file.good && HeaderDataSize(pic) <= pic.header.headerSize
      modifies file
      ensures Outcome(file.good, file.pos, ok, result, UserSpaceAt(file.data, Parsed(pic, old(file.pos))))
    {
      var headerDataSize := PICTURE_HEADER_SIZE;
      if pic.mipMapHeader.Some? {
        var mipHeaderSize := 16 + pic.header.mipMapTextures * 4;
        mipHeaderSize := AlignOffset(mipHeaderSize, 16);
        headerDataSize := headerDataSize + mipHeaderSize;
      }
      assert headerDataSize == HeaderDataSize(pic);
      var userSpaceSize: nat := pic.header.headerSize - headerDataSize;
      if userSpaceSize == 0 {
        return true, pic;
      }
      ghost var start := file.pos;
      var bytes := file.Read(userSpaceSize);
      var user := bytes + Zeros(userSpaceSize - |bytes|);
      result := WithUserSpace(pic, user);
      ok := file.good;
      if ok {
        assert user == file.data[start..start + userSpaceSize];
        assert UserSpaceAt(file.data, Parsed(pic, start)) == Some(Parsed(result, start + userSpaceSize));
      } else {
        assert UserSpaceAt(file.data, Parsed(pic, start)) == None;
      }
    }

    /** parseImageData: `imageSize` raw bytes. */
    method ParseImageData(file: InputStream, pic: Picture) returns (ok: bool, result: Picture)
      requires file.good
      modifies file
      ensures Outcome(file.good, file.pos, ok, result, ImageDataAt(file.data, Parsed(pic, old(file.pos))))
    {
      var bytes := file.Read(pic.header.imageSize);
      result := pic.(imageData := bytes + Zeros(pic.header.imageSize - |bytes|));
      ok := file.good;
      if ok {
        assert bytes + Zeros(0) == bytes;
      }
    }

    /** parseClutData: `clutSize` raw bytes. */
    method ParseClutData(file: InputStream, pic: Picture) returns (ok: bool, result: Picture)
      requires file.good
      modifies file
      ensures Outcome(file.good, file.pos, ok, result, ClutDataAt(file.data, Parsed(pic, old(file.pos))))
    {
      var bytes := file.Read(pic.header.clutSize);
      result := pic.(clutData := bytes + Zeros(pic.header.clutSize - |bytes|));
      ok := file.good;
      if ok {
        assert bytes + Zeros(0) == bytes;
      }
    }
  }
}
