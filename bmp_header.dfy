/**
 * The two bitmap header structures (`BITMAPFILEHEADER`, 14 bytes, and
 * `BITMAPINFOHEADER`, 40 bytes), their little-endian layout in a file and the
 * purely positional way they are read back.
 */
module BmpHeader {
  import opened LittleEndian
  import opened SeqFacts

  /** Bytes of `BITMAPFILEHEADER` in a file (its fields without struct padding). */
  const FileHeaderSize := 14
  /** Bytes of `BITMAPINFOHEADER`, which is also its `sizeof`. */
  const InfoHeaderSize := 40
  /** `HEADERLENGTH`: both headers together, where the pixel data starts. */
  const HeaderLength := 54
  /** `bfType` of a bitmap: the characters "BM" read as a little-endian word. */
  const BmSignature: Word := 0x4D42

  datatype FileHeader = FileHeader(
    bfType: Word,
    bfSize: DWord,
    bfReserved1: Word,
    bfReserved2: Word,
    bfOffBits: DWord)

  datatype InfoHeader = InfoHeader(
    biSize: DWord,
    biWidth: Long,
    biHeight: Long,
    biPlanes: Word,
    biBitCount: Word,
    biCompression: DWord,
    biSizeImage: DWord,
    biXPelsPerMeter: Long,
    biYPelsPerMeter: Long,
    biClrUsed: DWord,
    biClrImportant: DWord)

  /** The file header as written field by field, in declaration order. */
  function FileHeaderBytes(h: FileHeader): (r: seq<Byte>)
    ensures |r| == FileHeaderSize
  {
    EncodeWord(h.bfType) + EncodeDWord(h.bfSize) + EncodeWord(h.bfReserved1)
    + EncodeWord(h.bfReserved2) + EncodeDWord(h.bfOffBits)
  }

  /** The info header as written field by field, in declaration order. */
  function InfoHeaderBytes(h: InfoHeader): (r: seq<Byte>)
    ensures |r| == InfoHeaderSize
  {
    EncodeDWord(h.biSize) + EncodeLong(h.biWidth) + EncodeLong(h.biHeight)
    + EncodeWord(h.biPlanes) + EncodeWord(h.biBitCount) + EncodeDWord(h.biCompression)
    + EncodeDWord(h.biSizeImage) + EncodeLong(h.biXPelsPerMeter) + EncodeLong(h.biYPelsPerMeter)
    + EncodeDWord(h.biClrUsed) + EncodeDWord(h.biClrImportant)
  }

  /** Both headers, as they stand at the start of a bitmap file. */
  function HeaderBytes(fh: FileHeader, ih: InfoHeader): (r: seq<Byte>)
    ensures |r| == HeaderLength
    ensures r[..FileHeaderSize] == FileHeaderBytes(fh)
    ensures r[FileHeaderSize..] == InfoHeaderBytes(ih)
  {
    FileHeaderBytes(fh) + InfoHeaderBytes(ih)
  }

  /**
   * Reads the file header from the first 14 bytes of `s`. Nothing is checked:
   * every 14 bytes parse, and the parse keeps every one of them.
   */
  function ParseFileHeader(s: seq<Byte>): (h: FileHeader)
    requires |s| >= FileHeaderSize
    ensures FileHeaderBytes(h) == s[..FileHeaderSize]
  {
    assert s[..FileHeaderSize] == s[0..2] + s[2..6] + s[6..8] + s[8..10] + s[10..14];
    FileHeader(
      DecodeWord(s[0..2]),
      DecodeDWord(s[2..6]),
      DecodeWord(s[6..8]),
      DecodeWord(s[8..10]),
      DecodeDWord(s[10..14]))
  }

  /**
   * Reads the info header from the first 40 bytes of `s`. Nothing is checked:
   * every 40 bytes parse, and the parse keeps every one of them.
   */
  function ParseInfoHeader(s: seq<Byte>): (h: InfoHeader)
    requires |s| >= InfoHeaderSize
    ensures InfoHeaderBytes(h) == s[..InfoHeaderSize]
  {
    assert s[..InfoHeaderSize] == s[0..4] + s[4..8] + s[8..12] + s[12..14] + s[14..16]
      + s[16..20] + s[20..24] + s[24..28] + s[28..32] + s[32..36] + s[36..40];
    InfoHeader(
      DecodeDWord(s[0..4]),
      DecodeLong(s[4..8]),
      DecodeLong(s[8..12]),
      DecodeWord(s[12..14]),
      DecodeWord(s[14..16]),
      DecodeDWord(s[16..20]),
      DecodeDWord(s[20..24]),
      DecodeLong(s[24..28]),
      DecodeLong(s[28..32]),
      DecodeDWord(s[32..36]),
      DecodeDWord(s[36..40]))
  }

  /** Reading back a written file header gives every field as written. */
  lemma FileHeaderRoundTrip(h: FileHeader, rest: seq<Byte>)
    ensures ParseFileHeader(FileHeaderBytes(h) + rest) == h
  {
  }

  /** Reading back a written info header gives every field as written. */
  lemma InfoHeaderRoundTrip(h: InfoHeader, rest: seq<Byte>)
    ensures ParseInfoHeader(InfoHeaderBytes(h) + rest) == h
  {
    var s := InfoHeaderBytes(h) + rest;
    assert s[0..4] == EncodeDWord(h.biSize);
    assert s[4..8] == EncodeLong(h.biWidth);
    assert s[8..12] == EncodeLong(h.biHeight);
    assert s[12..14] == EncodeWord(h.biPlanes);
    assert s[14..16] == EncodeWord(h.biBitCount);
    assert s[16..20] == EncodeDWord(h.biCompression);
    assert s[20..24] == EncodeDWord(h.biSizeImage);
    assert s[24..28] == EncodeLong(h.biXPelsPerMeter);
    assert s[28..32] == EncodeLong(h.biYPelsPerMeter);
    assert s[32..36] == EncodeDWord(h.biClrUsed);
    assert s[36..40] == EncodeDWord(h.biClrImportant);
    DWordRoundTrip(h.biSize);
    LongRoundTrip(h.biWidth);
    LongRoundTrip(h.biHeight);
    WordRoundTrip(h.biPlanes);
    WordRoundTrip(h.biBitCount);
    DWordRoundTrip(h.biCompression);
    DWordRoundTrip(h.biSizeImage);
    LongRoundTrip(h.biXPelsPerMeter);
    LongRoundTrip(h.biYPelsPerMeter);
    DWordRoundTrip(h.biClrUsed);
    DWordRoundTrip(h.biClrImportant);
  }

  /**
   * Reading the file header and then the info header right after it, from the
   * start of a file that begins with both headers, gives both back unchanged.
   */
  lemma HeaderRoundTrip(fh: FileHeader, ih: InfoHeader, rest: seq<Byte>)
    ensures |HeaderBytes(fh, ih) + rest| >= HeaderLength
    ensures ParseFileHeader(HeaderBytes(fh, ih) + rest) == fh
    ensures ParseInfoHeader((HeaderBytes(fh, ih) + rest)[FileHeaderSize..]) == ih
  {
    var s := HeaderBytes(fh, ih) + rest;
    assert s == FileHeaderBytes(fh) + (InfoHeaderBytes(ih) + rest);
    FileHeaderRoundTrip(fh, InfoHeaderBytes(ih) + rest);
    assert s[FileHeaderSize..] == InfoHeaderBytes(ih) + rest;
    InfoHeaderRoundTrip(ih, rest);
  }

  /**
   * The converse of the round trip: parsing any 54 bytes and writing the two
   * headers again reproduces those 54 bytes, so the parser accepts any magic,
   * compression or size and loses nothing.
   */
  lemma ParseIsLossless(s: seq<Byte>)
    requires |s| >= HeaderLength
    ensures HeaderBytes(ParseFileHeader(s), ParseInfoHeader(s[FileHeaderSize..])) == s[..HeaderLength]
  {
  }

  /**
   * Where each field sits in the 54-byte header, counted from the start of
   * the file.
   */
  lemma HeaderLayout(fh: FileHeader, ih: InfoHeader)
    ensures var b := HeaderBytes(fh, ih);
      && b[0..2] == EncodeWord(fh.bfType)
      && b[2..6] == EncodeDWord(fh.bfSize)
      && b[6..8] == EncodeWord(fh.bfReserved1)
      && b[8..10] == EncodeWord(fh.bfReserved2)
      && b[10..14] == EncodeDWord(fh.bfOffBits)
      && b[14..18] == EncodeDWord(ih.biSize)
      && b[18..22] == EncodeLong(ih.biWidth)
      && b[22..26] == EncodeLong(ih.biHeight)
      && b[26..28] == EncodeWord(ih.biPlanes)
      && b[28..30] == EncodeWord(ih.biBitCount)
      && b[30..34] == EncodeDWord(ih.biCompression)
      && b[34..38] == EncodeDWord(ih.biSizeImage)
      && b[38..42] == EncodeLong(ih.biXPelsPerMeter)
      && b[42..46] == EncodeLong(ih.biYPelsPerMeter)
      && b[46..50] == EncodeDWord(ih.biClrUsed)
      && b[50..54] == EncodeDWord(ih.biClrImportant)
  {
    var b := HeaderBytes(fh, ih);
    HeaderRoundTrip(fh, ih, []);
    assert b + [] == b;
    // Each field is decoded from its slice, and a decoder's result encodes
    // back to exactly that slice.
    SliceOfSuffix(b, FileHeaderSize, 0, 4);
    SliceOfSuffix(b, FileHeaderSize, 4, 8);
    SliceOfSuffix(b, FileHeaderSize, 8, 12);
    SliceOfSuffix(b, FileHeaderSize, 12, 14);
    SliceOfSuffix(b, FileHeaderSize, 14, 16);
    SliceOfSuffix(b, FileHeaderSize, 16, 20);
    SliceOfSuffix(b, FileHeaderSize, 20, 24);
    SliceOfSuffix(b, FileHeaderSize, 24, 28);
    SliceOfSuffix(b, FileHeaderSize, 28, 32);
    SliceOfSuffix(b, FileHeaderSize, 32, 36);
    SliceOfSuffix(b, FileHeaderSize, 36, 40);
  }
}
