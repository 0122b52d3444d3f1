/**
 * The header dump program: it reads the file header and then the info header
 * from the start of a bitmap file, field by field, without checking any of
 * them.
 */
module BmpReader {
  import opened LittleEndian
  import opened BmpHeader
  import opened ByteStream
  import opened SeqFacts

  /** `readHeader`: five reads, 14 bytes in declaration order. */
  method ReadHeader(file: ByteReader) returns (bitmapHeader: FileHeader)
    requires file.pos + FileHeaderSize <= |file.data|
    modifies file
    ensures file.pos == old(file.pos) + FileHeaderSize
    ensures bitmapHeader == ParseFileHeader(file.data[old(file.pos)..])
  {
    ghost var p := file.pos;
    var bfType := file.ReadWord();
    SliceOfSuffix(file.data, p, 0, 2);
    assert bfType == DecodeWord(file.data[p..][0..2]);
    var bfSize := file.ReadDWord();
    SliceOfSuffix(file.data, p, 2, 6);
    assert bfSize == DecodeDWord(file.data[p..][2..6]);
    var bfReserved1 := file.ReadWord();
    SliceOfSuffix(file.data, p, 6, 8);
    assert bfReserved1 == DecodeWord(file.data[p..][6..8]);
    var bfReserved2 := file.ReadWord();
    SliceOfSuffix(file.data, p, 8, 10);
    assert bfReserved2 == DecodeWord(file.data[p..][8..10]);
    var bfOffBits := file.ReadDWord();
    SliceOfSuffix(file.data, p, 10, 14);
    assert bfOffBits == DecodeDWord(file.data[p..][10..14]);
    bitmapHeader := FileHeader(bfType, bfSize, bfReserved1, bfReserved2, bfOffBits);
  }

  /** `readInfoHeader`: eleven reads, 40 bytes in declaration order. */
  method ReadInfoHeader(file: ByteReader) returns (bitmapInfoHeader: InfoHeader)
    requires file.pos + InfoHeaderSize <= |file.data|
    modifies file
    ensures file.pos == old(file.pos) + InfoHeaderSize
    ensures bitmapInfoHeader == ParseInfoHeader(file.data[old(file.pos)..])
  {
    ghost var p := file.pos;
    var biSize := file.ReadDWord();
    SliceOfSuffix(file.data, p, 0, 4);
    assert biSize == DecodeDWord(file.data[p..][0..4]);
    var biWidth := file.ReadLong();
    SliceOfSuffix(file.data, p, 4, 8);
    assert biWidth == DecodeLong(file.data[p..][4..8]);
    var biHeight := file.ReadLong();
    SliceOfSuffix(file.data, p, 8, 12);
    assert biHeight == DecodeLong(file.data[p..][8..12]);
    var biPlanes := file.ReadWord();
    SliceOfSuffix(file.data, p, 12, 14);
    assert biPlanes == DecodeWord(file.data[p..][12..14]);
    var biBitCount := file.ReadWord();
    SliceOfSuffix(file.data, p, 14, 16);
    assert biBitCount == DecodeWord(file.data[p..][14..16]);
    var biCompression := file.ReadDWord();
    SliceOfSuffix(file.data, p, 16, 20);
    assert biCompression == DecodeDWord(file.data[p..][16..20]);
    var biSizeImage := file.ReadDWord();
    SliceOfSuffix(file.data, p, 20, 24);
    assert biSizeImage == DecodeDWord(file.data[p..][20..24]);
    var biXPelsPerMeter := file.ReadLong();
    SliceOfSuffix(file.data, p, 24, 28);
    assert biXPelsPerMeter == DecodeLong(file.data[p..][24..28]);
    var biYPelsPerMeter := file.ReadLong();
    SliceOfSuffix(file.data, p, 28, 32);
    assert biYPelsPerMeter == DecodeLong(file.data[p..][28..32]);
    var biClrUsed := file.ReadDWord();
    SliceOfSuffix(file.data, p, 32, 36);
    assert biClrUsed == DecodeDWord(file.data[p..][32..36]);
    var biClrImportant := file.ReadDWord();
    SliceOfSuffix(file.data, p, 36, 40);
    assert biClrImportant == DecodeDWord(file.data[p..][36..40]);
    bitmapInfoHeader := InfoHeader(biSize, biWidth, biHeight, biPlanes, biBitCount, biCompression,
                                   biSizeImage, biXPelsPerMeter, biYPelsPerMeter, biClrUsed, biClrImportant);
  }

  /**
   * `parseFile` of the reader, without the printing: the two headers read one
   * after the other from the start of `contents`. Any 54 bytes are accepted;
   * each field comes from its fixed offset in the file.
   */
  method ParseFile(contents: seq<Byte>) returns (bitmapHeader: FileHeader, bitmapInfoHeader: InfoHeader)
    requires |contents| >= HeaderLength
    ensures bitmapHeader == ParseFileHeader(contents)
    ensures bitmapInfoHeader == ParseInfoHeader(contents[FileHeaderSize..])
    ensures bitmapHeader.bfType == DecodeWord(contents[0..2])
    ensures bitmapHeader.bfSize == DecodeDWord(contents[2..6])
    ensures bitmapHeader.bfOffBits == DecodeDWord(contents[10..14])
    ensures bitmapInfoHeader.biSize == DecodeDWord(contents[14..18])
    ensures bitmapInfoHeader.biWidth == DecodeLong(contents[18..22])
    ensures bitmapInfoHeader.biHeight == DecodeLong(contents[22..26])
    ensures bitmapInfoHeader.biBitCount == DecodeWord(contents[28..30])
    ensures bitmapInfoHeader.biCompression == DecodeDWord(contents[30..34])
    ensures bitmapInfoHeader.biSizeImage == DecodeDWord(contents[34..38])
  {
    var file := new ByteReader(contents);
    bitmapHeader := ReadHeader(file);
    bitmapInfoHeader := ReadInfoHeader(file);
    SliceOfSuffix(contents, FileHeaderSize, 0, 4);
    SliceOfSuffix(contents, FileHeaderSize, 4, 8);
    SliceOfSuffix(contents, FileHeaderSize, 8, 12);
    SliceOfSuffix(contents, FileHeaderSize, 14, 16);
    SliceOfSuffix(contents, FileHeaderSize, 16, 20);
    SliceOfSuffix(contents, FileHeaderSize, 20, 24);
  }
}
