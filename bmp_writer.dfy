/**
 * The synthetic-image generator: it fills both bitmap headers from a width and
 * a height, writes them field by field, and then appends a ramp of pixel
 * bytes for a fixed 256 x 256 image.
 */
module BmpWriter {
  import opened LittleEndian
  import opened BmpHeader
  import opened ByteStream

  /** C's conversion of an `int` value to the unsigned 32-bit `DWORD`. */
  function AsDWord(x: int): (r: DWord)
    ensures (r - x) % 0x1_0000_0000 == 0
  {
    x % 0x1_0000_0000
  }

  /** `width * height + HEADERLENGTH` is computed in C `int` without overflow. */
  predicate ProductFits(width: Long, height: Long)
  {
    -0x8000_0000 <= width * height && width * height + HeaderLength < 0x8000_0000
  }

  /**
   * The file header that `createHeader` fills in; its size field, read as a
   * C `int`, is `width*height + HEADERLENGTH`.
   */
  function FileHeaderFor(width: Long, height: Long): (h: FileHeader)
    requires ProductFits(width, height)
    ensures ToSigned(h.bfSize) == width * height + HeaderLength
  {
    SignedOfResidue(width * height + HeaderLength);
    FileHeader(
      bfType := BmSignature,
      bfSize := AsDWord(width * height + HeaderLength),
      bfReserved1 := 0,
      bfReserved2 := 0,
      bfOffBits := HeaderLength)
  }

  /**
   * The info header that `createHeader` fills in; its image size, read as a
   * C `int`, is `width*height`.
   */
  function InfoHeaderFor(width: Long, height: Long): (h: InfoHeader)
    requires ProductFits(width, height)
    ensures ToSigned(h.biSizeImage) == width * height
  {
    SignedOfResidue(width * height);
    InfoHeader(
      biSize := InfoHeaderSize,
      biWidth := width,
      biHeight := height,
      biPlanes := 1,
      biBitCount := 1,
      biCompression := 0,
      biSizeImage := AsDWord(width * height),
      biXPelsPerMeter := 2835,
      biYPelsPerMeter := 2835,
      biClrUsed := 0,
      biClrImportant := 0)
  }

  /**
   * `createHeader`: writes the 14 bytes of the file header at the current
   * position, seeks to offset 14 and writes the 40 bytes of the info header.
   */
  method CreateHeader(file: ByteWriter, width: Long, height: Long)
    requires ProductFits(width, height)
    modifies file
    ensures file.bytes == Put(Put(old(file.bytes), old(file.pos), FileHeaderBytes(FileHeaderFor(width, height))),
                              FileHeaderSize, InfoHeaderBytes(InfoHeaderFor(width, height)))
    ensures file.pos == HeaderLength
  {
    var bmfHeader := FileHeaderFor(width, height);
    var bmiHeader := InfoHeaderFor(width, height);

    ghost var start, at := file.bytes, file.pos;
    ghost var done: seq<Byte> := [];
    file.WriteWord(bmfHeader.bfType);
    done := EncodeWord(bmfHeader.bfType);
    file.WriteDWord(bmfHeader.bfSize);
    PutThenPut(start, at, done, EncodeDWord(bmfHeader.bfSize));
    done := done + EncodeDWord(bmfHeader.bfSize);
    file.WriteWord(bmfHeader.bfReserved1);
    PutThenPut(start, at, done, EncodeWord(bmfHeader.bfReserved1));
    done := done + EncodeWord(bmfHeader.bfReserved1);
    file.WriteWord(bmfHeader.bfReserved2);
    PutThenPut(start, at, done, EncodeWord(bmfHeader.bfReserved2));
    done := done + EncodeWord(bmfHeader.bfReserved2);
    file.WriteDWord(bmfHeader.bfOffBits);
    PutThenPut(start, at, done, EncodeDWord(bmfHeader.bfOffBits));
    done := done + EncodeDWord(bmfHeader.bfOffBits);
    assert file.bytes == Put(start, at, FileHeaderBytes(bmfHeader));

    file.Seek(FileHeaderSize);

    start, at, done := file.bytes, file.pos, [];
    file.WriteDWord(bmiHeader.biSize);
    done := EncodeDWord(bmiHeader.biSize);
    file.WriteLong(bmiHeader.biWidth);
    PutThenPut(start, at, done, EncodeLong(bmiHeader.biWidth));
    done := done + EncodeLong(bmiHeader.biWidth);
    file.WriteLong(bmiHeader.biHeight);
    PutThenPut(start, at, done, EncodeLong(bmiHeader.biHeight));
    done := done + EncodeLong(bmiHeader.biHeight);
    file.WriteWord(bmiHeader.biPlanes);
    PutThenPut(start, at, done, EncodeWord(bmiHeader.biPlanes));
    done := done + EncodeWord(bmiHeader.biPlanes);
    file.WriteWord(bmiHeader.biBitCount);
    PutThenPut(start, at, done, EncodeWord(bmiHeader.biBitCount));
    done := done + EncodeWord(bmiHeader.biBitCount);
    file.WriteDWord(bmiHeader.biCompression);
    PutThenPut(start, at, done, EncodeDWord(bmiHeader.biCompression));
    done := done + EncodeDWord(bmiHeader.biCompression);
    file.WriteDWord(bmiHeader.biSizeImage);
    PutThenPut(start, at, done, EncodeDWord(bmiHeader.biSizeImage));
    done := done + EncodeDWord(bmiHeader.biSizeImage);
    file.WriteLong(bmiHeader.biXPelsPerMeter);
    PutThenPut(start, at, done, EncodeLong(bmiHeader.biXPelsPerMeter));
    done := done + EncodeLong(bmiHeader.biXPelsPerMeter);
    file.WriteLong(bmiHeader.biYPelsPerMeter);
    PutThenPut(start, at, done, EncodeLong(bmiHeader.biYPelsPerMeter));
    done := done + EncodeLong(bmiHeader.biYPelsPerMeter);
    file.WriteDWord(bmiHeader.biClrUsed);
    PutThenPut(start, at, done, EncodeDWord(bmiHeader.biClrUsed));
    done := done + EncodeDWord(bmiHeader.biClrUsed);
    file.WriteDWord(bmiHeader.biClrImportant);
    PutThenPut(start, at, done, EncodeDWord(bmiHeader.biClrImportant));
    done := done + EncodeDWord(bmiHeader.biClrImportant);
    assert done == InfoHeaderBytes(bmiHeader);
  }

  /**
   * When the stream starts at the beginning of the file, the info header
   * lands right after the file header: the first 54 bytes are both headers
   * and anything the file held beyond them is left as it was.
   */
  lemma HeaderWrittenFromStart(data: seq<Byte>, fh: FileHeader, ih: InfoHeader)
    ensures Put(Put(data, 0, FileHeaderBytes(fh)), FileHeaderSize, InfoHeaderBytes(ih))
         == HeaderBytes(fh, ih) + (if |data| <= HeaderLength then [] else data[HeaderLength..])
  {
  }

  /**
   * What a reader finds in the header `createHeader` writes at the start of a
   * file: the "BM" magic, zero reserved fields, pixel data at offset 54, the
   * fixed info fields, the width and height as given (negative ones too), and
   * the two sizes, which read as signed give `width*height + 54` and
   * `width*height`.
   */
  lemma CreatedHeaderReadsBack(width: Long, height: Long, rest: seq<Byte>)
    requires ProductFits(width, height)
    ensures var s := HeaderBytes(FileHeaderFor(width, height), InfoHeaderFor(width, height)) + rest;
      && |s| >= HeaderLength
      && var fh, ih := ParseFileHeader(s), ParseInfoHeader(s[FileHeaderSize..]);
      && fh.bfType == 0x4D42
      && ToSigned(fh.bfSize) == width * height + HeaderLength
      && fh.bfReserved1 == 0 && fh.bfReserved2 == 0
      && fh.bfOffBits == HeaderLength
      && ih.biSize == 40
      && ih.biWidth == width && ih.biHeight == height
      && ih.biPlanes == 1 && ih.biBitCount == 1 && ih.biCompression == 0
      && ToSigned(ih.biSizeImage) == width * height
      && ih.biXPelsPerMeter == 2835 && ih.biYPelsPerMeter == 2835
      && ih.biClrUsed == 0 && ih.biClrImportant == 0
  {
    HeaderRoundTrip(FileHeaderFor(width, height), InfoHeaderFor(width, height), rest);
    SignedOfResidue(width * height + HeaderLength);
    SignedOfResidue(width * height);
  }

  /** For a non-negative area the two sizes are the plain sum and product. */
  lemma CreatedSizesForNonNegativeArea(width: Long, height: Long)
    requires ProductFits(width, height) && 0 <= width * height
    ensures FileHeaderFor(width, height).bfSize == width * height + HeaderLength
    ensures InfoHeaderFor(width, height).biSizeImage == width * height
    ensures FileHeaderFor(width, height).bfSize == HeaderLength + InfoHeaderFor(width, height).biSizeImage
  {
  }

  /**
   * `parseFile` of the generator, on an empty output file: a 256 x 256 header
   * followed by `width*height/2` pixel bytes, the i-th of which is `i % 250`.
   * The header claims 65590 bytes while 32822 are written.
   */
  method ParseFile() returns (contents: seq<Byte>)
    ensures |contents| == HeaderLength + 256 * 256 / 2
    ensures contents[..HeaderLength] == HeaderBytes(FileHeaderFor(256, 256), InfoHeaderFor(256, 256))
    ensures forall i :: 0 <= i < 256 * 256 / 2 ==> contents[HeaderLength + i] == i % 250
    ensures ParseFileHeader(contents).bfSize == 65590 != |contents| == 32822
    ensures forall j :: HeaderLength <= j < |contents| ==> contents[j] < 250
  {
    var file := new ByteWriter();
    var width: Long := 256;
    var height: Long := 256;

    CreateHeader(file, width, height);
    ghost var header := HeaderBytes(FileHeaderFor(width, height), InfoHeaderFor(width, height));
    HeaderWrittenFromStart([], FileHeaderFor(width, height), InfoHeaderFor(width, height));
    assert file.bytes == header;

    for i := 0 to width * height / 2
      invariant file.pos == |file.bytes| == HeaderLength + i
      invariant file.bytes[..HeaderLength] == header
      invariant forall k :: 0 <= k < i ==> file.bytes[HeaderLength + k] == k % 250
    {
      // The value is stored through a `char`, whose bit pattern is `i % 250`.
      PutAtEnd(file.bytes, [i % 250]);
      file.WriteByte(i % 250);
    }
    contents := file.bytes;
    GeneratedSizeClaim(contents);
    PixelBytesBelow250(contents);
  }

  /**
   * A file that starts with the 256 x 256 header claims a size of
   * `256*256 + 54` bytes, whatever follows the header.
   */
  lemma GeneratedSizeClaim(contents: seq<Byte>)
    requires |contents| >= HeaderLength
    requires contents[..HeaderLength] == HeaderBytes(FileHeaderFor(256, 256), InfoHeaderFor(256, 256))
    ensures ParseFileHeader(contents).bfSize == 65590
  {
  }

  /** Every pixel byte the generator writes is below 250. */
  lemma PixelBytesBelow250(contents: seq<Byte>)
    requires |contents| == HeaderLength + 256 * 256 / 2
    requires forall i :: 0 <= i < 256 * 256 / 2 ==> contents[HeaderLength + i] == i % 250
    ensures forall j :: HeaderLength <= j < |contents| ==> contents[j] < 250
  {
    forall j | HeaderLength <= j < |contents|
      ensures contents[j] < 250
    {
      assert contents[HeaderLength + (j - HeaderLength)] == (j - HeaderLength) % 250;
    }
  }
}
