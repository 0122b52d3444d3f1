# BMP header codec

This project models the two small C programs of a BMP tool in Dafny:

- **The generator** (`mandelbrot.c`). `createHeader` fills a `BITMAPFILEHEADER` and a `BITMAPINFOHEADER` from a width and a height. It writes the file header's five fields with `fwrite`, seeks to offset 14, and writes the info header's eleven fields. `parseFile` then calls it for a 256 x 256 image and appends `width*height/2` pixel bytes, where byte `i` is `i % 250`.
- **The header dump** (`main.c`). `readHeader` and `readInfoHeader` read the same fields back with `fread`, in the same order and at the same widths, from a stream positioned at the start of the file.

The model is layered as follows:

| module | file | role |
|---|---|---|
| `LittleEndian` | `little_endian.dfy` | `WORD`/`DWORD`/`LONG` as bounded integers; little-endian encoding and decoding; 32-bit two's complement for `LONG` |
| `SeqFacts` | `seq_facts.dfy` | slicing facts used by the layout and reader proofs |
| `BmpHeader` | `bmp_header.dfy` | the two header records; their 14- and 40-byte encodings; the positional parsers; round trips in both directions; field offsets |
| `ByteStream` | `byte_stream.dfy` | `ByteWriter` (file contents plus a file position, updated by `fwrite`/`fseek`) and `ByteReader` (fixed contents plus a cursor, advanced by `fread`) |
| `BmpWriter` | `bmp_writer.dfy` | `createHeader` and the generator's `parseFile` |
| `BmpReader` | `bmp_reader.dfy` | `readHeader`, `readInfoHeader` and the dump's `parseFile` |

The host is modelled as little-endian. So `fwrite(&x, sizeof(WORD), 1, f)` appends the two little-endian bytes of `x`, which is the layout that the `BITMAPFILEHEADER` and `BITMAPINFOHEADER` structures define.

A write at file position `p` is modelled by `ByteStream.Put`:

- it overwrites the bytes from `p` on;
- it extends the file when it runs past the end;
- a gap left by a seek past the end reads as zeros;
- a write of no bytes leaves the file unchanged; a seek alone never makes the file longer.

`createHeader` is therefore specified for any stream state. When the stream starts at offset 0, the info header lands directly after the file header (`BmpWriter.HeaderWrittenFromStart`).

The generated file is inconsistent with its own header, and the model reproduces this rather than fixing it. The header claims `bfSize = 256*256 + 54 = 65590` bytes, but the file holds `54 + 32768 = 32822` bytes (`BmpWriter.ParseFile`).

The reader in `main.c` (lines 35-61) checks none of the fields it reads: neither `bfType` against "BM" nor `biCompression` against 0. Any 54 bytes parse, and the parse keeps every byte (`BmpHeader.ParseIsLossless`).

## Model

| member | source | states |
|---|---|---|
| `LittleEndian.EncodeWord` | mandelbrot.c:79 | a `WORD` is written as 2 bytes, low byte first: `r[0] + 256*r[1]` is the value |
| `LittleEndian.DecodeWord` | main.c:38 | reading a `WORD` gives a value in [0, 2^16) whose encoding is exactly the 2 bytes read, so every byte pair is accepted and nothing is lost |
| `LittleEndian.EncodeDWord` | mandelbrot.c:80 | a `DWORD` is written as 4 bytes, least significant first, whose base-256 value is the `DWORD` |
| `LittleEndian.DecodeDWord` | main.c:39 | reading a `DWORD` gives a value in [0, 2^32) whose encoding is exactly the 4 bytes read |
| `LittleEndian.ToUnsigned` | main.c:7 | the stored pattern of a `LONG` is congruent to it modulo 2^32 and is below 2^31 exactly when the `LONG` is non-negative |
| `LittleEndian.ToSigned` | main.c:7 | the signed value of a 32-bit pattern has that pattern as its two's complement, and is negative exactly when the pattern is at least 2^31 |
| `LittleEndian.EncodeLong` | mandelbrot.c:88 | a `LONG` is written as 4 bytes whose little-endian value is congruent to it modulo 2^32 |
| `LittleEndian.DecodeLong` | main.c:50 | reading a `LONG` gives a value whose encoding is exactly the 4 bytes read; it is negative exactly when the top bit of the last byte is set |
| `LittleEndian.WordRoundTrip` | main.c:38 | a `WORD` written and read back is unchanged |
| `LittleEndian.DWordRoundTrip` | main.c:39 | a `DWORD` written and read back is unchanged |
| `LittleEndian.LongRoundTrip` | main.c:50-51 | any `LONG` written and read back is unchanged, including a negative width or height |
| `LittleEndian.SignedOfUnsigned` | main.c:23-24 | reading the stored pattern of a `LONG` as signed gives the `LONG` back |
| `LittleEndian.SignedOfResidue` | mandelbrot.c:41 | an in-range `int` converted to `DWORD` (modulo 2^32) and read back as signed is the original `int` |
| `BmpHeader.FileHeaderBytes` | mandelbrot.c:79-83 | the encoded file header is 14 bytes long |
| `BmpHeader.InfoHeaderBytes` | mandelbrot.c:87-97 | the encoded info header is 40 bytes long |
| `BmpHeader.HeaderBytes` | mandelbrot.c:79-97 | both headers take 54 bytes, `HEADERLENGTH`; the file header is the first 14 and the info header is the next 40 |
| `BmpHeader.ParseFileHeader` | main.c:35-44 | any 14 bytes parse as a file header, and re-encoding the result gives back exactly those 14 bytes |
| `BmpHeader.ParseInfoHeader` | main.c:46-61 | any 40 bytes parse as an info header, and re-encoding the result gives back exactly those 40 bytes |
| `BmpHeader.FileHeaderRoundTrip` | main.c:38-42 | parsing a written file header, whatever follows it, gives every field as written |
| `BmpHeader.InfoHeaderRoundTrip` | main.c:49-59 | parsing a written info header, whatever follows it, gives every field as written, signed fields included |
| `BmpHeader.HeaderRoundTrip` | main.c:66-67 | reading the file header and then the info header from offset 14 of a file that starts with both gives both back |
| `BmpHeader.ParseIsLossless` | main.c:35-61 | for any input of at least 54 bytes, the parsed headers re-encode to its first 54 bytes; nothing is validated or lost |
| `BmpHeader.HeaderLayout` | mandelbrot.c:79-97 | each of the 16 fields sits at its fixed file offset: bfType 0-1, bfSize 2-5, reserved 6-9, bfOffBits 10-13, biSize 14-17, biWidth 18-21, biHeight 22-25, biPlanes 26-27, biBitCount 28-29, biCompression 30-33, and so on up to biClrImportant 50-53 |
| `ByteStream.Put` | mandelbrot.c:79-97 | writing at a position overwrites from there, extends the file past its end and zero-fills any gap; the length is the larger of the old length and the write's end, and an empty write changes nothing |
| `ByteStream.PutAtEnd` | mandelbrot.c:117 | writing at the end of the file appends |
| `ByteStream.PutThenPut` | mandelbrot.c:79-83 | two consecutive writes equal one write of the concatenation |
| `ByteStream.ByteWriter.constructor` | mandelbrot.c:102 | a file opened for writing is empty and positioned at 0 |
| `ByteStream.ByteWriter.Seek` | mandelbrot.c:85 | `fseek(SEEK_SET)` sets the position and leaves the contents alone |
| `ByteStream.ByteWriter.Write` | mandelbrot.c:79-97 | `fwrite` puts the bytes at the position and advances it by their count |
| `ByteStream.ByteWriter.WriteByte` | mandelbrot.c:117 | one byte is put at the position, which advances by 1 |
| `ByteStream.ByteWriter.WriteWord` | mandelbrot.c:79 | the 2-byte encoding is put at the position, which advances by 2 |
| `ByteStream.ByteWriter.WriteDWord` | mandelbrot.c:80 | the 4-byte encoding is put at the position, which advances by 4 |
| `ByteStream.ByteWriter.WriteLong` | mandelbrot.c:88 | the 4-byte two's-complement encoding is put at the position, which advances by 4 |
| `ByteStream.ByteReader.constructor` | main.c:65 | a file opened for reading is positioned at 0 |
| `ByteStream.ByteReader.Read` | main.c:38-59 | `fread` of `n` bytes returns the `n` bytes at the cursor and advances it by `n` |
| `ByteStream.ByteReader.ReadWord` | main.c:38 | the 2 bytes at the cursor are decoded as a `WORD` and the cursor advances by 2 |
| `ByteStream.ByteReader.ReadDWord` | main.c:39 | the 4 bytes at the cursor are decoded as a `DWORD` and the cursor advances by 4 |
| `ByteStream.ByteReader.ReadLong` | main.c:50 | the 4 bytes at the cursor are decoded as a signed `LONG` and the cursor advances by 4 |
| `BmpWriter.AsDWord` | mandelbrot.c:41 | C's implicit conversion of an `int` to `DWORD` (also at line 53) gives a value in [0, 2^32) congruent to the `int` modulo 2^32 |
| `BmpWriter.FileHeaderFor` | mandelbrot.c:39-44 | the filled-in file header's `bfSize`, read back as a C `int`, is `width*height + 54` |
| `BmpWriter.InfoHeaderFor` | mandelbrot.c:46-57 | the filled-in info header's `biSizeImage`, read back as a C `int`, is `width*height` |
| `BmpWriter.CreateHeader` | mandelbrot.c:37-98 | the file header is written at the current position, the position is set to 14, and the info header is written there; the position ends at 54 |
| `BmpWriter.HeaderWrittenFromStart` | mandelbrot.c:79-97 | from offset 0, the two writes leave both headers as the first 54 bytes and leave any later bytes as they were |
| `BmpWriter.CreatedHeaderReadsBack` | mandelbrot.c:40-57 | the written header reads back with bfType 0x4D42 ("BM"), zero reserved fields, bfOffBits 54, biSize 40, biPlanes 1, biBitCount 1, biCompression 0, 2835 pels per metre, zero palette counts, and biWidth/biHeight equal to the arguments, negative ones included; bfSize and biSizeImage read as signed are `width*height + 54` and `width*height` |
| `BmpWriter.CreatedSizesForNonNegativeArea` | mandelbrot.c:41 | for a non-negative area, bfSize is `width*height + 54` and biSizeImage is `width*height`, so bfSize = 54 + biSizeImage |
| `BmpWriter.ParseFile` | mandelbrot.c:100-121 | the output is the 256 x 256 header followed by exactly 32768 bytes, where byte `i` is `i % 250`, so every pixel byte is below 250; the header claims 65590 bytes but 32822 are written |
| `BmpWriter.GeneratedSizeClaim` | mandelbrot.c:41 | any file that starts with the 256 x 256 header reads back bfSize = 65590 |
| `BmpWriter.PixelBytesBelow250` | mandelbrot.c:114-118 | every pixel byte of the generated ramp is below 250 |
| `BmpReader.ReadHeader` | main.c:35-44 | exactly 14 bytes are consumed, and the result is the positional parse of the bytes at the cursor |
| `BmpReader.ReadInfoHeader` | main.c:46-61 | exactly 40 bytes are consumed, and the result is the positional parse of the bytes at the cursor |
| `BmpReader.ParseFile` | main.c:63-67 | any input of at least 54 bytes is accepted; the file header comes from bytes 0-13 and the info header from 14-53, with biWidth from 18-21, biHeight from 22-25, biBitCount from 28-29, biCompression from 30-33 and biSizeImage from 34-37 |

## Left out

- Console output: all `printf` reporting (mandelbrot.c:59-77, main.c:69-87) is omitted.
- Opening and closing files: `fopen`/`fclose`, the open-failure message and `argv` handling are not modelled. A file is a byte sequence: the generator returns its output, and the reader takes its input as a parameter. Opening for reading with `"r"` (text mode) is treated as binary.
- ByteStream.ByteReader.Read, ByteStream.ByteReader.ReadWord, ByteStream.ByteReader.ReadDWord, ByteStream.ByteReader.ReadLong, BmpReader.ReadHeader, BmpReader.ReadInfoHeader, BmpReader.ParseFile: these require the bytes to be present. On a short file, the C code's unchecked `fread` leaves fields uninitialised, and the model does not describe that.
- BmpWriter.CreateHeader: it requires `width*height + 54` to fit in a C `int`. Beyond that range the C arithmetic overflows, which is undefined behaviour. Within the range, the conversion to `DWORD` is modelled as reduction modulo 2^32.
- Memory layout: `sizeof` and raw struct memory are not modelled. `sizeof(BITMAPINFOHEADER)` is taken to be 40 (no padding between its naturally aligned fields). Fields are written one at a time in little-endian order.
- Signed `char` narrowing of the pixel value (mandelbrot.c:116): the byte written keeps the bit pattern of `i % 250`, so the model writes that value directly.
- The grayscale, histogram, row-stride and steganography programs of the repository are not part of this model. Mandelbrot colouring is not part of it either (none of it is in these two files).
