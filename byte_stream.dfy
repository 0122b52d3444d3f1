/**
 * Binary file streams as the two programs use them: a writer with a file
 * position that `fwrite` advances and `fseek` sets, and a reader whose
 * `fread` calls consume the file from a cursor. A multi-byte field goes
 * through the stream as its little-endian bytes, as on a little-endian host.
 */
module ByteStream {
  import opened LittleEndian

  /** `n` zero bytes. */
  function Zeros(n: nat): (r: seq<Byte>)
    ensures |r| == n && forall i :: 0 <= i < n ==> r[i] == 0
  {
    seq(n, _ => 0)
  }

  /**
   * The file contents after writing `s` at file position `pos`: the bytes
   * from `pos` on are overwritten, the file grows when the write runs past
   * its end, and a gap left by a seek past the end reads as zeros. Writing
   * nothing leaves the file as it was, even after a seek past its end.
   */
  function Put(data: seq<Byte>, pos: nat, s: seq<Byte>): (r: seq<Byte>)
    ensures |r| == if |s| == 0 || pos + |s| <= |data| then |data| else pos + |s|
    ensures forall i :: 0 <= i < |r| ==>
      r[i] == if pos <= i < pos + |s| then s[i - pos] else if i < |data| then data[i] else 0
  {
    if s == [] then data else
    var base := if pos <= |data| then data else data + Zeros(pos - |data|);
    base[..pos] + s + (if pos + |s| < |base| then base[pos + |s|..] else [])
  }

  /** Writing at the end of the file appends. */
  lemma PutAtEnd(data: seq<Byte>, s: seq<Byte>)
    ensures Put(data, |data|, s) == data + s
  {
  }

  /** Two writes, the second where the first stopped, are one longer write. */
  lemma PutThenPut(data: seq<Byte>, pos: nat, s: seq<Byte>, t: seq<Byte>)
    ensures Put(Put(data, pos, s), pos + |s|, t) == Put(data, pos, s + t)
  {
  }

  /** A file opened for binary writing, with its contents and file position. */
  class ByteWriter {
    var bytes: seq<Byte>
    var pos: nat

    /** `fopen(name, "wb")`: an empty file, positioned at its start. */
    constructor ()
      ensures bytes == [] && pos == 0
    {
      bytes, pos := [], 0;
    }

    /** `fseek(file, offset, SEEK_SET)`. */
    method Seek(offset: nat)
      modifies this
      ensures bytes == old(bytes) && pos == offset
    {
      pos := offset;
    }

    /** `fwrite` of the bytes `s` at the current position. */
    method Write(s: seq<Byte>)
      modifies this
      ensures bytes == Put(old(bytes), old(pos), s)
      ensures pos == old(pos) + |s|
    {
      bytes := Put(bytes, pos, s);
      pos := pos + |s|;
    }

    /** `fwrite` of one byte. */
    method WriteByte(b: Byte)
      modifies this
      ensures bytes == Put(old(bytes), old(pos), [b])
      ensures pos == old(pos) + 1
    {
      Write([b]);
    }

    /** `fwrite(&x, sizeof(WORD), 1, file)`. */
    method WriteWord(w: Word)
      modifies this
      ensures bytes == Put(old(bytes), old(pos), EncodeWord(w))
      ensures pos == old(pos) + 2
    {
      Write(EncodeWord(w));
    }

    /** `fwrite(&x, sizeof(DWORD), 1, file)`. */
    method WriteDWord(d: DWord)
      modifies this
      ensures bytes == Put(old(bytes), old(pos), EncodeDWord(d))
      ensures pos == old(pos) + 4
    {
      Write(EncodeDWord(d));
    }

    /** `fwrite(&x, sizeof(LONG), 1, file)`. */
    method WriteLong(l: Long)
      modifies this
      ensures bytes == Put(old(bytes), old(pos), EncodeLong(l))
      ensures pos == old(pos) + 4
    {
      Write(EncodeLong(l));
    }
  }

  /** A file opened for reading: fixed contents and a read cursor. */
  class ByteReader {
    const data: seq<Byte>
    var pos: nat

    /** `fopen(name, "r")`, positioned at the start of the file. */
    constructor (contents: seq<Byte>)
      ensures data == contents && pos == 0
    {
      data, pos := contents, 0;
    }

    /** `fread` of `n` bytes, which must all be there. */
    method Read(n: nat) returns (s: seq<Byte>)
      requires pos + n <= |data|
      modifies this
      ensures s == data[old(pos)..old(pos) + n]
      ensures pos == old(pos) + n
    {
      s := data[pos..pos + n];
      pos := pos + n;
    }

    /** `fread(&x, sizeof(WORD), 1, file)`. */
    method ReadWord() returns (w: Word)
      requires pos + 2 <= |data|
      modifies this
      ensures w == DecodeWord(data[old(pos)..old(pos) + 2])
      ensures pos == old(pos) + 2
    {
      var s := Read(2);
      w := DecodeWord(s);
    }

    /** `fread(&x, sizeof(DWORD), 1, file)`. */
    method ReadDWord() returns (d: DWord)
      requires pos + 4 <= |data|
      modifies this
      ensures d == DecodeDWord(data[old(pos)..old(pos) + 4])
      ensures pos == old(pos) + 4
    {
      var s := Read(4);
      d := DecodeDWord(s);
    }

    /** `fread(&x, sizeof(LONG), 1, file)`. */
    method ReadLong() returns (l: Long)
      requires pos + 4 <= |data|
      modifies this
      ensures l == DecodeLong(data[old(pos)..old(pos) + 4])
      ensures pos == old(pos) + 4
    {
      var s := Read(4);
      l := DecodeLong(s);
    }
  }
}
