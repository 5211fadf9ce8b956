// The byte stream RecordInfo::Write and RecordInfo::Read are templated over:
// writes append, reads take the next bytes.

module ByteStreams {
  import opened Bytes

  class ByteStream {
    /** Everything written so far, or the contents being read. */
    var data: seq<byte>
    /** Where the next read starts. */
    var pos: nat

    constructor(d: seq<byte>)
      ensures data == d && pos == 0
    {
      data, pos := d, 0;
    }

    /** file.Write(p, n): the n bytes go at the end. */
    method Write(b: seq<byte>)
      modifies this
      ensures data == old(data) + b && pos == old(pos)
    {
      data := data + b;
    }

    /** file.Read(p, n): the next n bytes, which the stream must hold. */
    method Read(n: nat) returns (b: seq<byte>)
      requires pos + n <= |data|
      modifies this
      ensures b == old(data[pos..pos + n]) && |b| == n
      ensures data == old(data) && pos == old(pos) + n
    {
      b := data[pos..pos + n];
      pos := pos + n;
    }
  }
}
