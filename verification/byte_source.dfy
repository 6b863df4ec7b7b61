/** What the core needs from the files it reads: random access to a byte
    sequence (io.ReaderAt over an in-memory source), and the error kinds the
    readers report. */
module ByteSource {
  import opened Binary

  datatype Option<T> = None | Some(value: T)

  datatype Result<T> = Ok(value: T) | Err(error: Error)

  /** Eof: io.EOF where more bytes were required; IoFailure: any other read
      failure; EmptyBuffer: a one-byte shift of a window that holds no bytes. */
  datatype Error = Eof | IoFailure | EmptyBuffer

  /** The bytes of a file. A read that reaches position `readable` or beyond
      fails, which stands for a device error part-way through the file; a
      source with `readable >= |bytes|` never fails. */
  datatype Source = Source(bytes: seq<uint8>, readable: nat)

  datatype ReadResult = ReadOk(data: seq<uint8>, atEof: bool) | ReadFailed

  /** `ReadAt(p, off)` with `len(p) == count` on an in-memory reader: as many
      bytes as are left, up to `count`; end of input is reported when the read
      starts at or past the end or comes back short. */
  function ReadAt(src: Source, off: nat, count: nat): ReadResult
  {
    if off >= |src.bytes| then ReadOk([], true)
    else
      var n := Min(count, |src.bytes| - off);
      if n > 0 && off + n > src.readable then ReadFailed
      else ReadOk(src.bytes[off..off + n], n < count)
  }
}
