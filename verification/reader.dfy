/** reader.go: a window of at most `windowLength` bytes sliding over a source.
    The model follows the behaviour the reader's tests assert: each read
    continues where the previous window ended, end of input is recorded, and
    the source given to the constructor is kept. */
module Reader {
  import opened Binary
  import opened ByteSource
  import opened RollingChecksum

  class BufferedReader {
    /** The ReaderSeeker the Go struct embeds. */
    const src: Source
    const windowLength: uint32
    const buffer: array<uint8>
    /** Number of live bytes at the front of `buffer`. */
    var length: nat
    /** Read cursor: the source position just after the window. */
    var offset: nat
    var eof: bool

    /** The live bytes are the source bytes just before the cursor, and end of
        input is only recorded once the cursor has reached it. */
    ghost predicate Valid()
      reads this, buffer
    {
      && buffer.Length == windowLength
      && length <= windowLength
      && length <= offset <= |src.bytes|
      && (eof ==> offset == |src.bytes|)
      && forall i :: 0 <= i < length ==> buffer[i] == src.bytes[offset - length + i]
    }

    /** reader.go:24-30: one buffer of exactly `windowLength` bytes, nothing
        read yet. */
    constructor (windowLength: uint32, src: Source)
      ensures Valid()
      ensures this.windowLength == windowLength && this.src == src
      ensures buffer.Length == windowLength && fresh(buffer)
      ensures length == 0 && offset == 0 && !eof
    {
      this.windowLength := windowLength;
      this.src := src;
      buffer := new uint8[windowLength];
      length := 0;
      offset := 0;
      eof := false;
    }

    /** The live window, never the stale bytes after it. */
    function Buf(): (r: seq<uint8>)
      reads this, buffer
      requires Valid()
      ensures |r| == length <= windowLength
      ensures r == src.bytes[offset - length..offset]
    {
      buffer[..length]
    }

    /** reader.go:49-51 */
    function Len(): (r: nat)
      reads this, buffer
      requires Valid()
      ensures r == |Buf()| && r <= windowLength
    {
      length
    }

    /** reader.go:45-47: the cursor sits right after the window. */
    function Offset(): (r: nat)
      reads this, buffer
      requires Valid()
      ensures Len() <= r <= |src.bytes|
      ensures src.bytes[r - Len()..r] == Buf()
    {
      offset
    }

    /** reader.go:61-63: once set, no byte is left to read. */
    function IsEof(): (r: bool)
      reads this, buffer
      requires Valid()
      ensures r ==> Offset() == |src.bytes|
    {
      eof
    }

    /** reader.go:71-73: any buffer slot may be read; inside the window it is
        the window's byte. */
    function Get(index: nat): (r: uint8)
      reads this, buffer
      requires Valid()
      requires index < buffer.Length
      ensures index < Len() ==> r == Buf()[index]
    {
      buffer[index]
    }

    /** reader.go:32-43: read the next window. An I/O failure changes nothing;
        otherwise the window becomes the bytes that follow the previous one
        (fewer than `windowLength`, or none, at the end), and a short or empty
        read records end of input. The result is the number of bytes read. */
    method ReadWindow() returns (n: nat, err: Option<Error>)
      requires Valid()
      modifies this, buffer
      ensures Valid()
      ensures match ReadAt(src, old(offset), windowLength)
        case ReadFailed =>
          && err == Some(IoFailure) && n == 0
          && length == old(length) && offset == old(offset) && eof == old(eof)
        case ReadOk(data, atEof) =>
          && err == None && n == |data| && Buf() == data
          && offset == old(offset) + n
          && eof == (old(eof) || atEof)
    {
      var r := ReadAt(src, offset, windowLength);
      if r.ReadFailed? {
        return 0, Some(IoFailure);
      }
      var data := r.data;
      for i := 0 to |data|
        invariant buffer[..i] == data[..i]
        modifies buffer
      {
        buffer[i] := data[i];
      }
      if r.atEof {
        eof := true;
      }
      length := |data|;
      offset := offset + |data|;
      n, err := |data|, None;
    }

    /** Used at delta.go:105 but not part of the repository: drop the oldest
        byte, shift the rest left, and append the next source byte when there
        is one (otherwise the window shrinks by one). An empty window reports
        EmptyBuffer. */
    method PopAndShift() returns (popped: uint8, err: Option<Error>)
      requires Valid()
      modifies this, buffer
      ensures Valid() && eof == old(eof)
      ensures old(length) == 0 ==>
        err == Some(EmptyBuffer) && length == old(length) && offset == old(offset)
      ensures old(length) > 0 ==> match ReadAt(src, old(offset), 1)
        case ReadFailed =>
          err == Some(IoFailure) && length == old(length) && offset == old(offset)
        case ReadOk(next, _) =>
          && err == None && popped == old(Buf())[0]
          && Buf() == old(Buf())[1..] + next
          && offset == old(offset) + |next| && length == old(length) - 1 + |next|
    {
      if length == 0 {
        return 0, Some(EmptyBuffer);
      }
      var r := ReadAt(src, offset, 1);
      if r.ReadFailed? {
        return 0, Some(IoFailure);
      }
      popped := buffer[0];
      ghost var before := Buf();
      DropFirst();
      assert Buf() == before[1..];
      if |r.data| == 1 {
        Append(r.data[0]);
      }
      err := None;
    }

    /** Shifts the live bytes after the first one slot to the left, in place:
        the window loses its oldest byte. */
    method DropFirst()
      requires Valid() && length > 0
      modifies this, buffer
      ensures Valid()
      ensures length == old(length) - 1
      ensures offset == old(offset) && eof == old(eof)
    {
      var i := 0;
      while i < length - 1
        invariant 0 <= i <= length - 1
        invariant forall j :: 0 <= j < i ==> buffer[j] == src.bytes[offset - length + 1 + j]
        invariant forall j :: i <= j < length ==> buffer[j] == src.bytes[offset - length + j]
        modifies buffer
      {
        buffer[i] := buffer[i + 1];
        i := i + 1;
      }
      length := length - 1;
    }

    /** Puts the next source byte after the window. */
    method Append(next: uint8)
      requires Valid() && length < buffer.Length
      requires offset < |src.bytes| && next == src.bytes[offset]
      modifies this, buffer
      ensures Valid()
      ensures Buf() == old(Buf()) + [next]
      ensures offset == old(offset) + 1 && eof == old(eof)
    {
      buffer[length] := next;
      assert src.bytes[offset - length..offset + 1] == src.bytes[offset - length..offset] + [next];
      length := length + 1;
      offset := offset + 1;
    }

    /** reader.go:53-59: the uint32 sum of the live bytes, which is the a
        accumulator of the window's weak checksum. */
    method SumBufferBytes() returns (sum: uint32)
      requires Valid()
      ensures sum == SumA(Buf()) % TWO_32
      ensures sum == Checksum(Buf()).a
    {
      sum := 0;
      for i := 0 to length
        invariant sum == SumA(buffer[..i]) % TWO_32
      {
        assert buffer[..i + 1][..i] == buffer[..i];
        ModAddLeft(SumA(buffer[..i]), buffer[i]);
        sum := Add32(sum, buffer[i]);
      }
    }
  }
}
