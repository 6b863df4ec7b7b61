/** The records of a delta (the DeltaChunk values that flow from the delta
    encoder to the delta file and from the delta file to the patcher) and
    their wire encoding, delta.go:135-152. */
module DeltaChunk {
  import opened Binary

  /** A stretch [from, to) of the old file to copy, or bytes to insert as they
      are. */
  datatype Chunk = Copy(from: uint64, to: uint64) | Literal(data: seq<uint8>)

  const COPY_TAG: uint8 := 1
  const LITERAL_TAG: uint8 := 0

  /** The record of a chunk: tag 1 and both bounds as big-endian u64, or tag
      0, the byte count as a big-endian u64, and the bytes. */
  function Encode(c: Chunk): (r: seq<uint8>)
    ensures |r| == if c.Copy? then 17 else 9 + |c.data|
  {
    match c
    case Copy(from, to) => [COPY_TAG] + BigEndian(from, 8) + BigEndian(to, 8)
    case Literal(data) => [LITERAL_TAG] + BigEndian(U64(|data|), 8) + data
  }

  /** binary.BigEndian.PutUint64(bytes[at:at+8], x). */
  method PutUint64(bytes: array<uint8>, at: nat, x: uint64)
    requires at + 8 <= bytes.Length
    modifies bytes
    ensures bytes[at..at + 8] == BigEndian(x, 8)
    ensures forall k :: 0 <= k < bytes.Length && !(at <= k < at + 8) ==> bytes[k] == old(bytes[k])
  {
    var be := BigEndian(x, 8);
    forall k | 0 <= k < 8 {
      bytes[at + k] := be[k];
    }
  }

  /** delta.go:135-152: a zeroed buffer of the record's length, the tag (left
      at zero for a literal), the big-endian fields, and for a literal a loop
      copying its bytes after the header. */
  method GetRawDeltaChunk(c: Chunk) returns (raw: seq<uint8>)
    ensures raw == Encode(c)
    ensures c.Copy? ==>
      && |raw| == 17 && raw[0] == COPY_TAG
      && raw[1..9] == BigEndian(c.from, 8) && raw[9..17] == BigEndian(c.to, 8)
    ensures c.Literal? ==>
      && |raw| == 9 + |c.data| && raw[0] == LITERAL_TAG
      && raw[1..9] == BigEndian(U64(|c.data|), 8) && raw[9..] == c.data
  {
    if c.Copy? {
      raw := CopyRecord(c.from, c.to);
    } else {
      raw := LiteralRecord(c.data);
    }
  }

  /** delta.go:137-142, the record of a copy. */
  method CopyRecord(from: uint64, to: uint64) returns (raw: seq<uint8>)
    ensures raw == Encode(Copy(from, to))
    ensures |raw| == 17 && raw[0] == COPY_TAG
    ensures raw[1..9] == BigEndian(from, 8) && raw[9..17] == BigEndian(to, 8)
  {
    var bytes := new uint8[1 + 8 + 8](_ => 0);
    bytes[0] := COPY_TAG;
    PutUint64(bytes, 1, from);
    PutUint64(bytes, 9, to);
    raw := bytes[..];
    assert raw == [COPY_TAG] + raw[1..9] + raw[9..17];
  }

  /** delta.go:143-151, the record of a literal: the header, then a loop
      copying the bytes one by one. */
  method LiteralRecord(unmatchedData: seq<uint8>) returns (raw: seq<uint8>)
    ensures raw == Encode(Literal(unmatchedData))
    ensures |raw| == 9 + |unmatchedData| && raw[0] == LITERAL_TAG
    ensures raw[1..9] == BigEndian(U64(|unmatchedData|), 8) && raw[9..] == unmatchedData
  {
    var bytes := new uint8[1 + 8 + |unmatchedData|](_ => 0);
    PutUint64(bytes, 1, U64(|unmatchedData|));
    var i, ii := 9, 0;
    while i < bytes.Length
      invariant 9 <= i <= bytes.Length && ii == i - 9
      invariant bytes[0] == LITERAL_TAG && bytes[1..9] == BigEndian(U64(|unmatchedData|), 8)
      invariant bytes[9..i] == unmatchedData[..ii]
    {
      bytes[i] := unmatchedData[ii];
      i, ii := i + 1, ii + 1;
    }
    assert i == bytes.Length && ii == |unmatchedData|;
    assert bytes[9..] == bytes[9..i] && unmatchedData[..ii] == unmatchedData;
    raw := bytes[..];
    ghost var header := [LITERAL_TAG] + BigEndian(U64(|unmatchedData|), 8);
    assert raw[..9] == header by {
      assert raw[..9] == raw[..1] + raw[1..9];
    }
    assert raw == raw[..9] + raw[9..];
  }

  /** `raw` holds the records of `cs`, one per chunk, in order. */
  ghost predicate RecordsOf(raw: seq<seq<uint8>>, cs: seq<Chunk>)
  {
    |raw| == |cs| && forall i :: 0 <= i < |cs| ==> raw[i] == Encode(cs[i])
  }

  /** Records are written chunk by chunk. */
  lemma RecordsOfAppend(raw: seq<seq<uint8>>, cs: seq<Chunk>, c: Chunk)
    requires RecordsOf(raw, cs)
    ensures RecordsOf(raw + [Encode(c)], cs + [c])
  {
    var raw', cs' := raw + [Encode(c)], cs + [c];
    forall i | 0 <= i < |cs'|
      ensures raw'[i] == Encode(cs'[i])
    {
      if i < |cs| {
        assert raw'[i] == raw[i] && cs'[i] == cs[i];
      }
    }
  }
}
