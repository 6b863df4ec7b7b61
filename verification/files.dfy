/** file.go: splitting a signature file into bundles, and reading the records
    of a delta file back into chunks. */
module Files {
  import opened Binary
  import opened ByteSource
  import opened DeltaChunk

  /** file.go:10: the size of one signature bundle, a 4-byte weak checksum and
      a 16-byte MD4 hash. */
  const BUNDLE_SIZE: nat := 20

  /** file.go:51-62 after the file has been read: one slice per whole bundle,
      slice i holding bytes [20 * i, 20 * (i + 1)); trailing bytes that do not
      fill a bundle are ignored. */
  method ReadSignatureFile(contents: seq<uint8>) returns (slices: seq<seq<uint8>>)
    ensures |slices| == |contents| / BUNDLE_SIZE
    ensures forall i :: 0 <= i < |slices| ==> slices[i] == contents[i * BUNDLE_SIZE..(i + 1) * BUNDLE_SIZE]
  {
    var buf := new seq<uint8>[|contents| / BUNDLE_SIZE];
    for i := 0 to buf.Length
      invariant forall j :: 0 <= j < i ==> buf[j] == contents[j * BUNDLE_SIZE..(j + 1) * BUNDLE_SIZE]
    {
      buf[i] := contents[i * BUNDLE_SIZE..(i + 1) * BUNDLE_SIZE];
    }
    slices := buf[..];
  }

  /** Splitting the concatenation of bundles of 20 bytes gives the bundles
      back: the signature file written by the signature flow reads back as
      the bundles that were sent. */
  lemma {:induction false} SignatureFileRoundTrip(bundles: seq<seq<uint8>>)
    requires forall i :: 0 <= i < |bundles| ==> |bundles[i]| == BUNDLE_SIZE
    ensures |Flatten(bundles)| == |bundles| * BUNDLE_SIZE
    ensures forall i :: 0 <= i < |bundles| ==>
      Flatten(bundles)[i * BUNDLE_SIZE..(i + 1) * BUNDLE_SIZE] == bundles[i]
  {
    if bundles != [] {
      var init, n := bundles[..|bundles| - 1], |bundles| - 1;
      SignatureFileRoundTrip(init);
      var flat := Flatten(bundles);
      assert flat == Flatten(init) + bundles[n];
      forall i | 0 <= i < |bundles|
        ensures flat[i * BUNDLE_SIZE..(i + 1) * BUNDLE_SIZE] == bundles[i]
      {
        if i < n {
          assert flat[i * BUNDLE_SIZE..(i + 1) * BUNDLE_SIZE] == Flatten(init)[i * BUNDLE_SIZE..(i + 1) * BUNDLE_SIZE];
        } else {
          assert flat[i * BUNDLE_SIZE..] == bundles[n];
        }
      }
    }
  }

  /** `n` zero bytes (what `make([]byte, n)` holds). */
  function Zeros(n: nat): (r: seq<uint8>)
    ensures |r| == n
  {
    seq(n, _ => 0)
  }

  /** The buffer after a read, and how far the file cursor moved. */
  datatype Field = Field(bytes: seq<uint8>, consumed: nat)

  /** `b := make([]byte, k); f.Read(b)` on a file whose cursor is at `pos`: a
      buffer that gets fewer bytes than it holds keeps zeros at its end and
      is not an error; no byte at all before the end is io.EOF; an empty
      buffer reads nothing and succeeds. */
  function ReadField(src: Source, pos: nat, k: nat): (r: Result<Field>)
    ensures r.Ok? ==> |r.value.bytes| == k && pos + r.value.consumed <= |src.bytes| + (if k == 0 then pos else 0)
    ensures r.Ok? && k > 0 ==> 0 < r.value.consumed && pos + r.value.consumed <= |src.bytes|
  {
    if k == 0 then Ok(Field([], 0))
    else
      match ReadAt(src, pos, k)
      case ReadFailed => Err(IoFailure)
      case ReadOk(data, _) => if |data| == 0 then Err(Eof) else Ok(Field(data + Zeros(k - |data|), |data|))
  }

  /** The outcome of one round of the delta reader: a chunk and the cursor
      after its record, or the end of decoding with the error returned. */
  datatype Step = Next(chunk: Chunk, pos: nat) | Stop(err: Option<Error>)

  /** One round of file.go:66-107 from cursor `pos`: read the tag byte (end of
      file there ends decoding without error); tag 0 introduces a literal,
      tag 1 a range, and any other tag ends decoding without error. */
  function DecodeStep(src: Source, pos: nat): (r: Step)
    ensures r.Next? ==> pos < r.pos <= |src.bytes|
  {
    match ReadField(src, pos, 1)
    case Err(e) => Stop(if e == Eof then None else Some(e))
    case Ok(tag) =>
      var p := pos + tag.consumed;
      if tag.bytes[0] == LITERAL_TAG then DecodeLiteral(src, p)
      else if tag.bytes[0] == COPY_TAG then DecodeCopy(src, p)
      else Stop(None)
  }

  /** file.go:77-88, after tag 0: an 8-byte big-endian length, then that many
      bytes of literal data; a failed read ends decoding with its error. */
  function DecodeLiteral(src: Source, p: nat): (r: Step)
    ensures r.Next? ==> p < r.pos <= |src.bytes|
  {
    match ReadField(src, p, 8)
    case Err(e) => Stop(Some(e))
    case Ok(lengthField) =>
      var q := p + lengthField.consumed;
      match ReadField(src, q, Uint64(lengthField.bytes))
      case Err(e) => Stop(Some(e))
      case Ok(data) => Next(Literal(data.bytes), q + data.consumed)
  }

  /** file.go:90-103, after tag 1: the 8-byte big-endian bounds of the range;
      a failed read ends decoding with its error. */
  function DecodeCopy(src: Source, p: nat): (r: Step)
    ensures r.Next? ==> p < r.pos <= |src.bytes|
  {
    match ReadField(src, p, 8)
    case Err(e) => Stop(Some(e))
    case Ok(fromField) =>
      var q := p + fromField.consumed;
      match ReadField(src, q, 8)
      case Err(e) => Stop(Some(e))
      case Ok(toField) => Next(Copy(Uint64(fromField.bytes), Uint64(toField.bytes)), q + toField.consumed)
  }

  /** The chunks a delta reader sends, and the error it returns. */
  datatype Decoded = Decoded(chunks: seq<Chunk>, err: Option<Error>)

  /** The delta reader from cursor `pos` until it stops. */
  function Decode(src: Source, pos: nat): Decoded
    decreases |src.bytes| - pos
  {
    match DecodeStep(src, pos)
    case Stop(e) => Decoded([], e)
    case Next(c, p) => var rest := Decode(src, p); Decoded([c] + rest.chunks, rest.err)
  }

  /** An open file: its bytes and its read cursor. */
  class File {
    const src: Source
    var pos: nat

    ghost predicate Valid()
      reads this
    {
      pos <= |src.bytes|
    }

    constructor (src: Source)
      ensures Valid() && this.src == src && pos == 0
    {
      this.src := src;
      pos := 0;
    }

    /** `b := make([]byte, k); _, err := f.Read(b)`: the buffer, and the error;
        the cursor moves past the bytes read. */
    method Read(k: nat) returns (b: seq<uint8>, err: Option<Error>)
      requires Valid()
      modifies this
      ensures Valid()
      ensures match ReadField(src, old(pos), k)
        case Ok(f) => err == None && b == f.bytes && pos == old(pos) + f.consumed
        case Err(e) => err == Some(e) && pos == old(pos)
    {
      if k == 0 {
        return [], None;
      }
      var r := ReadAt(src, pos, k);
      if r.ReadFailed? {
        return [], Some(IoFailure);
      }
      if |r.data| == 0 {
        return [], Some(Eof);
      }
      b := r.data + Zeros(k - |r.data|);
      pos := pos + |r.data|;
      err := None;
    }
  }

  /** file.go:66-107, one pass of the loop: the chunk decoded, or none and the
      error the reader returns. */
  method DeltaRound(delta: File) returns (next: Option<Chunk>, err: Option<Error>)
    requires delta.Valid()
    modifies delta
    ensures delta.Valid()
    ensures match DecodeStep(delta.src, old(delta.pos))
      case Next(c, p) => next == Some(c) && err == None && delta.pos == p
      case Stop(e) => next == None && err == e
  {
    var b, e := delta.Read(1);
    if e.Some? {
      if e.value == Eof {
        return None, None;
      }
      return None, e;
    }
    if b[0] == LITERAL_TAG {
      next, err := ReadLiteral(delta);
    } else if b[0] == COPY_TAG {
      next, err := ReadCopy(delta);
    } else {
      next, err := None, None;
    }
  }

  /** file.go:77-88 */
  method ReadLiteral(delta: File) returns (next: Option<Chunk>, err: Option<Error>)
    requires delta.Valid()
    modifies delta
    ensures delta.Valid()
    ensures match DecodeLiteral(delta.src, old(delta.pos))
      case Next(c, p) => next == Some(c) && err == None && delta.pos == p
      case Stop(e) => next == None && err == e
  {
    var blockLenBytes, e1 := delta.Read(8);
    if e1.Some? {
      return None, e1;
    }
    var blockLen := Uint64(blockLenBytes);
    var rawData, e2 := delta.Read(blockLen);
    if e2.Some? {
      return None, e2;
    }
    return Some(Literal(rawData)), None;
  }

  /** file.go:90-103 */
  method ReadCopy(delta: File) returns (next: Option<Chunk>, err: Option<Error>)
    requires delta.Valid()
    modifies delta
    ensures delta.Valid()
    ensures match DecodeCopy(delta.src, old(delta.pos))
      case Next(c, p) => next == Some(c) && err == None && delta.pos == p
      case Stop(e) => next == None && err == e
  {
    var fromBytes, e1 := delta.Read(8);
    if e1.Some? {
      return None, e1;
    }
    var from := Uint64(fromBytes);
    var toBytes, e2 := delta.Read(8);
    if e2.Some? {
      return None, e2;
    }
    var to := Uint64(toBytes);
    return Some(Copy(from, to)), None;
  }

  /** file.go:64-108: decode records from the cursor on and send each chunk,
      until the file ends at a record boundary, a read fails, or an unknown
      tag is met. */
  method DeltaReader(delta: File) returns (chunks: seq<Chunk>, err: Option<Error>)
    requires delta.Valid()
    modifies delta
    ensures delta.Valid()
    ensures Decoded(chunks, err) == Decode(delta.src, old(delta.pos))
  {
    ghost var all := Decode(delta.src, delta.pos);
    chunks := [];
    while true
      invariant delta.Valid()
      invariant all.chunks == chunks + Decode(delta.src, delta.pos).chunks
      invariant all.err == Decode(delta.src, delta.pos).err
      decreases |delta.src.bytes| - delta.pos
    {
      ghost var pos := delta.pos;
      var next, e := DeltaRound(delta);
      if next.None? {
        return chunks, e;
      }
      DecodeNext(delta.src, pos, next.value, delta.pos);
      AppendAssoc(chunks, [next.value], Decode(delta.src, delta.pos).chunks);
      chunks := chunks + [next.value];
    }
  }

  /** A read that fits inside a file that does not fail gets exactly the
      bytes at the cursor. */
  lemma FieldAt(src: Source, pos: nat, s: seq<uint8>)
    requires src.readable >= |src.bytes| && |s| > 0
    requires pos + |s| <= |src.bytes| && src.bytes[pos..pos + |s|] == s
    ensures ReadField(src, pos, |s|) == Ok(Field(s, |s|))
  {
    assert ReadAt(src, pos, |s|) == ReadOk(s, false);
    assert s + Zeros(0) == s;
  }

  /** A slice of the bytes found at the cursor is found at the matching offset. */
  lemma SliceAt(bytes: seq<uint8>, pos: nat, t: seq<uint8>, a: nat, b: nat)
    requires pos + |t| <= |bytes| && bytes[pos..pos + |t|] == t && a <= b <= |t|
    ensures bytes[pos + a..pos + b] == t[a..b]
  {
    forall i | 0 <= i < b - a
      ensures bytes[pos + a..pos + b][i] == t[a..b][i]
    {
      assert bytes[pos + a + i] == bytes[pos..pos + |t|][a + i];
    }
  }

  /** The three parts of a concatenation are its slices at the part
      boundaries. */
  lemma ThreeParts(x: seq<uint8>, y: seq<uint8>, z: seq<uint8>)
    ensures (x + y + z)[..|x|] == x
    ensures (x + y + z)[|x|..|x| + |y|] == y
    ensures (x + y + z)[|x| + |y|..] == z
    ensures (x + y + z)[|x| + |y|..|x| + |y| + |z|] == z
  {
  }

  /** Where the fields of a range record sit, and what they decode to. */
  lemma CopyLayout(from: uint64, to: uint64)
    ensures var record := Encode(Copy(from, to));
      && record[..1] == [COPY_TAG]
      && Uint64(record[1..9]) == from && Uint64(record[9..17]) == to
  {
    ThreeParts([COPY_TAG], BigEndian(from, 8), BigEndian(to, 8));
    Uint64RoundTrip(from);
    Uint64RoundTrip(to);
  }

  /** Where the fields of a literal record sit, and what they decode to. */
  lemma LiteralLayout(data: seq<uint8>)
    requires |data| < TWO_64
    ensures var record := Encode(Literal(data));
      && record[..1] == [LITERAL_TAG]
      && Uint64(record[1..9]) == |data| && record[9..] == data
  {
    ThreeParts([LITERAL_TAG], BigEndian(|data|, 8), data);
    Uint64RoundTrip(|data|);
  }

  /** The two 8-byte bounds of a range record decode to the range. */
  lemma DecodeCopyAt(src: Source, p: nat, from: seq<uint8>, to: seq<uint8>)
    requires src.readable >= |src.bytes| && p + 16 <= |src.bytes| && |from| == |to| == 8
    requires src.bytes[p..p + 8] == from && src.bytes[p + 8..p + 16] == to
    ensures DecodeCopy(src, p) == Next(Copy(Uint64(from), Uint64(to)), p + 16)
  {
    FieldAt(src, p, from);
    FieldAt(src, p + 8, to);
  }

  /** The 8-byte length and the bytes of a literal record decode to the
      literal. */
  lemma DecodeLiteralAt(src: Source, p: nat, length: seq<uint8>, data: seq<uint8>)
    requires src.readable >= |src.bytes| && p + 8 + |data| <= |src.bytes|
    requires |length| == 8 && Uint64(length) == |data|
    requires src.bytes[p..p + 8] == length && src.bytes[p + 8..p + 8 + |data|] == data
    ensures DecodeLiteral(src, p) == Next(Literal(data), p + 8 + |data|)
  {
    FieldAt(src, p, length);
    if |data| > 0 {
      FieldAt(src, p + 8, data);
    }
  }

  /** After a tag byte the rest of the record is decoded by its kind. */
  lemma DecodeAfterTag(src: Source, pos: nat, tag: uint8)
    requires ReadField(src, pos, 1) == Ok(Field([tag], 1))
    ensures DecodeStep(src, pos) ==
      if tag == LITERAL_TAG then DecodeLiteral(src, pos + 1)
      else if tag == COPY_TAG then DecodeCopy(src, pos + 1)
      else Stop(None)
  {
  }

  /** A range record at the cursor decodes to its range. */
  lemma DecodeCopyRecord(src: Source, pos: nat, record: seq<uint8>, from: uint64, to: uint64)
    requires src.readable >= |src.bytes| && |record| == 17
    requires record[..1] == [COPY_TAG] && Uint64(record[1..9]) == from && Uint64(record[9..17]) == to
    requires pos + 17 <= |src.bytes| && src.bytes[pos..pos + 17] == record
    ensures DecodeStep(src, pos) == Next(Copy(from, to), pos + 17)
  {
    SliceAt(src.bytes, pos, record, 0, 1);
    FieldAt(src, pos, record[..1]);
    DecodeAfterTag(src, pos, COPY_TAG);
    SliceAt(src.bytes, pos, record, 1, 9);
    SliceAt(src.bytes, pos, record, 9, 17);
    DecodeCopyAt(src, pos + 1, record[1..9], record[9..17]);
  }

  /** A literal record at the cursor decodes to its literal. */
  lemma DecodeLiteralRecord(src: Source, pos: nat, record: seq<uint8>, data: seq<uint8>)
    requires src.readable >= |src.bytes| && |record| == 9 + |data|
    requires record[..1] == [LITERAL_TAG] && Uint64(record[1..9]) == |data| && record[9..] == data
    requires pos + |record| <= |src.bytes| && src.bytes[pos..pos + |record|] == record
    ensures DecodeStep(src, pos) == Next(Literal(data), pos + |record|)
  {
    SliceAt(src.bytes, pos, record, 0, 1);
    FieldAt(src, pos, record[..1]);
    DecodeAfterTag(src, pos, LITERAL_TAG);
    SliceAt(src.bytes, pos, record, 1, 9);
    SliceAt(src.bytes, pos, record, 9, |record|);
    DecodeLiteralAt(src, pos + 1, record[1..9], data);
  }

  /** A record written by GetRawDeltaChunk at the cursor decodes to its chunk,
      as long as a literal's length fits the 64-bit length field. */
  lemma DecodeRecord(src: Source, pos: nat, c: Chunk, record: seq<uint8>)
    requires src.readable >= |src.bytes| && record == Encode(c)
    requires pos + |record| <= |src.bytes| && src.bytes[pos..pos + |record|] == record
    requires c.Literal? ==> |c.data| < TWO_64
    ensures DecodeStep(src, pos) == Next(c, pos + |record|)
  {
    if c.Copy? {
      CopyLayout(c.from, c.to);
      DecodeCopyRecord(src, pos, record, c.from, c.to);
    } else {
      LiteralLayout(c.data);
      DecodeLiteralRecord(src, pos, record, c.data);
    }
  }

  /** A decoded chunk is sent ahead of whatever the rest of the file decodes to. */
  lemma DecodeNext(src: Source, pos: nat, c: Chunk, p: nat)
    requires DecodeStep(src, pos) == Next(c, p)
    ensures Decode(src, pos) == Decoded([c] + Decode(src, p).chunks, Decode(src, p).err)
  {
  }

  /** A stop ends decoding with its error. */
  lemma DecodeStop(src: Source, pos: nat)
    requires DecodeStep(src, pos).Stop?
    ensures Decode(src, pos) == Decoded([], DecodeStep(src, pos).err)
  {
  }

  /** When each of the outcomes ds[i], ds[i + 1], ... sends one chunk ahead
      of the next outcome, and the last one sends nothing and no error, then
      ds[i] sends exactly those chunks. */
  lemma {:induction false} DecodeChain(cs: seq<Chunk>, ds: seq<Decoded>, i: nat)
    requires |ds| == |cs| + 1 && i <= |cs|
    requires forall j :: i <= j < |cs| ==> ds[j] == Decoded([cs[j]] + ds[j + 1].chunks, ds[j + 1].err)
    requires ds[|cs|] == Decoded([], None)
    ensures ds[i] == Decoded(cs[i..], None)
    decreases |cs| - i
  {
    if i < |cs| {
      DecodeChain(cs, ds, i + 1);
      assert cs[i..] == [cs[i]] + cs[i + 1..];
    }
  }

  /** Where record i starts in the concatenation of the records. */
  function RecordStart(records: seq<seq<uint8>>, i: nat): nat
    requires i <= |records|
  {
    |Flatten(records[..i])|
  }

  /** Record i sits at its start. */
  lemma RecordAt(records: seq<seq<uint8>>, i: nat)
    requires i < |records|
    ensures var file, p := Flatten(records), RecordStart(records, i);
      && RecordStart(records, i + 1) == p + |records[i]| <= |file|
      && file[p..p + |records[i]|] == records[i]
  {
    var front, upto, rest := records[..i], records[..i + 1], records[i + 1..];
    assert Flatten(upto) == Flatten(front) + records[i] by {
      assert upto[..i] == front;
    }
    assert Flatten(records) == Flatten(front) + records[i] + Flatten(rest) by {
      FlattenAppend(upto, rest);
      assert upto + rest == records;
    }
    ThreeParts(Flatten(front), records[i], Flatten(rest));
  }

  /** Record i of a delta file decodes to chunk i. */
  lemma DecodeRecordAt(cs: seq<Chunk>, records: seq<seq<uint8>>, i: nat)
    requires |records| == |cs| && i < |cs| && records[i] == Encode(cs[i])
    requires cs[i].Literal? ==> |cs[i].data| < TWO_64
    ensures var file := Flatten(records);
      DecodeStep(Source(file, |file|), RecordStart(records, i)) == Next(cs[i], RecordStart(records, i + 1))
  {
    var file := Flatten(records);
    RecordAt(records, i);
    DecodeRecord(Source(file, |file|), RecordStart(records, i), cs[i], records[i]);
  }

  /** A delta file holding exactly the records of a chunk sequence, on a
      device that does not fail, reads back as those chunks with no error. */
  lemma DeltaFileRoundTrip(cs: seq<Chunk>, records: seq<seq<uint8>>)
    requires |records| == |cs| && forall i :: 0 <= i < |cs| ==> records[i] == Encode(cs[i])
    requires forall i :: 0 <= i < |cs| && cs[i].Literal? ==> |cs[i].data| < TWO_64
    ensures var file := Flatten(records); Decode(Source(file, |file|), 0) == Decoded(cs, None)
  {
    var file := Flatten(records);
    var src := Source(file, |file|);
    var ds := seq(|cs| + 1, i requires 0 <= i <= |cs| => Decode(src, RecordStart(records, i)));
    forall j | 0 <= j < |cs|
      ensures ds[j] == Decoded([cs[j]] + ds[j + 1].chunks, ds[j + 1].err)
    {
      DecodeRecordAt(cs, records, j);
      DecodeNext(src, RecordStart(records, j), cs[j], RecordStart(records, j + 1));
    }
    assert ds[|cs|] == Decoded([], None) by {
      assert records[..|cs|] == records;
      assert ReadAt(src, |file|, 1) == ReadOk([], true);
      DecodeStop(src, |file|);
    }
    assert records[..0] == [];
    DecodeChain(cs, ds, 0);
    assert cs[0..] == cs;
  }
}
