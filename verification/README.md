# plain-rdiff in Dafny

A model of plain-rdiff, an rsync-style binary diff written in Go, with
proofs about it. The tool works in three flows:

- **signature**: read the old (basis) file window by window and write, per
  window, a 20-byte bundle. A bundle is the 4-byte big-endian weak rolling
  checksum followed by the strong hash.
- **delta**: index the bundles by weak checksum. Slide a window over the new
  file. A window whose weak checksum and strong hash match a bundle extends
  or opens a *range* of the old file. Every other byte becomes *literal*
  data. Ranges and literals are written as binary records.
- **patch**: read the records back. Replay them against the basis file: a
  range copies basis bytes, a literal inserts its bytes.

Modules, one per source file (flavour in brackets):

- `Binary`: Go's fixed-width unsigned arithmetic and big-endian encodings.
  `ByteSource`: files as in-memory byte sequences, with an injectable read
  failure (`readable`).
- `RollingChecksum` (rolling_checksum.go, pure): both checksum functions.
  The from-scratch one is a method with its loop.
- `Reader` (reader.go, imperative): `BufferedReader`, a class over a
  fixed-size `array` buffer.
- `Signature` (signature.go, imperative loop) and `SignatureIndex` (main.go's
  index builder, imperative loop).
- `Matching` (delta.go:119-133): findMatchingOffset as a method over the map,
  plus the lookup function it computes.
- `DeltaChunk` (delta.go:135-152): the record encoding, with the in-place
  buffer writes of getRawDeltaChunk.
- `DeltaSpec` (delta.go:34-117 as a function): the loop's variables as a
  `State`, one round as `Step`, the run as `Run`.
- `Delta` (delta.go, imperative): the loop itself. It works with a
  `BufferedReader` and a `Range` class. It is proved to send exactly the
  records of `Run`.
- `Files` (file.go): splitting the signature file, and the delta reader as
  a method over a `File` class with a cursor. Its specification is `Decode`.
- `Patch` (patch.go): the patch loop. Its specification is `Replay`.
- `DeltaRoundTrip`: the encoder's round trip. When the matcher only reports
  windows that the basis file holds where it says, the chunks of `Run`
  rebuild the new file.
- `DeltaShape`: the shape of what the encoder sends. Pending literal bytes
  leave as one non-empty chunk, never two literals in a row. Matches of
  consecutive blocks coalesce into one range. A new file of which nothing
  matches leaves as one literal.
- `Pipeline`: the flows composed as e2e_test.go runs them, plus the finding
  below.
- `MockDelta`: the encoder with the mocks of delta_test.go.

Where the code disagrees with its callers or tests, the model follows the
code unless the code cannot be what is meant. Three places:

- reader.go's `ReadWindow` returns only an error. It also returns io.EOF
  instead of recording it. Its callers take two results: delta.go:57 a
  byte count, signature.go:13 and reader_test.go:19-37 a bool `anyReads`.
  They also expect end of input to be recorded. The model returns the byte
  count; `anyReads` is the count being non-zero. It records end of input as
  reader_test.go:12-42 expects.
- `NewBufferedReader` (reader.go:24-30) drops its reader argument. The model
  keeps the source, as every caller requires.
- `PopAndShift`, `Buf`, `WindowLen`, `GetHash` and `ErrEmptyBuffer` are used
  by delta.go but are not in the repository. `PopAndShift` and `Buf` are
  given the behaviour delta.go relies on. `WindowLen` is the window length,
  and `GetHash` is the strong hash of the window.

## Model

| member | source | states |
|---|---|---|
| Binary.BigEndianRoundTrip | signature.go:30-34 | decoding the big-endian encoding of a value that fits recovers the value |
| Binary.FromBigEndianRoundTrip | main.go:210-211 | encoding the value of a byte string gives back the same bytes |
| Binary.Uint64 | file.go:82 | binary.BigEndian.Uint64 of 8 bytes is the uint64 whose big-endian encoding they are |
| Binary.Uint64RoundTrip | file.go:95-101 | reading back the eight big-endian bytes of a uint64 gives the uint64 |
| Binary.FlattenAppend | file.go:26-32 | writing two batches of messages writes the bytes of the first, then the bytes of the second |
| RollingChecksum.CalculateChecksumWithoutPreviousCompounds | rolling_checksum.go:3-12 | a is the uint32 sum of the bytes; b is the uint32 sum of (n - i) * byte_i; the checksum is b<<16 \| a |
| RollingChecksum.CalculateChecksumUsingPreviousCompounds | rolling_checksum.go:14-33 | the result's checksum is always b<<16 \| a of the accumulators it returns |
| RollingChecksum.RollShrink | rolling_checksum.go:23-27 | on a window shorter than the window length, dropping the first byte gives exactly the from-scratch checksum and accumulators of the rest |
| RollingChecksum.RollFull | rolling_checksum.go:29-32 | sliding a full window by one byte gives exactly the from-scratch checksum and accumulators of the new window (rolling_checksum_test.go:24-37) |
| RollingChecksum.SumAPrepend | rolling_checksum.go:8 | the unwrapped a of a byte followed by a window is the byte plus the window's a |
| RollingChecksum.WeightedPrepend | rolling_checksum.go:9 | the unwrapped weighted sum of a byte followed by a window splits into the byte's weight and the window's sum |
| RollingChecksum.SlideSums | rolling_checksum.go:29-30 | the unwrapped a and b before and after sliding a full window by one byte |
| RollingChecksum.KnownChecksums | rolling_checksum_test.go:11-16 | "abc", "def", "ghi" and "jk" have the checksums the test expects |
| RollingChecksum.EmptyChecksum | rolling_checksum.go:3-12 | an empty window has checksum 0 with both accumulators 0 |
| Reader.BufferedReader.constructor | reader.go:24-30 | a buffer of exactly windowLength bytes, nothing read, not at end of input |
| Reader.BufferedReader.Buf | reader.go:32-43 | the live window is the length bytes of the source just before the cursor |
| Reader.BufferedReader.Len | reader.go:49-51 | the length of the live window, at most the window length |
| Reader.BufferedReader.Offset | reader.go:45-47 | the cursor sits right after the window in the source |
| Reader.BufferedReader.IsEof | reader.go:61-63 | once end of input is recorded, the cursor is at the end of the source |
| Reader.BufferedReader.Get | reader.go:71-73 | inside the window, the byte at that position of the window |
| Reader.BufferedReader.ReadWindow | reader.go:32-43 | a failed read changes nothing and reports the error; otherwise the window becomes the next bytes, the cursor moves past them, and a short read records end of input (reader_test.go:12-42) |
| Reader.BufferedReader.PopAndShift | delta.go:105-115 | an empty window reports EmptyBuffer; otherwise returns the oldest byte, drops it and appends the next source byte if any, or reports a failed read without changing anything |
| Reader.BufferedReader.DropFirst | delta.go:105-115 | the in-place left shift inside PopAndShift: one byte fewer, same cursor, the rest of the window still the source bytes before the cursor |
| Reader.BufferedReader.Append | delta.go:105-115 | the next source byte put after the window: the window grows by exactly that byte and the cursor moves past it |
| Reader.BufferedReader.SumBufferBytes | reader.go:53-59 | the uint32 sum of the window's bytes, which is the a accumulator of its checksum (reader_test.go:44-59) |
| Signature.GetChecksumsBundle | signature.go:30-34 | the bundle is 4 + len(hash) bytes; its first four decode to the checksum and the rest is the hash |
| Signature.WeakChecksumOf | main.go:210-211 | the checksum whose big-endian bytes are the bundle's first four |
| Signature.Round | signature.go:12-27 | one pass: a failed read returns its error, an empty read stops, otherwise it sends the window's bundle and stops iff end of input was recorded; the windows still to come shrink accordingly |
| Signature.CalculateAndSendChecksums | signature.go:5-28 | sends exactly the bundles of the windows the loop reads, in order, and returns the loop's error |
| Signature.Windows | signature.go:12-27 | the windows the loop reads and sends a bundle for, from a cursor; specified by the rows of Signature.CalculateAndSendChecksums and Signature.SignatureOfBlocks |
| Signature.SignatureError | signature.go:12-27 | the first failed read of the same loop, or nil; specified by the row of Signature.CalculateAndSendChecksums |
| Signature.SignatureOfBlocks | signature.go:12-27 | on a file that reads without failure, the loop reads the consecutive blocks of w bytes (the last possibly shorter) and returns no error |
| Signature.BlockWindowsAt | signature.go:12-27 | window j is block j, ending where that block ends |
| Signature.BlockWindowsCount | signature.go:12-27 | there are as many windows as blocks that start inside the file |
| Signature.BundlesOfAppend | signature.go:22 | the bundles of two runs of windows are the bundles of their concatenation |
| SignatureIndex.IndexStep | main.go:209-214 | recording bundle n under its checksum keeps the index exact: every checksum of the first n + 1 bundles is mapped to the last bundle carrying it |
| SignatureIndex.GetRollingChecksumAndHashes | main.go:206-216 | hashes[i] is bundle i after its checksum; every bundle's checksum is in the index, mapped to the last bundle carrying it, and the index holds nothing else |
| Matching.MatchBlock | delta.go:119-133 | the lookup findMatchingOffset computes, with the bundle index as the offset; Matching.FindMatchingOffset is proved equal to it, and Pipeline.BlockIndexRebuildsWrongBytes uses it as written |
| Matching.FindMatchingOffset | delta.go:119-133 | matches iff the checksum is in the index and the bundle it names has the window's hash; the offset is that bundle's index, otherwise 0 |
| Matching.MatchOffset | delta.go:119-133 | corrected lookup: matches exactly when findMatchingOffset does, and reports w times the bundle index |
| DeltaChunk.Encode | delta.go:135-152 | a range record is 17 bytes and a literal record is 9 + len(data) bytes |
| DeltaChunk.PutUint64 | delta.go:140-141 | writes the 8 big-endian bytes of x at the position and changes nothing else |
| DeltaChunk.GetRawDeltaChunk | delta.go:135-152 | the record of a chunk: tag 1 and both bounds big-endian, or tag 0, the big-endian length and the bytes |
| DeltaChunk.CopyRecord | delta.go:137-142 | the 17-byte range record with tag 1, from and to |
| DeltaChunk.LiteralRecord | delta.go:143-151 | the literal record: tag 0, the length, then every byte copied by the loop |
| DeltaChunk.RecordsOfAppend | delta.go:63 | sending one more record extends the records sent by the record of that chunk |
| DeltaSpec.Run | delta.go:54-116 | the loop from given variables until it returns: the chunks sent in order and the error; Delta.CalculateAndSendDeltaChunks is proved to send exactly these, and the DeltaRoundTrip and DeltaShape rows state what they are |
| Delta.Range.constructor | delta.go:53 | both bounds nil |
| Delta.Range.Clear | delta.go:18-21 | both bounds nil, so the range is empty |
| Delta.Range.Set | delta.go:23-28 | both bounds set to uint64(from) and uint64(to); the range is not empty |
| Delta.Range.ShiftToBy | delta.go:30-32 | to moves on by uint64(shiftLen), wrapping modulo 2^64; from is unchanged |
| Delta.Send | delta.go:63 | the records sent grow by the record of the chunk |
| DeltaSpec.OnMatch | delta.go:81-97 | the match branch always continues with a fresh window, at the same cursor |
| DeltaSpec.Shift | delta.go:105-115 | the window shift, when it continues, keeps the state valid and moves the loop forward |
| DeltaSpec.OnMiss | delta.go:99-115 | the miss branch, when it continues, moves the loop forward |
| DeltaSpec.Compare | delta.go:67-115 | the comparison either moves forward or stays on the same window with a fresh read pending |
| DeltaSpec.ReadPhase | delta.go:55-66 | a read that continues moves the cursor forward |
| DeltaSpec.Step | delta.go:54-116 | every round that continues makes the run's measure decrease, so the loop terminates |
| Delta.ReadFresh | delta.go:55-66 | the reader's read phase, proved equal to DeltaSpec.ReadPhase on the loop's variables |
| Delta.MatchRound | delta.go:81-97 | the match branch, proved equal to DeltaSpec.OnMatch; the records sent are those of the chunks |
| Delta.ShiftRound | delta.go:105-115 | the window shift, proved equal to DeltaSpec.Shift |
| Delta.MissRound | delta.go:99-115 | the miss branch, proved equal to DeltaSpec.OnMiss |
| Delta.CompareRound | delta.go:67-115 | checksum, match and branch, proved equal to DeltaSpec.Compare |
| Delta.EncodeRound | delta.go:54-116 | one round of the loop, proved equal to DeltaSpec.Step |
| Delta.CalculateAndSendDeltaChunks | delta.go:34-117 | the records sent are exactly those of the chunks of Run, in order, and the error is Run's |
| DeltaRoundTrip.MatchRebuilds | delta.go:81-97 | a match on a window the basis holds keeps the round-trip invariant: chunks sent plus what is still pending rebuild the same bytes |
| DeltaRoundTrip.MissRebuilds | delta.go:99-115 | a miss keeps the round-trip invariant |
| DeltaRoundTrip.CompareRebuilds | delta.go:67-115 | the comparison of a window keeps the round-trip invariant, whichever branch it takes |
| DeltaRoundTrip.ReadRebuilds | delta.go:55-66 | a read round keeps the round-trip invariant, and the end of the file sends the open range |
| DeltaRoundTrip.StepRebuilds | delta.go:54-116 | every round keeps the round-trip invariant |
| DeltaRoundTrip.RunRebuilds | delta.go:34-117 | from any state satisfying the invariant, the run returns no error and its chunks rebuild everything still pending |
| DeltaRoundTrip.EncodeRebuilds | delta.go:34-117 | with a sound matcher, reads that do not fail and a checksum callback that returns accumulators, the encoder returns no error, and patching the basis with its chunks gives exactly the new file |
| DeltaShape.OnMissShaped | delta.go:99-115 | the miss branch sends the open range first, and the pending bytes only when the loop returns |
| DeltaShape.StepShaped | delta.go:54-116 | every round sends no empty literal and no two literals in a row; one that ends on a literal continues right after a match; and right after a match, no round starts with a literal |
| DeltaShape.RunFlushesLiterals | delta.go:34-117 | for all inputs, the encoder never sends an empty literal nor two literals in a row: the bytes between two ranges, and the bytes at the end, leave as one chunk |
| DeltaShape.ReadsFresh | delta.go:55-66 | a fresh read inside the file returns the next window of bytes, and the round compares that window |
| DeltaShape.MatchOpensRange | delta.go:86-87 | the first match opens the range on the window read and sends nothing |
| DeltaShape.MatchAtRangeEnd | delta.go:89-90 | a match where the open range ends grows the range by the bytes read and sends nothing |
| DeltaShape.ExtendsByBlock | delta.go:55-97 | when the matcher finds block k at its own offset, the round that reads it extends the range [0, k windows) over it and sends nothing |
| DeltaShape.CoveredRun | delta.go:54-116 | from the range [0, k windows), the rest of the run sends the single range [0, len) and no error |
| DeltaShape.CoalescesContiguousMatches | delta.go:81-97 | contiguous matches coalesce: when every block is found at its own offset, the encoder sends exactly one range chunk [0, len), or nothing for an empty file, and no error |
| DeltaShape.MissKeepsUnsent | delta.go:99-115 | with nothing matching, a round moves the oldest window byte to the pending bytes, or returns all of them as one literal when the window is empty |
| DeltaShape.MissRun | delta.go:54-116 | with nothing matching, the run sends every byte not yet sent as one literal, and no error |
| DeltaShape.NothingMatches | delta.go:34-117 | with a matcher that never matches (an empty basis file), the encoder sends the whole new file as exactly one literal chunk, or nothing when it is empty |
| Files.ReadSignatureFile | file.go:51-62 | one slice per whole 20-byte bundle, slice i being bytes [20i, 20i + 20); a trailing partial bundle is dropped |
| Files.SignatureFileRoundTrip | file.go:51-62 | splitting a file of 20-byte bundles gives the bundles back |
| Files.File.Read | file.go:67-68 | a read of k bytes: the buffer is zero-padded after a short read, end of file before any byte is io.EOF, and the cursor moves by the bytes read |
| Files.ReadField | file.go:67-68 | `f.Read` into a k-byte buffer: k bytes, zero-padded after a short read, io.EOF only when no byte is left, the cursor moved by the bytes read |
| Files.DecodeStep | file.go:66-107 | one pass of the reader loop: a chunk and a cursor strictly further on, or the end with its error (nil at end of file or on an unknown tag) |
| Files.DecodeLiteral | file.go:76-88 | the literal branch: a chunk and a cursor strictly further on, or the error of the failed read |
| Files.DecodeCopy | file.go:89-103 | the range branch: a chunk and a cursor strictly further on, or the error of the failed read |
| Files.Decode | file.go:64-108 | the reader loop from a cursor until it stops; specified by the rows of Files.DeltaReader, Files.DeltaFileRoundTrip and Files.DecodeChain |
| Files.DeltaRound | file.go:66-107 | one pass of the reader loop, proved equal to DecodeStep |
| Files.ReadLiteral | file.go:76-88 | the literal branch, proved equal to DecodeLiteral |
| Files.ReadCopy | file.go:89-103 | the range branch, proved equal to DecodeCopy |
| Files.DeltaReader | file.go:64-108 | the chunks sent and the error returned are those of Decode from the cursor |
| Files.DecodeRecord | file.go:66-107 | a record written by GetRawDeltaChunk decodes to its chunk, with the cursor right after the record |
| Files.DecodeNext | file.go:66-107 | a decoded chunk is sent ahead of whatever the rest of the file decodes to |
| Files.DecodeStop | file.go:69-74 | a stop ends decoding with its error |
| Files.DecodeChain | file.go:66-107 | chunks decoded one after another, then a clean stop, give the whole sequence of chunks |
| Files.DecodeRecordAt | file.go:66-107 | record i of a delta file decodes to chunk i, and the next record starts where it ends |
| Files.DeltaFileRoundTrip | file.go:64-108 | a delta file holding exactly the records of a chunk sequence reads back as that sequence, with no error |
| Patch.BlockLenWraps | patch.go:13 | `to - from` in uint64 is the range's length when from <= to, and wraps to 2^64 - (from - to) otherwise (Patch.BlockLen) |
| ByteSource.ReadAt | patch.go:15 | ReadAt on an in-memory reader; specified through Patch.ApplyChunk, Patch.CopyAccepted and Patch.CopyInRange |
| Patch.ApplyChunk | patch.go:10-21 | a literal is its own bytes; an accepted range is to - from bytes of the basis starting at from |
| Patch.CopyAccepted | patch.go:10-17 | a range is accepted iff from fits an int64 and the range is empty or readable inside the basis |
| Patch.CopyInRange | patch.go:10-17 | a readable range with from <= to gives exactly basis[from..to) |
| Patch.Replay | patch.go:7-25 | the pieces are those of the chunks in order up to the first failing chunk, whose error is returned |
| Patch.Patch | patch.go:7-25 | what is written and returned is Replay of the chunks |
| Patch.ReplayContents | patch.go:7-25 | when every chunk applies, the pieces written are exactly the chunks' pieces |
| Patch.ReplayAppend | patch.go:7-25 | patching with two deltas one after the other writes the pieces of the first, then those of the second |
| Patch.RebuiltAppend | patch.go:7-25 | the file rebuilt from two deltas is the two rebuilt files one after the other |
| Patch.RebuiltOne | patch.go:7-25 | a single chunk rebuilds its own piece |
| Patch.PieceWithin | patch.go:19-21 | no piece is longer than the file it is part of |
| Pipeline.SignatureMatcherSound | delta.go:119-133 | with the hash list built from the signature of a basis file and a strong hash without collisions on its blocks, the corrected matcher reports only windows the basis holds where it says |
| Pipeline.EndToEnd | e2e_test.go:96-153 | signature, index, delta with the corrected matcher, delta file and patch: no error, the delta file reads back as the encoder's chunks, and the patch rebuilds the new file |
| Pipeline.AbcdefIndex | main.go:206-216 | with the weak checksums of rolling_checksum_test.go, the index of the signature of "abcdef" in 3-byte windows maps "abc" to bundle 0 and "def" to bundle 1 |
| Pipeline.FromScratchRollsDef | rolling_checksum.go:3-12 | the from-scratch checksum gives "def" the checksum that index maps to bundle 1 |
| Pipeline.AsWrittenFirstRound | delta.go:86-93 | as written, the first round on the new file "def" opens the range [1, 4), a bundle index used as a byte offset |
| Pipeline.BlockIndexRebuildsWrongBytes | delta.go:86-93 | as written, the encoder sends the range [1, 4) alone, which rebuilds "bcd" instead of "def" |
| MockDelta.IndexFrom | delta_test.go:93 | strings.Index: the first position at which the window occurs in the old file, or -1 if there is none |
| MockDelta.MockMatcherSound | delta_test.go:89-99 | the test's matcher reports only windows the old file holds where it says |
| MockDelta.MockDeltaRecreates | delta_test.go:15-80 | for any new and old file, the encoder with the test's mocks returns no error, and its chunks rebuild the new file from the old one |

## Left out

- File and channel I/O, goroutines, `log.Fatal` and `panic` are left out. Files are in-memory `Source`s, and a channel is the sequence of values sent on it. CreateAndFillFile and CreateAndFillDeltaFile are `Flatten` of what was sent.
- The strong hash (MD4) and the weak checksum are parameters of the flows. MD4 itself is not modelled. reader.go:65-69 hashes `buffer[:len(buffer)-length]` rather than the window; the model hashes the window, as reader_test.go:61-75 expects.
- CalculateChecksum and calculateMD4 are not part of this model. main.go passes them, but the repository does not define them. They are the `checksumCalculation` and `hashCalculation` parameters of the encoder. GetHash and WindowLen are not defined in the repository either. They are modelled as `hashCalculation` applied to the window, and as the encoder's `windowLength`.
- ErrEmptyBuffer, PopAndShift and Buf are also not defined in the repository. They are given the behaviour delta.go relies on.
- Version skew is not modelled. main.go passes seven arguments to a delta function that takes eight. CreateAndFillDeltaFile reads a `DeltaChunk` channel where the encoder sends raw records. The model follows delta.go and file.go.
- Reader.BufferedReader.ReadWindow: follows the callers and reader_test.go. It does not return io.EOF as reader.go:32-43 does, and it never fails on Seek.
- Matching.MatchBlock: the Go code panics on an index outside the hash list. Here that case is treated as no match.
- Files.DecodeLiteral: `make([]byte, blockLen)` (file.go:83) panics when the declared length is more than Go can allocate. The model yields the data read, padded with zeros to the declared length.
- Patch.ApplyChunk: `make([]byte, to - from)` on a huge wrapped length would panic on allocation. The model only bounds the length by the basis file.
- Delta.CalculateAndSendDeltaChunks: the getRawDeltaData callback (delta.go:39) is fixed to getRawDeltaChunk, the only function of the repository with its type. deltaFlow (main.go:144-152) passes no such argument at all. The test's text format is covered by MockDelta on chunks.
- The encoder's outer `pop` is never assigned, because delta.go:105 shadows it. The checksum callback therefore always receives nil, and the model passes None.
- DeltaRoundTrip.EncodeRebuilds: proved for files that read without failure and a checksum callback that returns accumulators. Failed reads are modelled as errors, but no round trip is claimed for them.
- Pipeline.EndToEnd: uses the corrected matcher (see Findings). WINDOW_LENGTH (main.go:25) and signature-file splitting (Files.SignatureFileRoundTrip) are separate: EndToEnd is stated for any window length and takes the bundles directly.
- Pipeline.BlockIndexRebuildsWrongBytes: takes the checksum callback as a parameter, with the checksum of "def" as its requirement. Pipeline.FromScratchRollsDef shows that the from-scratch checksum meets it.
- The record format of delta_test.go's mockGetDeltaChunk is not modelled. MockDelta states the round trip on chunks.

## Findings

| source | as written | input that shows it | evidently intended | confidence | as-written member | corrected member |
|---|---|---|---|---|---|---|
| delta.go:119-133, delta.go:86-93 | findMatchingOffset returns the index of the matching bundle; the encoder uses it as a byte offset into the basis file | basis "abcdef" signed with 3-byte windows, new file "def": bundle 1 matches and the range [1, 4) is sent, which patches to "bcd" | the offset of bundle i is windowLength * i, as the strings.Index mock of delta_test.go:89-99 reports | high, not executed | Pipeline.BlockIndexRebuildsWrongBytes | Pipeline.EndToEnd |
