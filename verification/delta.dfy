/** delta.go: the delta encoder. It slides a window over the new file, sends
    ranges of the old file for windows the signature matches and literal
    bytes for the rest, each as its wire record. */
module Delta {
  import opened Binary
  import opened ByteSource
  import opened DeltaChunk
  import opened Reader
  import opened Matching
  import opened DeltaSpec

  /** delta.go:9-12: the open range of the old file, both bounds nil when
      there is none. */
  class Range {
    var from: Option<uint64>
    var to: Option<uint64>

    /** `Range{}` */
    constructor ()
      ensures from == None && to == None
    {
      from, to := None, None;
    }

    /** delta.go:14-16 */
    predicate Empty()
      reads this
    {
      from.None? && to.None?
    }

    /** delta.go:18-21 */
    method Clear()
      modifies this
      ensures Empty()
    {
      from, to := None, None;
    }

    /** delta.go:23-28: both bounds set, converted to uint64. */
    method Set(f: int, t: int)
      modifies this
      ensures from == Some(U64(f)) && to == Some(U64(t)) && !Empty()
    {
      from, to := Some(U64(f)), Some(U64(t));
    }

    /** delta.go:30-32: `to` moved on by `shiftLen` in uint64 arithmetic;
        `from` unchanged. A nil `to` would panic. */
    method ShiftToBy(shiftLen: int)
      requires to.Some?
      modifies this
      ensures from == old(from) && to == Some(Add64(old(to.value), U64(shiftLen)))
    {
      to := Some(Add64(to.value, U64(shiftLen)));
    }
  }

  /** `deltaChunkChan <- getRawDeltaData(...)`: the record of the chunk is
      sent after the ones before it. */
  method Send(deltaChunks: seq<seq<uint8>>, ghost done: seq<Chunk>, c: Chunk) returns (out: seq<seq<uint8>>)
    requires RecordsOf(deltaChunks, done)
    ensures out == deltaChunks + [Encode(c)] && RecordsOf(out, done + [c])
  {
    var raw := GetRawDeltaChunk(c);
    RecordsOfAppend(deltaChunks, done, c);
    out := deltaChunks + [raw];
  }


  /** The variables of the loop as a state of the run. */
  ghost function StateOf(reader: BufferedReader, r: Range, unmatched: seq<uint8>,
                         a: Option<uint32>, b: Option<uint32>, readBytes: int): State
    reads reader, r
  {
    State(reader.offset, reader.length, unmatched, r.from, r.to, a, b, readBytes)
  }

  /** delta.go:55-66: read a fresh window. `stop` when the loop returns there:
      on a failed read, or on an empty one after sending the open range. */
  method ReadFresh(env: Env, reader: BufferedReader, r: Range, deltaChunks: seq<seq<uint8>>, ghost done: seq<Chunk>,
                   ghost s: State)
    returns (readBytes: int, stop: bool, err: Option<Error>, out: seq<seq<uint8>>, ghost sent: seq<Chunk>)
    requires reader.Valid() && env.src == reader.src && env.windowLength == reader.windowLength
    requires Valid(env, s) && s == StateOf(reader, r, s.unmatched, s.a, s.b, s.readBytes)
    requires RecordsOf(deltaChunks, done)
    modifies reader, reader.buffer
    ensures reader.Valid() && RecordsOf(out, done + sent)
    ensures stop ==> ReadPhase(env, s) == Finish(sent, err)
    ensures !stop ==> var s1 := StateOf(reader, r, s.unmatched, s.a, s.b, readBytes);
      && sent == [] && out == deltaChunks && Valid(env, s1) && ReadPhase(env, s) == Compare(env, s1)
  {
    var n, e := reader.ReadWindow();
    readBytes, out, sent := n, deltaChunks, [];
    if e.Some? {
      assert done + sent == done;
      return readBytes, true, e, out, sent;
    }
    if n == 0 {
      if !r.Empty() {
        var c := Copy(r.from.value, r.to.value);
        out := Send(out, done, c);
        sent := [c];
      } else {
        assert done + sent == done;
      }
      return readBytes, true, None, out, sent;
    }
    assert done + sent == done;
    stop, err := false, None;
  }

  /** delta.go:81-97, the match branch: send the pending literal bytes, then
      open, extend or replace the range. */
  method MatchRound(env: Env, reader: BufferedReader, r: Range, unmatched: seq<uint8>, readBytes: int,
                    deltaChunks: seq<seq<uint8>>, ghost done: seq<Chunk>, offset: int, ghost s: State)
    returns (unmatched': seq<uint8>, out: seq<seq<uint8>>, ghost sent: seq<Chunk>)
    requires reader.Valid() && env.src == reader.src && env.windowLength == reader.windowLength
    requires Valid(env, s) && s == StateOf(reader, r, unmatched, s.a, s.b, readBytes)
    requires RecordsOf(deltaChunks, done)
    modifies r
    ensures RecordsOf(out, done + sent)
    ensures OnMatch(env, s, offset) == Continue(StateOf(reader, r, unmatched', None, None, readBytes), sent)
  {
    out, sent, unmatched' := deltaChunks, [], unmatched;
    assert done + sent == done;
    if |unmatched| > 0 {
      out := Send(out, done, Literal(unmatched));
      sent := [Literal(unmatched)];
      unmatched' := [];
    }
    if r.Empty() {
      r.Set(offset, offset + reader.Len());
    } else if r.to.value == U64(offset) {
      r.ShiftToBy(readBytes);
    } else {
      var c := Copy(r.from.value, r.to.value);
      out := Send(out, done + sent, c);
      AppendAssoc(done, sent, [c]);
      sent := sent + [c];
      r.Set(offset, offset + readBytes);
    }
  }

  /** delta.go:105-115, the window shift, after `prior` has been sent in
      this round. `stop` when the loop returns there: on an empty window,
      after sending the pending bytes, or on a failed read. */
  method ShiftRound(env: Env, reader: BufferedReader, r: Range, unmatched: seq<uint8>,
                    deltaChunks: seq<seq<uint8>>, ghost done: seq<Chunk>, ghost s: State, ghost prior: seq<Chunk>)
    returns (unmatched': seq<uint8>, stop: bool, err: Option<Error>, out: seq<seq<uint8>>, ghost more: seq<Chunk>)
    requires reader.Valid() && env.src == reader.src && env.windowLength == reader.windowLength
    requires Valid(env, s) && s == StateOf(reader, r, unmatched, s.a, s.b, s.readBytes)
    requires RecordsOf(deltaChunks, done)
    modifies reader, reader.buffer
    ensures reader.Valid() && RecordsOf(out, done + more)
    ensures stop ==> Shift(env, s, prior) == Finish(prior + more, err)
    ensures !stop ==> more == [] && Shift(env, s, prior) == Continue(StateOf(reader, r, unmatched', s.a, s.b, s.readBytes), prior)
  {
    out, more, unmatched' := deltaChunks, [], unmatched;
    assert done + more == done && prior + more == prior;
    ghost var window := reader.Buf();
    var pop, e := reader.PopAndShift();
    if e.Some? {
      if e.value == EmptyBuffer && |unmatched| > 0 {
        out := Send(out, done, Literal(unmatched));
        more := [Literal(unmatched)];
      }
      return unmatched', true, if e.value == EmptyBuffer then None else e, out, more;
    }
    unmatched' := unmatched + [pop];
    stop, err := false, None;
  }

  /** delta.go:99-115, the miss branch: send and clear the open range, then
      shift the window. */
  method MissRound(env: Env, reader: BufferedReader, r: Range, unmatched: seq<uint8>,
                   deltaChunks: seq<seq<uint8>>, ghost done: seq<Chunk>, ghost s: State)
    returns (unmatched': seq<uint8>, stop: bool, err: Option<Error>, out: seq<seq<uint8>>, ghost sent: seq<Chunk>)
    requires reader.Valid() && env.src == reader.src && env.windowLength == reader.windowLength
    requires Valid(env, s) && s == StateOf(reader, r, unmatched, s.a, s.b, s.readBytes)
    requires RecordsOf(deltaChunks, done)
    modifies reader, reader.buffer, r
    ensures reader.Valid() && RecordsOf(out, done + sent)
    ensures stop ==> OnMiss(env, s) == Finish(sent, err)
    ensures !stop ==> OnMiss(env, s) == Continue(StateOf(reader, r, unmatched', s.a, s.b, s.readBytes), sent)
  {
    out, sent := deltaChunks, [];
    assert done + sent == done;
    if !r.Empty() {
      var c := Copy(r.from.value, r.to.value);
      out := Send(out, done, c);
      sent := [c];
      r.Clear();
    }
    ghost var more;
    unmatched', stop, err, out, more := ShiftRound(env, reader, r, unmatched, out, done + sent, s.(from := None, to := None), sent);
    AppendAssoc(done, sent, more);
    sent := sent + more;
  }

  /** delta.go:67-115, the rest of a round once the window is in place:
      checksum and strong hash of the window, then the match or the miss
      branch. */
  method CompareRound(env: Env, reader: BufferedReader, r: Range,
                      unmatchedBytes: seq<uint8>, a: Option<uint32>, b: Option<uint32>, readBytes: int,
                      deltaChunks: seq<seq<uint8>>, ghost done: seq<Chunk>, ghost s: State)
    returns (unmatched': seq<uint8>, a': Option<uint32>, b': Option<uint32>,
             stop: bool, err: Option<Error>, out: seq<seq<uint8>>, ghost sent: seq<Chunk>)
    requires reader.Valid() && env.src == reader.src && env.windowLength == reader.windowLength
    requires Valid(env, s) && s == StateOf(reader, r, unmatchedBytes, a, b, readBytes)
    requires RecordsOf(deltaChunks, done)
    modifies reader, reader.buffer, r
    ensures reader.Valid() && RecordsOf(out, done + sent)
    ensures stop ==> Compare(env, s) == Finish(sent, err)
    ensures !stop ==> Compare(env, s) == Continue(StateOf(reader, r, unmatched', a', b', readBytes), sent)
  {
    var window := reader.Buf();
    var rolled := Rolling(env, window, a, b);
    a', b' := rolled.a, rolled.b;
    var m := MatchOf(env, window, rolled.checksum);
    CompareIs(env, s, rolled, m);
    ghost var s' := StateOf(reader, r, unmatchedBytes, a', b', readBytes);
    if m.matching {
      unmatched', out, sent := MatchRound(env, reader, r, unmatchedBytes, readBytes, deltaChunks, done, m.offset, s');
      a', b' := None, None;
      stop, err := false, None;
    } else {
      unmatched', stop, err, out, sent := MissRound(env, reader, r, unmatchedBytes, deltaChunks, done, s');
    }
  }

  /** delta.go:54-116, one round of the loop from the variables `s`: the
      records sent, the variables for the next round, and `stop` when the
      loop returns. */
  method EncodeRound(env: Env, reader: BufferedReader, r: Range,
                     unmatchedBytes: seq<uint8>, a: Option<uint32>, b: Option<uint32>, readBytes: int,
                     deltaChunks: seq<seq<uint8>>, ghost done: seq<Chunk>, ghost s: State)
    returns (unmatched': seq<uint8>, a': Option<uint32>, b': Option<uint32>, readBytes': int,
             stop: bool, err: Option<Error>, out: seq<seq<uint8>>, ghost sent: seq<Chunk>)
    requires reader.Valid() && env.src == reader.src && env.windowLength == reader.windowLength
    requires Valid(env, s) && s == StateOf(reader, r, unmatchedBytes, a, b, readBytes)
    requires RecordsOf(deltaChunks, done)
    modifies reader, reader.buffer, r
    ensures reader.Valid() && RecordsOf(out, done + sent)
    ensures stop ==> Step(env, s) == Finish(sent, err)
    ensures !stop ==> Step(env, s) == Continue(StateOf(reader, r, unmatched', a', b', readBytes'), sent)
  {
    StepIs(env, s);
    unmatched', a', b', readBytes', out := unmatchedBytes, a, b, readBytes, deltaChunks;
    if a.None? && b.None? {
      readBytes', stop, err, out, sent := ReadFresh(env, reader, r, out, done, s);
      if stop {
        return;
      }
    }
    ghost var s1 := StateOf(reader, r, unmatchedBytes, a, b, readBytes');
    unmatched', a', b', stop, err, out, sent := CompareRound(env, reader, r, unmatchedBytes, a, b, readBytes', out, done, s1);
  }

  /** delta.go:34-117 with getRawDeltaChunk as the record encoder: the
      records sent are those of the chunks of the run from the reader's
      state, and the error is the run's. */
  method CalculateAndSendDeltaChunks(
    referenceFileReader: BufferedReader,
    rollingChecksumsToIndexes: map<uint32, int>,
    hashes: seq<seq<uint8>>,
    findMatchingOffset: MatchFn,
    checksumCalculation: ChecksumFn,
    hashCalculation: HashFn)
    returns (deltaChunks: seq<seq<uint8>>, err: Option<Error>)
    requires referenceFileReader.Valid()
    modifies referenceFileReader, referenceFileReader.buffer
    ensures referenceFileReader.Valid()
    ensures var env := Env(referenceFileReader.src, referenceFileReader.windowLength, rollingChecksumsToIndexes, hashes,
                           findMatchingOffset, checksumCalculation, hashCalculation);
      var run := Run(env, Start(old(referenceFileReader.offset), old(referenceFileReader.length)));
      RecordsOf(deltaChunks, run.chunks) && err == run.err
  {
    var reader := referenceFileReader;
    var env := Env(reader.src, reader.windowLength, rollingChecksumsToIndexes, hashes,
                   findMatchingOffset, checksumCalculation, hashCalculation);
    var unmatchedBytes: seq<uint8> := [];
    var readBytes := 0;
    var a: Option<uint32>, b: Option<uint32> := None, None;
    var r := new Range();
    ghost var all := Run(env, Start(reader.offset, reader.length));
    ghost var done: seq<Chunk> := [];
    deltaChunks := [];
    assert StateOf(reader, r, unmatchedBytes, a, b, readBytes) == Start(reader.offset, reader.length);
    assert done + all.chunks == all.chunks;
    while true
      invariant reader.Valid() && env.src == reader.src && env.windowLength == reader.windowLength
      invariant Valid(env, StateOf(reader, r, unmatchedBytes, a, b, readBytes))
      invariant RecordsOf(deltaChunks, done)
      invariant var run := Run(env, StateOf(reader, r, unmatchedBytes, a, b, readBytes));
        all == Encoded(done + run.chunks, run.err)
      decreases |reader.src.bytes| - reader.offset, reader.length, Phase(StateOf(reader, r, unmatchedBytes, a, b, readBytes))
    {
      ghost var s := StateOf(reader, r, unmatchedBytes, a, b, readBytes);
      ghost var sent;
      var stop;
      unmatchedBytes, a, b, readBytes, stop, err, deltaChunks, sent :=
        EncodeRound(env, reader, r, unmatchedBytes, a, b, readBytes, deltaChunks, done, s);
      if stop {
        RunFinish(env, s, sent, err);
        done := done + sent;
        return;
      }
      ghost var next := StateOf(reader, r, unmatchedBytes, a, b, readBytes);
      RunContinue(env, s, next, sent);
      AppendAssoc(done, sent, Run(env, next).chunks);
      done := done + sent;
    }
  }
}
