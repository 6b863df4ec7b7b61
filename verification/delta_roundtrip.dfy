/** What the delta encoder of delta.go:34-117 promises together with the patch
    engine of patch.go:7-25: when the matcher only reports windows the basis
    file really holds at the offset it returns, patching the basis file with
    the encoder's chunks rebuilds the new file exactly. */
module DeltaRoundTrip {
  import opened Binary
  import opened ByteSource
  import opened DeltaChunk
  import opened Matching
  import opened DeltaSpec
  import opened Patch

  /** The matcher reports only windows that the basis file holds at the
      offset it returns. */
  ghost predicate Sound(env: Env, basis: Source)
  {
    forall window, checksum :: MatchOf(env, window, checksum).matching ==>
      var off := MatchOf(env, window, checksum).offset;
      0 <= off && off + |window| <= |basis.bytes| && basis.bytes[off..off + |window|] == window
  }

  /** The checksum callback always hands back accumulators, as both checksum
      functions of rolling_checksum.go do. */
  ghost predicate AlwaysRolls(env: Env)
  {
    forall window, a, b :: Rolling(env, window, a, b).a.Some?
  }

  /** Reads of either file never fail, offsets of the basis file fit an
      int64, and the window holds at least one byte. */
  predicate Reliable(env: Env, basis: Source)
  {
    && env.src.readable >= |env.src.bytes|
    && basis.readable >= |basis.bytes| && |basis.bytes| < TWO_63
    && env.windowLength > 0
  }

  /** An open range lies inside the basis file. */
  predicate RangeIn(basis: Source, s: State)
  {
    s.from.Some? && s.to.Some? ==> s.from.value <= s.to.value <= |basis.bytes|
  }

  /** The bytes of the open range, if any. */
  function RangeBytes(basis: Source, s: State): seq<uint8>
    requires RangeIn(basis, s)
  {
    if s.from.Some? && s.to.Some? then basis.bytes[s.from.value..s.to.value] else []
  }

  /** The variables at the top of a round: a round that reads a fresh window
      has no pending literal bytes; a rolling round has no open range, and
      its window is empty only at the end of the file. */
  ghost predicate Inv(env: Env, basis: Source, s: State)
  {
    && Valid(env, s) && RangeIn(basis, s)
    && (Fresh(s) ==> s.unmatched == [])
    && (!Fresh(s) ==> NoRange(s) && (s.length == 0 ==> s.offset == |env.src.bytes|))
  }

  /** The variables when the window is compared: an open range goes with no
      pending bytes and a window of the size just read, and the window is
      empty only at the end of the file. */
  ghost predicate Ready(env: Env, basis: Source, s: State)
  {
    && Valid(env, s) && RangeIn(basis, s)
    && (!NoRange(s) ==> s.unmatched == [] && s.readBytes == s.length)
    && (s.length == 0 ==> s.offset == |env.src.bytes|)
  }

  /** What the rest of the run still has to rebuild at the top of a round:
      the open range, the pending bytes, then the new file from the first
      byte not yet accounted for (after the window once it has matched,
      at the window while it rolls). */
  ghost function Rest(env: Env, basis: Source, s: State): seq<uint8>
    requires Inv(env, basis, s)
  {
    var consumed := if Fresh(s) then s.offset else s.offset - s.length;
    RangeBytes(basis, s) + s.unmatched + env.src.bytes[consumed..]
  }

  /** The same when the window is about to be compared: the window is not
      yet accounted for. */
  ghost function Ahead(env: Env, basis: Source, s: State): seq<uint8>
    requires Valid(env, s) && RangeIn(basis, s)
  {
    RangeBytes(basis, s) + s.unmatched + env.src.bytes[s.offset - s.length..]
  }

  /** What one round promises: a round that returns rebuilds everything still
      to be rebuilt, and one that continues rebuilds a prefix of it and
      leaves the rest to the next round. */
  ghost predicate Rebuilds(env: Env, basis: Source, o: Outcome, todo: seq<uint8>)
  {
    match o
    case Finish(sent, err) => err == None && Rebuilt(basis, sent) == Some(todo)
    case Continue(t, sent) =>
      && Inv(env, basis, t) && Rebuilt(basis, sent).Some?
      && Rebuilt(basis, sent).value + Rest(env, basis, t) == todo
  }

  /** Nothing rebuilds nothing. */
  lemma RebuiltNone(basis: Source)
    ensures Rebuilt(basis, []) == Some([])
  {
    assert Replay(basis, []) == Patched([], None);
  }

  /** The open range, sent as a chunk, rebuilds its bytes. */
  lemma RangeRebuilt(env: Env, basis: Source, s: State)
    requires Reliable(env, basis) && Valid(env, s) && RangeIn(basis, s)
    ensures Rebuilt(basis, RangeChunks(s)) == Some(RangeBytes(basis, s))
  {
    if NoRange(s) {
      RebuiltNone(basis);
    } else {
      CopyInRange(basis, s.from.value, s.to.value);
      RebuiltOne(basis, Copy(s.from.value, s.to.value), RangeBytes(basis, s));
    }
  }

  /** Pending bytes, sent as a literal, rebuild themselves. */
  lemma LiteralRebuilt(basis: Source, unmatched: seq<uint8>)
    ensures Rebuilt(basis, LiteralChunks(unmatched)) == Some(unmatched)
  {
    if |unmatched| == 0 {
      RebuiltNone(basis);
    } else {
      RebuiltOne(basis, Literal(unmatched), unmatched);
    }
  }

  /** A round that continues from `t` after sending chunks that rebuild
      `done`. */
  lemma ContinueRebuilds(env: Env, basis: Source, t: State, sent: seq<Chunk>, done: seq<uint8>, todo: seq<uint8>)
    requires Inv(env, basis, t) && Rebuilt(basis, sent) == Some(done)
    requires done + Rest(env, basis, t) == todo
    ensures Rebuilds(env, basis, Continue(t, sent), todo)
  {
  }

  /** The match branch on a window the basis file holds at `off`. */
  lemma MatchRebuilds(env: Env, basis: Source, s: State, off: int)
    requires Reliable(env, basis) && Ready(env, basis, s)
    requires 0 <= off && off + s.length <= |basis.bytes|
    requires basis.bytes[off..off + s.length] == Window(env, s)
    ensures Rebuilds(env, basis, OnMatch(env, s, off), Ahead(env, basis, s))
  {
    var window, after := Window(env, s), env.src.bytes[s.offset..];
    var ahead := RangeBytes(basis, s) + s.unmatched + window + after;
    assert Ahead(env, basis, s) == ahead by {
      assert env.src.bytes[s.offset - s.length..] == window + after;
    }
    if NoRange(s) {
      assert ahead == s.unmatched + window + after by {
        assert RangeBytes(basis, s) == [];
      }
      MatchOpens(env, basis, s, off);
    } else if s.to.value == U64(off) {
      MatchExtends(env, basis, s, off);
    } else {
      MatchMoves(env, basis, s, off);
    }
  }

  /** A match with no open range opens one on the basis bytes of the window,
      after sending the pending bytes. */
  lemma MatchOpens(env: Env, basis: Source, s: State, off: int)
    requires Reliable(env, basis) && Ready(env, basis, s) && NoRange(s)
    requires 0 <= off && off + s.length <= |basis.bytes|
    requires basis.bytes[off..off + s.length] == Window(env, s)
    ensures Rebuilds(env, basis, OnMatch(env, s, off),
                     s.unmatched + Window(env, s) + env.src.bytes[s.offset..])
  {
    var t := s.(unmatched := [], a := None, b := None, from := Some(off as uint64), to := Some((off + s.length) as uint64));
    assert OnMatch(env, s, off) == Continue(t, LiteralChunks(s.unmatched));
    assert Rest(env, basis, t) == Window(env, s) + env.src.bytes[s.offset..];
    LiteralRebuilt(basis, s.unmatched);
    ContinueRebuilds(env, basis, t, LiteralChunks(s.unmatched), s.unmatched,
                     s.unmatched + Window(env, s) + env.src.bytes[s.offset..]);
  }

  /** A match right where the open range ends extends the range by the
      window. */
  lemma MatchExtends(env: Env, basis: Source, s: State, off: int)
    requires Reliable(env, basis) && Ready(env, basis, s) && !NoRange(s) && s.to.value == U64(off)
    requires 0 <= off && off + s.length <= |basis.bytes|
    requires basis.bytes[off..off + s.length] == Window(env, s)
    ensures Rebuilds(env, basis, OnMatch(env, s, off),
                     RangeBytes(basis, s) + s.unmatched + Window(env, s) + env.src.bytes[s.offset..])
  {
    var from, to := s.from.value, s.to.value;
    assert to == off;
    var t := s.(unmatched := [], a := None, b := None, to := Some((to + s.length) as uint64));
    assert OnMatch(env, s, off) == Continue(t, []);
    assert RangeBytes(basis, t) == RangeBytes(basis, s) + Window(env, s) by {
      assert basis.bytes[from..to + s.length] == basis.bytes[from..to] + basis.bytes[to..to + s.length];
    }
    var todo := RangeBytes(basis, s) + s.unmatched + Window(env, s) + env.src.bytes[s.offset..];
    assert [] + Rest(env, basis, t) == todo by {
      assert s.unmatched == [] && Fresh(t);
      assert Rest(env, basis, t) == RangeBytes(basis, t) + [] + env.src.bytes[s.offset..];
    }
    RebuiltNone(basis);
    ContinueRebuilds(env, basis, t, [], [], todo);
  }

  /** A match elsewhere sends the open range and opens a new one on the basis
      bytes of the window. */
  lemma MatchMoves(env: Env, basis: Source, s: State, off: int)
    requires Reliable(env, basis) && Ready(env, basis, s) && !NoRange(s) && s.to.value != U64(off)
    requires 0 <= off && off + s.length <= |basis.bytes|
    requires basis.bytes[off..off + s.length] == Window(env, s)
    ensures Rebuilds(env, basis, OnMatch(env, s, off),
                     RangeBytes(basis, s) + s.unmatched + Window(env, s) + env.src.bytes[s.offset..])
  {
    var t := s.(unmatched := [], a := None, b := None, from := Some(off as uint64), to := Some((off + s.length) as uint64));
    assert OnMatch(env, s, off) == Continue(t, RangeChunks(s)) by {
      assert LiteralChunks(s.unmatched) + RangeChunks(s) == RangeChunks(s);
    }
    assert Rest(env, basis, t) == Window(env, s) + env.src.bytes[s.offset..];
    RangeRebuilt(env, basis, s);
    ContinueRebuilds(env, basis, t, RangeChunks(s), RangeBytes(basis, s),
                     RangeBytes(basis, s) + s.unmatched + Window(env, s) + env.src.bytes[s.offset..]);
  }

  /** A round that returns no error after sending chunks that rebuild
      `todo`. */
  lemma FinishRebuilds(env: Env, basis: Source, sent: seq<Chunk>, todo: seq<uint8>)
    requires Rebuilt(basis, sent) == Some(todo)
    ensures Rebuilds(env, basis, Finish(sent, None), todo)
  {
  }

  /** The miss branch on a rolling window. */
  lemma MissRebuilds(env: Env, basis: Source, s: State)
    requires Reliable(env, basis) && Ready(env, basis, s) && s.a.Some?
    ensures Rebuilds(env, basis, OnMiss(env, s), Ahead(env, basis, s))
  {
    if s.length == 0 {
      MissAtEnd(env, basis, s);
    } else {
      MissShifts(env, basis, s);
    }
  }

  /** A miss on an empty window: the loop returns after sending the open
      range and the pending bytes. */
  lemma MissAtEnd(env: Env, basis: Source, s: State)
    requires Reliable(env, basis) && Ready(env, basis, s) && s.length == 0
    ensures Rebuilds(env, basis, OnMiss(env, s), Ahead(env, basis, s))
  {
    var range, lit := RangeChunks(s), LiteralChunks(s.unmatched);
    assert OnMiss(env, s) == Finish(range + lit, None);
    RangeRebuilt(env, basis, s);
    LiteralRebuilt(basis, s.unmatched);
    RebuiltAppend(basis, range, lit);
    assert Ahead(env, basis, s) == RangeBytes(basis, s) + s.unmatched by {
      assert env.src.bytes[s.offset..] == [];
    }
    FinishRebuilds(env, basis, range + lit, Ahead(env, basis, s));
  }

  /** A miss on a window of at least one byte: the open range is sent, the
      oldest byte of the window becomes pending, and the window rolls on. */
  lemma MissShifts(env: Env, basis: Source, s: State)
    requires Reliable(env, basis) && Ready(env, basis, s) && s.a.Some? && s.length > 0
    ensures Rebuilds(env, basis, OnMiss(env, s), Ahead(env, basis, s))
  {
    var r := ReadAt(env.src, s.offset, 1);
    assert r.ReadOk?;
    var t := MissStep(env, basis, s, r.data);
    AheadSplit(env, basis, s);
    RangeRebuilt(env, basis, s);
    ContinueRebuilds(env, basis, t, RangeChunks(s), RangeBytes(basis, s), Ahead(env, basis, s));
  }

  /** The state a miss on a window of at least one byte continues from, when
      the next byte read is `next` (none at the end of the file). */
  lemma MissStep(env: Env, basis: Source, s: State, next: seq<uint8>) returns (t: State)
    requires Reliable(env, basis) && Ready(env, basis, s) && s.a.Some? && s.length > 0
    requires ReadAt(env.src, s.offset, 1).ReadOk? && ReadAt(env.src, s.offset, 1).data == next
    ensures OnMiss(env, s) == Continue(t, RangeChunks(s))
    ensures Inv(env, basis, t)
    ensures Rest(env, basis, t) == s.unmatched + [Window(env, s)[0]] + env.src.bytes[s.offset - s.length + 1..]
  {
    t := s.(from := None, to := None, offset := s.offset + |next|, length := s.length - 1 + |next|,
            unmatched := s.unmatched + [Window(env, s)[0]]);
    assert OnMiss(env, s) == Continue(t, RangeChunks(s));
    assert RangeBytes(basis, t) == [] && !Fresh(t);
  }

  /** What is left to rebuild at a window of at least one byte: the open
      range, the pending bytes, the window's first byte and what follows. */
  lemma AheadSplit(env: Env, basis: Source, s: State)
    requires Valid(env, s) && RangeIn(basis, s) && s.length > 0
    ensures Ahead(env, basis, s)
      == RangeBytes(basis, s) + (s.unmatched + [Window(env, s)[0]] + env.src.bytes[s.offset - s.length + 1..])
  {
    var window, rest := Window(env, s), env.src.bytes[s.offset - s.length + 1..];
    assert window[0] == env.src.bytes[s.offset - s.length];
    SuffixCons(env.src.bytes, s.offset - s.length);
    AppendAssoc(s.unmatched, [window[0]], rest);
  }

  /** The comparison of a window, whichever branch it takes. */
  lemma CompareRebuilds(env: Env, basis: Source, s: State)
    requires Reliable(env, basis) && Sound(env, basis) && AlwaysRolls(env)
    requires Ready(env, basis, s)
    ensures Rebuilds(env, basis, Compare(env, s), Ahead(env, basis, s))
  {
    var window := Window(env, s);
    var rolled := Rolling(env, window, s.a, s.b);
    var m := MatchOf(env, window, rolled.checksum);
    CompareIs(env, s, rolled, m);
    var s' := s.(a := rolled.a, b := rolled.b);
    assert Window(env, s') == window && Ahead(env, basis, s') == Ahead(env, basis, s);
    if m.matching {
      MatchRebuilds(env, basis, s', m.offset);
    } else {
      MissRebuilds(env, basis, s');
    }
  }

  /** A round that starts by reading a fresh window. */
  lemma ReadRebuilds(env: Env, basis: Source, s: State)
    requires Reliable(env, basis) && Sound(env, basis) && AlwaysRolls(env)
    requires Inv(env, basis, s) && Fresh(s)
    ensures Rebuilds(env, basis, ReadPhase(env, s), Rest(env, basis, s))
  {
    var r := ReadAt(env.src, s.offset, env.windowLength);
    assert r.ReadOk?;
    if |r.data| == 0 {
      assert ReadPhase(env, s) == Finish(RangeChunks(s), None);
      assert Rest(env, basis, s) == RangeBytes(basis, s) by {
        assert env.src.bytes[s.offset..] == [];
      }
      RangeRebuilt(env, basis, s);
      FinishRebuilds(env, basis, RangeChunks(s), RangeBytes(basis, s));
    } else {
      var s1 := s.(offset := s.offset + |r.data|, length := |r.data|, readBytes := |r.data|);
      assert ReadPhase(env, s) == Compare(env, s1);
      assert Ahead(env, basis, s1) == Rest(env, basis, s);
      CompareRebuilds(env, basis, s1);
    }
  }

  /** One round, whichever it is. */
  lemma StepRebuilds(env: Env, basis: Source, s: State)
    requires Reliable(env, basis) && Sound(env, basis) && AlwaysRolls(env)
    requires Inv(env, basis, s)
    ensures Rebuilds(env, basis, Step(env, s), Rest(env, basis, s))
  {
    StepIs(env, s);
    if Fresh(s) {
      ReadRebuilds(env, basis, s);
    } else {
      assert Ahead(env, basis, s) == Rest(env, basis, s);
      CompareRebuilds(env, basis, s);
    }
  }

  /** The loop from the variables `s` on returns no error, and its chunks
      rebuild everything still to be rebuilt. */
  lemma {:induction false} RunRebuilds(env: Env, basis: Source, s: State)
    requires Reliable(env, basis) && Sound(env, basis) && AlwaysRolls(env)
    requires Inv(env, basis, s)
    ensures Run(env, s).err == None
    ensures Rebuilt(basis, Run(env, s).chunks) == Some(Rest(env, basis, s))
    decreases |env.src.bytes| - s.offset, s.length, Phase(s)
  {
    StepRebuilds(env, basis, s);
    match Step(env, s)
    case Finish(sent, err) =>
      RunFinish(env, s, sent, err);
    case Continue(t, sent) =>
      RunContinue(env, s, t, sent);
      RunRebuilds(env, basis, t);
      RebuiltAppend(basis, sent, Run(env, t).chunks);
      AppendAssoc(Rebuilt(basis, sent).value, RangeBytes(basis, t) + t.unmatched, env.src.bytes[if Fresh(t) then t.offset else t.offset - t.length..]);
  }

  /** The round trip of the delta encoder and the patch engine: from a reader
      that has read nothing, the encoder returns no error, and the basis file
      patched with its chunks is the new file. */
  lemma EncodeRebuilds(env: Env, basis: Source)
    requires Reliable(env, basis) && Sound(env, basis) && AlwaysRolls(env)
    ensures Run(env, Start(0, 0)).err == None
    ensures Rebuilt(basis, Run(env, Start(0, 0)).chunks) == Some(env.src.bytes)
  {
    var s := Start(0, 0);
    assert Rest(env, basis, s) == env.src.bytes;
    RunRebuilds(env, basis, s);
  }
}
