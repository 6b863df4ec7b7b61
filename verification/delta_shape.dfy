/** The shape of what the delta encoder of delta.go:34-117 sends, beyond the
    round trip: pending literal bytes leave as a single chunk (never an empty
    one, never two in a row), matches of consecutive blocks join into one
    range, and a new file of which nothing matches leaves as one literal. */
module DeltaShape {
  import opened Binary
  import opened ByteSource
  import opened DeltaChunk
  import opened Matching
  import opened DeltaSpec
  import opened DeltaRoundTrip

  /** No literal chunk is empty, and no two literal chunks follow each
      other: the pending bytes between two ranges are sent as one chunk. */
  predicate LiteralsFlushed(cs: seq<Chunk>)
  {
    && (forall i | 0 <= i < |cs| :: cs[i].Literal? ==> |cs[i].data| > 0)
    && (forall i | 0 <= i < |cs| - 1 :: !(cs[i].Literal? && cs[i + 1].Literal?))
  }

  predicate StartsWithLiteral(cs: seq<Chunk>)
  {
    |cs| > 0 && cs[0].Literal?
  }

  predicate EndsWithLiteral(cs: seq<Chunk>)
  {
    |cs| > 0 && cs[|cs| - 1].Literal?
  }

  /** The variables right after a match: nothing pending and a range open. */
  predicate AfterMatch(s: State)
  {
    s.unmatched == [] && s.from.Some?
  }

  /** What a round sends keeps the literals flushed; a round that sends a
      literal last continues right after a match; and from right after a
      match, a round neither starts with a literal nor, if it sends
      nothing, leaves that situation. */
  predicate RoundShaped(s: State, o: Outcome)
  {
    && LiteralsFlushed(o.sent)
    && (o.Continue? && EndsWithLiteral(o.sent) ==> AfterMatch(o.next))
    && (AfterMatch(s) ==> !StartsWithLiteral(o.sent))
    && (AfterMatch(s) && o.Continue? && o.sent == [] ==> AfterMatch(o.next))
  }

  /** Two flushed runs of chunks that do not meet on two literals make a
      flushed run. */
  lemma FlushedAppend(xs: seq<Chunk>, ys: seq<Chunk>)
    requires LiteralsFlushed(xs) && LiteralsFlushed(ys)
    requires !(EndsWithLiteral(xs) && StartsWithLiteral(ys))
    ensures LiteralsFlushed(xs + ys)
  {
    var zs := xs + ys;
    forall i | 0 <= i < |zs| - 1
      ensures !(zs[i].Literal? && zs[i + 1].Literal?)
    {
      if i + 1 < |xs| {
        assert zs[i] == xs[i] && zs[i + 1] == xs[i + 1];
      } else if i + 1 == |xs| {
        assert zs[i] == xs[|xs| - 1] && zs[i + 1] == ys[0];
      } else {
        assert zs[i] == ys[i - |xs|] && zs[i + 1] == ys[i - |xs| + 1];
      }
    }
  }

  /** delta.go:81-97: the match branch sends the pending bytes, if any, and
      possibly the old range after them, and leaves a range open. */
  lemma OnMatchShaped(env: Env, s: State, offset: int)
    requires Valid(env, s)
    ensures RoundShaped(s, OnMatch(env, s, offset))
  {
  }

  /** delta.go:99-115: the miss branch sends the open range first, and the
      pending bytes only when the loop returns. */
  lemma OnMissShaped(env: Env, s: State)
    requires Valid(env, s)
    ensures RoundShaped(s, OnMiss(env, s))
  {
    var o := OnMiss(env, s);
    if o.Finish? && s.length == 0 {
      assert o.sent == RangeChunks(s) + LiteralChunks(s.unmatched);
    }
  }

  /** delta.go:54-116: every round has that shape. */
  lemma StepShaped(env: Env, s: State)
    requires Valid(env, s)
    ensures RoundShaped(s, Step(env, s))
  {
    var t := s;
    if Fresh(s) {
      match ReadAt(env.src, s.offset, env.windowLength)
      case ReadFailed =>
        return;
      case ReadOk(data, _) =>
        if |data| == 0 {
          return;
        }
        t := s.(offset := s.offset + |data|, length := |data|, readBytes := |data|);
        assert Step(env, s) == Compare(env, t);
    }
    var window := Window(env, t);
    var rolled := Rolling(env, window, t.a, t.b);
    var m := MatchOf(env, window, rolled.checksum);
    var t' := t.(a := rolled.a, b := rolled.b);
    if m.matching {
      OnMatchShaped(env, t', m.offset);
    } else {
      OnMissShaped(env, t');
    }
  }

  /** Whatever the inputs, the encoder never sends an empty literal nor two
      literals in a row; and right after a match it does not go on with a
      literal. */
  lemma {:induction false} RunFlushesLiterals(env: Env, s: State)
    requires Valid(env, s)
    ensures LiteralsFlushed(Run(env, s).chunks)
    ensures AfterMatch(s) ==> !StartsWithLiteral(Run(env, s).chunks)
    decreases |env.src.bytes| - s.offset, s.length, Phase(s)
  {
    StepShaped(env, s);
    match Step(env, s)
    case Finish(sent, err) =>
      RunFinish(env, s, sent, err);
    case Continue(next, sent) =>
      RunContinue(env, s, next, sent);
      RunFlushesLiterals(env, next);
      var rest := Run(env, next).chunks;
      FlushedAppend(sent, rest);
      if AfterMatch(s) && sent != [] {
        assert (sent + rest)[0] == sent[0];
      }
  }

  /** Block k of the new file: the bytes a fresh read at k windows returns. */
  function Block(env: Env, k: nat): (r: seq<uint8>)
    requires k * env.windowLength as nat <= |env.src.bytes|
    ensures |r| == Min(env.windowLength as nat, |env.src.bytes| - k * env.windowLength as nat)
  {
    var p := k * env.windowLength as nat;
    env.src.bytes[p..p + Min(env.windowLength as nat, |env.src.bytes| - p)]
  }

  /** The matcher finds every block of the new file in the basis at the
      block's own offset, as it does when the basis is the new file itself. */
  ghost predicate FindsOwnBlocks(env: Env)
  {
    forall k: nat | k * env.windowLength as nat < |env.src.bytes| ::
      MatchOf(env, Block(env, k), Rolling(env, Block(env, k), None, None).checksum)
        == Matched(true, k * env.windowLength as nat)
  }

  /** The new file reads without failure, the window holds a byte, and
      every byte offset fits a uint64. */
  predicate Coalescible(env: Env)
  {
    env.src.readable >= |env.src.bytes| && env.windowLength > 0 && |env.src.bytes| < TWO_64
  }

  /** The variables before a fresh read at byte p, once the range [0, p)
      is open. */
  function Covered(env: Env, p: nat, length: nat, readBytes: int): State
    requires p <= |env.src.bytes| < TWO_64
  {
    State(p, length, [], Some(0), Some(p as uint64), None, None, readBytes)
  }

  /** delta.go:81-93 on block k, which starts at byte p: its match starts
      where the open range ends, so the range grows by the block and nothing
      is sent. */
  lemma ExtendsByBlock(env: Env, k: nat, p: nat, length: nat, readBytes: int)
    requires Coalescible(env) && FindsOwnBlocks(env)
    requires p == k * env.windowLength as nat < |env.src.bytes|
    requires length <= p && length <= env.windowLength as nat
    ensures Valid(env, Covered(env, p, length, readBytes))
    ensures var b := Block(env, k);
      Step(env, Covered(env, p, length, readBytes)) == Continue(Covered(env, p + |b|, |b|, |b|), [])
  {
    var s := Covered(env, p, length, readBytes);
    var b := Block(env, k);
    assert FreshWindow(env, s) == b;
    ReadsFresh(env, s);
    var t := AfterRead(s, b);
    assert Window(env, t) == b && t.a == None && t.b == None;
    var rolled := Rolling(env, b, None, None);
    var m := MatchOf(env, b, rolled.checksum);
    assert m == Matched(true, p);
    var t' := t.(a := rolled.a, b := rolled.b);
    CompareIs(env, t, rolled, m);
    MatchAtRangeEnd(env, t', p);
  }

  /** The bytes a fresh read at the cursor returns, inside the file. */
  function FreshWindow(env: Env, s: State): (r: seq<uint8>)
    requires s.offset < |env.src.bytes|
    ensures 0 < |r| <= env.windowLength as nat || env.windowLength == 0
  {
    env.src.bytes[s.offset..s.offset + Min(env.windowLength as nat, |env.src.bytes| - s.offset)]
  }

  /** The variables once the fresh window is read. */
  function AfterRead(s: State, data: seq<uint8>): State
  {
    s.(offset := s.offset + |data|, length := |data|, readBytes := |data|)
  }

  /** delta.go:55-66: a fresh read inside the file returns the next window
      of bytes, and the round goes on to compare it. */
  lemma ReadsFresh(env: Env, s: State)
    requires env.src.readable >= |env.src.bytes| && env.windowLength > 0
    requires Valid(env, s) && Fresh(s) && s.offset < |env.src.bytes|
    ensures Valid(env, AfterRead(s, FreshWindow(env, s)))
    ensures Window(env, AfterRead(s, FreshWindow(env, s))) == FreshWindow(env, s)
    ensures Step(env, s) == Compare(env, AfterRead(s, FreshWindow(env, s)))
  {
    var data := FreshWindow(env, s);
    assert ReadAt(env.src, s.offset, env.windowLength).data == data;
    assert ReadPhase(env, s) == Compare(env, AfterRead(s, data));
    StepIs(env, s);
  }

  /** delta.go:89-90: a match where the open range [0, p) ends, with
      nothing pending, grows the range by the bytes read and sends
      nothing. */
  lemma MatchAtRangeEnd(env: Env, s: State, p: nat)
    requires Valid(env, s) && s.unmatched == []
    requires 0 <= s.readBytes && p + s.readBytes < TWO_64
    requires s.from == Some(0) && s.to == Some(p as uint64)
    ensures OnMatch(env, s, p) == Continue(s.(a := None, b := None, to := Some((p + s.readBytes) as uint64)), [])
  {
    assert U64(p) == p && U64(s.readBytes) == s.readBytes;
  }

  /** The block after block k starts one window further on. */
  lemma NextBlock(k: nat, w: nat)
    ensures (k + 1) * w == k * w + w
  {
  }

  /** From the open range [0, k windows), the rest of the run only grows the
      range until the end of the file, where it is sent. */
  lemma {:induction false} CoveredRun(env: Env, k: nat, length: nat, readBytes: int)
    requires Coalescible(env) && FindsOwnBlocks(env)
    requires length <= Min(k * env.windowLength as nat, |env.src.bytes|) && length <= env.windowLength as nat
    ensures Run(env, Covered(env, Min(k * env.windowLength as nat, |env.src.bytes|), length, readBytes))
      == Encoded([Copy(0, |env.src.bytes|)], None)
    decreases |env.src.bytes| - Min(k * env.windowLength as nat, |env.src.bytes|)
  {
    var w, n := env.windowLength as nat, |env.src.bytes|;
    var p := Min(k * w, n);
    var s := Covered(env, p, length, readBytes);
    if k * w < n {
      ExtendsByBlock(env, k, p, length, readBytes);
      var b := Block(env, k);
      NextBlock(k, w);
      assert p + |b| == Min((k + 1) * w, n);
      CoveredRun(env, k + 1, |b|, |b|);
      RunContinue(env, s, Covered(env, p + |b|, |b|, |b|), []);
    } else {
      assert Step(env, s) == Finish([Copy(0, n as uint64)], None);
      RunFinish(env, s, [Copy(0, n as uint64)], None);
    }
  }

  /** Contiguous matches coalesce: when the matcher finds every block of
      the new file at its own offset, the encoder sends the whole file as
      one range and nothing else. */
  lemma CoalescesContiguousMatches(env: Env)
    requires Coalescible(env) && FindsOwnBlocks(env)
    ensures Run(env, Start(0, 0)).err == None
    ensures Run(env, Start(0, 0)).chunks == if |env.src.bytes| == 0 then [] else [Copy(0, |env.src.bytes|)]
  {
    var w, n := env.windowLength as nat, |env.src.bytes|;
    var s := Start(0, 0);
    if n == 0 {
      assert Step(env, s) == Finish([], None);
      RunFinish(env, s, [], None);
    } else {
      var b := Block(env, 0);
      ReadsFresh(env, s);
      var t := s.(offset := |b|, length := |b|, readBytes := |b|);
      var rolled := Rolling(env, b, None, None);
      var m := MatchOf(env, b, rolled.checksum);
      assert m == Matched(true, 0);
      CompareIs(env, t, rolled, m);
      MatchOpensRange(env, t.(a := rolled.a, b := rolled.b));
      assert Min(1 * w, n) == |b|;
      CoveredRun(env, 1, |b|, |b|);
      RunContinue(env, s, Covered(env, |b|, |b|, |b|), []);
    }
  }

  /** delta.go:86-87: the first match, with no range open and nothing
      pending, opens the range on the window read. */
  lemma MatchOpensRange(env: Env, s: State)
    requires Valid(env, s) && NoRange(s) && s.unmatched == [] && s.length < TWO_64
    ensures OnMatch(env, s, 0) == Continue(s.(a := None, b := None, from := Some(0), to := Some(s.length as uint64)), [])
  {
    assert U64(0) == 0 && U64(s.length) == s.length;
  }

  /** The matcher never reports a match, as with an empty basis file. */
  ghost predicate NeverMatches(env: Env)
  {
    forall window, checksum :: !MatchOf(env, window, checksum).matching
  }

  /** The bytes a rolling round still has to send: the pending ones, the
      window and the rest of the file. */
  function Unsent(env: Env, s: State): seq<uint8>
    requires Valid(env, s)
  {
    s.unmatched + env.src.bytes[s.offset - s.length..]
  }

  /** The variables of a rolling round with nothing matched: no range, and
      the window empty only at the end of the file. */
  predicate MissState(env: Env, s: State)
  {
    && Valid(env, s) && NoRange(s)
    && (s.length == 0 ==> s.offset == |env.src.bytes|)
  }

  /** delta.go:99-115 with no range open: the oldest byte of the window
      moves to the pending bytes, or the loop returns them as one literal
      when the window is empty. */
  lemma MissKeepsUnsent(env: Env, s: State)
    requires env.src.readable >= |env.src.bytes| && AlwaysRolls(env) && NeverMatches(env)
    requires MissState(env, s)
    ensures var o := Compare(env, s);
      match o
      case Finish(sent, err) => err == None && sent == LiteralChunks(Unsent(env, s))
      case Continue(t, sent) => sent == [] && MissState(env, t) && !Fresh(t) && Unsent(env, t) == Unsent(env, s)
  {
    var window := Window(env, s);
    var rolled := Rolling(env, window, s.a, s.b);
    assert !MatchOf(env, window, rolled.checksum).matching;
    var s' := s.(a := rolled.a, b := rolled.b);
    assert Compare(env, s) == Shift(env, s', []);
    if s.length == 0 {
      assert Unsent(env, s) == s.unmatched;
    } else {
      var bytes := env.src.bytes;
      var i := s.offset - s.length;
      SuffixCons(bytes, i);
      AppendAssoc(s.unmatched, [bytes[i]], bytes[i + 1..]);
    }
  }

  /** From a rolling round with nothing matched, the run sends every byte
      still unsent as one literal. */
  lemma {:induction false} MissRun(env: Env, s: State)
    requires env.src.readable >= |env.src.bytes| && AlwaysRolls(env) && NeverMatches(env)
    requires MissState(env, s) && !Fresh(s)
    ensures Run(env, s) == Encoded(LiteralChunks(Unsent(env, s)), None)
    decreases |env.src.bytes| - s.offset, s.length
  {
    MissKeepsUnsent(env, s);
    match Step(env, s)
    case Finish(sent, err) =>
      RunFinish(env, s, sent, err);
    case Continue(t, sent) =>
      MissRun(env, t);
      RunContinue(env, s, t, sent);
  }

  /** With a matcher that never matches (an empty basis file), the encoder
      sends the whole new file as one literal, or nothing when it is
      empty. */
  lemma NothingMatches(env: Env)
    requires env.src.readable >= |env.src.bytes| && env.windowLength > 0
    requires AlwaysRolls(env) && NeverMatches(env)
    ensures Run(env, Start(0, 0)) == Encoded(LiteralChunks(env.src.bytes), None)
  {
    var s := Start(0, 0);
    if |env.src.bytes| == 0 {
      assert Step(env, s) == Finish([], None);
      RunFinish(env, s, [], None);
    } else {
      ReadsFresh(env, s);
      var data := env.src.bytes[..Min(env.windowLength as nat, |env.src.bytes|)];
      var t := s.(offset := |data|, length := |data|, readBytes := |data|);
      MissKeepsUnsent(env, t);
      assert Unsent(env, t) == env.src.bytes;
      match Step(env, s)
      case Finish(sent, err) =>
        RunFinish(env, s, sent, err);
      case Continue(u, sent) =>
        MissRun(env, u);
        RunContinue(env, s, u, sent);
    }
  }
}
