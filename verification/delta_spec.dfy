/** The delta encoder of delta.go:34-117 as a function of its inputs: the
    loop's variables between two rounds, one round as a step function, and
    the whole run as the repetition of steps until the loop returns. */
module DeltaSpec {
  import opened Binary
  import opened ByteSource
  import opened DeltaChunk
  import opened Matching

  /** What checksumCalculation returns: the checksum and the accumulators to
      pass to the next call (a nil pointer is None). */
  datatype Rolled = Rolled(checksum: uint32, a: Option<uint32>, b: Option<uint32>)

  /** checksumCalculation(window, pop, windowLength, a, b). */
  type ChecksumFn = (seq<uint8>, Option<uint8>, nat, Option<uint32>, Option<uint32>) -> Rolled

  /** findMatchingOffset(hash, hashes, checksum, checksums). */
  type MatchFn = (seq<uint8>, seq<seq<uint8>>, uint32, map<uint32, int>) -> Matched

  /** hashCalculation(window). */
  type HashFn = seq<uint8> -> seq<uint8>

  /** The inputs of CalculateAndSendDeltaChunks: the new file read through a
      window of `windowLength` bytes, the signature index, and the callbacks. */
  datatype Env = Env(
    src: Source, windowLength: uint32,
    checksums: map<uint32, int>, hashes: seq<seq<uint8>>,
    findMatchingOffset: MatchFn, checksumCalculation: ChecksumFn, hashCalculation: HashFn)

  /** The loop's variables at the top of a round: the reader's cursor and
      window length, the pending literal bytes, the open range (both bounds
      nil when there is none), the accumulators and the byte count of the
      last window read. */
  datatype State = State(
    offset: nat, length: nat, unmatched: seq<uint8>,
    from: Option<uint64>, to: Option<uint64>,
    a: Option<uint32>, b: Option<uint32>, readBytes: int)

  /** The variables before the first round, for a reader at `offset` holding
      `length` bytes. */
  function Start(offset: nat, length: nat): State
  {
    State(offset, length, [], None, None, None, None, 0)
  }

  /** The window lies inside the file and inside the reader's buffer, and the
      range has both bounds or neither. */
  predicate Valid(env: Env, s: State)
  {
    && s.length <= s.offset <= |env.src.bytes|
    && s.length <= env.windowLength
    && s.from.Some? == s.to.Some?
  }

  /** The reader's window: the `length` bytes before the cursor. */
  function Window(env: Env, s: State): (r: seq<uint8>)
    requires Valid(env, s)
    ensures |r| == s.length
  {
    env.src.bytes[s.offset - s.length..s.offset]
  }

  /** Whether a round starts by reading a fresh window (`a == nil && b == nil`). */
  predicate Fresh(s: State)
  {
    s.a.None? && s.b.None?
  }

  /** Range.empty. */
  predicate NoRange(s: State)
  {
    s.from.None? && s.to.None?
  }

  /** 0 for a round that reads a fresh window, 1 for one that rolls. */
  function Phase(s: State): nat
  {
    if Fresh(s) then 0 else 1
  }

  /** The cursor moved on, or the window shrank. */
  predicate Advances(t: State, s: State)
  {
    t.offset > s.offset || (t.offset == s.offset && t.length < s.length)
  }

  /** `t` is below `s` in the order the loop descends: cursor forward, else
      window shorter, else a rolling round followed by a fresh one. */
  predicate Below(t: State, s: State)
  {
    Advances(t, s) || (t.offset == s.offset && t.length == s.length && Phase(t) < Phase(s))
  }

  /** The chunk an open range is sent as. */
  function RangeChunks(s: State): (r: seq<Chunk>)
    requires s.from.Some? == s.to.Some?
    ensures |r| == if NoRange(s) then 0 else 1
  {
    if NoRange(s) then [] else [Copy(s.from.value, s.to.value)]
  }

  /** The chunk pending literal bytes are sent as, if there are any. */
  function LiteralChunks(unmatched: seq<uint8>): (r: seq<Chunk>)
    ensures |r| == if |unmatched| > 0 then 1 else 0
  {
    if |unmatched| > 0 then [Literal(unmatched)] else []
  }

  /** What a round ends with: the variables for the next round and the
      chunks sent, or the chunks sent before the loop returns and its error. */
  datatype Outcome = Continue(next: State, sent: seq<Chunk>) | Finish(sent: seq<Chunk>, err: Option<Error>)

  /** The checksum callback on a window, with the nil `pop` the loop passes
      (delta.go:68-74). */
  function Rolling(env: Env, window: seq<uint8>, a: Option<uint32>, b: Option<uint32>): Rolled
  {
    env.checksumCalculation(window, None, env.windowLength as nat, a, b)
  }

  /** The matcher on the strong hash of a window (delta.go:75-80). */
  function MatchOf(env: Env, window: seq<uint8>, checksum: uint32): Matched
  {
    env.findMatchingOffset(env.hashCalculation(window), env.hashes, checksum, env.checksums)
  }

  /** delta.go:81-97, a match at `offset`: pending literal bytes are sent as
      one chunk and dropped; then the range is opened on the window, or
      extended by `readBytes` when it ends where the match starts, or sent and
      replaced; the next round reads a fresh window. */
  function OnMatch(env: Env, s: State, offset: int): (r: Outcome)
    requires Valid(env, s)
    ensures r.Continue? && Valid(env, r.next) && Fresh(r.next)
    ensures r.next.offset == s.offset && r.next.length == s.length
  {
    var lit := LiteralChunks(s.unmatched);
    var cleared := s.(unmatched := [], a := None, b := None);
    if NoRange(s) then
      Continue(cleared.(from := Some(U64(offset)), to := Some(U64(offset + s.length))), lit)
    else if s.to.value == U64(offset) then
      Continue(cleared.(to := Some(Add64(s.to.value, U64(s.readBytes)))), lit)
    else
      Continue(cleared.(from := Some(U64(offset)), to := Some(U64(offset + s.readBytes))), lit + RangeChunks(s))
  }

  /** delta.go:105-115, the window shift of the miss branch, after `sent`
      has been sent: the oldest byte of the window is moved to the pending
      literal bytes and the next byte of the file, if any, enters the window.
      An empty window ends the loop without error after sending the pending
      bytes; a failed read ends it with the error. */
  function Shift(env: Env, s: State, sent: seq<Chunk>): (r: Outcome)
    requires Valid(env, s)
    ensures r.Continue? ==> Valid(env, r.next) && Advances(r.next, s) && r.sent == sent
  {
    if s.length == 0 then Finish(sent + LiteralChunks(s.unmatched), None)
    else
      match ReadAt(env.src, s.offset, 1)
      case ReadFailed => Finish(sent, Some(IoFailure))
      case ReadOk(next, _) =>
        var popped := Window(env, s)[0];
        Continue(s.(offset := s.offset + |next|, length := s.length - 1 + |next|,
                    unmatched := s.unmatched + [popped]), sent)
  }

  /** delta.go:99-115, no match: an open range is sent and cleared, then the
      window shifts. */
  function OnMiss(env: Env, s: State): (r: Outcome)
    requires Valid(env, s)
    ensures r.Continue? ==> Valid(env, r.next) && Advances(r.next, s)
  {
    Shift(env, s.(from := None, to := None), RangeChunks(s))
  }

  /** delta.go:67-115 after the window is in place: checksum, match, and the
      match or miss branch. */
  function Compare(env: Env, s: State): (r: Outcome)
    requires Valid(env, s)
    ensures r.Continue? ==> Valid(env, r.next)
    ensures r.Continue? ==> Advances(r.next, s) || (r.next.offset == s.offset && r.next.length == s.length && Fresh(r.next))
  {
    var window := Window(env, s);
    var rolled := Rolling(env, window, s.a, s.b);
    var m := MatchOf(env, window, rolled.checksum);
    var s' := s.(a := rolled.a, b := rolled.b);
    if m.matching then OnMatch(env, s', m.offset) else OnMiss(env, s')
  }

  /** delta.go:55-66: read a fresh window; a failed read is returned, and an
      empty read (end of file) sends the open range and returns without
      error. */
  function ReadPhase(env: Env, s: State): (r: Outcome)
    requires Valid(env, s)
    ensures r.Continue? ==> Valid(env, r.next) && r.next.offset > s.offset
  {
    match ReadAt(env.src, s.offset, env.windowLength)
    case ReadFailed => Finish([], Some(IoFailure))
    case ReadOk(data, _) =>
      if |data| == 0 then Finish(RangeChunks(s), None)
      else Compare(env, s.(offset := s.offset + |data|, length := |data|, readBytes := |data|))
  }

  /** One round of the loop of delta.go:54-116. */
  function Step(env: Env, s: State): (r: Outcome)
    requires Valid(env, s)
    ensures r.Continue? ==> Valid(env, r.next) && Below(r.next, s)
  {
    if Fresh(s) then ReadPhase(env, s) else Compare(env, s)
  }

  /** The chunks the loop sends, in order, and the error it returns. */
  datatype Encoded = Encoded(chunks: seq<Chunk>, err: Option<Error>)

  /** The loop from the variables `s` until it returns. */
  function Run(env: Env, s: State): Encoded
    requires Valid(env, s)
    decreases |env.src.bytes| - s.offset, s.length, Phase(s)
  {
    match Step(env, s)
    case Finish(sent, err) => Encoded(sent, err)
    case Continue(next, sent) => var rest := Run(env, next); Encoded(sent + rest.chunks, rest.err)
  }

  /** A run continues with the run from the next round. */
  lemma RunContinue(env: Env, s: State, next: State, sent: seq<Chunk>)
    requires Valid(env, s) && Step(env, s) == Continue(next, sent)
    ensures Valid(env, next)
    ensures Run(env, s) == Encoded(sent + Run(env, next).chunks, Run(env, next).err)
  {
  }

  /** A run ends with the round that returns. */
  lemma RunFinish(env: Env, s: State, sent: seq<Chunk>, err: Option<Error>)
    requires Valid(env, s) && Step(env, s) == Finish(sent, err)
    ensures Run(env, s) == Encoded(sent, err)
  {
  }

  /** A round that starts by reading is the read phase, and one that rolls
      goes straight to the comparison. */
  lemma StepIs(env: Env, s: State)
    requires Valid(env, s)
    ensures Step(env, s) == if Fresh(s) then ReadPhase(env, s) else Compare(env, s)
  {
  }

  /** The comparison of a window: the match or the miss branch, with the
      accumulators the checksum callback returned. */
  lemma CompareIs(env: Env, s: State, rolled: Rolled, m: Matched)
    requires Valid(env, s)
    requires rolled == Rolling(env, Window(env, s), s.a, s.b)
    requires m == MatchOf(env, Window(env, s), rolled.checksum)
    ensures var s' := s.(a := rolled.a, b := rolled.b);
      Compare(env, s) == if m.matching then OnMatch(env, s', m.offset) else OnMiss(env, s')
  {
  }
}
