/** The three flows of main.go put together, as e2e_test.go:96-153 runs them:
    the signature of the basis file, the index built from it, the delta of
    the new file against that index written as records to the delta file,
    and the patch of the basis file with the chunks read back. */
module Pipeline {
  import opened Binary
  import opened ByteSource
  import opened RollingChecksum
  import opened DeltaChunk
  import opened Signature
  import opened SignatureIndex
  import opened Matching
  import opened DeltaSpec
  import opened DeltaRoundTrip
  import opened Files
  import opened Patch

  /** findMatchingOffset as delta.go:119-133 writes it: the offset it reports
      is the index of the matching bundle. */
  function BlockIndexMatcher(): MatchFn
  {
    (hash, hashes, checksum, checksums) => MatchBlock(hash, hashes, checksum, checksums)
  }

  /** The matcher the encoder needs for windows of `w` bytes: the offset it
      reports is where the matching block starts in the basis file. */
  function ByteOffsetMatcher(w: nat): MatchFn
  {
    (hash, hashes, checksum, checksums) => MatchOffset(w, hash, hashes, checksum, checksums)
  }

  /** The strong hash tells the blocks of the basis file apart from every
      other byte string: a string with the hash of a block is that block. */
  ghost predicate NoCollision(strong: StrongHash, ws: seq<Window>)
  {
    forall x, i :: 0 <= i < |ws| && strong(x) == strong(ws[i].data) ==> x == ws[i].data
  }

  /** The hash list built from a signature holds the strong hash of each
      window, in order. */
  lemma HashesOfWindows(ws: seq<Window>, weak: WeakSum, strong: StrongHash,
                        bundles: seq<seq<uint8>>, hashes: seq<seq<uint8>>, i: nat)
    requires BundlesOf(bundles, ws, weak, strong) && i < |ws|
    requires |hashes| == |bundles| && forall j :: 0 <= j < |bundles| ==> hashes[j] == bundles[j][4..]
    ensures hashes[i] == strong(ws[i].data)
  {
    assert bundles[i] == GetChecksumsBundle(weak(ws[i].data, ws[i].end), strong(ws[i].data));
  }

  /** A window with the strong hash of block i is block i, which the basis
      file holds from byte w * i on. */
  lemma BlockMatch(bytes: seq<uint8>, w: nat, strong: StrongHash, i: nat, window: seq<uint8>)
    requires w > 0 && i < |BlockWindows(bytes, w, 0)|
    requires NoCollision(strong, BlockWindows(bytes, w, 0))
    requires strong(window) == strong(BlockWindows(bytes, w, 0)[i].data)
    ensures w * i + |window| <= |bytes| && bytes[w * i..w * i + |window|] == window
  {
    BlockWindowsAt(bytes, w, 0, i);
    assert window == Block(bytes, w, i);
  }

  /** A window whose strong hash is that of bundle i of the signature of a
      basis file is the block of the basis file that starts at byte w * i. */
  lemma IndexedBlock(basis: Source, w: uint32, weak: WeakSum, strong: StrongHash,
                     bundles: seq<seq<uint8>>, hashes: seq<seq<uint8>>, window: seq<uint8>, i: nat)
    requires w > 0
    requires BundlesOf(bundles, BlockWindows(basis.bytes, w, 0), weak, strong)
    requires |hashes| == |bundles| && forall j :: 0 <= j < |bundles| ==> hashes[j] == bundles[j][4..]
    requires NoCollision(strong, BlockWindows(basis.bytes, w, 0))
    requires i < |hashes| && hashes[i] == strong(window)
    ensures w * i + |window| <= |basis.bytes| && basis.bytes[w * i..w * i + |window|] == window
  {
    var ws := BlockWindows(basis.bytes, w, 0);
    HashesOfWindows(ws, weak, strong, bundles, hashes, i);
    BlockMatch(basis.bytes, w, strong, i, window);
  }

  /** With the signature of a basis file that does not fail, the hash list
      built from it and a strong hash without collisions on its blocks, the
      corrected matcher reports only windows the basis file holds where it
      says, whatever the checksum index: a match is confirmed by the strong
      hash of the bundle the index names. */
  lemma SignatureMatcherSound(basis: Source, w: uint32, weak: WeakSum, strong: StrongHash,
                              bundles: seq<seq<uint8>>, hashes: seq<seq<uint8>>, env: Env)
    requires w > 0 && basis.readable >= |basis.bytes|
    requires BundlesOf(bundles, Windows(basis, w, 0, false), weak, strong)
    requires |hashes| == |bundles| && forall i :: 0 <= i < |bundles| ==> hashes[i] == bundles[i][4..]
    requires NoCollision(strong, BlockWindows(basis.bytes, w, 0))
    requires env.hashes == hashes && env.hashCalculation == strong
    requires env.findMatchingOffset == ByteOffsetMatcher(w)
    ensures Sound(env, basis)
  {
    SignatureOfBlocks(basis, w, 0);
    forall window, checksum | MatchOf(env, window, checksum).matching
      ensures var off := MatchOf(env, window, checksum).offset;
        0 <= off && off + |window| <= |basis.bytes| && basis.bytes[off..off + |window|] == window
    {
      var m := MatchOffset(w as nat, strong(window), hashes, checksum, env.checksums);
      assert MatchOf(env, window, checksum) == m;
      var i := env.checksums[checksum];
      assert 0 <= i < |hashes| && m.offset == w as nat * i && hashes[i] == strong(window);
      IndexedBlock(basis, w, weak, strong, bundles, hashes, window, i);
    }
  }

  /** e2e_test.go:96-153 with the corrected matcher: the basis file and the
      new file read without failing; the hash list is built from the
      signature of the basis file (the index may be any map); the strong hash has no collision on the
      blocks and the checksum callback always returns accumulators. Then the
      encoder returns no error, the delta file holding its records reads back
      as its chunks, and patching the basis file with them rebuilds the new
      file. */
  lemma EndToEnd(basis: Source, newFile: Source, w: uint32, weak: WeakSum, strong: StrongHash,
                 bundles: seq<seq<uint8>>, index: map<uint32, int>, hashes: seq<seq<uint8>>,
                 checksumCalculation: ChecksumFn, records: seq<seq<uint8>>)
    requires w > 0 && basis.readable >= |basis.bytes| && |basis.bytes| < TWO_63
    requires newFile.readable >= |newFile.bytes| && |newFile.bytes| < TWO_64
    requires BundlesOf(bundles, Windows(basis, w, 0, false), weak, strong)
    requires |hashes| == |bundles| && forall i :: 0 <= i < |bundles| ==> hashes[i] == bundles[i][4..]
    requires NoCollision(strong, BlockWindows(basis.bytes, w, 0))
    requires AlwaysRolls(Env(newFile, w, index, hashes, ByteOffsetMatcher(w), checksumCalculation, strong))
    requires RecordsOf(records, Run(Env(newFile, w, index, hashes, ByteOffsetMatcher(w), checksumCalculation, strong), Start(0, 0)).chunks)
    ensures var run := Run(Env(newFile, w, index, hashes, ByteOffsetMatcher(w), checksumCalculation, strong), Start(0, 0));
      var deltaFile := Flatten(records);
      var decoded := Decode(Source(deltaFile, |deltaFile|), 0);
      && run.err == None
      && decoded == Decoded(run.chunks, None)
      && Rebuilt(basis, decoded.chunks) == Some(newFile.bytes)
  {
    var env := Env(newFile, w, index, hashes, ByteOffsetMatcher(w), checksumCalculation, strong);
    SignatureMatcherSound(basis, w, weak, strong, bundles, hashes, env);
    EncodeRebuilds(env, basis);
    var cs := Run(env, Start(0, 0)).chunks;
    var pieces := Replay(basis, cs).pieces;
    forall i | 0 <= i < |cs| && cs[i].Literal?
      ensures |cs[i].data| < TWO_64
    {
      assert pieces[i] == cs[i].data;
      PieceWithin(pieces, i);
    }
    DeltaFileRoundTrip(cs, records);
  }

  /** The weak checksums of "abc" and "def" (rolling_checksum_test.go:11-16). */
  const ABC_CHECKSUM: uint32 := 586 * 0x1_0000 + 294
  const DEF_CHECKSUM: uint32 := 604 * 0x1_0000 + 303

  /** The basis file "abcdef" of the example below. */
  function Abcdef(): Source
  {
    Source([97, 98, 99, 100, 101, 102], 6)
  }

  /** Its blocks of 3 bytes: "abc" and "def". */
  lemma AbcdefBlocks()
    ensures BlockWindows(Abcdef().bytes, 3, 0)
      == [Signature.Window([97, 98, 99], 3), Signature.Window([100, 101, 102], 6)]
  {
    var bytes := Abcdef().bytes;
    assert BlockWindows(bytes, 3, 6) == [];
    assert bytes[3..6] == [100, 101, 102];
    assert bytes[0..3] == [97, 98, 99];
  }

  /** Its signature with windows of 3 bytes, a weak checksum that gives the
      blocks the checksums rolling_checksum_test.go:11-16 gives them, and the
      identity standing for the strong hash: the index main.go:206-216 builds
      maps the checksum of "abc" to bundle 0 and that of "def" to bundle 1. */
  lemma AbcdefIndex(weak: WeakSum)
    requires weak([97, 98, 99], 3) == ABC_CHECKSUM && weak([100, 101, 102], 6) == DEF_CHECKSUM
    ensures var ws := BlockWindows(Abcdef().bytes, 3, 0);
      var bundles := [BundleOf(ws[0], weak, x => x), BundleOf(ws[1], weak, x => x)];
      && IndexesPrefix(map[ABC_CHECKSUM := 0, DEF_CHECKSUM := 1], bundles, 2)
      && bundles[0][4..] == [97, 98, 99] && bundles[1][4..] == [100, 101, 102]
  {
    AbcdefBlocks();
    var ws := BlockWindows(Abcdef().bytes, 3, 0);
    var bundles := [BundleOf(ws[0], weak, x => x), BundleOf(ws[1], weak, x => x)];
    assert bundles[0] == GetChecksumsBundle(ABC_CHECKSUM, [97, 98, 99]);
    assert bundles[1] == GetChecksumsBundle(DEF_CHECKSUM, [100, 101, 102]);
  }

  /** A checksum callback that computes every window from scratch, as
      CalculateChecksumWithoutPreviousCompounds does (rolling_checksum.go:3-12). */
  function FromScratch(): ChecksumFn
  {
    (window, pop, n, a, b) => var c := Checksum(window); Rolled(c.checksum, Some(c.a), Some(c.b))
  }

  /** That callback gives "def" the checksum the index of "abcdef" maps to
      bundle 1, and always hands back accumulators. */
  lemma FromScratchRollsDef()
    ensures FromScratch()([100, 101, 102], None, 3, None, None).checksum == DEF_CHECKSUM
    ensures forall window, pop, n, a, b :: FromScratch()(window, pop, n, a, b).a.Some?
  {
    KnownChecksums();
  }

  /** The encoder of that example with findMatchingOffset as written: the new
      file "def" against the index of "abcdef", with the checksum callback
      `roll`. */
  function AsWrittenEnv(roll: ChecksumFn): Env
  {
    Env(Source([100, 101, 102], 3), 3, map[ABC_CHECKSUM := 0, DEF_CHECKSUM := 1],
        [[97, 98, 99], [100, 101, 102]], BlockIndexMatcher(), roll, x => x)
  }

  /** The first round reads "def" from the new file... */
  lemma AsWrittenRead(roll: ChecksumFn)
    ensures ReadPhase(AsWrittenEnv(roll), Start(0, 0))
      == Compare(AsWrittenEnv(roll), State(3, 3, [], None, None, None, None, 3))
  {
    var env := AsWrittenEnv(roll);
    assert ReadAt(env.src, 0, 3) == ReadOk([100, 101, 102], false);
  }

  /** ...finds bundle 1 for it and opens the range [1, 4). */
  lemma AsWrittenMatch(roll: ChecksumFn)
    requires roll([100, 101, 102], None, 3, None, None).checksum == DEF_CHECKSUM
    ensures Compare(AsWrittenEnv(roll), State(3, 3, [], None, None, None, None, 3))
      == Continue(State(3, 3, [], Some(1), Some(4), None, None, 3), [])
  {
    var env, s1 := AsWrittenEnv(roll), State(3, 3, [], None, None, None, None, 3);
    assert DeltaSpec.Window(env, s1) == [100, 101, 102];
    var rolled := Rolling(env, [100, 101, 102], None, None);
    var m := MatchOf(env, [100, 101, 102], rolled.checksum);
    assert m == Matched(true, 1);
    CompareIs(env, s1, rolled, m);
    assert U64(1) == 1 && U64(1 + 3) == 4;
  }

  /** So the first round of the loop sends nothing and opens [1, 4). */
  lemma AsWrittenFirstRound(roll: ChecksumFn)
    requires roll([100, 101, 102], None, 3, None, None).checksum == DEF_CHECKSUM
    ensures DeltaSpec.Step(AsWrittenEnv(roll), Start(0, 0))
      == Continue(State(3, 3, [], Some(1), Some(4), None, None, 3), [])
  {
    StepIs(AsWrittenEnv(roll), Start(0, 0));
    AsWrittenRead(roll);
    AsWrittenMatch(roll);
  }

  /** delta.go:86-93 and 119-133 as written, on the basis file "abcdef"
      signed with windows of 3 bytes and the new file "def", with a checksum
      callback that gives "def" its checksum: the encoder sends the range
      [1, 4) and the patch rebuilds "bcd" instead of "def". */
  lemma BlockIndexRebuildsWrongBytes(roll: ChecksumFn)
    requires roll([100, 101, 102], None, 3, None, None).checksum == DEF_CHECKSUM
    ensures Run(AsWrittenEnv(roll), Start(0, 0)) == Encoded([Copy(1, 4)], None)
    ensures Rebuilt(Abcdef(), [Copy(1, 4)]) == Some([98, 99, 100])
    ensures Rebuilt(Abcdef(), [Copy(1, 4)]) != Some(AsWrittenEnv(roll).src.bytes)
  {
    var env, s0 := AsWrittenEnv(roll), Start(0, 0);
    var t := State(3, 3, [], Some(1), Some(4), None, None, 3);
    AsWrittenFirstRound(roll);
    RunContinue(env, s0, t, []);
    assert ReadAt(env.src, 3, 3) == ReadOk([], true);
    StepIs(env, t);
    RunFinish(env, t, [Copy(1, 4)], None);
    assert ApplyChunk(Abcdef(), Copy(1, 4)) == Ok([98, 99, 100]) by {
      CopyInRange(Abcdef(), 1, 4);
      assert Abcdef().bytes[1..4] == [98, 99, 100];
    }
    RebuiltOne(Abcdef(), Copy(1, 4), [98, 99, 100]);
  }
}
