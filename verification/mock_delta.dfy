/** The encoder as delta_test.go:15-80 drives it: windows of 10 bytes, an
    empty index, a matcher that looks the window up in the old file with
    strings.Index, a checksum callback that always returns 0 with non-nil
    accumulators, and the identity as the strong hash. */
module MockDelta {
  import opened Binary
  import opened ByteSource
  import opened Matching
  import opened DeltaSpec
  import opened DeltaRoundTrip
  import opened Patch

  /** `needle` occurs in `hay` at position j. */
  predicate OccursAt(hay: seq<uint8>, needle: seq<uint8>, j: int)
  {
    0 <= j && j + |needle| <= |hay| && hay[j..j + |needle|] == needle
  }

  /** strings.Index(hay[k..], needle) shifted by k: the first position from
      k on at which `needle` occurs in `hay`, or -1 when there is none. */
  function IndexFrom(hay: seq<uint8>, needle: seq<uint8>, k: nat): (r: int)
    ensures r == -1 || (k <= r && OccursAt(hay, needle, r))
    ensures forall j :: k <= j && (r == -1 || j < r) ==> !OccursAt(hay, needle, j)
    decreases |hay| - k
  {
    if k + |needle| > |hay| then -1
    else if hay[k..k + |needle|] == needle then k
    else IndexFrom(hay, needle, k + 1)
  }

  /** mockFindMatchingOffset (delta_test.go:89-99): a match wherever the
      window occurs first in the old file, ignoring the hash list, the
      checksum and the index. */
  function MockMatcher(oldFile: seq<uint8>): MatchFn
  {
    (h, hashes, checksum, checksums) =>
      var r := IndexFrom(oldFile, h, 0);
      if r != -1 then Matched(true, r) else Matched(false, 0)
  }

  /** mockCalculateChecksum (delta_test.go:101-104). */
  function MockChecksum(): ChecksumFn
  {
    (data, previous, length, a, b) => Rolled(0, Some(0), Some(0))
  }

  /** The encoder's inputs in that test, for the new file `reference` and
      the old file `oldFile`. */
  function MockEnv(reference: Source, oldFile: seq<uint8>): Env
  {
    Env(reference, 10, map[], [], MockMatcher(oldFile), MockChecksum(), h => h)
  }

  /** The mock matcher only reports windows the old file holds where it
      says. */
  lemma MockMatcherSound(reference: Source, oldFile: seq<uint8>)
    ensures Sound(MockEnv(reference, oldFile), Source(oldFile, |oldFile|))
  {
    var env := MockEnv(reference, oldFile);
    forall window, checksum | MatchOf(env, window, checksum).matching
      ensures var off := MatchOf(env, window, checksum).offset;
        0 <= off && off + |window| <= |oldFile| && oldFile[off..off + |window|] == window
    {
      assert MatchOf(env, window, checksum).offset == IndexFrom(oldFile, window, 0);
    }
  }

  /** delta_test.go:15-80: whatever the two files (the new file read without
      failing, the old file shorter than 2^63 bytes), the encoder returns no
      error and its chunks rebuild the new file from the old one. */
  lemma MockDeltaRecreates(reference: Source, oldFile: seq<uint8>)
    requires reference.readable >= |reference.bytes| && |oldFile| < TWO_63
    ensures Run(MockEnv(reference, oldFile), Start(0, 0)).err == None
    ensures Rebuilt(Source(oldFile, |oldFile|), Run(MockEnv(reference, oldFile), Start(0, 0)).chunks) == Some(reference.bytes)
  {
    var env := MockEnv(reference, oldFile);
    MockMatcherSound(reference, oldFile);
    assert AlwaysRolls(env);
    EncodeRebuilds(env, Source(oldFile, |oldFile|));
  }
}
