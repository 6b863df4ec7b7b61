/** main.go:206-216: the signature turned into the lookup structures of the
    delta encoder, a map from weak checksum to bundle index and the list of
    strong hashes. */
module SignatureIndex {
  import opened Binary
  import opened Signature

  /** Every bundle is long enough to carry a four-byte checksum (a shorter one
      makes the slice `b[:4]` panic). */
  predicate WellFormed(bundles: seq<seq<uint8>>)
  {
    forall i :: 0 <= i < |bundles| ==> |bundles[i]| >= 4
  }

  /** The weak checksum bundle i carries. */
  function ChecksumAt(bundles: seq<seq<uint8>>, i: nat): uint32
    requires WellFormed(bundles) && i < |bundles|
  {
    WeakChecksumOf(bundles[i])
  }

  /** `index` maps every checksum carried by one of the first n bundles, and
      nothing else, to the last of those bundles that carries it. */
  ghost predicate IndexesPrefix(index: map<uint32, int>, bundles: seq<seq<uint8>>, n: nat)
    requires WellFormed(bundles) && n <= |bundles|
  {
    && (forall i :: 0 <= i < n ==> ChecksumAt(bundles, i) in index)
    && (forall c :: c in index ==>
          && 0 <= index[c] < n && ChecksumAt(bundles, index[c]) == c
          && forall j :: index[c] < j < n ==> ChecksumAt(bundles, j) != c)
  }

  /** Recording bundle n under its checksum extends the index by one bundle:
      the entry it overwrites, if any, belonged to an earlier bundle. */
  lemma IndexStep(index: map<uint32, int>, bundles: seq<seq<uint8>>, n: nat)
    requires WellFormed(bundles) && n < |bundles|
    requires IndexesPrefix(index, bundles, n)
    ensures IndexesPrefix(index[ChecksumAt(bundles, n) := n], bundles, n + 1)
  {
    var next := index[ChecksumAt(bundles, n) := n];
    forall c | c in next
      ensures 0 <= next[c] < n + 1 && ChecksumAt(bundles, next[c]) == c
      ensures forall j :: next[c] < j < n + 1 ==> ChecksumAt(bundles, j) != c
    {
      if c != ChecksumAt(bundles, n) {
        assert next[c] == index[c];
      }
    }
  }

  /** main.go:206-216: one pass over the bundles; a later bundle with the same
      checksum overwrites the entry of an earlier one, and the hash list keeps
      every bundle's bytes after the checksum. */
  method GetRollingChecksumAndHashes(bundles: seq<seq<uint8>>) returns (index: map<uint32, int>, hashes: seq<seq<uint8>>)
    requires WellFormed(bundles)
    ensures |hashes| == |bundles|
    ensures forall i :: 0 <= i < |bundles| ==> hashes[i] == bundles[i][4..]
    ensures forall i :: 0 <= i < |bundles| ==> ChecksumAt(bundles, i) in index
    ensures forall c :: c in index ==>
      && 0 <= index[c] < |hashes| && ChecksumAt(bundles, index[c]) == c
      && forall j :: index[c] < j < |bundles| ==> ChecksumAt(bundles, j) != c
  {
    index := map[];
    var slots := new seq<uint8>[|bundles|];
    for i := 0 to |bundles|
      invariant IndexesPrefix(index, bundles, i)
      invariant forall j :: 0 <= j < i ==> slots[j] == bundles[j][4..]
    {
      var b := bundles[i];
      var uintChecksum := WeakChecksumOf(b);
      IndexStep(index, bundles, i);
      index := index[uintChecksum := i];
      slots[i] := b[4..];
    }
    hashes := slots[..];
  }
}
