/** delta.go:119-133: confirming a weak-checksum hit with the strong hash. */
module Matching {
  import opened Binary

  /** Whether the window matches a block of the old file, and where. */
  datatype Matched = Matched(matching: bool, offset: int)

  /** The lookup findMatchingOffset performs: the bundle the checksum maps
      to, if its strong hash is the window's. The offset reported is that
      bundle's index. An index outside `hashes` (on which the Go code would
      panic) is reported as no match. */
  function MatchBlock(hash: seq<uint8>, hashes: seq<seq<uint8>>, checksum: uint32, checksums: map<uint32, int>): Matched
  {
    if checksum in checksums && 0 <= checksums[checksum] < |hashes| && hashes[checksums[checksum]] == hash
    then Matched(true, checksums[checksum])
    else Matched(false, 0)
  }

  /** delta.go:119-133: walk the entries of the map in any order; the entry
      whose key is the checksum, when its hash is the window's, is the
      match. Keys are distinct, so the order does not matter. */
  method FindMatchingOffset(hash: seq<uint8>, hashes: seq<seq<uint8>>, checksum: uint32, checksums: map<uint32, int>)
    returns (matching: bool, offset: int)
    requires checksum in checksums ==> 0 <= checksums[checksum] < |hashes|
    ensures matching <==> checksum in checksums && hashes[checksums[checksum]] == hash
    ensures offset == if matching then checksums[checksum] else 0
    ensures Matched(matching, offset) == MatchBlock(hash, hashes, checksum, checksums)
  {
    var unvisited := checksums.Keys;
    while unvisited != {}
      invariant unvisited <= checksums.Keys
      invariant checksum in checksums && checksum !in unvisited ==> hashes[checksums[checksum]] != hash
      decreases |unvisited|
    {
      var c :| c in unvisited;
      unvisited := unvisited - {c};
      if c == checksum {
        var i := checksums[c];
        if hash == hashes[i] {
          return true, i;
        }
      }
    }
    return false, 0;
  }

  /** The lookup with the offset in bytes: bundle i of a signature made with
      windows of `w` bytes describes the block starting at byte w * i. */
  function MatchOffset(w: nat, hash: seq<uint8>, hashes: seq<seq<uint8>>, checksum: uint32, checksums: map<uint32, int>): (r: Matched)
    ensures r.matching == MatchBlock(hash, hashes, checksum, checksums).matching
    ensures r.matching ==> r.offset == w * checksums[checksum] && 0 <= checksums[checksum] < |hashes|
  {
    var m := MatchBlock(hash, hashes, checksum, checksums);
    if m.matching then Matched(true, w * m.offset) else m
  }
}
