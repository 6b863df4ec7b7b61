/** patch.go: the patch engine replays the chunks of a delta against the basis
    file; each chunk becomes one piece of the new file, sent in order. */
module Patch {
  import opened Binary
  import opened ByteSource
  import opened DeltaChunk

  /** The length of the buffer a range chunk allocates: `to - from` in uint64
      arithmetic, which wraps when `to < from`. */
  function BlockLen(from: uint64, to: uint64): uint64
  {
    (to - from) % TWO_64
  }

  /** The buffer holds exactly the range's bytes when `from <= to`, and
      wraps around to nearly 2^64 bytes otherwise. */
  lemma BlockLenWraps(from: uint64, to: uint64)
    ensures from <= to ==> BlockLen(from, to) == to - from
    ensures to < from ==> BlockLen(from, to) == TWO_64 - (from - to)
  {
  }

  /** The piece one chunk contributes, or the error that stops the patch
      (patch.go:10-21). A literal is its own bytes. A range reads `BlockLen`
      bytes at offset `int64(from)` of the basis file with ReadAt: an offset
      that is negative as int64 is rejected, an empty buffer reads nothing,
      a read that comes back short is io.EOF, and a failed read is its
      error. */
  function ApplyChunk(basis: Source, c: Chunk): (r: Result<seq<uint8>>)
    ensures c.Literal? ==> r == Ok(c.data)
    ensures c.Copy? && r.Ok? ==>
      var n := BlockLen(c.from, c.to);
      && |r.value| == n
      && (n > 0 ==> c.from + n <= |basis.bytes| && r.value == basis.bytes[c.from..c.from + n])
  {
    match c
    case Literal(data) => Ok(data)
    case Copy(from, to) =>
      var blockLen := BlockLen(from, to);
      if from >= TWO_63 then Err(IoFailure)
      else if blockLen == 0 then Ok([])
      else
        match ReadAt(basis, from, blockLen)
        case ReadFailed => Err(IoFailure)
        case ReadOk(data, _) => if |data| < blockLen then Err(Eof) else Ok(data)
  }

  /** When a range chunk is accepted: its offset is a valid int64, and either
      it is empty or it lies inside the basis file and inside the part that can
      be read. */
  lemma CopyAccepted(basis: Source, from: uint64, to: uint64)
    ensures var n := BlockLen(from, to);
      ApplyChunk(basis, Copy(from, to)).Ok? <==>
        from < TWO_63 && (n == 0 || (from + n <= |basis.bytes| && from + n <= basis.readable))
  {
  }

  /** A range with `from <= to` inside a readable basis file becomes exactly
      the bytes basis[from..to). */
  lemma CopyInRange(basis: Source, from: uint64, to: uint64)
    requires from <= to <= |basis.bytes| && to <= basis.readable && from < TWO_63
    ensures ApplyChunk(basis, Copy(from, to)) == Ok(basis.bytes[from..to])
  {
    var n := to - from;
    assert BlockLen(from, to) == n;
    if n == 0 {
      assert basis.bytes[from..to] == [];
    } else {
      assert ReadAt(basis, from, n) == ReadOk(basis.bytes[from..to], false);
      assert ApplyChunk(basis, Copy(from, to)) == Ok(basis.bytes[from..to]);
    }
  }

  /** What a patch sends to the new file, and the error it returns. */
  datatype Patched = Patched(pieces: seq<seq<uint8>>, err: Option<Error>)

  /** The pieces of the chunks in order until the first chunk that fails, and
      that chunk's error. */
  function Replay(basis: Source, cs: seq<Chunk>): (r: Patched)
    ensures |r.pieces| <= |cs|
    ensures forall j :: 0 <= j < |r.pieces| ==> ApplyChunk(basis, cs[j]) == Ok(r.pieces[j])
    ensures r.err.None? <==> |r.pieces| == |cs|
    ensures r.err.Some? ==> ApplyChunk(basis, cs[|r.pieces|]) == Err(r.err.value)
  {
    if cs == [] then Patched([], None)
    else
      match ApplyChunk(basis, cs[0])
      case Err(e) => Patched([], Some(e))
      case Ok(piece) =>
        var rest := Replay(basis, cs[1..]);
        Patched([piece] + rest.pieces, rest.err)
  }

  /** patch.go:7-25: for each chunk received, send its piece; stop at the
      first failed read and return its error. The output channel is closed on
      every path, which here is the end of `written`. */
  method Patch(deltaChunks: seq<Chunk>, oldFileReader: Source) returns (written: seq<seq<uint8>>, err: Option<Error>)
    ensures Patched(written, err) == Replay(oldFileReader, deltaChunks)
  {
    written := [];
    var i := 0;
    while i < |deltaChunks|
      invariant 0 <= i <= |deltaChunks|
      invariant Replay(oldFileReader, deltaChunks)
        == Patched(written + Replay(oldFileReader, deltaChunks[i..]).pieces,
                   Replay(oldFileReader, deltaChunks[i..]).err)
    {
      var ss := deltaChunks[i];
      var rest := deltaChunks[i + 1..];
      assert deltaChunks[i..] == [ss] + rest;
      match ApplyChunk(oldFileReader, ss)
      case Err(e) =>
        assert Replay(oldFileReader, deltaChunks[i..]) == Patched([], Some(e));
        assert written + [] == written;
        return written, Some(e);
      case Ok(data) =>
        AppendAssoc(written, [data], Replay(oldFileReader, rest).pieces);
        written := written + [data];
      i := i + 1;
    }
    assert deltaChunks[i..] == [];
    assert written + [] == written;
    err := None;
  }

  /** The new file is the pieces written one after the other. With no error,
      it is the concatenation of every chunk's piece, in chunk order. */
  lemma {:induction false} ReplayContents(basis: Source, cs: seq<Chunk>, pieces: seq<seq<uint8>>)
    requires |pieces| == |cs|
    requires forall j :: 0 <= j < |cs| ==> ApplyChunk(basis, cs[j]) == Ok(pieces[j])
    ensures Replay(basis, cs) == Patched(pieces, None)
  {
    var r := Replay(basis, cs);
    assert r.pieces == pieces;
  }

  /** Patching with two deltas one after the other: when the first applies
      in full, the pieces are its pieces followed by those of the second. */
  lemma {:induction false} ReplayAppend(basis: Source, xs: seq<Chunk>, ys: seq<Chunk>)
    requires Replay(basis, xs).err.None?
    ensures Replay(basis, xs + ys)
      == Patched(Replay(basis, xs).pieces + Replay(basis, ys).pieces, Replay(basis, ys).err)
  {
    if xs == [] {
      assert xs + ys == ys;
    } else {
      var piece := Replay(basis, xs).pieces[0];
      assert (xs + ys)[0] == xs[0] && (xs + ys)[1..] == xs[1..] + ys;
      ReplayAppend(basis, xs[1..], ys);
      AppendAssoc([piece], Replay(basis, xs[1..]).pieces, Replay(basis, ys).pieces);
    }
  }

  /** The new file a patch builds from its pieces, or None when it fails. */
  ghost function Rebuilt(basis: Source, cs: seq<Chunk>): Option<seq<uint8>>
  {
    var r := Replay(basis, cs);
    if r.err.None? then Some(Flatten(r.pieces)) else None
  }

  /** The file rebuilt from two deltas one after the other is the two files
      one after the other. */
  lemma RebuiltAppend(basis: Source, xs: seq<Chunk>, ys: seq<Chunk>)
    requires Rebuilt(basis, xs).Some? && Rebuilt(basis, ys).Some?
    ensures Rebuilt(basis, xs + ys) == Some(Rebuilt(basis, xs).value + Rebuilt(basis, ys).value)
  {
    ReplayAppend(basis, xs, ys);
    FlattenAppend(Replay(basis, xs).pieces, Replay(basis, ys).pieces);
  }

  /** A single chunk rebuilds its own piece. */
  lemma RebuiltOne(basis: Source, c: Chunk, piece: seq<uint8>)
    requires ApplyChunk(basis, c) == Ok(piece)
    ensures Rebuilt(basis, [c]) == Some(piece)
  {
    assert [c][1..] == [];
    assert Replay(basis, [c]) == Patched([piece], None);
    assert [piece][..0] == [];
    assert Flatten([piece]) == Flatten([]) + piece;
    assert Flatten([]) + piece == piece;
  }

  /** Every piece of a patch is part of the file it rebuilds. */
  lemma {:induction false} PieceWithin(pieces: seq<seq<uint8>>, j: nat)
    requires j < |pieces|
    ensures |pieces[j]| <= |Flatten(pieces)|
  {
    var init := pieces[..|pieces| - 1];
    if j < |init| {
      PieceWithin(init, j);
      assert init[j] == pieces[j];
    }
  }
}
