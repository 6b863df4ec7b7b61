/** signature.go: the signature of a file is one bundle per window of the
    file, each bundle the 4-byte big-endian weak checksum of the window
    followed by its strong hash. */
module Signature {
  import opened Binary
  import opened ByteSource
  import opened Reader

  /** The weak checksum callback gets the window and the reader position after
      it; the strong hash gets the window. */
  type WeakSum = (seq<uint8>, int) -> uint32
  type StrongHash = seq<uint8> -> seq<uint8>

  /** signature.go:30-34: the checksum in big-endian order, then the hash. */
  function GetChecksumsBundle(checksum: uint32, hash: seq<uint8>): (r: seq<uint8>)
    ensures |r| == 4 + |hash|
    ensures FromBigEndian(r[..4]) == checksum
    ensures r[4..] == hash
  {
    var prefix := BigEndian(checksum, 4);
    assert Pow256(4) == TWO_32;
    BigEndianRoundTrip(checksum, 4);
    assert (prefix + hash)[..4] == prefix;
    prefix + hash
  }

  /** The weak checksum a bundle carries (its first four bytes, big-endian). */
  function WeakChecksumOf(bundle: seq<uint8>): (c: uint32)
    requires |bundle| >= 4
    ensures bundle[..4] == BigEndian(c, 4)
  {
    assert Pow256(4) == TWO_32;
    FromBigEndianRoundTrip(bundle[..4]);
    FromBigEndian(bundle[..4])
  }

  /** A window the loop reads: its bytes and the reader position after it. */
  datatype Window = Window(data: seq<uint8>, end: int)

  /** The bundle sent for a window. */
  function BundleOf(win: Window, weak: WeakSum, strong: StrongHash): seq<uint8>
  {
    GetChecksumsBundle(weak(win.data, win.end), strong(win.data))
  }

  /** The windows read by the loop of signature.go:12-27 for a reader whose
      cursor is at `off` with end-of-input flag `eof`, each of which it sends
      the bundle of: read a window; stop on an error or on an empty read; send
      the window's bundle; stop if end of input has been recorded, otherwise
      go on from the end of the window. */
  function Windows(src: Source, w: uint32, off: nat, eof: bool): seq<Window>
    decreases |src.bytes| - off
  {
    match ReadAt(src, off, w)
    case ReadFailed => []
    case ReadOk(data, atEof) =>
      if |data| == 0 then []
      else
        var win := Window(data, off + |data|);
        if eof || atEof then [win]
        else [win] + Windows(src, w, off + |data|, false)
  }

  /** The error the same loop returns: the first failed read, if any. */
  function SignatureError(src: Source, w: uint32, off: nat, eof: bool): Option<Error>
    decreases |src.bytes| - off
  {
    match ReadAt(src, off, w)
    case ReadFailed => Some(IoFailure)
    case ReadOk(data, atEof) =>
      if |data| == 0 || eof || atEof then None
      else SignatureError(src, w, off + |data|, false)
  }

  /** Block i of `s` in windows of `w` bytes: from byte w * i up to w bytes. */
  function Block(s: seq<uint8>, w: nat, i: nat): seq<uint8>
    requires w * i <= |s|
  {
    s[w * i..Min(w * i + w, |s|)]
  }

  /** The consecutive blocks of `w` bytes of `bytes` from position `off` on,
      the last possibly shorter, each with the position after it. */
  function BlockWindows(bytes: seq<uint8>, w: nat, off: nat): seq<Window>
    requires w > 0
    decreases |bytes| - off
  {
    if off >= |bytes| then []
    else
      var n := Min(w, |bytes| - off);
      [Window(bytes[off..off + n], off + n)] + BlockWindows(bytes, w, off + n)
  }

  /** From block k on there are as many windows as blocks that start inside
      the input. */
  lemma {:induction false} BlockWindowsCount(bytes: seq<uint8>, w: nat, k: nat)
    requires w > 0 && w * k <= |bytes|
    ensures var n := |BlockWindows(bytes, w, w * k)|;
      && |bytes| <= w * (k + n)
      && (n > 0 ==> w * (k + n - 1) < |bytes|)
    decreases |bytes| - w * k
  {
    if w * k < |bytes| {
      assert w * (k + 1) == w * k + w;
      if w * k + w <= |bytes| {
        BlockWindowsCount(bytes, w, k + 1);
        var n := |BlockWindows(bytes, w, w * (k + 1))|;
        assert w * (k + 1 + n) == w * (k + (n + 1));
        assert w * (k + 1 + n - 1) == w * (k + (n + 1) - 1);
      }
    }
  }

  /** Window j from block k on is block k + j, ending where that block ends. */
  lemma {:induction false} BlockWindowsAt(bytes: seq<uint8>, w: nat, k: nat, j: nat)
    requires w > 0 && w * k <= |bytes|
    requires j < |BlockWindows(bytes, w, w * k)|
    ensures w * (k + j) < |bytes|
    ensures BlockWindows(bytes, w, w * k)[j] == Window(Block(bytes, w, k + j), Min(w * (k + j) + w, |bytes|))
    decreases j
  {
    assert w * (k + 1) == w * k + w;
    if j > 0 {
      BlockWindowsAt(bytes, w, k + 1, j - 1);
      assert k + 1 + (j - 1) == k + j;
    }
  }

  /** With a source that never fails and a window of at least one byte, the
      loop reads every block of the file from the cursor on, in order, and
      returns no error. */
  lemma {:induction false} SignatureOfBlocks(src: Source, w: uint32, off: nat)
    requires w > 0 && src.readable >= |src.bytes| && off <= |src.bytes|
    ensures Windows(src, w, off, false) == BlockWindows(src.bytes, w, off)
    ensures SignatureError(src, w, off, false) == None
    decreases |src.bytes| - off
  {
    if off < |src.bytes| {
      var n := Min(w, |src.bytes| - off);
      assert ReadAt(src, off, w) == ReadOk(src.bytes[off..off + n], n < w);
      if n < w {
        assert BlockWindows(src.bytes, w, off + n) == [];
      } else {
        SignatureOfBlocks(src, w, off + n);
      }
    }
  }

  /** The bundles of `ws`, in order. */
  ghost predicate BundlesOf(sent: seq<seq<uint8>>, ws: seq<Window>, weak: WeakSum, strong: StrongHash)
  {
    |sent| == |ws| && forall i :: 0 <= i < |ws| ==> sent[i] == BundleOf(ws[i], weak, strong)
  }

  /** Bundling is done window by window. */
  lemma BundlesOfAppend(sent: seq<seq<uint8>>, ws: seq<Window>, more: seq<seq<uint8>>, read: seq<Window>,
                        weak: WeakSum, strong: StrongHash)
    requires BundlesOf(sent, ws, weak, strong) && BundlesOf(more, read, weak, strong)
    ensures BundlesOf(sent + more, ws + read, weak, strong)
  {
    var all, windows := sent + more, ws + read;
    forall i | 0 <= i < |windows|
      ensures all[i] == BundleOf(windows[i], weak, strong)
    {
      if i < |ws| {
        assert all[i] == sent[i] && windows[i] == ws[i];
      } else {
        assert all[i] == more[i - |ws|] && windows[i] == read[i - |ws|];
      }
    }
  }

  /** One round of the loop after a read of at least one byte. */
  lemma WindowsAfterRead(src: Source, w: uint32, off: nat, eof: bool, data: seq<uint8>, atEof: bool)
    requires ReadAt(src, off, w) == ReadOk(data, atEof) && |data| > 0
    ensures var win := Window(data, off + |data|);
      && (eof || atEof ==> Windows(src, w, off, eof) == [win] && SignatureError(src, w, off, eof) == None)
      && (!(eof || atEof) ==> && Windows(src, w, off, eof) == [win] + Windows(src, w, off + |data|, false)
                              && SignatureError(src, w, off, eof) == SignatureError(src, w, off + |data|, false))
  {
  }

  /** signature.go:12-27, one pass of the loop: read a window and return the
      bundle of it, if any, and whether the loop stops there. */
  method Round(reader: BufferedReader, weak: WeakSum, strong: StrongHash)
    returns (sent: seq<seq<uint8>>, ghost read: seq<Window>, stop: bool, err: Option<Error>)
    requires reader.Valid()
    modifies reader, reader.buffer
    ensures reader.Valid()
    ensures BundlesOf(sent, read, weak, strong)
    ensures var src, w := reader.src, reader.windowLength;
      var before := Windows(src, w, old(reader.offset), old(reader.eof));
      && (stop ==> before == read && err == SignatureError(src, w, old(reader.offset), old(reader.eof)))
      && (!stop ==> && before == read + Windows(src, w, reader.offset, reader.eof)
                    && SignatureError(src, w, old(reader.offset), old(reader.eof))
                       == SignatureError(src, w, reader.offset, reader.eof)
                    && old(reader.offset) < reader.offset)
  {
    ghost var src, w, off, eof := reader.src, reader.windowLength, reader.offset, reader.eof;
    ghost var r := ReadAt(src, off, w);
    var anyReads, e := reader.ReadWindow();
    if e.Some? {
      return [], [], true, e;
    }
    if anyReads == 0 {
      return [], [], true, None;
    }
    WindowsAfterRead(src, w, off, eof, r.data, r.atEof);
    var window := Window(reader.Buf(), reader.Offset());
    sent, read := [BundleOf(window, weak, strong)], [window];
    stop, err := reader.IsEof(), None;
  }

  /** signature.go:5-28: drive the reader window by window and send one bundle
      per window; `strong` stands for the reader's MD4 of the window. */
  method CalculateAndSendChecksums(reader: BufferedReader, weak: WeakSum, strong: StrongHash)
    returns (sent: seq<seq<uint8>>, err: Option<Error>)
    requires reader.Valid()
    modifies reader, reader.buffer
    ensures reader.Valid()
    ensures BundlesOf(sent, Windows(reader.src, reader.windowLength, old(reader.offset), old(reader.eof)), weak, strong)
    ensures err == SignatureError(reader.src, reader.windowLength, old(reader.offset), old(reader.eof))
  {
    ghost var all := Windows(reader.src, reader.windowLength, reader.offset, reader.eof);
    ghost var error := SignatureError(reader.src, reader.windowLength, reader.offset, reader.eof);
    ghost var done: seq<Window> := [];
    sent := [];
    assert all == done + all;
    while true
      invariant reader.Valid()
      invariant BundlesOf(sent, done, weak, strong)
      invariant all == done + Windows(reader.src, reader.windowLength, reader.offset, reader.eof)
      invariant error == SignatureError(reader.src, reader.windowLength, reader.offset, reader.eof)
      decreases |reader.src.bytes| - reader.offset
    {
      var bundles, read, stop, e := Round(reader, weak, strong);
      BundlesOfAppend(sent, done, bundles, read, weak, strong);
      if !stop {
        AppendAssoc(done, read, Windows(reader.src, reader.windowLength, reader.offset, reader.eof));
      }
      sent, done := sent + bundles, done + read;
      if stop {
        return sent, e;
      }
    }
  }
}
