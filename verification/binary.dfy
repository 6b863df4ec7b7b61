/** Fixed-width unsigned integers, Go's wrap-around arithmetic on them, and
    the big-endian byte order of encoding/binary. */
module Binary {

  type uint8 = x: int | 0 <= x < 0x100
  type uint32 = x: int | 0 <= x < 0x1_0000_0000
  type uint64 = x: int | 0 <= x < 0x1_0000_0000_0000_0000

  const TWO_32: int := 0x1_0000_0000
  const TWO_63: int := 0x8000_0000_0000_0000
  const TWO_64: int := 0x1_0000_0000_0000_0000

  /** Go's conversion `uint32(x)` of an integer. */
  function U32(x: int): uint32 { x % TWO_32 }

  /** Go's conversion `uint64(x)` of an integer. */
  function U64(x: int): uint64 { x % TWO_64 }

  /** `x + y`, `x - y` and `x * y` on Go's `uint32`. */
  function Add32(x: uint32, y: uint32): uint32 { (x + y) % TWO_32 }
  function Sub32(x: uint32, y: uint32): uint32 { (x - y) % TWO_32 }
  function Mul32(x: uint32, y: uint32): uint32 { (x * y) % TWO_32 }

  /** `x + y` on Go's `uint64`. */
  function Add64(x: uint64, y: uint64): uint64 { (x + y) % TWO_64 }

  /** Reducing an operand first does not change a sum modulo 2^32. */
  lemma ModAddLeft(x: int, y: int)
    ensures (x % TWO_32 + y) % TWO_32 == (x + y) % TWO_32
  {
    var q := x / TWO_32;
    assert x == q * TWO_32 + x % TWO_32;
    assert x + y == (x % TWO_32 + y) + q * TWO_32;
    ModMultiple(x % TWO_32 + y, q);
  }

  /** Reducing a factor first does not change a product modulo 2^32. */
  lemma ModMulLeft(x: int, y: int)
    ensures (x % TWO_32) * y % TWO_32 == x * y % TWO_32
  {
    var q := x / TWO_32;
    assert x == q * TWO_32 + x % TWO_32;
    assert x * y == (x % TWO_32) * y + (q * y) * TWO_32;
    ModMultiple((x % TWO_32) * y, q * y);
  }

  /** Adding a multiple of 2^32 does not change a residue. */
  lemma ModMultiple(x: int, k: int)
    ensures (x + k * TWO_32) % TWO_32 == x % TWO_32
  {
    var r := x % TWO_32;
    var q := x / TWO_32;
    assert x == q * TWO_32 + r;
    assert x + k * TWO_32 == (q + k) * TWO_32 + r;
  }

  /** 256 to the power n: the number of values n bytes can hold. */
  function Pow256(n: nat): (r: nat)
    ensures r > 0
  {
    if n == 0 then 1 else 256 * Pow256(n - 1)
  }

  /** The n-byte big-endian encoding of x (binary.BigEndian.PutUint32 for n = 4,
      PutUint64 for n = 8); only the n low-order bytes of x are kept. */
  function BigEndian(x: nat, n: nat): (r: seq<uint8>)
    ensures |r| == n
  {
    if n == 0 then [] else BigEndian(x / 256, n - 1) + [x % 256]
  }

  /** The value of a big-endian byte string (binary.BigEndian.Uint32 / Uint64). */
  function FromBigEndian(s: seq<uint8>): (r: nat)
    ensures r < Pow256(|s|)
  {
    if s == [] then 0 else FromBigEndian(s[..|s| - 1]) * 256 + s[|s| - 1]
  }

  /** Decoding the big-endian encoding of a value that fits recovers it. */
  lemma {:induction false} BigEndianRoundTrip(x: nat, n: nat)
    requires x < Pow256(n)
    ensures FromBigEndian(BigEndian(x, n)) == x
  {
    if n > 0 {
      var s := BigEndian(x, n);
      assert s[..n - 1] == BigEndian(x / 256, n - 1);
      BigEndianRoundTrip(x / 256, n - 1);
    }
  }

  /** Encoding the value of a byte string gives back the same bytes. */
  lemma {:induction false} FromBigEndianRoundTrip(s: seq<uint8>)
    ensures BigEndian(FromBigEndian(s), |s|) == s
  {
    if s != [] {
      var v := FromBigEndian(s[..|s| - 1]);
      assert (v * 256 + s[|s| - 1]) / 256 == v;
      assert (v * 256 + s[|s| - 1]) % 256 == s[|s| - 1];
      FromBigEndianRoundTrip(s[..|s| - 1]);
    }
  }

  /** binary.BigEndian.Uint64: the value of eight big-endian bytes. */
  function Uint64(s: seq<uint8>): (x: uint64)
    requires |s| == 8
    ensures BigEndian(x, 8) == s
  {
    assert Pow256(8) == TWO_64;
    FromBigEndianRoundTrip(s);
    FromBigEndian(s)
  }

  /** Decoding the eight big-endian bytes of a uint64 recovers it. */
  lemma Uint64RoundTrip(x: uint64)
    ensures Uint64(BigEndian(x, 8)) == x
  {
    assert Pow256(8) == TWO_64;
    BigEndianRoundTrip(x, 8);
  }

  lemma AppendAssoc<T>(a: seq<T>, b: seq<T>, c: seq<T>)
    ensures a + (b + c) == (a + b) + c
  {
  }

  /** A suffix is its first element followed by the next suffix. */
  lemma SuffixCons<T>(xs: seq<T>, k: nat)
    requires k < |xs|
    ensures xs[k..] == [xs[k]] + xs[k + 1..]
  {
  }

  /** The bytes of a sequence of messages, in order (what a reader of a
      channel of byte slices writes out). */
  function Flatten(ss: seq<seq<uint8>>): seq<uint8>
  {
    if ss == [] then [] else Flatten(ss[..|ss| - 1]) + ss[|ss| - 1]
  }

  lemma {:induction false} FlattenAppend(xs: seq<seq<uint8>>, ys: seq<seq<uint8>>)
    ensures Flatten(xs + ys) == Flatten(xs) + Flatten(ys)
  {
    if ys != [] {
      assert (xs + ys)[..|xs + ys| - 1] == xs + ys[..|ys| - 1];
      FlattenAppend(xs, ys[..|ys| - 1]);
    } else {
      assert xs + ys == xs;
    }
  }

  function Min(x: int, y: int): int { if x <= y then x else y }
}
