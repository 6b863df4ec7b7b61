/** The weak rolling checksum: two 32-bit accumulators a = sum of the bytes and
    b = sum of (n - i) * byte_i over a window of n bytes, combined as b<<16 | a.
    Both accumulators wrap modulo 2^32 and neither is masked to 16 bits. */
module RollingChecksum {
  import opened Binary

  /** The checksum together with the accumulators it was combined from. */
  datatype Sums = Sums(checksum: uint32, a: uint32, b: uint32)

  /** Sum of the bytes, without wrap-around. */
  function SumA(s: seq<uint8>): nat
  {
    if s == [] then 0 else SumA(s[..|s| - 1]) + s[|s| - 1]
  }

  /** Sum of (n - i) * s[i], without wrap-around. */
  function Weighted(s: seq<uint8>, n: int): int
  {
    if s == [] then 0 else Weighted(s[..|s| - 1], n) + (n - (|s| - 1)) * s[|s| - 1]
  }

  /** The b accumulator of a window, before wrap-around. */
  function SumB(s: seq<uint8>): int
  {
    Weighted(s, |s|)
  }

  /** `b<<16 | a` on uint32: the low half of b shifted up, or-ed with all of a. */
  function Combine(a: uint32, b: uint32): uint32
  {
    (((b as bv32) << 16) | (a as bv32)) as int
  }

  /** The checksum of a window computed from scratch. */
  function Checksum(s: seq<uint8>): Sums
  {
    var a := SumA(s) % TWO_32;
    var b := SumB(s) % TWO_32;
    Sums(Combine(a, b), a, b)
  }

  /** rolling_checksum.go:3-12: one pass over the window accumulating a and b in
      uint32 arithmetic. */
  method CalculateChecksumWithoutPreviousCompounds(data: seq<uint8>) returns (checksum: uint32, a: uint32, b: uint32)
    ensures a == SumA(data) % TWO_32
    ensures b == SumB(data) % TWO_32
    ensures checksum == Combine(a, b)
  {
    a, b := 0, 0;
    for index := 0 to |data|
      invariant a == SumA(data[..index]) % TWO_32
      invariant b == Weighted(data[..index], |data|) % TWO_32
    {
      var uintByte := data[index];
      ghost var sa, sb := SumA(data[..index]), Weighted(data[..index], |data|);
      assert data[..index + 1][..index] == data[..index];
      ModAddLeft(sa, uintByte);
      a := Add32(a, uintByte);
      var weight := U32(|data| - index);
      ModMulLeft(|data| - index, data[index]);
      ModAddLeft(sb, (|data| - index) * data[index]);
      ModAddRight(sb % TWO_32, (|data| - index) * data[index]);
      b := Add32(b, Mul32(weight, data[index]));
    }
    assert data[..|data|] == data;
    checksum := Combine(a, b);
  }

  /** rolling_checksum.go:14-33: slide the window by one byte using the
      previous accumulators. When the new window is shorter than `length` (the
      tail of the input) the removed byte is only subtracted; otherwise the new
      last byte is added as well. */
  function CalculateChecksumUsingPreviousCompounds(
    data: seq<uint8>, previous: uint8, length: int, a: uint32, b: uint32): (r: Sums)
    requires |data| >= length ==> |data| > 0
    ensures r.checksum == Combine(r.a, r.b)
  {
    var prev := previous;
    var dataLen := |data|;
    if dataLen < length then
      var A := Sub32(a, prev);
      var B := Sub32(b, Mul32(U32(dataLen + 1), prev));
      Sums(Combine(A, B), A, B)
    else
      var A := Add32(Sub32(a, prev), data[dataLen - 1]);
      var B := Add32(Sub32(b, Mul32(U32(dataLen), prev)), A);
      Sums(Combine(A, B), A, B)
  }

  lemma ModAddRight(x: int, y: int)
    ensures (x + y % TWO_32) % TWO_32 == (x + y) % TWO_32
  {
    ModAddLeft(y, x);
  }

  lemma ModSubRight(x: int, y: int)
    ensures (x - y % TWO_32) % TWO_32 == (x - y) % TWO_32
  {
    var q := y / TWO_32;
    assert y == q * TWO_32 + y % TWO_32;
    assert x - y % TWO_32 == (x - y) + q * TWO_32;
    ModMultiple(x - y, q);
  }

  lemma {:induction false} SumAPrepend(p: uint8, d: seq<uint8>)
    ensures SumA([p] + d) == p + SumA(d)
  {
    if d != [] {
      assert ([p] + d)[..|d|] == [p] + d[..|d| - 1];
      SumAPrepend(p, d[..|d| - 1]);
    } else {
      assert [p] + d == [p];
      assert [p][..0] == [];
    }
  }

  lemma {:induction false} WeightedPrepend(p: uint8, d: seq<uint8>, n: int)
    ensures Weighted([p] + d, n) == n * p + Weighted(d, n - 1)
  {
    if d != [] {
      assert ([p] + d)[..|d|] == [p] + d[..|d| - 1];
      WeightedPrepend(p, d[..|d| - 1], n);
    } else {
      assert [p] + d == [p];
      assert [p][..0] == [];
    }
  }

  /** Raising every weight by one adds the plain sum once more. */
  lemma {:induction false} WeightedShift(s: seq<uint8>, n: int)
    ensures Weighted(s, n + 1) == Weighted(s, n) + SumA(s)
  {
    if s != [] {
      WeightedShift(s[..|s| - 1], n);
    }
  }

  /** Shrinking branch: dropping the first byte of `[previous] + data` when
      `data` is shorter than the window length gives exactly the from-scratch
      checksum and accumulators of `data`. */
  lemma RollShrink(data: seq<uint8>, previous: uint8, length: int, a: uint32, b: uint32)
    requires |data| < length
    requires a == Checksum([previous] + data).a && b == Checksum([previous] + data).b
    ensures CalculateChecksumUsingPreviousCompounds(data, previous, length, a, b) == Checksum(data)
  {
    var n := |data|;
    var whole := [previous] + data;
    SumAPrepend(previous, data);
    WeightedPrepend(previous, data, n + 1);
    ShrinkA(SumA(whole), previous);
    var A := Sub32(a, previous);
    assert A == SumA(data) % TWO_32;
    ShrinkB(SumB(whole), n + 1, previous);
    var B := Sub32(b, Mul32(U32(n + 1), previous));
    assert B == SumB(data) % TWO_32;
    assert CalculateChecksumUsingPreviousCompounds(data, previous, length, a, b) == Sums(Combine(A, B), A, B);
  }

  /** uint32 wrap-around in the a update of the shrinking branch. */
  lemma ShrinkA(sa: int, p: uint8)
    ensures Sub32(sa % TWO_32, p) == (sa - p) % TWO_32
  {
    ModAddLeft(sa, -(p as int));
  }

  /** uint32 wrap-around in the b update of the shrinking branch. */
  lemma ShrinkB(sb: int, n: nat, p: uint8)
    ensures Sub32(sb % TWO_32, Mul32(U32(n), p)) == (sb - n * p) % TWO_32
  {
    var x := n * p;
    ModMulLeft(n, p);
    assert Mul32(U32(n), p) == x % TWO_32;
    ModSubRight(sb % TWO_32, x);
    ModAddLeft(sb, -x);
  }

  /** The unwrapped sums before and after sliding a full window by one byte. */
  lemma {:induction false} SlideSums(data: seq<uint8>, previous: uint8)
    requires |data| > 0
    ensures SumA(data) == SumA([previous] + data[..|data| - 1]) - previous + data[|data| - 1]
    ensures SumB(data) == SumB([previous] + data[..|data| - 1]) - |data| * previous + SumA(data)
  {
    var n := |data|;
    var front := data[..n - 1];
    SumAPrepend(previous, front);
    WeightedPrepend(previous, front, n);
    WeightedShift(front, n - 1);
    assert data[..n - 1] == front;
  }

  /** uint32 wrap-around in the a update of the full branch. */
  lemma FullA(sa: int, p: uint8, last: uint8)
    ensures Add32(Sub32(sa % TWO_32, p), last) == (sa - p + last) % TWO_32
  {
    ModAddLeft(sa, -(p as int));
    ModAddLeft(sa - p, last);
  }

  /** uint32 wrap-around in the b update of the full branch. */
  lemma FullB(sb: int, n: nat, p: uint8, s: int)
    ensures Add32(Sub32(sb % TWO_32, Mul32(U32(n), p)), s % TWO_32) == (sb - n * p + s) % TWO_32
  {
    var x := n * p;
    ModMulLeft(n, p);
    assert Mul32(U32(n), p) == x % TWO_32;
    ModSubRight(sb % TWO_32, x);
    ModAddLeft(sb, -x);
    var t := Sub32(sb % TWO_32, x % TWO_32);
    assert t == (sb - x) % TWO_32;
    ModAddLeft(sb - x, s % TWO_32);
    ModAddRight(sb - x, s);
  }

  /** Full branch: sliding a full window `[previous] + data[..n-1]` by one byte
      to `data` (n bytes) gives exactly the from-scratch checksum and
      accumulators of `data`. */
  lemma RollFull(data: seq<uint8>, previous: uint8, a: uint32, b: uint32)
    requires |data| > 0
    requires a == Checksum([previous] + data[..|data| - 1]).a
    requires b == Checksum([previous] + data[..|data| - 1]).b
    ensures CalculateChecksumUsingPreviousCompounds(data, previous, |data|, a, b) == Checksum(data)
  {
    var n, last := |data|, data[|data| - 1];
    var before := [previous] + data[..n - 1];
    SlideSums(data, previous);
    var sa, sb := SumA(before), SumB(before);
    FullA(sa, previous, last);
    var A := Add32(Sub32(a, previous), last);
    assert A == SumA(data) % TWO_32;
    FullB(sb, n, previous, SumA(data));
    var B := Add32(Sub32(b, Mul32(U32(n), previous)), A);
    assert B == SumB(data) % TWO_32;
    assert CalculateChecksumUsingPreviousCompounds(data, previous, n, a, b) == Sums(Combine(A, B), A, B);
  }

  lemma ThreeBytes(x: uint8, y: uint8, z: uint8)
    ensures SumA([x, y, z]) == x + y + z
    ensures SumB([x, y, z]) == 3 * x + 2 * y + z
  {
    var s1, s2, s3 := [x], [x, y], [x, y, z];
    assert s1[..0] == [];
    assert s2[..1] == s1;
    assert s3[..2] == s2;
    assert SumA(s1) == x && Weighted(s1, 3) == 3 * x;
    assert SumA(s2) == x + y && Weighted(s2, 3) == 3 * x + 2 * y;
  }

  lemma TwoBytes(x: uint8, y: uint8)
    ensures SumA([x, y]) == x + y
    ensures SumB([x, y]) == 2 * x + y
  {
    var s1, s2 := [x], [x, y];
    assert s1[..0] == [];
    assert s2[..1] == s1;
    assert SumA(s1) == x && Weighted(s1, 2) == 2 * x;
  }

  /** The test vectors of rolling_checksum_test.go:11-16: "abc", "def", "ghi"
      and "jk". */
  lemma KnownChecksums()
    ensures Checksum([97, 98, 99]).checksum == 586 * 0x1_0000 + 294
    ensures Checksum([100, 101, 102]).checksum == 604 * 0x1_0000 + 303
    ensures Checksum([103, 104, 105]).checksum == 622 * 0x1_0000 + 312
    ensures Checksum([106, 107]).checksum == 319 * 0x1_0000 + 213
  {
    ThreeBytes(97, 98, 99);
    assert Combine(294, 586) == 586 * 0x1_0000 + 294;
    ThreeBytes(100, 101, 102);
    assert Combine(303, 604) == 604 * 0x1_0000 + 303;
    ThreeBytes(103, 104, 105);
    assert Combine(312, 622) == 622 * 0x1_0000 + 312;
    TwoBytes(106, 107);
    assert Combine(213, 319) == 319 * 0x1_0000 + 213;
  }

  /** The empty window has checksum 0 with both accumulators 0. */
  lemma EmptyChecksum()
    ensures Checksum([]) == Sums(0, 0, 0)
  {
    assert Combine(0, 0) == 0;
  }
}
