/**
 Bytes, byte strings, and the integer encodings the wire formats use. A `byte`
 is an eight-bit vector so that masks, shifts and exclusive-or read as they do
 in the program; lengths are mathematical integers with the 64-bit width
 written out.
 */
module Bytes {
  import opened Wrappers

  type byte = bv8
  type bytes = seq<byte>

  const TWO_63 := 0x8000_0000_0000_0000
  const TWO_64 := 0x1_0000_0000_0000_0000

  /** The byte with value `k`, reached by counting so that no integer is converted. */
  function ByteWith(k: nat): (b: byte)
    requires k < 256
    ensures b as int == k
  {
    if k == 0 then 0 else assert ByteWith(k - 1) < 255; ByteWith(k - 1) + 1
  }

  /** The value of an unsigned byte that received `n`. */
  function ByteOf(n: int): (b: byte)
    ensures b as int == n % 256
  {
    ByteWith(n % 256)
  }

  lemma SameByte(a: byte, b: byte)
    requires a as int == b as int
    ensures a == b
  {
  }

  lemma ByteRange(b: byte)
    ensures 0 <= b as int < 256
  {
  }

  lemma SmallMod(n: nat)
    requires n < 256
    ensures n % 256 == n
  {
  }

  lemma ByteBack(b: byte)
    ensures ByteOf(b as int) == b
  {
    ByteRange(b);
    SmallMod(b as int);
    SameByte(ByteOf(b as int), b);
  }

  /** The next `n` bytes of `s` and what follows them, if there are that many. */
  function TakeCount(s: bytes, n: nat): (r: Option<(bytes, bytes)>)
    ensures r.Some? <==> n <= |s|
    ensures r.Some? ==> |r.value.0| == n && s == r.value.0 + r.value.1
  {
    if n <= |s| then Some((s[..n], s[n..])) else None
  }

  lemma TakeAppend(a: bytes, b: bytes)
    ensures TakeCount(a + b, |a|) == Some((a, b))
  {
    assert (a + b)[..|a|] == a && (a + b)[|a|..] == b;
  }

  lemma TakeNone(s: bytes)
    ensures TakeCount(s, 0) == Some(([], s))
  {
  }

  /** Concatenates a list of byte strings. */
  function Flatten(chunks: seq<bytes>): bytes {
    if chunks == [] then [] else chunks[0] + Flatten(chunks[1..])
  }

  lemma {:induction false} FlattenAppend(a: seq<bytes>, b: seq<bytes>)
    ensures Flatten(a + b) == Flatten(a) + Flatten(b)
  {
    if a == [] {
      assert a + b == b;
    } else {
      assert (a + b)[1..] == a[1..] + b;
      FlattenAppend(a[1..], b);
    }
  }

  // ---------- Big-endian integers ----------

  function Pow256(k: nat): (p: nat)
    ensures p > 0
  {
    if k == 0 then 1 else 256 * Pow256(k - 1)
  }

  function BigEndian(n: int, width: nat): (bs: bytes)
    ensures |bs| == width
    decreases width
  {
    if width == 0 then [] else BigEndian(n / 256, width - 1) + [ByteOf(n)]
  }

  function FromBigEndian(bs: bytes): (n: nat) {
    if bs == [] then 0 else FromBigEndian(bs[..|bs| - 1]) * 256 + bs[|bs| - 1] as nat
  }

  lemma {:induction false} BigEndianRoundTrip(n: nat, width: nat)
    requires n < Pow256(width)
    ensures FromBigEndian(BigEndian(n, width)) == n
  {
    if width > 0 {
      BigEndianRoundTrip(n / 256, width - 1);
      var bs := BigEndian(n, width);
      assert bs[..|bs| - 1] == BigEndian(n / 256, width - 1);
      assert bs[|bs| - 1] == ByteOf(n);
    }
  }

  lemma DivModByte(a: nat, d: nat, n: nat)
    requires d < 256 && n == a * 256 + d
    ensures n / 256 == a && n % 256 == d
  {
  }

  lemma LastDigit(a: nat, b: byte, n: nat)
    requires n == a * 256 + b as int
    ensures n / 256 == a && ByteOf(n) == b
  {
    ByteRange(b);
    DivModByte(a, b as int, n);
    SameByte(ByteOf(n), b);
  }

  lemma DigitAppended(a: nat, b: byte, n: nat, width: nat)
    requires n == a * 256 + b as int
    ensures BigEndian(n, width + 1) == BigEndian(a, width) + [b]
  {
    LastDigit(a, b, n);
  }

  /** The digits of the number that some bytes encode are the bytes. */
  lemma {:induction false} DigitsBack(bs: bytes)
    ensures BigEndian(FromBigEndian(bs), |bs|) == bs
  {
    if bs != [] {
      var front, last := bs[..|bs| - 1], bs[|bs| - 1];
      DigitsBack(front);
      DigitAppended(FromBigEndian(front), last, FromBigEndian(bs), |front|);
      assert bs == front + [last];
    }
  }

  lemma {:induction false} FromBigEndianBound(bs: bytes)
    ensures FromBigEndian(bs) < Pow256(|bs|)
  {
    if bs != [] {
      FromBigEndianBound(bs[..|bs| - 1]);
    }
  }

  lemma Pow256Eight()
    ensures Pow256(2) == 0x1_0000
    ensures Pow256(8) == TWO_64
  {
    assert Pow256(4) == 0x1_0000_0000;
    assert Pow256(6) == 0x1_0000_0000_0000;
  }

  // ---------- Two's-complement 64-bit integers ----------

  /** The value of an `int64_t` that received `n`. */
  function ToInt64(n: int): (r: int)
    ensures -TWO_63 <= r < TWO_63
    ensures r % TWO_64 == n % TWO_64
  {
    if n % TWO_64 < TWO_63 then n % TWO_64 else n % TWO_64 - TWO_64
  }

  lemma Int64Periodic(n: int, k: int)
    ensures ToInt64(n - TWO_64 * k) == ToInt64(n)
  {
    var q, r := n / TWO_64, n % TWO_64;
    assert n - TWO_64 * k == TWO_64 * (q - k) + r;
    assert (TWO_64 * (q - k) + r) % TWO_64 == r;
  }

  /** An `int64_t` shifted left by eight bits with a byte added, as C++20 defines the shift. */
  function Int64Append(n: int, b: byte): int {
    ToInt64(n * 256 + b as int)
  }

  /** Accumulating a big-endian number digit by digit in an `int64_t`. */
  lemma AccumulateDigit(bs: bytes, i: nat)
    requires i < |bs|
    ensures Int64Append(ToInt64(FromBigEndian(bs[..i])), bs[i]) == ToInt64(FromBigEndian(bs[..i + 1]))
  {
    var a := FromBigEndian(bs[..i]);
    assert bs[..i + 1][..i] == bs[..i];
    var k := (a - ToInt64(a)) / TWO_64;
    assert ToInt64(a) == a - TWO_64 * k;
    Int64Periodic(a * 256 + bs[i] as int, 256 * k);
  }

  /** Read back as a `size_t`, the accumulated `int64_t` is the number itself. */
  lemma AccumulatedIsValue(bs: bytes)
    requires |bs| == 8
    ensures ToSize(ToInt64(FromBigEndian(bs))) == FromBigEndian(bs)
  {
    FromBigEndianBound(bs);
    Pow256Eight();
  }

  lemma FromBigEndianTwo(bs: bytes)
    requires |bs| == 2
    ensures FromBigEndian(bs) == bs[0] as int * 256 + bs[1] as int
  {
    assert bs[..1][..0] == [];
    assert FromBigEndian(bs[..1]) == bs[0] as int;
  }

  lemma FromBigEndianStep(bs: bytes, i: nat)
    requires i < |bs|
    ensures FromBigEndian(bs[..i + 1]) == FromBigEndian(bs[..i]) * 256 + bs[i] as int
  {
    assert bs[..i + 1][..i] == bs[..i];
  }

  lemma EightSteps(v: seq<int>, b: seq<int>)
    requires |v| == 9 && |b| == 8 && v[0] == 0 && forall i :: 0 <= i < 8 ==> v[i + 1] == v[i] * 256 + b[i]
    ensures v[8] == (b[0] * 0x100_0000 + b[1] * 0x1_0000 + b[2] * 0x100 + b[3]) * 0x1_0000_0000 +
                    b[4] * 0x100_0000 + b[5] * 0x1_0000 + b[6] * 0x100 + b[7]
  {
    assert v[1] == b[0];
    assert v[2] == v[1] * 256 + b[1];
    assert v[3] == v[2] * 256 + b[2];
    assert v[4] == v[3] * 256 + b[3];
  }

  /** The number that two bytes of `s` from index `i` on make, the more significant first. */
  function TwoBytes(s: bytes, i: nat): int
    requires i + 2 <= |s|
  {
    s[i] as int * 0x100 + s[i + 1] as int
  }

  /** The number that eight bytes of `s` from index `i` on make, the most significant first. */
  function EightBytes(s: bytes, i: nat): int
    requires i + 8 <= |s|
  {
    (s[i] as int * 0x100_0000 + s[i + 1] as int * 0x1_0000 + s[i + 2] as int * 0x100 + s[i + 3] as int)
      * 0x1_0000_0000
    + s[i + 4] as int * 0x100_0000 + s[i + 5] as int * 0x1_0000 + s[i + 6] as int * 0x100 + s[i + 7] as int
  }

  lemma FromBigEndianEight(bs: bytes)
    requires |bs| == 8
    ensures FromBigEndian(bs) == EightBytes(bs, 0)
  {
    var v := seq(9, i requires 0 <= i <= 8 => FromBigEndian(bs[..i]));
    var b := seq(8, i requires 0 <= i < 8 => bs[i] as int);
    forall i | 0 <= i < 8
      ensures v[i + 1] == v[i] * 256 + b[i]
    {
      FromBigEndianStep(bs, i);
    }
    assert bs[..8] == bs;
    EightSteps(v, b);
  }

  lemma SameEight(s: bytes, i: nat, bs: bytes)
    requires i + 8 <= |s| && bs == s[i..i + 8]
    ensures EightBytes(s, i) == EightBytes(bs, 0)
  {
    assert forall k :: 0 <= k < 8 ==> bs[k] == s[i + k];
  }

  /** An arithmetic right shift by `i` whole bytes. */
  function ShiftRight(n: int, i: nat): int
    decreases i
  {
    if i == 0 then n else ShiftRight(n / 256, i - 1)
  }

  lemma {:induction false} ShiftOnce(n: int, i: nat)
    ensures ShiftRight(n, i + 1) == ShiftRight(n, i) / 256
    decreases i
  {
    if i > 0 {
      ShiftOnce(n / 256, i - 1);
    }
  }

  lemma DivModShift(n: int, p: int)
    ensures (n - 256 * p) / 256 == n / 256 - p && (n - 256 * p) % 256 == n % 256
  {
  }

  lemma {:induction false} ShiftDropsHighPart(n: int, i: nat, k: nat)
    requires i <= k
    ensures ShiftRight(n - 256 * Pow256(k), i) % 256 == ShiftRight(n, i) % 256
    decreases i
  {
    DivModShift(n, Pow256(k));
    if i > 0 {
      ShiftDropsHighPart(n / 256, i - 1, k - 1);
    }
  }

  /** The sign an `int64_t` gives a long size does not show in the bytes shifted out of it. */
  lemma ShiftedDigit(size: nat, i: nat)
    requires size < TWO_64 && i < 8
    ensures ByteOf(ShiftRight(ToInt64(size), i)) == ByteOf(ShiftRight(size, i))
  {
    assert TWO_64 == 256 * Pow256(7) by {
      Pow256Eight();
    }
    ShiftDropsHighPart(size, i, 7);
    assert ToInt64(size) == size || ToInt64(size) == size - TWO_64;
  }

  /** The value of a `size_t` that received `n`. */
  function ToSize(n: int): (r: nat)
    ensures r < TWO_64
    ensures 0 <= n < TWO_64 ==> r == n
  {
    n % TWO_64
  }
}
