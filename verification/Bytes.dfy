/**
 Bytes, big-endian words (htonl, htonll and their inverses) and memcmp.
 */
module Bytes {

  type byte = x: int | 0 <= x < 256

  const TWO_TO_THE_32 := 0x1_0000_0000
  const TWO_TO_THE_64 := 0x1_0000_0000_0000_0000

  type u16 = x: int | 0 <= x < 0x1_0000
  type u32 = x: int | 0 <= x < TWO_TO_THE_32
  type i32 = x: int | -0x8000_0000 <= x < 0x8000_0000
  type i64 = x: int | -0x8000_0000_0000_0000 <= x < 0x8000_0000_0000_0000
  type u64 = x: int | 0 <= x < TWO_TO_THE_64

  const DIGEST_BYTES := 32

  /** A BLAKE2b hash, an Ed25519 or VRF public key: 32 bytes. */
  type Digest = s: seq<byte> | |s| == 32 witness BigEndian(32, 0)

  const ZERO_DIGEST: Digest := BigEndian(32, 0)

  /** 256 to the power n: how many values n bytes can hold. */
  function Capacity(n: nat): (c: nat)
    ensures c >= 1
  {
    if n == 0 then 1 else 256 * Capacity(n - 1)
  }

  /** The n low-order bytes of v, most significant byte first. */
  function BigEndian(n: nat, v: nat): (s: seq<byte>)
    ensures |s| == n
  {
    if n == 0 then [] else BigEndian(n - 1, v / 256) + [v % 256]
  }

  lemma {:induction false} BigEndianOfZero(n: nat)
    ensures forall i :: 0 <= i < n ==> BigEndian(n, 0)[i] == 0
  {
    if n > 0 {
      BigEndianOfZero(n - 1);
    }
  }

  /** The number whose big-endian representation is s. */
  function Value(s: seq<byte>): nat {
    if s == [] then 0 else 256 * Value(s[..|s| - 1]) + s[|s| - 1]
  }

  lemma {:induction false} ValueBound(s: seq<byte>)
    ensures Value(s) < Capacity(|s|)
  {
    if s != [] {
      ValueBound(s[..|s| - 1]);
    }
  }

  lemma {:induction false} ValueOfBigEndian(n: nat, v: nat)
    requires v < Capacity(n)
    ensures Value(BigEndian(n, v)) == v
  {
    if n > 0 {
      ValueOfBigEndian(n - 1, v / 256);
      var s := BigEndian(n, v);
      assert s[..n - 1] == BigEndian(n - 1, v / 256);
    }
  }

  lemma {:induction false} BigEndianOfValue(s: seq<byte>)
    ensures BigEndian(|s|, Value(s)) == s
  {
    if s != [] {
      BigEndianOfValue(s[..|s| - 1]);
      assert s == s[..|s| - 1] + [s[|s| - 1]];
    }
  }

  /** The sign of C's memcmp over two buffers of the same length. */
  function Memcmp(a: seq<byte>, b: seq<byte>): int
    requires |a| == |b|
  {
    if a == [] then 0
    else if a[0] != b[0] then a[0] - b[0]
    else Memcmp(a[1..], b[1..])
  }

  lemma {:induction false} ValueFromTheFront(s: seq<byte>)
    requires s != []
    ensures Value(s) == s[0] * Capacity(|s| - 1) + Value(s[1..])
  {
    if |s| > 1 {
      var n := |s| - 1;
      ValueFromTheFront(s[..n]);
      assert s[..n][1..] == s[1..][..n - 1];
      var c, d := Capacity(n - 1), s[0];
      assert 256 * (d * c) == d * (256 * c);
    }
  }

  lemma LeadingByteDecides(x: nat, y: nat, c: nat, u: nat, v: nat)
    requires x < y && u < c
    ensures x * c + u < y * c + v
  {
    assert (x + 1) * c <= y * c;
  }

  /** memcmp orders buffers of one length as the big-endian numbers they hold. */
  lemma {:induction false} MemcmpIsNumericOrder(a: seq<byte>, b: seq<byte>)
    requires |a| == |b|
    ensures Memcmp(a, b) < 0 <==> Value(a) < Value(b)
    ensures Memcmp(a, b) == 0 <==> a == b
    ensures a == b <==> Value(a) == Value(b)
  {
    if a == [] {
      return;
    }
    ValueFromTheFront(a);
    ValueFromTheFront(b);
    if a[0] == b[0] {
      MemcmpIsNumericOrder(a[1..], b[1..]);
      assert a == [a[0]] + a[1..] && b == [b[0]] + b[1..];
    } else {
      ValueBound(a[1..]);
      ValueBound(b[1..]);
      var c := Capacity(|a| - 1);
      if a[0] < b[0] {
        LeadingByteDecides(a[0], b[0], c, Value(a[1..]), Value(b[1..]));
      } else {
        LeadingByteDecides(b[0], a[0], c, Value(b[1..]), Value(a[1..]));
      }
    }
  }
}
