/** Bytes, big- and little-endian integers, and writing into byte buffers. */
module Bytes {
  import opened Bits

  type byte = b: nat | b < 0x100
  type uint16 = x: nat | x < 0x1_0000
  type uint32 = x: nat | x < 0x1_0000_0000
  type uint64 = x: nat | x < 0x1_0000_0000_0000_0000

  /** A uint64's ++, as every epoch counts. */
  function NextEpoch(e: uint64): (r: uint64)
    ensures r == e + 1 || (r == 0 && e == 0xFFFF_FFFF_FFFF_FFFF)
  {
    (e + 1) % 0x1_0000_0000_0000_0000
  }

  /** The n low-order bytes of v, most significant first. */
  function BigEndian(v: nat, n: nat): (bs: seq<byte>)
    ensures |bs| == n
  {
    if n == 0 then [] else BigEndian(v / 0x100, n - 1) + [v % 0x100]
  }

  /** The number whose bytes, most significant first, are bs. */
  function FromBigEndian(bs: seq<byte>): nat {
    if |bs| == 0 then 0 else 0x100 * FromBigEndian(bs[..|bs| - 1]) + bs[|bs| - 1]
  }

  function Reversed(bs: seq<byte>): (r: seq<byte>)
    ensures |r| == |bs|
    ensures forall i :: 0 <= i < |bs| ==> r[i] == bs[|bs| - 1 - i]
  {
    seq(|bs|, i requires 0 <= i < |bs| => bs[|bs| - 1 - i])
  }

  function LittleEndian(v: nat, n: nat): (bs: seq<byte>)
    ensures |bs| == n
  {
    Reversed(BigEndian(v, n))
  }

  /** The bytes of an ASCII text. */
  function AsciiBytes(s: string): (bs: seq<byte>)
    ensures |bs| == |s| && forall i :: 0 <= i < |s| && s[i] <= '\U{7F}' ==> bs[i] == s[i] as nat
  {
    seq(|s|, i requires 0 <= i < |s| => (s[i] as int) % 0x100)
  }

  function Pow256(n: nat): (p: nat)
    ensures p > 0
  {
    if n == 0 then 1 else 0x100 * Pow256(n - 1)
  }

  lemma Pow256Values()
    ensures Pow256(1) == 0x100 && Pow256(2) == 0x1_0000 && Pow256(3) == 0x100_0000
    ensures Pow256(4) == 0x1_0000_0000 && Pow256(8) == 0x1_0000_0000_0000_0000
  {
    assert Pow256(4) == 0x100 * Pow256(3);
    assert Pow256(6) == 0x1_0000 * Pow256(4);
    assert Pow256(8) == 0x1_0000 * Pow256(6);
  }

  /** Reading back what was written gives the number, reduced to what n bytes can hold. */
  lemma {:induction false} BigEndianRoundTrip(v: nat, n: nat)
    ensures FromBigEndian(BigEndian(v, n)) == v % Pow256(n)
  {
    if n > 0 {
      var bs := BigEndian(v, n);
      assert bs[..n - 1] == BigEndian(v / 0x100, n - 1);
      BigEndianRoundTrip(v / 0x100, n - 1);
      SplitRemainder(v, Pow256(n - 1));
    }
  }

  lemma SplitRemainder(v: nat, m: nat)
    requires m > 0
    ensures v % (0x100 * m) == 0x100 * ((v / 0x100) % m) + v % 0x100
  {
    var h := v / 0x100;
    var q, r := h / m, h % m;
    var p := q * m;
    assert h == p + r;
    assert q * (0x100 * m) == 0x100 * p;
    RemainderUnique(v, 0x100 * m, q, 0x100 * r + v % 0x100);
  }

  /** Writing back what was read gives the bytes. */
  lemma {:induction false} FromBigEndianRoundTrip(bs: seq<byte>)
    ensures FromBigEndian(bs) < Pow256(|bs|)
    ensures BigEndian(FromBigEndian(bs), |bs|) == bs
  {
    if |bs| > 0 {
      FromBigEndianRoundTrip(bs[..|bs| - 1]);
      assert bs == bs[..|bs| - 1] + [bs[|bs| - 1]];
    }
  }

  /** Network byte order, written out. */
  lemma BigEndianBytes(v: nat)
    ensures BigEndian(v, 2) == [v / 0x100 % 0x100, v % 0x100]
    ensures BigEndian(v, 4) == [v / 0x100 / 0x100 / 0x100 % 0x100, v / 0x100 / 0x100 % 0x100, v / 0x100 % 0x100, v % 0x100]
  {
    var v1 := v / 0x100;
    var v2 := v1 / 0x100;
    assert BigEndian(v2, 2) == BigEndian(v2 / 0x100, 1) + [v2 % 0x100];
    assert BigEndian(v1, 3) == BigEndian(v2, 2) + [v1 % 0x100];
  }

  lemma BigEndian16(v: uint16)
    ensures FromBigEndian(BigEndian(v, 2)) == v
  {
    Pow256Values();
    BigEndianRoundTrip(v, 2);
  }

  lemma BigEndian32(v: uint32)
    ensures FromBigEndian(BigEndian(v, 4)) == v
  {
    Pow256Values();
    BigEndianRoundTrip(v, 4);
  }

  lemma BigEndian64(v: uint64)
    ensures FromBigEndian(BigEndian(v, 8)) == v
  {
    Pow256Values();
    BigEndianRoundTrip(v, 8);
  }

  function ReadUint16(bs: seq<byte>, at: nat): uint16
    requires at + 2 <= |bs|
  {
    Pow256Values();
    FromBigEndianRoundTrip(bs[at..at + 2]);
    FromBigEndian(bs[at..at + 2])
  }

  function ReadUint32(bs: seq<byte>, at: nat): uint32
    requires at + 4 <= |bs|
  {
    Pow256Values();
    FromBigEndianRoundTrip(bs[at..at + 4]);
    FromBigEndian(bs[at..at + 4])
  }

  function ReadUint64(bs: seq<byte>, at: nat): uint64
    requires at + 8 <= |bs|
  {
    Pow256Values();
    FromBigEndianRoundTrip(bs[at..at + 8]);
    FromBigEndian(bs[at..at + 8])
  }

  method PutByte(buf: array<byte>, at: nat, b: byte)
    requires at < buf.Length
    modifies buf
    ensures buf[..at + 1] == old(buf[..at]) + [b]
    ensures buf[at + 1..] == old(buf[at + 1..])
  {
    buf[at] := b;
  }

  /** copy(buf[at:], src) of the source: buf below `at` and above the copied bytes stays. */
  method CopyInto(buf: array<byte>, at: nat, src: seq<byte>)
    requires at + |src| <= buf.Length
    modifies buf
    ensures buf[..at + |src|] == old(buf[..at]) + src
    ensures buf[at + |src|..] == old(buf[at + |src|..])
  {
    forall i | 0 <= i < |src| {
      buf[at + i] := src[i];
    }
  }

  lemma Slices<T>(a: seq<T>, b: seq<T>, c: seq<T>)
    ensures (a + b + c)[..|a|] == a
    ensures (a + b + c)[|a|..|a| + |b|] == b
    ensures (a + b + c)[|a| + |b|..] == c
  {}
}
