/** Addresses and networks as Go's net package reads them, and the flow hash (pkg/routes/route.go). */
module Networks {
  import opened Bits
  import opened Bytes
  import opened Results

  // ---- addresses ------------------------------------------------------------------------------

  /** net.IP as its bits, the most significant first: 32, 128, or any other number of them. */
  type Address = seq<bool>

  /** The first 96 bits of an IPv4 address in its IPv6 form. */
  function MappedPrefix(): Address {
    seq(96, i => i >= 80)
  }

  predicate IsMapped(a: Address) {
    |a| == 128 && a[..96] == MappedPrefix()
  }

  function To4(a: Address): (r: Option<Address>)
    ensures r.Some? ==> |r.value| == 32
  {
    if |a| == 32 then Some(a) else if IsMapped(a) then Some(a[96..]) else None
  }

  function To16(a: Address): (r: Option<Address>)
    ensures r.Some? ==> |r.value| == 128 && To4(r.value) == To4(a)
  {
    if |a| == 32 then
      assert (MappedPrefix() + a)[..96] == MappedPrefix();
      Some(MappedPrefix() + a)
    else if |a| == 128 then Some(a)
    else None
  }

  // ---- networks ---------------------------------------------------------------------------------

  /** What ParseCIDR yields: the bits under the mask; all others are zero. */
  datatype IPNet = IPNet(wide: bool, prefix: seq<bool>)

  predicate Parsed(n: IPNet) {
    |n.prefix| <= if n.wide then 128 else 32
  }

  /** Mask.Size */
  function Ones(n: IPNet): nat {
    |n.prefix|
  }

  /** An IPv4 network in its IPv6 form. */
  predicate MappedNet(n: IPNet) {
    n.wide && |n.prefix| >= 96 && n.prefix[..96] == MappedPrefix()
  }

  /** IPNet.Contains: an IPv4 network in its IPv6 form holds IPv4 addresses. */
  predicate Contains(n: IPNet, dest: Address) {
    match To4(dest)
    case Some(d) => if n.wide then MappedNet(n) && n.prefix[96..] <= d else n.prefix <= d
    case None => n.wide && !MappedNet(n) && |dest| == 128 && n.prefix <= dest
  }

  /** An IPv4 network holds the IPv4 addresses, in either form, that agree with it on the masked bits. */
  lemma V4ContainsExactly(n: IPNet, dest: Address)
    requires Parsed(n) && !n.wide
    ensures |dest| == 32 ==> (Contains(n, dest) <==> forall i :: 0 <= i < |n.prefix| ==> dest[i] == n.prefix[i])
    ensures IsMapped(dest) ==> (Contains(n, dest) <==> forall i :: 0 <= i < |n.prefix| ==> dest[96 + i] == n.prefix[i])
    ensures |dest| != 32 && !IsMapped(dest) ==> !Contains(n, dest)
  {
    if IsMapped(dest) {
      PrefixExactly(n.prefix, dest[96..]);
    } else if |dest| == 32 {
      PrefixExactly(n.prefix, dest);
    }
  }

  /** An IPv6 network holds the IPv6 addresses that agree with it on the masked bits, and no IPv4 address. */
  lemma V6ContainsExactly(n: IPNet, dest: Address)
    requires Parsed(n) && n.wide && !MappedNet(n)
    ensures Contains(n, dest) <==>
      |dest| == 128 && !IsMapped(dest) && forall i :: 0 <= i < |n.prefix| ==> dest[i] == n.prefix[i]
  {
    if |dest| == 128 {
      PrefixExactly(n.prefix, dest);
    }
  }

  lemma PrefixExactly<T>(p: seq<T>, s: seq<T>)
    requires |p| <= |s|
    ensures p <= s <==> forall i :: 0 <= i < |p| ==> s[i] == p[i]
  {}

  lemma PrefixesNest<T>(p: seq<T>, q: seq<T>, s: seq<T>)
    requires p <= s && q <= s && |p| <= |q|
    ensures p <= q
  {
    assert p == s[..|p|] && q == s[..|q|];
  }

  /** Of the networks that hold an address, no two have the same mask length. */
  lemma SameLengthSameNetwork(m: IPNet, n: IPNet, dest: Address)
    requires Contains(m, dest) && Contains(n, dest) && Ones(m) == Ones(n)
    ensures m == n
  {
    match To4(dest)
    case Some(d) =>
      if m.wide {
        PrefixesNest(m.prefix[96..], n.prefix[96..], d);
        assert m.prefix == m.prefix[..96] + m.prefix[96..] && n.prefix == n.prefix[..96] + n.prefix[96..];
      } else {
        PrefixesNest(m.prefix, n.prefix, d);
      }
    case None =>
      PrefixesNest(m.prefix, n.prefix, dest);
  }

  ghost predicate Covers(m: IPNet, n: IPNet) {
    forall x :: Contains(n, x) ==> Contains(m, x)
  }

  /**
   The longer mask is the more specific network, but for one case: a mask counted on the IPv6 form is
   longer than any IPv4 mask, so it is the more specific exactly when that holds of its IPv4 part.
   */
  lemma LongerIsNarrowerExactly(m: IPNet, n: IPNet, dest: Address)
    requires Contains(m, dest) && Contains(n, dest) && Ones(m) <= Ones(n)
    ensures Covers(m, n) <==> (MappedNet(n) && !m.wide ==> Ones(m) <= Ones(n) - 96)
  {
    if MappedNet(n) && !m.wide && Ones(m) > Ones(n) - 96 {
      var d, k := To4(dest).value, Ones(n) - 96;
      var x: Address := d[k := !d[k]];
      assert n.prefix[96..] <= x;
      assert m.prefix[k] == d[k] != x[k];
      assert Contains(n, x) && !Contains(m, x);
    } else {
      forall x | Contains(n, x)
        ensures Contains(m, x)
      {
        Narrower(m, n, dest, x);
      }
    }
  }

  lemma Narrower(m: IPNet, n: IPNet, dest: Address, x: Address)
    requires Contains(m, dest) && Contains(n, dest) && Ones(m) <= Ones(n) && Contains(n, x)
    requires MappedNet(n) && !m.wide ==> Ones(m) <= Ones(n) - 96
    ensures Contains(m, x)
  {
    match To4(dest)
    case Some(d) =>
      var p := if m.wide then m.prefix[96..] else m.prefix;
      var q := if n.wide then n.prefix[96..] else n.prefix;
      PrefixesNest(p, q, d);
    case None =>
      PrefixesNest(m.prefix, n.prefix, dest);
  }

  // ---- the flow hash ---------------------------------------------------------------------------------

  const MIN_INT64: int := -0x8000_0000_0000_0000

  /** Go's int, 64 bits. */
  function Wrap(x: int): (r: int)
    ensures MIN_INT64 <= r < -MIN_INT64
  {
    (x - MIN_INT64) % 0x1_0000_0000_0000_0000 + MIN_INT64
  }

  /** The number whose bits these are, the most significant first. */
  function ValueOf(bits: seq<bool>): nat {
    if bits == [] then 0 else 2 * ValueOf(bits[..|bits| - 1]) + if bits[|bits| - 1] then 1 else 0
  }

  function BitsOf(v: nat, n: nat): (bits: seq<bool>)
    ensures |bits| == n
  {
    if n == 0 then [] else BitsOf(v / 2, n - 1) + [v % 2 == 1]
  }

  lemma {:induction false} ValueOfBits(v: nat, n: nat)
    requires v < Pow2(n)
    ensures ValueOf(BitsOf(v, n)) == v
  {
    if n > 0 {
      ValueOfBits(v / 2, n - 1);
      assert BitsOf(v, n)[..n - 1] == BitsOf(v / 2, n - 1);
    }
  }

  lemma {:induction false} ValueInRange(bits: seq<bool>)
    ensures ValueOf(bits) < Pow2(|bits|)
  {
    if bits != [] {
      ValueInRange(bits[..|bits| - 1]);
    }
  }

  function ByteOf(bits: seq<bool>): (b: byte)
    requires |bits| == 8
    ensures b == ValueOf(bits)
  {
    ValueInRange(bits);
    Pow2Values();
    ValueOf(bits)
  }

  function BytesOf(a: Address): seq<byte> {
    if |a| < 8 then [] else [ByteOf(a[..8])] + BytesOf(a[8..])
  }

  /** The hash of the first n bytes. */
  function HashOf(bs: seq<byte>, n: nat): int
    requires n <= |bs|
  {
    if n == 0 then 0 else Wrap(HashOf(bs, n - 1) * 31 + bs[n - 1])
  }

  /** The bytes hashed are those of the IPv6 form, when there is one. */
  function FlowBytes(dest: Address): seq<byte> {
    BytesOf(if To16(dest).Some? then To16(dest).value else dest)
  }

  function FlowHash(dest: Address): int {
    HashOf(FlowBytes(dest), |FlowBytes(dest)|)
  }

  lemma FlowHashInRange(dest: Address)
    ensures MIN_INT64 <= FlowHash(dest) < -MIN_INT64
  {}

  method HashFlow(dest: Address) returns (hash: int)
    ensures hash == FlowHash(dest)
  {
    var ipBytes := FlowBytes(dest);
    hash := 0;
    for i := 0 to |ipBytes|
      invariant hash == HashOf(ipBytes, i)
    {
      hash := Wrap(hash * 31 + ipBytes[i]);
    }
  }

  /** Go's %, which truncates. */
  function Remainder(x: int, n: nat): int
    requires n > 0
  {
    if x >= 0 then x % n else -(-x % n)
  }

  /** The index ECMP takes among n gateways. */
  function EcmpIndex(hash: int, n: nat): int
    requires n > 0
  {
    Remainder(if hash < 0 then Wrap(-hash) else hash, n)
  }

  /** The index is one of the gateways' exactly when the hash has a negative or the division leaves nothing. */
  lemma IndexInRangeExactly(hash: int, n: nat)
    requires MIN_INT64 <= hash < -MIN_INT64 && n > 0
    ensures 0 <= EcmpIndex(hash, n) < n <==> hash != MIN_INT64 || -MIN_INT64 % n == 0
    ensures EcmpIndex(hash, n) ==
            if hash >= 0 then hash % n else if hash == MIN_INT64 then -(0x8000_0000_0000_0000 % n) else -hash % n
  {}

  // ---- an address whose index is out of range --------------------------------------------------------

  function FromBytes(bs: seq<byte>): Address {
    if bs == [] then [] else BitsOf(bs[0], 8) + FromBytes(bs[1..])
  }

  lemma {:induction false} BytesOfFromBytes(bs: seq<byte>)
    ensures BytesOf(FromBytes(bs)) == bs && |FromBytes(bs)| == 8 * |bs|
  {
    if bs != [] {
      var first, rest := BitsOf(bs[0], 8), FromBytes(bs[1..]);
      Pow2Values();
      ValueOfBits(bs[0], 8);
      BytesOfFromBytes(bs[1..]);
      assert (first + rest)[..8] == first && (first + rest)[8..] == rest;
    }
  }

  /** An IPv4 address is hashed in its 16-byte form, an IPv6 address as it is. */
  lemma FlowBytesMean(bs: seq<byte>)
    ensures |bs| == 4 ==> FlowBytes(FromBytes(bs)) == [0, 0, 0, 0, 0, 0, 0, 0, 0, 0, 0xFF, 0xFF] + bs
    ensures |bs| == 16 ==> FlowBytes(FromBytes(bs)) == bs
  {
    BytesOfFromBytes(bs);
    if |bs| == 4 {
      var mapped: seq<byte> := [0, 0, 0, 0, 0, 0, 0, 0, 0, 0, 0xFF, 0xFF];
      MappedPrefixBytes(mapped);
      FromBytesJoins(mapped, bs);
      BytesOfFromBytes(mapped + bs);
    }
  }

  lemma {:induction false} FromBytesJoins(a: seq<byte>, b: seq<byte>)
    ensures FromBytes(a + b) == FromBytes(a) + FromBytes(b)
  {
    if a == [] {
      assert a + b == b;
    } else {
      assert (a + b)[1..] == a[1..] + b;
      FromBytesJoins(a[1..], b);
    }
  }

  lemma ByteOfZeros()
    ensures BitsOf(0, 8) == [false, false, false, false, false, false, false, false]
    ensures BitsOf(0xFF, 8) == [true, true, true, true, true, true, true, true]
  {
    assert BitsOf(0, 4) == [false, false, false, false];
    assert BitsOf(0xF, 4) == [true, true, true, true];
  }

  lemma {:induction false} ZeroBytes(n: nat)
    ensures FromBytes(seq(n, _ => 0)) == seq(8 * n, _ => false)
  {
    if n > 0 {
      ByteOfZeros();
      ZeroBytes(n - 1);
      assert seq(n, _ => 0)[1..] == seq<byte>(n - 1, _ => 0);
    }
  }

  lemma MappedPrefixBytes(mapped: seq<byte>)
    requires mapped == [0, 0, 0, 0, 0, 0, 0, 0, 0, 0, 0xFF, 0xFF]
    ensures FromBytes(mapped) == MappedPrefix()
  {
    var zeros: seq<byte> := seq(10, _ => 0);
    assert mapped == zeros + [0xFF, 0xFF];
    FromBytesJoins(zeros, [0xFF, 0xFF]);
    ZeroBytes(10);
    ByteOfZeros();
    assert FromBytes([0xFF]) == BitsOf(0xFF, 8) + FromBytes([]);
    FromBytesJoins([0xFF], [0xFF]);
  }

  lemma HashNext(bs: seq<byte>, n: nat, h: int)
    requires n < |bs| && HashOf(bs, n) == h
    ensures HashOf(bs, n + 1) == Wrap(h * 31 + bs[n])
  {}

  /** The bytes of 0:b:1600:312:905:1112:a04:308: after three zeros, 2^63 in base 31. */
  predicate Wrapping(bs: seq<byte>) {
    && |bs| == 16 && bs[0] == bs[1] == bs[2] == bs[5] == 0
    && bs[3] == 11 && bs[4] == 22 && bs[6] == 3 && bs[7] == 18 && bs[8] == 9 && bs[9] == 5
    && bs[10] == 17 && bs[11] == 18 && bs[12] == 10 && bs[13] == 4 && bs[14] == 3 && bs[15] == 8
  }

  /** Its hash is the one without a negative: among three gateways the index is -2. */
  lemma WrappingAddressLeavesRange(bs: seq<byte>)
    requires Wrapping(bs)
    ensures FlowHash(FromBytes(bs)) == MIN_INT64
    ensures EcmpIndex(FlowHash(FromBytes(bs)), 3) == -2
  {
    BytesOfFromBytes(bs);
    assert To16(FromBytes(bs)) == Some(FromBytes(bs));
    WrappingHash(bs);
  }

  lemma WrappingHash(bs: seq<byte>)
    requires Wrapping(bs)
    ensures HashOf(bs, 16) == MIN_INT64
  {
    HashNext(bs, 0, 0);
    HashNext(bs, 1, 0);
    HashNext(bs, 2, 0);
    HashNext(bs, 3, 0);
    HashNext(bs, 4, 11);
    HashNext(bs, 5, 363);
    HashNext(bs, 6, 11253);
    HashNext(bs, 7, 348846);
    HashNext(bs, 8, 10814244);
    HashNext(bs, 9, 335241573);
    HashNext(bs, 10, 10392488768);
    HashNext(bs, 11, 322167151825);
    HashNext(bs, 12, 9987181706593);
    HashNext(bs, 13, 309602632904393);
    HashNext(bs, 14, 9597681620036187);
    HashNext(bs, 15, 297528130221121800);
  }
}
