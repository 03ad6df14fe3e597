/** IPv4 header rewriting and the one's-complement checksum (pkg/ebpf/router.go; RFC 1071 section 1). */
module Checksum {
  import opened Bits
  import opened Bytes
  import opened Results

  const PROTO_UDP: byte := 17

  datatype RewriteError = PacketTooShort

  // ---- the checksum as arithmetic -----------------------------------------------------------

  /** The sum of the 16-bit words; an odd last byte counts as the high byte of a word. */
  function WordSum(data: seq<byte>): nat {
    if |data| == 0 then 0
    else if |data| == 1 then 0x100 * ByteValue(data[0])
    else 0x100 * ByteValue(data[0]) + ByteValue(data[1]) + WordSum(data[2..])
  }

  function ByteValue(b: byte): nat {
    b
  }

  /** One's-complement sum of words whose plain sum is n: 65535 counts as zero, but only zero gives zero. */
  function OnesSum(n: nat): (r: nat)
    ensures r <= 0xFFFF
  {
    if n == 0 then 0 else (n - 1) % 0xFFFF + 1
  }

  /** What CalculateChecksum computes, uint32 wrap-around included. */
  function ChecksumOf(data: seq<byte>): uint16 {
    0xFFFF - OnesSum(WordSum(data) % 0x1_0000_0000)
  }

  lemma {:induction false} WordSumBound(data: seq<byte>)
    ensures WordSum(data) <= 0xFFFF * ((|data| + 1) / 2)
  {
    if |data| >= 2 {
      WordSumBound(data[2..]);
      assert (|data| + 1) / 2 == (|data[2..]| + 1) / 2 + 1;
    }
  }

  lemma {:induction false} WordSumOfConcat(x: seq<byte>, y: seq<byte>)
    requires |x| % 2 == 0
    ensures WordSum(x + y) == WordSum(x) + WordSum(y)
  {
    if |x| == 0 {
      assert x + y == y;
    } else {
      assert (x + y)[2..] == x[2..] + y;
      WordSumOfConcat(x[2..], y);
    }
  }

  // ---- folding -------------------------------------------------------------------------------------

  /** Adding the carries back in keeps the one's-complement sum: 65536 and 1 are congruent. */
  lemma FoldKeepsSum(n: nat)
    ensures OnesSum(n % 0x1_0000 + n / 0x1_0000) == OnesSum(n)
    ensures n >= 0x1_0000 ==> n % 0x1_0000 + n / 0x1_0000 < n
  {
    var hi, lo := n / 0x1_0000, n % 0x1_0000;
    if n >= 0x1_0000 {
      RemainderPlusMultiple(hi + lo - 1, hi);
      assert n - 1 == hi + lo - 1 + 0xFFFF * hi;
    }
  }

  lemma RemainderPlusMultiple(x: nat, k: nat)
    ensures (x + 0xFFFF * k) % 0xFFFF == x % 0xFFFF
  {
    RemainderUnique(x + 0xFFFF * k, 0xFFFF, x / 0xFFFF + k, x % 0xFFFF);
  }

  lemma SmallSumIsItself(n: nat)
    requires n <= 0xFFFF
    ensures OnesSum(n) == n
  {}

  /** The sum completed by its own checksum folds to all ones. */
  lemma ChecksumCompletes(n: nat)
    ensures OnesSum(n + (0xFFFF - OnesSum(n))) == 0xFFFF
  {
    if n > 0 {
      var k := (n - 1) / 0xFFFF;
      assert n - 1 == 0xFFFF * k + (OnesSum(n) - 1);
      RemainderPlusMultiple(0xFFFE, k);
      assert n + (0xFFFF - OnesSum(n)) - 1 == 0xFFFE + 0xFFFF * k;
    }
  }

  // ---- CalculateChecksum ------------------------------------------------------------------------------

  method CalculateChecksum(data: seq<byte>) returns (csum: uint16)
    ensures csum == ChecksumOf(data)
  {
    var sum := SumWords(data);
    sum := FoldCarries(sum);
    csum := 0xFFFF - sum;
  }

  /** The first loop and the odd last byte. */
  method SumWords(data: seq<byte>) returns (sum: uint32)
    ensures sum == WordSum(data) % 0x1_0000_0000
  {
    sum := 0;
    ghost var total: nat := 0;  // the sum without wrap-around
    var n := |data|;
    var i := 0;
    while i < n - 1
      invariant 0 <= i <= n && i % 2 == 0
      invariant total + WordSum(data[i..]) == WordSum(data) && sum == total % 0x1_0000_0000
    {
      var word := 0x100 * ByteValue(data[i]) + ByteValue(data[i + 1]);
      FirstWord(data, i);
      WrapAdds(total, word);
      total := total + word;
      sum := (sum + word) % 0x1_0000_0000;
      i := i + 2;
    }
    if n % 2 == 1 {
      LastByte(data, i);
      WrapAdds(total, 0x100 * ByteValue(data[n - 1]));
      sum := (sum + 0x100 * ByteValue(data[n - 1])) % 0x1_0000_0000;
    } else {
      assert data[i..] == [];
    }
  }

  lemma FirstWord(data: seq<byte>, i: nat)
    requires i + 1 < |data|
    ensures WordSum(data[i..]) == 0x100 * ByteValue(data[i]) + ByteValue(data[i + 1]) + WordSum(data[i + 2..])
  {
    assert data[i..][2..] == data[i + 2..];
  }

  lemma LastByte(data: seq<byte>, i: nat)
    requires i + 1 == |data|
    ensures WordSum(data[i..]) == 0x100 * ByteValue(data[i])
  {}

  lemma WrapAdds(a: nat, b: nat)
    ensures (a % 0x1_0000_0000 + b) % 0x1_0000_0000 == (a + b) % 0x1_0000_0000
  {}

  /** The second loop: carries are added back until none is left. */
  method FoldCarries(total: uint32) returns (sum: uint16)
    ensures sum == OnesSum(total)
  {
    var acc: uint32 := total;
    while acc / 0x1_0000 > 0
      invariant OnesSum(acc) == OnesSum(total)
      decreases acc
    {
      FoldKeepsSum(acc);
      acc := acc % 0x1_0000 + acc / 0x1_0000;
    }
    SmallSumIsItself(acc);
    sum := acc;
  }

  // ---- a block that carries its own checksum ------------------------------------------------------------

  /** Filling a zero word on an even offset with the checksum makes a short block sum to zero. */
  lemma FilledBlockVerifies(x: seq<byte>, y: seq<byte>)
    requires |x| % 2 == 0 && |x| + 2 + |y| <= 0x1_0000
    ensures ChecksumOf(x + BigEndian(ChecksumOf(x + [0, 0] + y), 2) + y) == 0
  {
    var csum := ChecksumOf(x + [0, 0] + y);
    assert BigEndian(0, 2) == [0, 0];
    SumWithWord(x, 0, y);
    SumWithWord(x, csum, y);
    ShortSumsDoNotWrap(x + [0, 0] + y);
    ShortSumsDoNotWrap(x + BigEndian(csum, 2) + y);
    ChecksumCompletes(WordSum(x) + WordSum(y));
  }

  lemma ShortSumsDoNotWrap(data: seq<byte>)
    requires |data| <= 0x1_0000
    ensures ChecksumOf(data) == 0xFFFF - OnesSum(WordSum(data))
  {
    WordSumBound(data);
    assert WordSum(data) < 0x1_0000_0000;
  }

  lemma SumWithWord(x: seq<byte>, w: uint16, y: seq<byte>)
    requires |x| % 2 == 0
    ensures WordSum(x + BigEndian(w, 2) + y) == WordSum(x) + WordSum(y) + w
  {
    WordSumOfConcat(x + BigEndian(w, 2), y);
    WordSumOfConcat(x, BigEndian(w, 2));
    TwoByteSum(w);
  }

  lemma TwoByteSum(v: uint16)
    ensures WordSum(BigEndian(v, 2)) == v
  {
    var bs := BigEndian(v, 2);
    BigEndian16(v);
    assert bs[..1][..0] == [];
    assert FromBigEndian(bs[..1]) == bs[0];
    assert bs[2..] == [];
  }

  /**
   A verifying block no longer verifies when one 16-bit word is replaced, unless the two words are
   0x0000 and 0xFFFF, which mean the same.
   */
  lemma OneWordChangeIsDetected(x: seq<byte>, v: uint16, w: uint16, y: seq<byte>)
    requires |x| % 2 == 0 && |x| + 2 + |y| <= 0x1_0000
    requires ChecksumOf(x + BigEndian(v, 2) + y) == 0 && v != w
    ensures ChecksumOf(x + BigEndian(w, 2) + y) == 0 ==> {v, w} == {0, 0xFFFF}
  {
    SumWithWord(x, v, y);
    SumWithWord(x, w, y);
    ShortSumsDoNotWrap(x + BigEndian(v, 2) + y);
    ShortSumsDoNotWrap(x + BigEndian(w, 2) + y);
    if ChecksumOf(x + BigEndian(w, 2) + y) == 0 {
      SameMultiple(WordSum(x) + WordSum(y), v, w);
    }
  }

  lemma SameMultiple(rest: nat, v: uint16, w: uint16)
    requires OnesSum(rest + v) == 0xFFFF && OnesSum(rest + w) == 0xFFFF && v != w
    ensures (v == 0 && w == 0xFFFF) || (v == 0xFFFF && w == 0)
  {
    AllOnesAreMultiples(rest + v);
    AllOnesAreMultiples(rest + w);
  }

  lemma AllOnesAreMultiples(n: nat)
    ensures OnesSum(n) == 0xFFFF <==> n > 0 && n % 0xFFFF == 0
  {}

  // ---- rewriting a packet ---------------------------------------------------------------------------------

  type Ipv4Bytes = b: seq<byte> | |b| == 4 witness [0, 0, 0, 0]

  /** buf[0] & 0x0F, in bytes. */
  function HeaderLength(raw: seq<byte>): nat
    requires |raw| > 0
  {
    (raw[0] % 16) * 4
  }

  /** The destination written and the checksum field zeroed. */
  function Redirected(raw: seq<byte>, target: Ipv4Bytes): (r: seq<byte>)
    requires |raw| >= 20
    ensures |r| == |raw|
  {
    raw[..10] + [0, 0] + raw[12..16] + target + raw[20..]
  }

  function WithHeaderChecksum(zeroed: seq<byte>, csum: uint16): (r: seq<byte>)
    requires |zeroed| >= 20
    ensures |r| == |zeroed|
  {
    zeroed[..10] + BigEndian(csum, 2) + zeroed[12..]
  }

  function WithTarget(raw: seq<byte>, target: Ipv4Bytes): (r: seq<byte>)
    requires |raw| >= 20 && HeaderLength(raw) <= |raw|
    ensures |r| == |raw|
  {
    if target == [0, 0, 0, 0] then raw
    else
      var zeroed := Redirected(raw, target);
      WithHeaderChecksum(zeroed, ChecksumOf(zeroed[..HeaderLength(raw)]))
  }

  /** The UDP destination port written and the UDP checksum cleared, when there is a UDP header. */
  function WithPort(raw: seq<byte>, ihl: nat, port: uint16): (r: seq<byte>)
    requires |raw| >= 20 && ihl <= |raw|
    ensures |r| == |raw|
  {
    if raw[9] == PROTO_UDP && |raw| >= ihl + 8 && port > 0
    then raw[..ihl + 2] + BigEndian(port, 2) + raw[ihl + 4..ihl + 6] + [0, 0] + raw[ihl + 8..]
    else raw
  }

  function Rewritten(raw: seq<byte>, target: Ipv4Bytes, port: uint16): Result<seq<byte>, RewriteError> {
    if |raw| < 20 || |raw| < HeaderLength(raw) then Err(PacketTooShort)
    else Ok(WithPort(WithTarget(raw, target), HeaderLength(raw), port))
  }

  /** The input is cloned; only the clone is written. */
  method RewriteIPv4Packet(raw: array<byte>, target: Ipv4Bytes, port: uint16) returns (r: Result<array<byte>, RewriteError>)
    ensures match Rewritten(raw[..], target, port)
            case Err(e) => r == Err(e)
            case Ok(bytes) => r.Ok? && fresh(r.value) && r.value[..] == bytes
  {
    if raw.Length < 20 {
      return Err(PacketTooShort);
    }
    var buf := new byte[raw.Length](_ => 0);
    CopyInto(buf, 0, raw[..]);
    assert buf[..] == raw[..];
    var ihl := (buf[0] % 16) * 4;
    if buf.Length < ihl {
      return Err(PacketTooShort);
    }
    if target != [0, 0, 0, 0] {
      RewriteTarget(buf, target, ihl);
    }
    RewritePort(buf, ihl, port);
    r := Ok(buf);
  }

  method RewriteTarget(buf: array<byte>, target: Ipv4Bytes, ihl: nat)
    requires buf.Length >= 20 && ihl <= buf.Length && ihl == HeaderLength(buf[..]) && target != [0, 0, 0, 0]
    modifies buf
    ensures buf[..] == WithTarget(old(buf[..]), target)
  {
    ghost var raw := buf[..];
    CopyInto(buf, 16, target);
    buf[10] := 0;
    buf[11] := 0;
    assert buf[..] == Redirected(raw, target);
    var csum := CalculateChecksum(buf[0..ihl]);
    assert buf[0..ihl] == Redirected(raw, target)[..ihl];
    CopyInto(buf, 10, BigEndian(csum, 2));
    assert buf[..] == WithHeaderChecksum(Redirected(raw, target), csum);
  }

  method RewritePort(buf: array<byte>, ihl: nat, port: uint16)
    requires buf.Length >= 20 && ihl <= buf.Length
    modifies buf
    ensures buf[..] == WithPort(old(buf[..]), ihl, port)
  {
    ghost var raw := buf[..];
    if buf[9] == PROTO_UDP && buf.Length >= ihl + 8 && port > 0 {
      CopyInto(buf, ihl + 2, BigEndian(port, 2));
      assert buf[ihl + 4..] == raw[ihl + 4..];
      assert buf[ihl + 7..] == buf[ihl + 4..][3..] && raw[ihl + 7..] == raw[ihl + 4..][3..];
      assert buf[ihl + 4..ihl + 6] == buf[ihl + 4..][..2] == raw[ihl + 4..ihl + 6];
      assert buf[..ihl + 6] == buf[..ihl + 4] + buf[ihl + 4..ihl + 6];
      PutByte(buf, ihl + 6, 0);
      assert buf[..ihl + 7] == raw[..ihl + 2] + BigEndian(port, 2) + raw[ihl + 4..ihl + 6] + [0];
      assert buf[ihl + 7..] == raw[ihl + 7..];
      PutByte(buf, ihl + 7, 0);
      assert buf[..ihl + 8] == raw[..ihl + 2] + BigEndian(port, 2) + raw[ihl + 4..ihl + 6] + [0, 0];
      assert buf[..] == buf[..ihl + 8] + buf[ihl + 8..];
    }
  }

  // ---- what a rewrite changes, and when the header verifies ---------------------------------------------------

  lemma TargetChanges(raw: seq<byte>, target: Ipv4Bytes, i: nat)
    requires |raw| >= 20 && HeaderLength(raw) <= |raw| && i < |raw|
    ensures WithTarget(raw, target)[i] != raw[i] ==> target != [0, 0, 0, 0] && (10 <= i < 12 || 16 <= i < 20)
    ensures target != [0, 0, 0, 0] ==> WithTarget(raw, target)[16..20] == target
  {}

  lemma PortChanges(raw: seq<byte>, ihl: nat, port: uint16, i: nat)
    requires |raw| >= 20 && ihl <= |raw| && i < |raw|
    ensures WithPort(raw, ihl, port)[i] != raw[i] ==>
      port > 0 && raw[9] == PROTO_UDP && (ihl + 2 <= i < ihl + 4 || ihl + 6 <= i < ihl + 8)
  {}

  /** Only the checksum, the destination, the UDP port and the UDP checksum change. */
  lemma OnlyTheseBytesChange(raw: seq<byte>, target: Ipv4Bytes, port: uint16, i: nat)
    requires Rewritten(raw, target, port).Ok? && i < |raw|
    ensures var out, ihl := Rewritten(raw, target, port).value, HeaderLength(raw);
            && |out| == |raw|
            && (out[i] != raw[i] ==>
                  || (target != [0, 0, 0, 0] && (10 <= i < 12 || 16 <= i < 20))
                  || (port > 0 && raw[9] == PROTO_UDP && (ihl + 2 <= i < ihl + 4 || ihl + 6 <= i < ihl + 8)))
  {
    TargetChanges(raw, target, i);
    TargetChanges(raw, target, 9);
    PortChanges(WithTarget(raw, target), HeaderLength(raw), port, i);
  }

  /** A rewrite puts the target in place and, for UDP with room for a header, the port, and clears the UDP checksum. */
  lemma RewriteWrites(raw: seq<byte>, target: Ipv4Bytes, port: uint16)
    requires Rewritten(raw, target, port).Ok?
    ensures var out, ihl := Rewritten(raw, target, port).value, HeaderLength(raw);
            && ihl == raw[0] % 16 * 4 && |out| == |raw|
            && (raw[9] == 17 && |raw| >= ihl + 8 && port > 0 ==>
                  out[ihl + 2..ihl + 4] == BigEndian(port, 2) && out[ihl + 6..ihl + 8] == [0, 0])
            && (target != [0, 0, 0, 0] && (ihl >= 20 || raw[9] != 17 || |raw| < ihl + 8 || port == 0) ==> out[16..20] == target)
            && (target == [0, 0, 0, 0] && (raw[9] != 17 || |raw| < ihl + 8 || port == 0) ==> out == raw)
  {
    var mid, ihl := WithTarget(raw, target), HeaderLength(raw);
    TargetChanges(raw, target, 9);
    TargetChanges(raw, target, 16);
    PortWrites(mid, ihl, port);
    if target != [0, 0, 0, 0] && ihl >= 20 {
      PortLeavesHeader(mid, ihl, port);
      assert WithPort(mid, ihl, port)[16..20] == WithPort(mid, ihl, port)[..ihl][16..20] == mid[..ihl][16..20] == mid[16..20];
    }
  }

  lemma PortWrites(raw: seq<byte>, ihl: nat, port: uint16)
    requires |raw| >= 20 && ihl <= |raw|
    ensures if raw[9] == 17 && |raw| >= ihl + 8 && port > 0
            then WithPort(raw, ihl, port)[ihl + 2..ihl + 4] == BigEndian(port, 2)
                 && WithPort(raw, ihl, port)[ihl + 6..ihl + 8] == [0, 0]
            else WithPort(raw, ihl, port) == raw
  {}

  /** A packet is refused exactly when it is shorter than 20 bytes or than the header it claims. */
  lemma RefusedExactly(raw: seq<byte>, target: Ipv4Bytes, port: uint16)
    ensures Rewritten(raw, target, port) == Err(PacketTooShort) <==> |raw| < 20 || |raw| < raw[0] % 16 * 4
  {}

  lemma PortLeavesHeader(raw: seq<byte>, ihl: nat, port: uint16)
    requires |raw| >= 20 && ihl <= |raw|
    ensures WithPort(raw, ihl, port)[..ihl] == raw[..ihl]
  {}

  /** A header of at least 12 bytes, checksum field included, is left with a checksum that verifies. */
  lemma TargetHeaderVerifies(raw: seq<byte>, target: Ipv4Bytes)
    requires |raw| >= 20 && 12 <= HeaderLength(raw) <= |raw| && target != [0, 0, 0, 0]
    ensures ChecksumOf(WithTarget(raw, target)[..HeaderLength(raw)]) == 0
  {
    var ihl := HeaderLength(raw);
    var zeroed := Redirected(raw, target);
    var x, y := zeroed[..10], zeroed[12..ihl];
    assert zeroed[..ihl] == x + [0, 0] + y;
    var csum := ChecksumOf(zeroed[..ihl]);
    assert WithHeaderChecksum(zeroed, csum)[..ihl] == x + BigEndian(csum, 2) + y;
    FilledBlockVerifies(x, y);
  }

  lemma ShortHeaderIsKept(raw: seq<byte>, target: Ipv4Bytes)
    requires |raw| >= 20 && HeaderLength(raw) < 12
    ensures WithTarget(raw, target)[..HeaderLength(raw)] == raw[..HeaderLength(raw)]
  {
    assert HeaderLength(raw) <= 8;
  }

  /**
   With a non-zero target, the header of the rewritten packet sums to zero exactly when the packet says
   its header has at least 12 bytes, or the bytes of that shorter header summed to zero before.
   */
  lemma RewrittenHeaderVerifiesExactly(raw: seq<byte>, target: Ipv4Bytes, port: uint16)
    requires Rewritten(raw, target, port).Ok? && target != [0, 0, 0, 0]
    ensures ChecksumOf(Rewritten(raw, target, port).value[..HeaderLength(raw)]) == 0
       <==> HeaderLength(raw) >= 12 || ChecksumOf(raw[..HeaderLength(raw)]) == 0
  {
    PortLeavesHeader(WithTarget(raw, target), HeaderLength(raw), port);
    if HeaderLength(raw) >= 12 {
      TargetHeaderVerifies(raw, target);
    } else {
      ShortHeaderIsKept(raw, target);
    }
  }

  /** An odd block sums as if padded with a zero byte. */
  lemma {:induction false} OddBlockIsPadded(data: seq<byte>)
    requires |data| % 2 == 1
    ensures WordSum(data + [0]) == WordSum(data) && ChecksumOf(data + [0]) == ChecksumOf(data)
  {
    if |data| == 1 {
      assert (data + [0])[2..] == [];
    } else {
      OddBlockIsPadded(data[2..]);
      assert (data + [0])[2..] == data[2..] + [0];
    }
  }

  /** The numerical example of RFC 1071, section 3: the sum is 0xddf2, its complement 0x220d. */
  lemma Rfc1071Example()
    ensures ChecksumOf([0x00, 0x01, 0xf2, 0x03, 0xf4, 0xf5, 0xf6, 0xf7]) == 0x220d
  {
    var d: seq<byte> := [0x00, 0x01, 0xf2, 0x03, 0xf4, 0xf5, 0xf6, 0xf7];
    assert d[2..] == [0xf2, 0x03, 0xf4, 0xf5, 0xf6, 0xf7];
    assert d[2..][2..] == [0xf4, 0xf5, 0xf6, 0xf7];
    assert d[2..][2..][2..] == [0xf6, 0xf7];
    assert d[2..][2..][2..][2..] == [];
    assert WordSum(d) == 0x2ddf0;
  }

  /** A packet of twenty zero bytes claims an empty header, whose checksum is never zero. */
  lemma EmptyHeaderNeverVerifies()
    ensures var raw: seq<byte> := seq(20, _ => 0);
            && Rewritten(raw, [10, 0, 0, 1], 0).Ok? && HeaderLength(raw) == 0
            && ChecksumOf(Rewritten(raw, [10, 0, 0, 1], 0).value[..0]) == 0xFFFF
  {
    var raw: seq<byte> := seq(20, _ => 0);
    assert Rewritten(raw, [10, 0, 0, 1], 0).value[..0] == [];
  }
}
