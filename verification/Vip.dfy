/** Overlay address allocation (pkg/control/vip.go). */
module Vip {
  import opened Bytes
  import opened Duality
  import opened Policy
  import opened Results
  import opened Text

  /** 100.64.0.2 and 100.127.255.254. */
  const BASE_IPV4: uint32 := 0x6440_0002
  const MAX_IPV4: uint32 := 0x647F_FFFE
  const IPV6_PREFIX := "fd7a:115c:a1e0"
  const POOL_SIZE: nat := 4_194_301

  /** Go's uint32 addition. */
  function Add32(a: uint32, b: uint32): uint32 {
    (a + b) % 0x1_0000_0000
  }

  // ---- address texts ----------------------------------------------------------------------

  function DottedQuad(ip: uint32): (s: string)
    ensures forall c :: c in s ==> c in "0123456789."
    ensures '-' !in s && '/' !in s
  {
    Decimal(ip / 0x100_0000) + "." + Decimal(ip / 0x1_0000 % 0x100) + "." + Decimal(ip / 0x100 % 0x100) + "."
      + Decimal(ip % 0x100)
  }

  function Ipv6Text(suffix: uint32): string {
    IPV6_PREFIX + "::" + Hex(suffix)
  }

  /** The four bytes of the address in network order, in decimal. */
  lemma DottedQuadMeans(ip: uint32)
    ensures var b := BigEndian(ip, 4);
            DottedQuad(ip) == Decimal(b[0]) + "." + Decimal(b[1]) + "." + Decimal(b[2]) + "." + Decimal(b[3])
  {
    BigEndianBytes(ip);
    assert ip / 0x100 / 0x100 == ip / 0x1_0000;
    assert ip / 0x100 / 0x100 / 0x100 == ip / 0x100_0000;
    assert ip / 0x100_0000 % 0x100 == ip / 0x100_0000;
  }

  /** The prefix of the overlay, and the suffix in hexadecimal without leading zeros. */
  lemma Ipv6TextMeans(suffix: uint32)
    ensures Ipv6Text(suffix) == "fd7a:115c:a1e0::" + Hex(suffix)
    ensures NumberMeant(Hex(suffix), Hexa) == suffix && (Hex(suffix)[0] == '0' ==> suffix == 0)
  {
    HexMeans(suffix);
    assert IPV6_PREFIX + "::" == "fd7a:115c:a1e0::";
  }

  /** Different addresses have different texts. */
  lemma DottedQuadInjective(m: uint32, n: uint32)
    ensures DottedQuad(m) == DottedQuad(n) ==> m == n
  {
    if DottedQuad(m) == DottedQuad(n) {
      QuadBytesEqual(m, n);
      FourBytes(m);
      FourBytes(n);
    }
  }

  lemma QuadBytesEqual(m: uint32, n: uint32)
    requires DottedQuad(m) == DottedQuad(n)
    ensures m / 0x100_0000 == n / 0x100_0000 && m / 0x1_0000 % 0x100 == n / 0x1_0000 % 0x100
    ensures m / 0x100 % 0x100 == n / 0x100 % 0x100 && m % 0x100 == n % 0x100
  {
    var a1, a2, a3, a4 := Decimal(m / 0x100_0000), Decimal(m / 0x1_0000 % 0x100), Decimal(m / 0x100 % 0x100), Decimal(m % 0x100);
    var b1, b2, b3, b4 := Decimal(n / 0x100_0000), Decimal(n / 0x1_0000 % 0x100), Decimal(n / 0x100 % 0x100), Decimal(n % 0x100);
    QuadSplits(a1, a2, a3, a4, b1, b2, b3, b4);
    DecimalInjective(m / 0x100_0000, n / 0x100_0000);
    DecimalInjective(m / 0x1_0000 % 0x100, n / 0x1_0000 % 0x100);
    DecimalInjective(m / 0x100 % 0x100, n / 0x100 % 0x100);
    DecimalInjective(m % 0x100, n % 0x100);
  }

  lemma FourBytes(n: nat)
    ensures n == 0x100_0000 * (n / 0x100_0000) + 0x1_0000 * (n / 0x1_0000 % 0x100) + 0x100 * (n / 0x100 % 0x100) + n % 0x100
  {
    LowByte(n, n / 0x100);
    assert n / 0x100 / 0x100 == n / 0x1_0000;
    LowByte(n / 0x100, n / 0x1_0000);
    assert n / 0x1_0000 / 0x100 == n / 0x100_0000;
    LowByte(n / 0x1_0000, n / 0x100_0000);
  }

  lemma LowByte(n: nat, upper: nat)
    requires upper == n / 0x100
    ensures n == 0x100 * upper + n % 0x100
  {}

  lemma QuadSplits(a1: string, a2: string, a3: string, a4: string, b1: string, b2: string, b3: string, b4: string)
    requires '.' !in a1 && '.' !in a2 && '.' !in a3 && '.' !in b1 && '.' !in b2 && '.' !in b3
    requires a1 + "." + a2 + "." + a3 + "." + a4 == b1 + "." + b2 + "." + b3 + "." + b4
    ensures a1 == b1 && a2 == b2 && a3 == b3 && a4 == b4
  {
    assert a1 + "." + a2 + "." + a3 + "." + a4 == a1 + "." + (a2 + "." + a3 + "." + a4);
    assert b1 + "." + b2 + "." + b3 + "." + b4 == b1 + "." + (b2 + "." + b3 + "." + b4);
    SplitUnique(a1, a2 + "." + a3 + "." + a4, b1, b2 + "." + b3 + "." + b4, '.');
    assert a2 + "." + a3 + "." + a4 == a2 + "." + (a3 + "." + a4);
    assert b2 + "." + b3 + "." + b4 == b2 + "." + (b3 + "." + b4);
    SplitUnique(a2, a3 + "." + a4, b2, b3 + "." + b4, '.');
    SplitUnique(a3, a4, b3, b4, '.');
  }

  /** The IPv4 and IPv6 text of one address of the pool. */
  function Texts(ip: uint32): (string, string)
    requires BASE_IPV4 <= ip <= MAX_IPV4
  {
    (DottedQuad(ip), Ipv6Text(ip - BASE_IPV4 + 2))
  }

  lemma Ipv6TextInjective(m: uint32, n: uint32)
    requires Ipv6Text(m) == Ipv6Text(n)
    ensures m == n
  {
    var prefix := IPV6_PREFIX + "::";
    assert Hex(m) == Ipv6Text(m)[|prefix|..] == Ipv6Text(n)[|prefix|..] == Hex(n);
    HexInjective(m, n);
  }

  // ---- the allocator as a value ------------------------------------------------------------------

  datatype Pool = Pool(nextOffset: uint32, held: map<string, uint32>)

  datatype Request = Allocate(nodeId: string) | Release(nodeId: string)

  predicate Exhausted(p: Pool) {
    Add32(BASE_IPV4, p.nextOffset) > MAX_IPV4
  }

  /** The request assigns an address that was not held before. */
  predicate Assigns(p: Pool, r: Request) {
    r.Allocate? && r.nodeId !in p.held && !Exhausted(p)
  }

  function Serve(p: Pool, r: Request): Pool {
    match r
    case Allocate(n) =>
      if Assigns(p, r)
      then Pool(Add32(p.nextOffset, 1), p.held[n := Add32(BASE_IPV4, p.nextOffset)])
      else p
    case Release(n) => p.(held := p.held - {n})
  }

  function Run(rs: seq<Request>): Pool {
    if |rs| == 0 then Pool(0, map[]) else Serve(Run(rs[..|rs| - 1]), rs[|rs| - 1])
  }

  /** The addresses newly assigned over a run, in order. */
  function Assigned(rs: seq<Request>): seq<uint32> {
    if |rs| == 0 then []
    else
      var before := Run(rs[..|rs| - 1]);
      Assigned(rs[..|rs| - 1])
      + if Assigns(before, rs[|rs| - 1]) then [Add32(BASE_IPV4, before.nextOffset)] else []
  }

  /** Different holders, different addresses. */
  ghost predicate NoSharing(p: Pool) {
    forall m, n :: m in p.held && n in p.held && p.held[m] == p.held[n] ==> m == n
  }

  ghost predicate Sound(p: Pool) {
    && p.nextOffset <= POOL_SIZE
    && (forall n :: n in p.held ==> BASE_IPV4 <= p.held[n] < BASE_IPV4 + p.nextOffset)
    && NoSharing(p)
  }

  lemma ServeKeepsSound(p: Pool, r: Request)
    requires Sound(p)
    ensures Sound(Serve(p, r))
    ensures Assigns(p, r) ==> Add32(BASE_IPV4, p.nextOffset) == BASE_IPV4 + p.nextOffset <= MAX_IPV4
    ensures Serve(p, r).nextOffset == if Assigns(p, r) then p.nextOffset + 1 else p.nextOffset
  {}

  lemma {:induction false} EveryRunIsSound(rs: seq<Request>)
    ensures Sound(Run(rs))
  {
    if |rs| > 0 {
      EveryRunIsSound(rs[..|rs| - 1]);
      ServeKeepsSound(Run(rs[..|rs| - 1]), rs[|rs| - 1]);
    }
  }

  lemma RunOneMore(rs: seq<Request>, r: Request)
    ensures Run(rs + [r]) == Serve(Run(rs), r)
  {
    assert (rs + [r])[..|rs|] == rs;
  }

  /**
   Over every run of requests the k-th new assignment is the k-th address of the pool. So all lie in the
   range, none is ever assigned twice, released or not, and no uint32 addition wraps; two nodes never
   share an address.
   */
  lemma {:induction false} AssignmentsAreFresh(rs: seq<Request>)
    ensures var p, a := Run(rs), Assigned(rs);
            && |a| == p.nextOffset <= POOL_SIZE
            && (forall k :: 0 <= k < |a| ==> a[k] == BASE_IPV4 + k && BASE_IPV4 <= a[k] <= MAX_IPV4)
            && (forall n :: n in p.held ==> BASE_IPV4 <= p.held[n] < BASE_IPV4 + p.nextOffset)
            && NoSharing(p)
  {
    EveryRunIsSound(rs);
    if |rs| > 0 {
      var before := rs[..|rs| - 1];
      AssignmentsAreFresh(before);
      ServeKeepsSound(Run(before), rs[|rs| - 1]);
    }
  }

  lemma AssignedSoFar(rs: seq<Request>)
    ensures |Assigned(rs)| == Run(rs).nextOffset && Sound(Run(rs))
  {
    AssignmentsAreFresh(rs);
    EveryRunIsSound(rs);
  }

  /** A request for a new node is refused exactly when all 4,194,301 addresses have been assigned. */
  lemma ExhaustedExactlyWhenAllAssigned(rs: seq<Request>)
    ensures Exhausted(Run(rs)) <==> |Assigned(rs)| == POOL_SIZE
  {
    AssignmentsAreFresh(rs);
    FullExactlyAtPoolSize(Run(rs));
  }

  lemma FullExactlyAtPoolSize(p: Pool)
    requires p.nextOffset <= POOL_SIZE
    ensures Exhausted(p) <==> p.nextOffset == POOL_SIZE
    ensures Add32(BASE_IPV4, p.nextOffset) == BASE_IPV4 + p.nextOffset
  {}

  /** A request to allocate changes nothing for a holder or a spent pool, and otherwise gives the next address. */
  lemma AllocateMeans(p: Pool, nodeId: string)
    requires Sound(p)
    ensures var q := Serve(p, Request.Allocate(nodeId));
            && Add32(BASE_IPV4, p.nextOffset) == BASE_IPV4 + p.nextOffset
            && (nodeId in p.held ==> q == p && BASE_IPV4 <= p.held[nodeId] <= MAX_IPV4)
            && (nodeId !in p.held && Exhausted(p) ==> q == p)
            && (nodeId !in p.held && !Exhausted(p) ==>
                  q.nextOffset == p.nextOffset + 1 && q.held == p.held[nodeId := BASE_IPV4 + p.nextOffset])
  {}

  /** The texts handed out are as distinct as the addresses. */
  lemma AssignedTextsDiffer(rs: seq<Request>, j: nat, k: nat)
    requires j < k < |Assigned(rs)|
    ensures DottedQuad(Assigned(rs)[j]) != DottedQuad(Assigned(rs)[k])
  {
    AssignmentsAreFresh(rs);
    if DottedQuad(Assigned(rs)[j]) == DottedQuad(Assigned(rs)[k]) {
      DottedQuadInjective(Assigned(rs)[j], Assigned(rs)[k]);
    }
  }

  /** A lookup that reports held addresses meets the distinctness the policy compiler needs. */
  lemma AllocatedAddressHasOneHolder(rs: seq<Request>, lookup: NodeLookup, node: string)
    requires node in Run(rs).held && lookup(node).Some?
    requires forall n :: lookup(n).Some? ==>
      n in Run(rs).held && lookup(n).value.vip == Some(DottedQuad(Run(rs).held[n]))
    ensures OnlyHolder(lookup, node, DottedQuad(Run(rs).held[node]))
  {
    AssignmentsAreFresh(rs);
    var p := Run(rs);
    forall n | lookup(n).Some? && lookup(n).value.vip == Some(DottedQuad(p.held[node]))
      ensures n == node
    {
      DottedQuadInjective(p.held[n], p.held[node]);
    }
  }

  // ---- the allocator -------------------------------------------------------------------------------

  class VipAllocator {
    var nextOffset: uint32
    var held: map<string, uint32>
    /** Every request so far. */
    ghost var history: seq<Request>

    ghost predicate Valid()
      reads this
    {
      Pool(nextOffset, held) == Run(history)
    }

    constructor ()
      ensures Valid() && history == []
    {
      nextOffset, held, history := 0, map[], [];
    }

    /** A held node gets the texts of the address it holds; a new one those of the address it is given. */
    method Allocate(nodeId: string) returns (r: Option<(string, string)>)
      requires Valid()
      modifies this
      ensures Valid() && history == old(history) + [Request.Allocate(nodeId)]
      ensures r.None? <==> nodeId !in old(held) && Exhausted(Run(old(history)))
      ensures r.Some? ==> nodeId in held && BASE_IPV4 <= held[nodeId] <= MAX_IPV4 && r.value == Texts(held[nodeId])
      ensures r.Some? && nodeId in old(held) ==> held == old(held)
      ensures r.Some? && nodeId !in old(held) ==>
        held[nodeId] == 0x6440_0002 + |Assigned(old(history))| && held == old(held)[nodeId := held[nodeId]]
      ensures r.None? ==> held == old(held)
    {
      var ip, suffix := AllocateAddress(nodeId);
      if ip.None? {
        return None;
      }
      var texts := (DottedQuad(ip.value), Ipv6Text(suffix));
      assert texts == Texts(ip.value);
      r := Some(texts);
    }

    /** The address, and the last group of the IPv6 address that goes with it. */
    method AllocateAddress(nodeId: string) returns (ip: Option<uint32>, suffix: uint32)
      requires Valid()
      modifies this
      ensures Valid() && history == old(history) + [Request.Allocate(nodeId)]
      ensures ip.None? <==> nodeId !in old(held) && Exhausted(Run(old(history)))
      ensures ip.Some? ==>
        && nodeId in held && ip.value == held[nodeId]
        && BASE_IPV4 <= ip.value <= MAX_IPV4 && suffix == ip.value - BASE_IPV4 + 2
        && (nodeId in old(held) ==> held == old(held))
        && (nodeId !in old(held) ==>
              ip.value == 0x6440_0002 + |Assigned(old(history))| && held == old(held)[nodeId := ip.value])
      ensures ip.None? ==> held == old(held)
    {
      ghost var p := Run(history);
      assert Pool(nextOffset, held) == p;
      AssignedSoFar(history);
      AllocateMeans(p, nodeId);
      RunOneMore(history, Request.Allocate(nodeId));
      history := history + [Request.Allocate(nodeId)];
      if nodeId in held {
        return Some(held[nodeId]), Add32(held[nodeId] - BASE_IPV4, 2);
      }
      if Add32(BASE_IPV4, nextOffset) > MAX_IPV4 {
        return None, 0;
      }
      ip := Some(Add32(BASE_IPV4, nextOffset));
      nextOffset := Add32(nextOffset, 1);
      held := held[nodeId := ip.value];
      suffix := Add32(nextOffset, 1);
    }

    method Release(nodeId: string)
      requires Valid()
      modifies this
      ensures Valid() && history == old(history) + [Request.Release(nodeId)]
      ensures held == old(held) - {nodeId}
      ensures |Assigned(history)| == |Assigned(old(history))|
    {
      AssignedSoFar(history);
      AssignedSoFar(history + [Request.Release(nodeId)]);
      RunOneMore(history, Request.Release(nodeId));
      history := history + [Request.Release(nodeId)];
      held := held - {nodeId};
    }
  }
}
