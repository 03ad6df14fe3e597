/** The client-side packet filter with connection tracking (pkg/acl/netfilter.go). */
module Netfilter {
  import opened Bytes
  import opened Policy
  import opened Results
  import opened Text

  datatype FilterError =
    | NoPolicyLoaded | OutboundBlockedDrop | OutboundDefaultDeny | InboundBlockedDrop | InboundDefaultDeny

  datatype ConntrackEntry = ConntrackEntry(
    sourceVip: Vip, sourcePort: uint16, destVip: Vip, destPort: uint16, protocol: string,
    createdAt: int, expiresAt: int)

  type Conntrack = map<string, ConntrackEntry>

  /** String() of a possibly nil address. */
  function AddressText(a: Option<Vip>): Vip {
    if a.Some? then a.value else "<nil>"
  }

  // ---- conntrack keys ---------------------------------------------------------------------

  /** "%s:%d" */
  function Endpoint(ip: Vip, port: uint16): (s: string)
    ensures '-' !in s && '/' !in s
  {
    ip + ":" + Decimal(port)
  }

  /** "from:port->to:port/protocol" */
  function FlowKey(from: Vip, fromPort: uint16, to: Vip, toPort: uint16, protocol: string): string {
    Endpoint(from, fromPort) + "->" + Endpoint(to, toPort) + "/" + protocol
  }

  lemma EndpointInjective(a: Vip, p: uint16, b: Vip, q: uint16)
    requires Endpoint(a, p) == Endpoint(b, q)
    ensures a == b && p == q
  {
    SplitUniqueFromRight(a, Decimal(p), b, Decimal(q), ':');
    DecimalInjective(p, q);
  }

  lemma KeyPartsUnique(left: string, right: string, p: string, left': string, right': string, q: string)
    requires '-' !in left && '-' !in left' && '/' !in right && '/' !in right'
    requires left + "->" + right + "/" + p == left' + "->" + right' + "/" + q
    ensures left == left' && right == right' && p == q
  {
    assert left + "->" + right + "/" + p == left + "-" + (">" + right + "/" + p);
    assert left' + "->" + right' + "/" + q == left' + "-" + (">" + right' + "/" + q);
    SplitUnique(left, ">" + right + "/" + p, left', ">" + right' + "/" + q, '-');
    assert right + "/" + p == (">" + right + "/" + p)[1..];
    assert right' + "/" + q == (">" + right' + "/" + q)[1..];
    SplitUnique(right, p, right', q, '/');
  }

  /** Two flows have the same key text only if they are the same flow. */
  lemma FlowKeyInjective(a: Vip, ap: uint16, b: Vip, bp: uint16, p: string, c: Vip, cp: uint16, d: Vip, dp: uint16, q: string)
    requires FlowKey(a, ap, b, bp, p) == FlowKey(c, cp, d, dp, q)
    ensures a == c && ap == cp && b == d && bp == dp && p == q
  {
    KeyPartsUnique(Endpoint(a, ap), Endpoint(b, bp), p, Endpoint(c, cp), Endpoint(d, dp), q);
    EndpointInjective(a, ap, c, cp);
    EndpointInjective(b, bp, d, dp);
  }

  // ---- the conntrack table as a value ----------------------------------------------------------

  /** recordConntrack: the exact reverse key, and a wildcard key when the source port is 0. */
  function Recorded(ct: Conntrack, src: Vip, srcPort: uint16, dst: Vip, dstPort: uint16, protocol: string,
                    ttl: int, now: int): Conntrack {
    RecordedUnder(ct, FlowKey(dst, dstPort, src, srcPort, protocol), FlowKey(dst, 0, src, dstPort, protocol),
                  ConntrackEntry(src, srcPort, dst, dstPort, protocol, now, now + ttl))
  }

  function RecordedUnder(ct: Conntrack, keyExact: string, keyWildcard: string, e: ConntrackEntry): Conntrack {
    if e.sourcePort == 0 then ct[keyExact := e][keyWildcard := e] else ct[keyExact := e]
  }

  predicate Live(ct: Conntrack, key: string, now: int) {
    key in ct && now < ct[key].expiresAt
  }

  /** checkConntrackLocked: three keys an inbound packet may answer to. */
  predicate Tracked(ct: Conntrack, overlay: Option<Vip>, src: Vip, srcPort: uint16, dstPort: uint16, protocol: string, now: int) {
    && overlay.Some?
    && (|| Live(ct, FlowKey(src, srcPort, overlay.value, dstPort, protocol), now)
        || Live(ct, FlowKey(src, srcPort, overlay.value, 0, protocol), now)
        || Live(ct, FlowKey(src, 0, overlay.value, srcPort, protocol), now))
  }

  function Purged(ct: Conntrack, now: int): Conntrack {
    map k | k in ct && now < ct[k].expiresAt :: ct[k]
  }

  // ---- the filter ---------------------------------------------------------------------------------

  datatype Filter = Filter(policy: Option<CompiledPolicy>, conntrack: Conntrack, ttl: int)

  function EffectiveSource(p: CompiledPolicy, srcVip: Option<Vip>): Vip {
    AddressText(if srcVip.Some? then srcVip else p.overlay)
  }

  function OutboundVerdict(f: Filter, destVip: Vip, destPort: uint16, protocol: string): Result<(), FilterError> {
    if f.policy.None? then Err(NoPolicyLoaded) else
    match FirstMatch(f.policy.value.outbound, destVip, protocol, destPort)
    case Accept => Ok(())
    case Drop => Err(OutboundBlockedDrop)
    case NoMatch => Err(OutboundDefaultDeny)
  }

  function AfterOutbound(f: Filter, srcVip: Option<Vip>, srcPort: uint16, destVip: Vip, destPort: uint16,
                         protocol: string, now: int): Filter {
    if OutboundVerdict(f, destVip, destPort, protocol).Ok?
    then f.(conntrack := Recorded(f.conntrack, EffectiveSource(f.policy.value, srcVip), srcPort, destVip, destPort,
                                  protocol, f.ttl, now))
    else f
  }

  predicate TrackedBy(f: Filter, src: Vip, srcPort: uint16, destPort: uint16, protocol: string, now: int) {
    f.policy.Some? && Tracked(f.conntrack, f.policy.value.overlay, src, srcPort, destPort, protocol, now)
  }

  function InboundVerdict(f: Filter, src: Vip, srcPort: uint16, destPort: uint16, protocol: string, now: int)
    : Result<(), FilterError>
  {
    if TrackedBy(f, src, srcPort, destPort, protocol, now) then Ok(())
    else if f.policy.None? then Err(NoPolicyLoaded) else
    match FirstMatch(f.policy.value.inbound, src, protocol, destPort)
    case Accept => Ok(())
    case Drop => Err(InboundBlockedDrop)
    case NoMatch => Err(InboundDefaultDeny)
  }

  /** Deny by default: only the first rule that meets the packet, if it accepts, lets it out. */
  lemma OutboundExactly(f: Filter, destVip: Vip, destPort: uint16, protocol: string)
    ensures var r := OutboundVerdict(f, destVip, destPort, protocol);
            && (r == Err(NoPolicyLoaded) <==> f.policy.None?)
            && (f.policy.Some? ==>
                  var table := f.policy.value.outbound;
                  && (r == Ok(()) <==> Accepts(table, destVip, protocol, destPort))
                  && (r == Err(OutboundBlockedDrop) <==> Drops(table, destVip, protocol, destPort))
                  && (r == Err(OutboundDefaultDeny) <==> Ignores(table, destVip, protocol, destPort)))
  {
    if f.policy.Some? {
      FirstMatchExactly(f.policy.value.outbound, destVip, protocol, destPort);
    }
  }

  /** A packet that answers no live flow is judged by the inbound table, and denied by default. */
  lemma InboundExactly(f: Filter, src: Vip, srcPort: uint16, destPort: uint16, protocol: string, now: int)
    ensures var r, tracked := InboundVerdict(f, src, srcPort, destPort, protocol, now),
                              TrackedBy(f, src, srcPort, destPort, protocol, now);
            && (r == Err(NoPolicyLoaded) <==> f.policy.None?)
            && (f.policy.Some? ==>
                  var table := f.policy.value.inbound;
                  && (r == Ok(()) <==> tracked || Accepts(table, src, protocol, destPort))
                  && (r == Err(InboundBlockedDrop) <==> !tracked && Drops(table, src, protocol, destPort))
                  && (r == Err(InboundDefaultDeny) <==> !tracked && Ignores(table, src, protocol, destPort)))
  {
    if f.policy.Some? {
      FirstMatchExactly(f.policy.value.inbound, src, protocol, destPort);
    }
  }

  /** An outbound packet that is let out opens its exact return path for the TTL; any other opens nothing. */
  lemma OutboundRecordsExactly(f: Filter, srcVip: Option<Vip>, srcPort: uint16, destVip: Vip, destPort: uint16,
                               protocol: string, now: int)
    ensures var g := AfterOutbound(f, srcVip, srcPort, destVip, destPort, protocol, now);
            && g.policy == f.policy && g.ttl == f.ttl
            && (!(f.policy.Some? && Accepts(f.policy.value.outbound, destVip, protocol, destPort)) ==> g == f)
            && (f.policy.Some? && Accepts(f.policy.value.outbound, destVip, protocol, destPort)
                && (srcVip.Some? || f.policy.value.overlay.Some?) ==>
                  var source := if srcVip.Some? then srcVip.value else f.policy.value.overlay.value;
                  var key := FlowKey(destVip, destPort, source, srcPort, protocol);
                  key in g.conntrack && g.conntrack[key].expiresAt == now + f.ttl)
  {
    OutboundExactly(f, destVip, destPort, protocol);
  }

  /** Purging earlier than the packet is judged never changes the judgement. */
  lemma PurgingChangesNoVerdict(f: Filter, purgedAt: int, src: Vip, srcPort: uint16, destPort: uint16, protocol: string, now: int)
    requires purgedAt <= now
    ensures InboundVerdict(f.(conntrack := Purged(f.conntrack, purgedAt)), src, srcPort, destPort, protocol, now)
         == InboundVerdict(f, src, srcPort, destPort, protocol, now)
  {}

  class NetstackFilter {
    var policy: Option<CompiledPolicy>
    var conntrack: Conntrack
    var conntrackTtl: int

    function View(): Filter
      reads this
    {
      Filter(policy, conntrack, conntrackTtl)
    }

    constructor ()
      ensures View() == Filter(None, map[], 120_000_000_000)
    {
      policy, conntrack, conntrackTtl := None, map[], 120_000_000_000;
    }

    method SetConntrackTtl(ttl: int)
      modifies this`conntrackTtl
      ensures View() == old(View()).(ttl := ttl)
    {
      conntrackTtl := ttl;
    }

    method UpdatePolicy(p: Option<CompiledPolicy>)
      modifies this`policy
      ensures View() == old(View()).(policy := p)
    {
      policy := p;
    }

    /** The loops over rules and their port ranges. */
    static method FirstMatching(rules: seq<FilterRule>, peer: Vip, protocol: string, port: uint16) returns (v: Verdict)
      ensures v == FirstMatch(rules, peer, protocol, port)
    {
      for i := 0 to |rules|
        invariant FirstMatch(rules, peer, protocol, port) == FirstMatch(rules[i..], peer, protocol, port)
      {
        var rule := rules[i];
        if rule.peer == peer {
          if rule.protocol == PROTOCOL_ALL || rule.protocol == protocol {
            for k := 0 to |rule.portRanges|
              invariant forall j :: 0 <= j < k ==> !rule.portRanges[j].Matches(port)
            {
              if rule.portRanges[k].Matches(port) {
                if rule.action == ACTION_ACCEPT {
                  return Accept;
                }
                return Drop;
              }
            }
          }
        }
        assert !RuleMatches(rules[i..][0], peer, protocol, port);
        assert rules[i..][1..] == rules[i + 1..];
      }
      return NoMatch;
    }

    method EvaluateOutbound4Tuple(srcVip: Option<Vip>, srcPort: uint16, destVip: Vip, destPort: uint16, protocol: string,
                                  now: int)
      returns (r: Result<(), FilterError>)
      modifies this`conntrack
      ensures r == Err(NoPolicyLoaded) <==> policy.None?
      ensures r == Ok(()) <==> policy.Some? && Accepts(policy.value.outbound, destVip, protocol, destPort)
      ensures r == Err(OutboundBlockedDrop) <==> policy.Some? && Drops(policy.value.outbound, destVip, protocol, destPort)
      ensures r == Err(OutboundDefaultDeny) <==> policy.Some? && Ignores(policy.value.outbound, destVip, protocol, destPort)
      ensures r.Err? ==> conntrack == old(conntrack)
      ensures r == OutboundVerdict(old(View()), destVip, destPort, protocol)
      ensures View() == AfterOutbound(old(View()), srcVip, srcPort, destVip, destPort, protocol, now)
    {
      OutboundExactly(View(), destVip, destPort, protocol);
      if policy.None? {
        return Err(NoPolicyLoaded);
      }
      var effectiveSrcVip := if srcVip.Some? then srcVip else policy.value.overlay;
      var v := FirstMatching(policy.value.outbound, destVip, protocol, destPort);
      match v
      case Accept =>
        RecordConntrack(AddressText(effectiveSrcVip), srcPort, destVip, destPort, protocol, now);
        return Ok(());
      case Drop =>
        return Err(OutboundBlockedDrop);
      case NoMatch =>
        return Err(OutboundDefaultDeny);
    }

    method RecordConntrack(src: Vip, srcPort: uint16, dst: Vip, dstPort: uint16, protocol: string, now: int)
      modifies this`conntrack
      ensures conntrack == Recorded(old(conntrack), src, srcPort, dst, dstPort, protocol, conntrackTtl, now)
    {
      var exp := now + conntrackTtl;
      var keyExact := FlowKey(dst, dstPort, src, srcPort, protocol);
      conntrack := conntrack[keyExact := ConntrackEntry(src, srcPort, dst, dstPort, protocol, now, exp)];
      if srcPort == 0 {
        var keyWildcard := FlowKey(dst, 0, src, dstPort, protocol);
        conntrack := conntrack[keyWildcard := ConntrackEntry(src, 0, dst, dstPort, protocol, now, exp)];
      }
    }

    /** The clock is read once for the purge and again for the check. */
    method EvaluateInbound(src: Vip, srcPort: uint16, destPort: uint16, protocol: string, purgedAt: int, now: int)
      returns (r: Result<(), FilterError>)
      requires purgedAt <= now
      modifies this`conntrack
      ensures r == Err(NoPolicyLoaded) <==> policy.None?
      ensures policy.Some? ==>
        && (r == Ok(()) <==> || old(TrackedBy(View(), src, srcPort, destPort, protocol, now))
                             || Accepts(policy.value.inbound, src, protocol, destPort))
        && (r == Err(InboundBlockedDrop) <==> !old(TrackedBy(View(), src, srcPort, destPort, protocol, now))
                                              && Drops(policy.value.inbound, src, protocol, destPort))
        && (r == Err(InboundDefaultDeny) <==> !old(TrackedBy(View(), src, srcPort, destPort, protocol, now))
                                              && Ignores(policy.value.inbound, src, protocol, destPort))
      ensures r == InboundVerdict(old(View()), src, srcPort, destPort, protocol, now)
      ensures View() == old(View()).(conntrack := Purged(old(conntrack), purgedAt))
    {
      InboundExactly(View(), src, srcPort, destPort, protocol, now);
      PurgingChangesNoVerdict(View(), purgedAt, src, srcPort, destPort, protocol, now);
      PurgeExpired(purgedAt);
      var established := CheckConntrack(src, srcPort, destPort, protocol, now);
      if established {
        return Ok(());
      }
      if policy.None? {
        return Err(NoPolicyLoaded);
      }
      var v := FirstMatching(policy.value.inbound, src, protocol, destPort);
      match v
      case Accept => return Ok(());
      case Drop => return Err(InboundBlockedDrop);
      case NoMatch => return Err(InboundDefaultDeny);
    }

    method CheckConntrack(src: Vip, srcPort: uint16, dstPort: uint16, protocol: string, now: int) returns (found: bool)
      ensures found <==> TrackedBy(View(), src, srcPort, dstPort, protocol, now)
    {
      if policy.None? || policy.value.overlay.None? {
        return false;
      }
      var localVip := policy.value.overlay.value;
      var keyExact := FlowKey(src, srcPort, localVip, dstPort, protocol);
      if keyExact in conntrack && now < conntrack[keyExact].expiresAt {
        return true;
      }
      var keyWildcard := FlowKey(src, srcPort, localVip, 0, protocol);
      if keyWildcard in conntrack && now < conntrack[keyWildcard].expiresAt {
        return true;
      }
      var keyDstWildcard := FlowKey(src, 0, localVip, srcPort, protocol);
      return keyDstWildcard in conntrack && now < conntrack[keyDstWildcard].expiresAt;
    }

    /** The map is visited in an arbitrary order. */
    method PurgeExpired(now: int)
      modifies this`conntrack
      ensures conntrack == Purged(old(conntrack), now)
    {
      var rest := conntrack.Keys;
      while rest != {}
        invariant rest <= old(conntrack).Keys
        invariant conntrack == map k | k in old(conntrack) && (k in rest || now < old(conntrack)[k].expiresAt) :: old(conntrack)[k]
        decreases rest
      {
        var k :| k in rest;
        if now >= conntrack[k].expiresAt {
          conntrack := conntrack - {k};
        }
        rest := rest - {k};
      }
    }
  }
}
