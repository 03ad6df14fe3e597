/** Health probes of gateways, over whole histories (pkg/routes/route.go). */
module RouteHealth {
  import opened Bytes

  datatype Peer = Peer(nodeId: string, priority: uint16, isHealthy: bool, latency: real, failCount: uint32)

  datatype Probe = Probe(healthy: bool, rtt: real)

  // ---- one gateway ----------------------------------------------------------------------------

  /** A uint32's ++ */
  function Next32(x: uint32): uint32 {
    (x + 1) % 0x1_0000_0000
  }

  /** The third failure in a row, and every later one, finds the gateway unhealthy. */
  function AfterProbe(p: Peer, probe: Probe): Peer {
    if probe.healthy then p.(failCount := 0, isHealthy := true, latency := probe.rtt)
    else p.(failCount := Next32(p.failCount), isHealthy := p.isHealthy && Next32(p.failCount) < 3)
  }

  function AfterProbes(p: Peer, probes: seq<Probe>): Peer {
    if probes == [] then p else AfterProbe(AfterProbes(p, probes[..|probes| - 1]), probes[|probes| - 1])
  }

  /** How many probes have failed since the last that did not. */
  function Trailing(probes: seq<Probe>): nat {
    if probes == [] || probes[|probes| - 1].healthy then 0 else 1 + Trailing(probes[..|probes| - 1])
  }

  predicate LastThreeFailed(probes: seq<Probe>) {
    |probes| >= 3 && forall i :: |probes| - 3 <= i < |probes| ==> !probes[i].healthy
  }

  lemma TrailingThree(probes: seq<Probe>)
    ensures Trailing(probes) >= 3 <==> LastThreeFailed(probes)
  {
    var n := |probes|;
    if n >= 1 && !probes[n - 1].healthy {
      var front := probes[..n - 1];
      if n >= 2 && !probes[n - 2].healthy {
        assert front[n - 2] == probes[n - 2];
        var rest := front[..n - 2];
        assert Trailing(front) == 1 + Trailing(rest);
        if n >= 3 {
          assert rest[n - 3] == probes[n - 3];
        }
      }
    }
  }

  lemma NextOfRemainder(n: nat)
    ensures Next32(n % 0x1_0000_0000) == (n + 1) % 0x1_0000_0000
    ensures n < 3 ==> n % 0x1_0000_0000 == n && Next32(n % 0x1_0000_0000) == n + 1
  {}

  lemma {:induction false} CountFollowsProbes(p: Peer, probes: seq<Probe>)
    requires p.isHealthy && p.failCount == 0
    ensures var q := AfterProbes(p, probes);
            && q.failCount == Trailing(probes) % 0x1_0000_0000
            && (q.isHealthy <==> Trailing(probes) < 3)
  {
    if probes != [] {
      var front := probes[..|probes| - 1];
      CountFollowsProbes(p, front);
      NextOfRemainder(Trailing(front));
    }
  }

  /**
   A gateway that starts healthy with no failures is unhealthy exactly when its last three probes failed,
   however often its 32-bit count of failures has wrapped since.
   */
  lemma UnhealthyExactlyAfterThree(p: Peer, probes: seq<Probe>)
    requires p.isHealthy && p.failCount == 0
    ensures !AfterProbes(p, probes).isHealthy <==> LastThreeFailed(probes)
  {
    CountFollowsProbes(p, probes);
    TrailingThree(probes);
  }

  /** The latency is that of the last probe that did not fail, or what it was before any. */
  lemma {:induction false} LatencyIsOfLastSuccess(p: Peer, probes: seq<Probe>)
    ensures Trailing(probes) <= |probes|
    ensures AfterProbes(p, probes).latency ==
            if Trailing(probes) == |probes| then p.latency else probes[|probes| - 1 - Trailing(probes)].rtt
    ensures Trailing(probes) < |probes| ==> probes[|probes| - 1 - Trailing(probes)].healthy
    ensures forall i :: |probes| - Trailing(probes) <= i < |probes| ==> !probes[i].healthy
  {
    if probes != [] {
      LatencyIsOfLastSuccess(p, probes[..|probes| - 1]);
    }
  }

  // ---- the table ----------------------------------------------------------------------------------

  /** The gateways of every route, and the epoch. */
  datatype Table = Table(peers: map<string, seq<Peer>>, epoch: uint64)

  datatype Event = Added(id: string, peers: seq<Peer>) | Probed(id: string, nodeId: string, probe: Probe)

  /** A gateway that comes unhealthy but without failures is taken for healthy. */
  function Fixed(p: Peer): Peer {
    if !p.isHealthy && p.failCount == 0 then p.(isHealthy := true) else p
  }

  /** Nothing else of it changes, and a gateway with failures keeps its health. */
  lemma FixedMeans(p: Peer)
    ensures var q := Fixed(p);
            && (q.isHealthy <==> p.isHealthy || p.failCount == 0)
            && q.nodeId == p.nodeId && q.priority == p.priority && q.latency == p.latency && q.failCount == p.failCount
  {}

  function FixedAll(ps: seq<Peer>): seq<Peer> {
    seq(|ps|, i requires 0 <= i < |ps| => Fixed(ps[i]))
  }

  /** The place of the first gateway of a node, or the number of gateways. */
  function FirstOf(ps: seq<Peer>, nodeId: string): (i: nat)
    ensures i <= |ps| && forall j :: 0 <= j < i ==> ps[j].nodeId != nodeId
    ensures i < |ps| ==> ps[i].nodeId == nodeId
  {
    if ps == [] || ps[0].nodeId == nodeId then 0 else 1 + FirstOf(ps[1..], nodeId)
  }

  lemma FirstIs(ps: seq<Peer>, nodeId: string, i: nat)
    requires i < |ps| && ps[i].nodeId == nodeId && forall k :: 0 <= k < i ==> ps[k].nodeId != nodeId
    ensures FirstOf(ps, nodeId) == i
  {}

  lemma NoneOf(ps: seq<Peer>, nodeId: string)
    requires forall k :: 0 <= k < |ps| ==> ps[k].nodeId != nodeId
    ensures FirstOf(ps, nodeId) == |ps|
  {}

  /** Only the first gateway of the node is probed. */
  function ProbedPeers(ps: seq<Peer>, nodeId: string, probe: Probe): seq<Peer> {
    var i := FirstOf(ps, nodeId);
    if i < |ps| then ps[i := AfterProbe(ps[i], probe)] else ps
  }

  predicate Flips(ps: seq<Peer>, nodeId: string, probe: Probe) {
    var i := FirstOf(ps, nodeId);
    i < |ps| && AfterProbe(ps[i], probe).isHealthy != ps[i].isHealthy
  }

  function Step(t: Table, e: Event): Table {
    match e
    case Added(id, ps) => if id in t.peers then t else Table(t.peers[id := FixedAll(ps)], NextEpoch(t.epoch))
    case Probed(id, nodeId, probe) =>
      if id !in t.peers then t
      else
        Table(t.peers[id := ProbedPeers(t.peers[id], nodeId, probe)],
              if Flips(t.peers[id], nodeId, probe) then NextEpoch(t.epoch) else t.epoch)
  }

  function Run(t: Table, es: seq<Event>): Table {
    if es == [] then t else Step(Run(t, es[..|es| - 1]), es[|es| - 1])
  }

  /** The health of some gateway differs between two tables. */
  ghost predicate HealthDiffers(t: Table, u: Table) {
    exists id, i ::
      && id in t.peers && id in u.peers && 0 <= i < |t.peers[id]| && i < |u.peers[id]|
      && t.peers[id][i].isHealthy != u.peers[id][i].isHealthy
  }

  /** A probe advances the epoch exactly when it flips some gateway's health. */
  lemma EpochRisesExactlyOnFlips(t: Table, id: string, nodeId: string, probe: Probe)
    ensures var u := Step(t, Probed(id, nodeId, probe));
            && (HealthDiffers(t, u) <==> u.epoch != t.epoch)
            && (HealthDiffers(t, u) ==> u.epoch == NextEpoch(t.epoch))
            && u.peers.Keys == t.peers.Keys
  {
    var u := Step(t, Probed(id, nodeId, probe));
    if id in t.peers && Flips(t.peers[id], nodeId, probe) {
      var i := FirstOf(t.peers[id], nodeId);
      assert t.peers[id][i].isHealthy != u.peers[id][i].isHealthy;
    }
  }

  // ---- histories ---------------------------------------------------------------------------------------

  /** The probes of one gateway in a history. */
  function ProbesOf(es: seq<Event>, id: string, nodeId: string): seq<Probe> {
    if es == [] then []
    else
      var e, before := es[|es| - 1], ProbesOf(es[..|es| - 1], id, nodeId);
      if e.Probed? && e.id == id && e.nodeId == nodeId then before + [e.probe] else before
  }

  predicate DistinctNodes(ps: seq<Peer>) {
    forall i, j :: 0 <= i < j < |ps| ==> ps[i].nodeId != ps[j].nodeId
  }

  lemma {:induction false} NodeIsKept(p: Peer, probes: seq<Probe>)
    ensures AfterProbes(p, probes).nodeId == p.nodeId && AfterProbes(p, probes).priority == p.priority
  {
    if probes != [] {
      NodeIsKept(p, probes[..|probes| - 1]);
    }
  }

  /** What a gateway is after the probes of a history. */
  function PeerAfter(p: Peer, id: string, es: seq<Event>): Peer {
    AfterProbes(p, ProbesOf(es, id, p.nodeId))
  }

  lemma PeerAfterNext(p: Peer, id: string, es: seq<Event>, e: Event)
    ensures PeerAfter(p, id, es + [e]) ==
            if e.Probed? && e.id == id && e.nodeId == p.nodeId then AfterProbe(PeerAfter(p, id, es), e.probe)
            else PeerAfter(p, id, es)
  {
    var probes := ProbesOf(es, id, p.nodeId);
    assert (es + [e])[..|es|] == es;
    if e.Probed? && e.id == id && e.nodeId == p.nodeId {
      assert (probes + [e.probe])[..|probes|] == probes;
    }
  }

  lemma ProbedPeersAt(ps: seq<Peer>, nodeId: string, probe: Probe, i: nat)
    requires DistinctNodes(ps) && i < |ps|
    ensures |ProbedPeers(ps, nodeId, probe)| == |ps|
    ensures ProbedPeers(ps, nodeId, probe)[i] == if ps[i].nodeId == nodeId then AfterProbe(ps[i], probe) else ps[i]
  {}

  /** Each gateway of a route goes by its own probes alone. */
  lemma {:induction false} GatewaysGoByTheirProbes(t: Table, id: string, es: seq<Event>)
    requires id in t.peers && DistinctNodes(t.peers[id])
    ensures var ps, qs := t.peers[id], Run(t, es).peers;
            && id in qs && |qs[id]| == |ps|
            && forall i :: 0 <= i < |ps| ==> qs[id][i] == PeerAfter(ps[i], id, es)
  {
    if es != [] {
      var front, e := es[..|es| - 1], es[|es| - 1];
      GatewaysGoByTheirProbes(t, id, front);
      StepOfGateways(t.peers[id], id, front, Run(t, front), e);
      assert front + [e] == es;
    }
  }

  lemma StepAtRoute(t: Table, id: string, e: Event)
    requires id in t.peers
    ensures id in Step(t, e).peers
    ensures Step(t, e).peers[id] ==
            if e.Probed? && e.id == id then ProbedPeers(t.peers[id], e.nodeId, e.probe) else t.peers[id]
  {}

  lemma StepOfGateways(ps: seq<Peer>, id: string, es: seq<Event>, t: Table, e: Event)
    requires DistinctNodes(ps) && id in t.peers && |t.peers[id]| == |ps|
    requires forall i :: 0 <= i < |ps| ==> t.peers[id][i] == PeerAfter(ps[i], id, es)
    ensures var qs := Step(t, e).peers;
            && id in qs && |qs[id]| == |ps|
            && forall i :: 0 <= i < |ps| ==> qs[id][i] == PeerAfter(ps[i], id, es + [e])
  {
    var qs := t.peers[id];
    forall i | 0 <= i < |ps|
      ensures qs[i].nodeId == ps[i].nodeId
    {
      NodeIsKept(ps[i], ProbesOf(es, id, ps[i].nodeId));
    }
    assert DistinctNodes(qs);
    StepAtRoute(t, id, e);
    var next := Step(t, e).peers[id];
    forall i | 0 <= i < |ps|
      ensures next[i] == PeerAfter(ps[i], id, es + [e])
    {
      PeerAfterNext(ps[i], id, es, e);
      if e.Probed? {
        ProbedPeersAt(qs, e.nodeId, e.probe, i);
      }
    }
  }

  /**
   Over every history after a route is added with distinct nodes and no failures counted, a gateway is
   unhealthy exactly when the last three probes of its node on that route failed.
   */
  lemma UnhealthyExactlyAfterThreeFailures(t: Table, id: string, ps: seq<Peer>, es: seq<Event>, i: nat)
    requires id !in t.peers && DistinctNodes(ps) && (forall p :: p in ps ==> p.failCount == 0) && i < |ps|
    ensures var qs := Run(Step(t, Added(id, ps)), es).peers;
            && id in qs && |qs[id]| == |ps| && qs[id][i].nodeId == ps[i].nodeId
            && (!qs[id][i].isHealthy <==> LastThreeFailed(ProbesOf(es, id, ps[i].nodeId)))
            && (ProbesOf(es, id, ps[i].nodeId) == [] ==> qs[id][i].latency == ps[i].latency)
  {
    var u := Step(t, Added(id, ps));
    GatewaysGoByTheirProbes(u, id, es);
    UnhealthyExactlyAfterThree(u.peers[id][i], ProbesOf(es, id, ps[i].nodeId));
    NodeIsKept(u.peers[id][i], ProbesOf(es, id, ps[i].nodeId));
  }
}
