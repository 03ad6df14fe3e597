/** The route table: gateways, their health, and the choice of a next hop (pkg/routes/route.go). */
module Routes {
  import opened Bytes
  import opened Groups
  import opened Networks
  import opened Results
  import opened RouteHealth

  const ACTIVE_PASSIVE := "ACTIVE_PASSIVE"

  datatype RouteError = InvalidCidr | DuplicateRouteId

  class RoutingPeer {
    const nodeId: string
    const priority: uint16
    var isHealthy: bool
    var latency: real
    var failCount: uint32
    /** The place the object is made for: its route and its index there. */
    ghost const slot: (string, nat)

    function View(): Peer
      reads this
    {
      Peer(nodeId, priority, isHealthy, latency, failCount)
    }

    /** A copy of the given gateway, taken for healthy when it has no failures. */
    constructor (p: Peer, ghost slot: (string, nat))
      ensures View() == Fixed(p) && this.slot == slot
    {
      this.slot := slot;
      nodeId, priority, latency, failCount := p.nodeId, p.priority, p.latency, p.failCount;
      isHealthy := if !p.isHealthy && p.failCount == 0 then true else p.isHealthy;
    }

    /** The update of one gateway; changed tells whether its health flipped. */
    method Record(healthy: bool, rtt: real) returns (changed: bool)
      modifies this
      ensures View() == AfterProbe(old(View()), Probe(healthy, rtt))
      ensures changed == (isHealthy != old(isHealthy))
    {
      changed := false;
      if healthy {
        failCount := 0;
        if !isHealthy {
          isHealthy := true;
          changed := true;
        }
        latency := rtt;
      } else {
        failCount := Next32(failCount);
        if failCount >= 3 && isHealthy {
          isHealthy := false;
          changed := true;
        }
      }
    }
  }

  datatype NetworkRoute = NetworkRoute(
    id: string, networkId: string, net: IPNet, masquerade: bool, failover: string, peers: seq<RoutingPeer>,
    groups: seq<string>, enabled: bool)

  // ---- which routes and gateways may be chosen --------------------------------------------------

  predicate Eligible(r: NetworkRoute, dest: Address, memberOf: set<string>) {
    r.enabled && Targets(r.groups, memberOf) && Contains(r.net, dest)
  }

  /** A route is eligible when it is enabled, for everyone or for a group of the client's, and its network holds the address. */
  lemma EligibleExactly(r: NetworkRoute, dest: Address, clientGroups: seq<string>)
    ensures Eligible(r, dest, MemberOf(clientGroups)) <==>
      && r.enabled && Contains(r.net, dest)
      && (r.groups == [] || "group:all" in r.groups || exists g :: g in r.groups && g in clientGroups)
  {
    TargetsExactly(r.groups, clientGroups);
  }

  /** Smaller priority, or the same and smaller latency. */
  predicate Better(p: Peer, q: Peer) {
    p.priority < q.priority || (p.priority == q.priority && p.latency < q.latency)
  }

  /** The places of the healthy gateways, in order. */
  function HealthyAt(ps: seq<Peer>): (at: seq<nat>)
    ensures forall k :: 0 <= k < |at| ==> at[k] < |ps| && ps[at[k]].isHealthy
    ensures forall i :: 0 <= i < |ps| && ps[i].isHealthy ==> i in at
  {
    if ps == [] then []
    else
      var before, last := HealthyAt(ps[..|ps| - 1]), |ps| - 1;
      if ps[last].isHealthy then before + [last] else before
  }

  /** No healthy gateway at all, or the place of one. */
  datatype Selection = NoRoute | NoGateway(id: string) | Hop(id: string, gateway: nat) | IndexOutOfRange(id: string)

  /** The route has the longest mask of all that are eligible. */
  ghost predicate Longest(routes: map<string, NetworkRoute>, dest: Address, memberOf: set<string>, id: string) {
    && id in routes && Eligible(routes[id], dest, memberOf)
    && forall other :: other in routes && Eligible(routes[other], dest, memberOf) ==>
         Ones(routes[other].net) <= Ones(routes[id].net)
  }

  /** A healthy gateway that no healthy one beats. */
  ghost predicate Best(ps: seq<Peer>, i: nat) {
    && i < |ps| && ps[i].isHealthy
    && forall j :: 0 <= j < |ps| && ps[j].isHealthy ==> !Better(ps[j], ps[i])
  }

  ghost predicate RightGateway(failover: string, ps: seq<Peer>, dest: Address, s: Selection) {
    var at := HealthyAt(ps);
    if at == [] then s.NoGateway?
    else if failover == ACTIVE_PASSIVE then s.Hop? && Best(ps, s.gateway)
    else
      var idx := EcmpIndex(FlowHash(dest), |at|);
      if 0 <= idx < |at| then s.Hop? && s.gateway == at[idx] else s.IndexOutOfRange?
  }

  /** The gateways hashed over are the healthy ones, in the order of the route. */
  lemma {:induction false} HealthyAtAscends(ps: seq<Peer>)
    ensures forall j, k :: 0 <= j < k < |HealthyAt(ps)| ==> HealthyAt(ps)[j] < HealthyAt(ps)[k]
    ensures forall i: nat :: i in HealthyAt(ps) <==> i < |ps| && ps[i].isHealthy
  {
    if ps != [] {
      HealthyAtAscends(ps[..|ps| - 1]);
    }
  }

  /** The gateway chosen has the smallest priority of the healthy ones and, among those of that priority, the smallest latency. */
  lemma BestIsMinimal(ps: seq<Peer>, i: nat)
    ensures Best(ps, i) <==>
      && i < |ps| && ps[i].isHealthy
      && forall j :: 0 <= j < |ps| && ps[j].isHealthy ==>
           ps[i].priority <= ps[j].priority && (ps[i].priority == ps[j].priority ==> ps[i].latency <= ps[j].latency)
  {}

  lemma NoneHealthyExactly(ps: seq<Peer>)
    ensures HealthyAt(ps) == [] <==> forall i :: 0 <= i < |ps| ==> !ps[i].isHealthy
  {
    if HealthyAt(ps) != [] {
      assert ps[HealthyAt(ps)[0]].isHealthy;
    }
  }

  /** In the mode that hashes, the choice fails exactly for the one hash without a negative, unless it divides. */
  lemma ChoiceFailsExactly(failover: string, ps: seq<Peer>, dest: Address, s: Selection)
    requires RightGateway(failover, ps, dest, s)
    ensures s.IndexOutOfRange? <==>
            && HealthyAt(ps) != [] && failover != "ACTIVE_PASSIVE"
            && FlowHash(dest) == MIN_INT64 && -MIN_INT64 % |HealthyAt(ps)| != 0
    ensures s.NoGateway? <==> forall i :: 0 <= i < |ps| ==> !ps[i].isHealthy
  {
    NoneHealthyExactly(ps);
    FlowHashInRange(dest);
    if HealthyAt(ps) != [] {
      IndexInRangeExactly(FlowHash(dest), |HealthyAt(ps)|);
    }
  }

  lemma {:induction false} HealthyBefore(ps: seq<Peer>, k: nat)
    requires k < |HealthyAt(ps)|
    ensures |HealthyAt(ps[..HealthyAt(ps)[k]])| == k
  {
    var before, last := HealthyAt(ps[..|ps| - 1]), |ps| - 1;
    if k < |before| {
      HealthyBefore(ps[..last], k);
      assert ps[..last][..before[k]] == ps[..before[k]];
    }
  }

  /**
   With some gateway healthy, the first mode takes a healthy one of least priority, then least latency; any other
   mode the healthy one that as many healthy ones precede as the hash leaves, divided by how many are healthy.
   */
  lemma GatewayExactly(failover: string, ps: seq<Peer>, dest: Address, s: Selection)
    requires RightGateway(failover, ps, dest, s) && exists i :: 0 <= i < |ps| && ps[i].isHealthy
    ensures failover == "ACTIVE_PASSIVE" ==>
      && s.Hop? && s.gateway < |ps| && ps[s.gateway].isHealthy
      && forall j :: 0 <= j < |ps| && ps[j].isHealthy ==>
           && ps[s.gateway].priority <= ps[j].priority
           && (ps[s.gateway].priority == ps[j].priority ==> ps[s.gateway].latency <= ps[j].latency)
    ensures var h, n := FlowHash(dest), |HealthyAt(ps)|;
            n > 0 && (failover != "ACTIVE_PASSIVE" && h != -0x8000_0000_0000_0000 ==>
              && s.Hop? && s.gateway < |ps| && ps[s.gateway].isHealthy
              && |HealthyAt(ps[..s.gateway])| == (if h < 0 then -h else h) % n)
  {
    NoneHealthyExactly(ps);
    HealthyAtAscends(ps);
    if failover == ACTIVE_PASSIVE {
      BestIsMinimal(ps, s.gateway);
    } else if FlowHash(dest) != MIN_INT64 {
      FlowHashInRange(dest);
      IndexInRangeExactly(FlowHash(dest), |HealthyAt(ps)|);
      HealthyBefore(ps, EcmpIndex(FlowHash(dest), |HealthyAt(ps)|));
      assert s.gateway in HealthyAt(ps);
    }
  }

  lemma BeaterIsUnbeaten(p: Peer, q: Peer, r: Peer)
    requires Better(q, r) && !Better(p, r)
    ensures !Better(p, q)
  {}

  ghost predicate Unbeaten(ps: seq<Peer>, k: nat) {
    k < |ps| && forall j :: 0 <= j < |ps| ==> !Better(ps[j], ps[k])
  }

  /** One of them is beaten by none. */
  lemma {:induction false} UnbeatenExists(ps: seq<Peer>) returns (k: nat)
    requires |ps| > 0
    ensures Unbeaten(ps, k)
  {
    var last := |ps| - 1;
    if last == 0 {
      return 0;
    }
    var front := ps[..last];
    k := UnbeatenExists(front);
    assert forall j :: 0 <= j < last ==> front[j] == ps[j];
    if Better(ps[last], ps[k]) {
      forall j | 0 <= j < last
        ensures !Better(ps[j], ps[last])
      {
        assert !Better(front[j], front[k]);
        BeaterIsUnbeaten(ps[j], ps[last], ps[k]);
      }
      k := last;
    }
  }

  /** Of two eligible routes with the same mask length, each is for the other's network. */
  lemma TiesAreOneNetwork(routes: map<string, NetworkRoute>, dest: Address, memberOf: set<string>, id: string, other: string)
    requires Longest(routes, dest, memberOf, id) && Longest(routes, dest, memberOf, other)
    ensures routes[id].net == routes[other].net
  {
    SameLengthSameNetwork(routes[id].net, routes[other].net, dest);
  }

  // ---- the table ------------------------------------------------------------------------------------

  class RouteTable {
    var routes: map<string, NetworkRoute>
    var epoch: uint64

    /** Every gateway object was made for its place, so none is shared. */
    ghost predicate Valid()
      reads this
    {
      forall id :: id in routes ==>
        && Parsed(routes[id].net)
        && forall i :: 0 <= i < |routes[id].peers| ==> routes[id].peers[i].slot == (id, i)
    }

    ghost function Gateways(): set<RoutingPeer>
      reads this
    {
      set id, i | id in routes && 0 <= i < |routes[id].peers| :: routes[id].peers[i]
    }

    static ghost function Views(peers: seq<RoutingPeer>): seq<Peer>
      reads peers
    {
      seq(|peers|, i requires 0 <= i < |peers| reads peers => peers[i].View())
    }

    ghost function View(): Table
      reads this, Gateways()
    {
      Table(map id | id in routes :: Views(routes[id].peers), epoch)
    }

    constructor ()
      ensures Valid() && View() == Table(map[], 1)
    {
      routes, epoch := map[], 1;
    }

    /** The parsed network is none when the text is not a CIDR. */
    method AddRoute(id: string, networkId: string, net: Option<IPNet>, peers: seq<Peer>, groups: seq<string>,
                    masquerade: bool, mode: string) returns (r: Result<NetworkRoute, RouteError>)
      requires Valid() && (net.Some? ==> Parsed(net.value))
      modifies this
      ensures Valid()
      ensures net.None? ==> r == Err(InvalidCidr)
      ensures net.Some? && id in old(routes) ==> r == Err(DuplicateRouteId)
      ensures r.Err? ==> unchanged(this)
      ensures net.Some? && id !in old(routes) ==>
        && r.Ok? && routes == old(routes)[id := r.value]
        && r.value == NetworkRoute(id, networkId, net.value, masquerade, if mode == "" then ACTIVE_PASSIVE else mode,
                                   r.value.peers, groups, true)
        && View() == Step(old(View()), Added(id, peers))
    {
      if net.None? {
        return Err(InvalidCidr);
      }
      if id in routes {
        return Err(DuplicateRouteId);
      }
      var failover := if mode == "" then ACTIVE_PASSIVE else mode;
      var peerList := CopyPeers(id, peers);
      var route := NetworkRoute(id, networkId, net.value, masquerade, failover, peerList, groups, true);
      Register(route, peers, View());
      return Ok(route);
    }

    method Register(route: NetworkRoute, ghost peers: seq<Peer>, ghost t: Table)
      requires Valid() && t == View() && route.id !in routes
      requires Parsed(route.net) && Views(route.peers) == FixedAll(peers)
      requires forall i :: 0 <= i < |route.peers| ==> route.peers[i].slot == (route.id, i)
      modifies this
      ensures Valid() && routes == old(routes)[route.id := route]
      ensures View() == Step(t, Added(route.id, peers))
    {
      Insert(route, t);
      AdvanceEpoch(View());
    }

    method Insert(route: NetworkRoute, ghost t: Table)
      requires t == View()
      modifies this`routes
      ensures routes == old(routes)[route.id := route]
      ensures View() == Table(t.peers[route.id := Views(route.peers)], t.epoch)
    {
      routes := routes[route.id := route];
    }

    static method CopyPeers(id: string, peers: seq<Peer>) returns (copies: seq<RoutingPeer>)
      ensures |copies| == |peers| && fresh(copies)
      ensures forall i :: 0 <= i < |copies| ==> copies[i].slot == (id, i)
      ensures Views(copies) == FixedAll(peers)
    {
      copies := [];
      for i := 0 to |peers|
        invariant |copies| == i && fresh(copies)
        invariant forall k :: 0 <= k < i ==> copies[k].slot == (id, k) && copies[k].View() == Fixed(peers[k])
      {
        var copy := new RoutingPeer(peers[i], (id, i));
        copies := copies + [copy];
      }
    }

    /** The first gateway of the node takes the probe. */
    static method ProbeFirst(peers: seq<RoutingPeer>, nodeId: string, healthy: bool, rtt: real) returns (changed: bool)
      requires forall i, j :: 0 <= i < j < |peers| ==> peers[i] != peers[j]
      modifies peers
      ensures Views(peers) == ProbedPeers(old(Views(peers)), nodeId, Probe(healthy, rtt))
      ensures changed == Flips(old(Views(peers)), nodeId, Probe(healthy, rtt))
    {
      changed := false;
      for i := 0 to |peers|
        invariant unchanged(peers) && !changed
        invariant forall k :: 0 <= k < i ==> peers[k].nodeId != nodeId
      {
        if peers[i].nodeId == nodeId {
          ghost var before := Views(peers);
          FirstIs(before, nodeId, i);
          changed := peers[i].Record(healthy, rtt);
          return;
        }
      }
      NoneOf(Views(peers), nodeId);
    }

    method UpdatePeerHealth(routeId: string, nodeId: string, healthy: bool, rtt: real) returns (changed: bool)
      requires Valid()
      modifies this`epoch, Gateways()
      ensures Valid()
      ensures View() == Step(old(View()), Probed(routeId, nodeId, Probe(healthy, rtt)))
      ensures changed <==> HealthDiffers(old(View()), View())
    {
      ghost var t := View();
      EpochRisesExactlyOnFlips(t, routeId, nodeId, Probe(healthy, rtt));
      if routeId !in routes {
        return false;
      }
      changed := ProbeRoute(routeId, nodeId, healthy, rtt, t);
      if changed {
        AdvanceEpoch(View());
      }
    }

    method AdvanceEpoch(ghost t: Table)
      requires t == View()
      modifies this`epoch
      ensures View() == Table(t.peers, NextEpoch(t.epoch))
    {
      epoch := NextEpoch(epoch);
    }

    method ProbeRoute(id: string, nodeId: string, healthy: bool, rtt: real, ghost t: Table) returns (changed: bool)
      requires Valid() && id in routes && t == View()
      modifies Gateways()
      ensures View() == Table(t.peers[id := ProbedPeers(t.peers[id], nodeId, Probe(healthy, rtt))], t.epoch)
      ensures changed == Flips(t.peers[id], nodeId, Probe(healthy, rtt))
    {
      changed := ProbeFirst(routes[id].peers, nodeId, healthy, rtt);
      forall other | other in routes && other != id
        ensures Views(routes[other].peers) == t.peers[other]
      {
        forall i | 0 <= i < |routes[other].peers|
          ensures routes[other].peers[i] !in routes[id].peers
        {
          assert routes[other].peers[i].slot.0 != id;
        }
      }
    }

    /** An eligible route with the longest mask, then the gateway its mode asks for. */
    method SelectNextHop(dest: Address, clientGroups: seq<string>) returns (s: Selection)
      requires Valid()
      ensures s.NoRoute? <==> forall id :: id in routes ==> !Eligible(routes[id], dest, MemberOf(clientGroups))
      ensures !s.NoRoute? ==> Longest(routes, dest, MemberOf(clientGroups), s.id)
      ensures !s.NoRoute? ==> RightGateway(routes[s.id].failover, Views(routes[s.id].peers), dest, s)
    {
      var best := LongestMatch(dest, MemberOf(clientGroups));
      if best.None? {
        return NoRoute;
      }
      s := SelectGateway(best.value, dest);
    }

    /** The loop over the routes, in an arbitrary order. */
    method LongestMatch(dest: Address, memberOf: set<string>) returns (best: Option<string>)
      ensures best.None? <==> forall id :: id in routes ==> !Eligible(routes[id], dest, memberOf)
      ensures best.Some? ==> Longest(routes, dest, memberOf, best.value)
    {
      best := None;
      var bestMaskSize: int := -1;
      var rest := routes.Keys;
      while rest != {}
        invariant rest <= routes.Keys
        invariant best.None? ==> bestMaskSize == -1
        invariant best.Some? ==>
          && best.value in routes && Eligible(routes[best.value], dest, memberOf)
          && bestMaskSize == Ones(routes[best.value].net)
        invariant forall id :: id in routes && id !in rest && Eligible(routes[id], dest, memberOf) ==>
          Ones(routes[id].net) <= bestMaskSize
        decreases rest
      {
        var id :| id in rest;
        rest := rest - {id};
        var route := routes[id];
        if route.enabled {
          var authorized := IsTargeted(route.groups, memberOf);
          if authorized && Contains(route.net, dest) && Ones(route.net) > bestMaskSize {
            bestMaskSize := Ones(route.net);
            best := Some(id);
          }
        }
      }
    }

    method SelectGateway(id: string, dest: Address) returns (s: Selection)
      requires id in routes
      ensures !s.NoRoute? && s.id == id
      ensures RightGateway(routes[id].failover, Views(routes[id].peers), dest, s)
    {
      var at := HealthyPeers(routes[id].peers);
      if |at| == 0 {
        return NoGateway(id);
      }
      if routes[id].failover == ACTIVE_PASSIVE {
        var i := FirstAfterSort(routes[id].peers, at);
        return Hop(id, i);
      }
      var hash := HashFlow(dest);
      var idx := EcmpIndex(hash, |at|);
      return if 0 <= idx < |at| then Hop(id, at[idx]) else IndexOutOfRange(id);
    }

    static method HealthyPeers(peers: seq<RoutingPeer>) returns (at: seq<nat>)
      ensures at == HealthyAt(Views(peers))
    {
      at := [];
      for i := 0 to |peers|
        invariant at == HealthyAt(Views(peers)[..i])
      {
        assert Views(peers)[..i + 1][..i] == Views(peers)[..i];
        if peers[i].isHealthy {
          at := at + [i];
        }
      }
      assert Views(peers)[..|peers|] == Views(peers);
    }

    /** Sorting by priority and latency is not stable: any gateway that no other beats may come first. */
    static method FirstAfterSort(peers: seq<RoutingPeer>, at: seq<nat>) returns (i: nat)
      requires |at| > 0 && at == HealthyAt(Views(peers))
      ensures Best(Views(peers), i)
    {
      var listed := seq(|at|, j requires 0 <= j < |at| && at[j] < |peers| reads peers => peers[at[j]].View());
      assert forall j :: 0 <= j < |at| ==> listed[j] == Views(peers)[at[j]];
      ghost var _ := UnbeatenExists(listed);
      var k :| 0 <= k < |listed| && forall j :: 0 <= j < |listed| ==> !Better(listed[j], listed[k]);
      i := at[k];
    }
  }
}
