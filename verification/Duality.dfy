/**
 What the compiled tables mean: each agrees with a direct reading of the policies, and the sender's
 outbound table agrees with the receiver's inbound table (pkg/acl/engine.go:300-483).
 */
module Duality {
  import opened Bytes
  import opened Engine
  import opened Policy
  import opened Results

  /** One of the groups lists the node. */
  ghost predicate Listed(groups: map<string, PeerGroup>, gs: seq<string>, node: string) {
    exists i :: 0 <= i < |gs| && node in ListedPeers(groups, gs[i])
  }

  /** The policy lets `self` open connections to `peer`. */
  ghost predicate RelatesOut(p: PolicyRule, groups: map<string, PeerGroup>, memberOf: seq<string>, peer: string) {
    p.enabled
    && (|| (InAnyGroup(memberOf, p.sourceGroups) && Listed(groups, p.destGroups, peer))
        || (p.bidirectional && InAnyGroup(memberOf, p.destGroups) && Listed(groups, p.sourceGroups, peer)))
  }

  /** The policy lets `peer` open connections to `self`. */
  ghost predicate RelatesIn(p: PolicyRule, groups: map<string, PeerGroup>, memberOf: seq<string>, peer: string) {
    p.enabled
    && (|| (InAnyGroup(memberOf, p.destGroups) && Listed(groups, p.sourceGroups, peer))
        || (p.bidirectional && InAnyGroup(memberOf, p.sourceGroups) && Listed(groups, p.destGroups, peer)))
  }

  /** The node has this address, and no other node has it. */
  ghost predicate OnlyHolder(lookup: NodeLookup, node: string, vip: Vip) {
    && lookup(node).Some? && lookup(node).value.vip == Some(vip)
    && forall n :: lookup(n).Some? && lookup(n).value.vip == Some(vip) ==> n == node
  }

  // ---- from blocks to tables ---------------------------------------------------------------

  lemma {:induction false} BlockVerdict(items: seq<RuleItem>, peer: Vip, directional: bool, vip: Vip, protocol: string, port: uint16)
    ensures FirstMatch(Block(items, peer, directional), vip, protocol, port)
         == if peer == vip then ItemsVerdict(items, protocol, port) else NoMatch
  {
    if |items| > 0 {
      assert Block(items, peer, directional)[1..] == Block(items[1..], peer, directional);
      BlockVerdict(items[1..], peer, directional, vip, protocol, port);
    }
  }

  lemma {:induction false} PeerBlocksVerdict(p: PolicyRule, peers: seq<string>, self: string, lookup: NodeLookup,
                                             directional: bool, node: string, vip: Vip, protocol: string, port: uint16)
    requires OnlyHolder(lookup, node, vip) && self != node
    ensures FirstMatch(PeerBlocks(p, peers, self, lookup, directional), vip, protocol, port)
         == if node in peers then ItemsVerdict(p.rules, protocol, port) else NoMatch
  {
    if |peers| > 0 {
      var front, last := peers[..|peers| - 1], peers[|peers| - 1];
      assert peers == front + [last];
      PeerBlocksVerdict(p, front, self, lookup, directional, node, vip, protocol, port);
      if last != self && lookup(last).Some? && lookup(last).value.vip.Some? {
        BlockVerdict(p.rules, lookup(last).value.vip.value, directional, vip, protocol, port);
      }
      FirstMatchOfConcat(PeerBlocks(p, front, self, lookup, directional), PeerBlock(p, last, self, lookup, directional),
                         vip, protocol, port);
    }
  }

  lemma {:induction false} GroupBlocksVerdict(p: PolicyRule, gs: seq<string>, groups: map<string, PeerGroup>, self: string,
                                              lookup: NodeLookup, directional: bool, node: string, vip: Vip,
                                              protocol: string, port: uint16)
    requires OnlyHolder(lookup, node, vip) && self != node
    ensures FirstMatch(GroupBlocks(p, gs, groups, self, lookup, directional), vip, protocol, port)
         == if Listed(groups, gs, node) then ItemsVerdict(p.rules, protocol, port) else NoMatch
  {
    if |gs| > 0 {
      var front, last := gs[..|gs| - 1], gs[|gs| - 1];
      GroupBlocksVerdict(p, front, groups, self, lookup, directional, node, vip, protocol, port);
      PeerBlocksVerdict(p, ListedPeers(groups, last), self, lookup, directional, node, vip, protocol, port);
      FirstMatchOfConcat(GroupBlocks(p, front, groups, self, lookup, directional),
                         PeerBlocks(p, ListedPeers(groups, last), self, lookup, directional), vip, protocol, port);
      ListedInFront(groups, gs, node);
    }
  }

  lemma ListedInFront(groups: map<string, PeerGroup>, gs: seq<string>, node: string)
    requires |gs| > 0
    ensures Listed(groups, gs, node)
       <==> Listed(groups, gs[..|gs| - 1], node) || node in ListedPeers(groups, gs[|gs| - 1])
  {
    if Listed(groups, gs[..|gs| - 1], node) {
      var i :| 0 <= i < |gs| - 1 && node in ListedPeers(groups, gs[..|gs| - 1][i]);
      assert gs[i] == gs[..|gs| - 1][i];
    }
    if Listed(groups, gs, node) && node !in ListedPeers(groups, gs[|gs| - 1]) {
      var i :| 0 <= i < |gs| && node in ListedPeers(groups, gs[i]);
      assert gs[i] == gs[..|gs| - 1][i];
    }
  }

  /** Two sets of blocks of one policy, in either order and repeated, decide as the policy does. */
  lemma TwoSides(p: PolicyRule, first: seq<FilterRule>, second: seq<FilterRule>, a: bool, b: bool,
                 vip: Vip, protocol: string, port: uint16)
    requires FirstMatch(first, vip, protocol, port) == if a then ItemsVerdict(p.rules, protocol, port) else NoMatch
    requires FirstMatch(second, vip, protocol, port) == if b then ItemsVerdict(p.rules, protocol, port) else NoMatch
    ensures FirstMatch(first + second, vip, protocol, port)
         == if a || b then ItemsVerdict(p.rules, protocol, port) else NoMatch
  {
    FirstMatchOfConcat(first, second, vip, protocol, port);
  }

  lemma PolicyOutboundVerdict(p: PolicyRule, memberOf: seq<string>, groups: map<string, PeerGroup>, self: string,
                              lookup: NodeLookup, node: string, vip: Vip, protocol: string, port: uint16)
    requires OnlyHolder(lookup, node, vip) && self != node
    ensures FirstMatch(PolicyOutbound(p, memberOf, groups, self, lookup), vip, protocol, port)
         == if RelatesOut(p, groups, memberOf, node) then ItemsVerdict(p.rules, protocol, port) else NoMatch
  {
    GroupBlocksVerdict(p, p.destGroups, groups, self, lookup, !p.bidirectional, node, vip, protocol, port);
    GroupBlocksVerdict(p, p.sourceGroups, groups, self, lookup, false, node, vip, protocol, port);
    var isSource, isDest := InAnyGroup(memberOf, p.sourceGroups), p.bidirectional && InAnyGroup(memberOf, p.destGroups);
    TwoSides(p, if isSource then GroupBlocks(p, p.destGroups, groups, self, lookup, !p.bidirectional) else [],
             if isDest then GroupBlocks(p, p.sourceGroups, groups, self, lookup, false) else [],
             isSource && Listed(groups, p.destGroups, node), isDest && Listed(groups, p.sourceGroups, node),
             vip, protocol, port);
  }

  lemma PolicyInboundVerdict(p: PolicyRule, memberOf: seq<string>, groups: map<string, PeerGroup>, self: string,
                             lookup: NodeLookup, node: string, vip: Vip, protocol: string, port: uint16)
    requires OnlyHolder(lookup, node, vip) && self != node
    ensures FirstMatch(PolicyInbound(p, memberOf, groups, self, lookup), vip, protocol, port)
         == if RelatesIn(p, groups, memberOf, node) then ItemsVerdict(p.rules, protocol, port) else NoMatch
  {
    GroupBlocksVerdict(p, p.sourceGroups, groups, self, lookup, !p.bidirectional, node, vip, protocol, port);
    GroupBlocksVerdict(p, p.destGroups, groups, self, lookup, false, node, vip, protocol, port);
    var isDest, isSource := InAnyGroup(memberOf, p.destGroups), p.bidirectional && InAnyGroup(memberOf, p.sourceGroups);
    TwoSides(p, if isDest then GroupBlocks(p, p.sourceGroups, groups, self, lookup, !p.bidirectional) else [],
             if isSource then GroupBlocks(p, p.destGroups, groups, self, lookup, false) else [],
             isDest && Listed(groups, p.sourceGroups, node), isSource && Listed(groups, p.destGroups, node),
             vip, protocol, port);
  }

  // ---- compilation preserves meaning -----------------------------------------------------------

  /** The compiled outbound table decides every destination as a direct reading of the policies does. */
  lemma {:induction false} OutboundMeansPolicies(ps: seq<PolicyRule>, memberOf: seq<string>, groups: map<string, PeerGroup>,
                                                 self: string, lookup: NodeLookup, node: string, vip: Vip,
                                                 protocol: string, port: uint16)
    requires OnlyHolder(lookup, node, vip) && self != node
    ensures FirstMatch(Outbound(ps, memberOf, groups, self, lookup), vip, protocol, port)
         == DirectVerdict(ps, p => RelatesOut(p, groups, memberOf, node), protocol, port)
  {
    if |ps| > 0 {
      var front, last := ps[..|ps| - 1], ps[|ps| - 1];
      OutboundMeansPolicies(front, memberOf, groups, self, lookup, node, vip, protocol, port);
      PolicyOutboundVerdict(last, memberOf, groups, self, lookup, node, vip, protocol, port);
      FirstMatchOfConcat(Outbound(front, memberOf, groups, self, lookup),
                         PolicyOutbound(last, memberOf, groups, self, lookup), vip, protocol, port);
    }
  }

  /** And so does the compiled inbound table for every source. */
  lemma {:induction false} InboundMeansPolicies(ps: seq<PolicyRule>, memberOf: seq<string>, groups: map<string, PeerGroup>,
                                                self: string, lookup: NodeLookup, node: string, vip: Vip,
                                                protocol: string, port: uint16)
    requires OnlyHolder(lookup, node, vip) && self != node
    ensures FirstMatch(Inbound(ps, memberOf, groups, self, lookup), vip, protocol, port)
         == DirectVerdict(ps, p => RelatesIn(p, groups, memberOf, node), protocol, port)
  {
    if |ps| > 0 {
      var front, last := ps[..|ps| - 1], ps[|ps| - 1];
      InboundMeansPolicies(front, memberOf, groups, self, lookup, node, vip, protocol, port);
      PolicyInboundVerdict(last, memberOf, groups, self, lookup, node, vip, protocol, port);
      FirstMatchOfConcat(Inbound(front, memberOf, groups, self, lookup),
                         PolicyInbound(last, memberOf, groups, self, lookup), vip, protocol, port);
    }
  }

  /**
   The compiled outbound table lets a packet out exactly when, in the order of the policies, the first item
   that covers the packet, of a policy that is enabled and lets `self` reach `node`, accepts.
   */
  lemma OutboundAcceptsExactly(ps: seq<PolicyRule>, memberOf: seq<string>, groups: map<string, PeerGroup>,
                               self: string, lookup: NodeLookup, node: string, vip: Vip, protocol: string, port: uint16)
    requires OnlyHolder(lookup, node, vip) && self != node
    ensures var related := p => RelatesOut(p, groups, memberOf, node);
            Accepts(Outbound(ps, memberOf, groups, self, lookup), vip, protocol, port) <==>
            exists j: nat, k: nat :: SpeaksFirst(ps, related, j, k, protocol, port) && ps[j].rules[k].action == "ACCEPT"
  {
    FirstMatchExactly(Outbound(ps, memberOf, groups, self, lookup), vip, protocol, port);
    OutboundMeansPolicies(ps, memberOf, groups, self, lookup, node, vip, protocol, port);
    DirectVerdictExactly(ps, p => RelatesOut(p, groups, memberOf, node), protocol, port);
  }

  lemma MembershipMeans(memberOf: seq<string>, gs: seq<string>)
    ensures InAnyGroup(memberOf, gs) <==> exists g :: g in gs && (g == "group:all" || g in memberOf)
  {
    if i :| 0 <= i < |gs| && IsMember(memberOf, gs[i]) {
      assert gs[i] in gs;
    }
    if g :| g in gs && (g == "group:all" || g in memberOf) {
      var i :| 0 <= i < |gs| && gs[i] == g;
      assert IsMember(memberOf, gs[i]);
    }
  }

  lemma ListingMeans(groups: map<string, PeerGroup>, gs: seq<string>, node: string)
    ensures Listed(groups, gs, node) <==> exists g :: g in gs && g in groups && node in groups[g].peers
  {
    if g :| g in gs && g in groups && node in groups[g].peers {
      var i :| 0 <= i < |gs| && gs[i] == g;
      assert node in ListedPeers(groups, gs[i]);
    }
  }

  /**
   An enabled policy lets `self` reach `node` when `self` belongs to a source group and `node` is listed in a
   destination group, and the other way round only when the policy is bidirectional.
   */
  lemma RelationMeans(p: PolicyRule, groups: map<string, PeerGroup>, memberOf: seq<string>, node: string)
    ensures var inSource, inDest := exists g :: g in p.sourceGroups && (g == "group:all" || g in memberOf),
                                    exists g :: g in p.destGroups && (g == "group:all" || g in memberOf);
            var fromSource, fromDest := exists g :: g in p.sourceGroups && g in groups && node in groups[g].peers,
                                        exists g :: g in p.destGroups && g in groups && node in groups[g].peers;
            && (RelatesOut(p, groups, memberOf, node) <==>
                  p.enabled && ((inSource && fromDest) || (p.bidirectional && inDest && fromSource)))
            && (RelatesIn(p, groups, memberOf, node) <==>
                  p.enabled && ((inDest && fromSource) || (p.bidirectional && inSource && fromDest)))
  {
    MembershipMeans(memberOf, p.sourceGroups);
    MembershipMeans(memberOf, p.destGroups);
    ListingMeans(groups, p.sourceGroups, node);
    ListingMeans(groups, p.destGroups, node);
  }

  // ---- what a compiled rule may say ---------------------------------------------------------------

  /** The rule passes one item of the policy on, to another node's address, marked by whether the policy goes one way. */
  ghost predicate ComesFrom(r: FilterRule, p: PolicyRule, self: string, lookup: NodeLookup) {
    && r.directional == !p.bidirectional
    && (exists k :: 0 <= k < |p.rules| && r.protocol == p.rules[k].protocol && r.portRanges == p.rules[k].portRanges
                    && r.action == p.rules[k].action)
    && exists n :: n != self && lookup(n).Some? && lookup(n).value.vip == Some(r.peer)
  }

  lemma {:induction false} PeerBlocksComeFrom(p: PolicyRule, peers: seq<string>, self: string, lookup: NodeLookup, r: FilterRule)
    requires r in PeerBlocks(p, peers, self, lookup, !p.bidirectional)
    ensures ComesFrom(r, p, self, lookup)
  {
    var last := peers[|peers| - 1];
    if r in PeerBlocks(p, peers[..|peers| - 1], self, lookup, !p.bidirectional) {
      PeerBlocksComeFrom(p, peers[..|peers| - 1], self, lookup, r);
    } else {
      var block := PeerBlock(p, last, self, lookup, !p.bidirectional);
      var k :| 0 <= k < |block| && block[k] == r;
      assert r.protocol == p.rules[k].protocol && last != self && lookup(last).value.vip == Some(r.peer);
    }
  }

  lemma {:induction false} GroupBlocksComeFrom(p: PolicyRule, gs: seq<string>, groups: map<string, PeerGroup>, self: string,
                                               lookup: NodeLookup, r: FilterRule)
    requires r in GroupBlocks(p, gs, groups, self, lookup, !p.bidirectional)
    ensures ComesFrom(r, p, self, lookup)
  {
    if r in GroupBlocks(p, gs[..|gs| - 1], groups, self, lookup, !p.bidirectional) {
      GroupBlocksComeFrom(p, gs[..|gs| - 1], groups, self, lookup, r);
    } else {
      PeerBlocksComeFrom(p, ListedPeers(groups, gs[|gs| - 1]), self, lookup, r);
    }
  }

  /** No compiled rule is for the node itself, and each carries what its policy says. */
  lemma PolicyRulesComeFrom(p: PolicyRule, memberOf: seq<string>, groups: map<string, PeerGroup>, self: string,
                            lookup: NodeLookup, r: FilterRule)
    requires r in PolicyOutbound(p, memberOf, groups, self, lookup) || r in PolicyInbound(p, memberOf, groups, self, lookup)
    ensures p.enabled && ComesFrom(r, p, self, lookup)
  {
    if r in GroupBlocks(p, p.destGroups, groups, self, lookup, !p.bidirectional) {
      GroupBlocksComeFrom(p, p.destGroups, groups, self, lookup, r);
    } else {
      GroupBlocksComeFrom(p, p.sourceGroups, groups, self, lookup, r);
    }
  }

  /** Likewise for the whole tables. */
  lemma {:induction false} TableRulesComeFrom(ps: seq<PolicyRule>, memberOf: seq<string>, groups: map<string, PeerGroup>,
                                              self: string, lookup: NodeLookup, r: FilterRule) returns (p: PolicyRule)
    requires r in Outbound(ps, memberOf, groups, self, lookup) || r in Inbound(ps, memberOf, groups, self, lookup)
    ensures p in ps && p.enabled && ComesFrom(r, p, self, lookup)
  {
    var front, last := ps[..|ps| - 1], ps[|ps| - 1];
    if r in Outbound(front, memberOf, groups, self, lookup) || r in Inbound(front, memberOf, groups, self, lookup) {
      p := TableRulesComeFrom(front, memberOf, groups, self, lookup, r);
      assert p in front;
    } else {
      p := last;
      PolicyRulesComeFrom(last, memberOf, groups, self, lookup, r);
    }
  }

  // ---- the two ends agree --------------------------------------------------------------------------

  /** The server answers a lookup with the groups GetPeerGroups reports. */
  ghost predicate ServesGroups(lookup: NodeLookup, groups: map<string, PeerGroup>, node: string) {
    && lookup(node).Some?
    && forall g :: g in lookup(node).value.groups <==> g in groups && (g == GROUP_ALL || node in groups[g].peers)
  }

  ghost predicate ListedAnywhere(groups: map<string, PeerGroup>, node: string) {
    exists g :: g in groups && node in groups[g].peers
  }

  /** Both nodes are listed in group:all, or neither is listed in any group. */
  ghost predicate ListedAlike(groups: map<string, PeerGroup>, a: string, b: string) {
    || (a in ListedPeers(groups, GROUP_ALL) && b in ListedPeers(groups, GROUP_ALL))
    || (!ListedAnywhere(groups, a) && !ListedAnywhere(groups, b))
  }

  /** For a node listed in group:all, and for one listed nowhere against its like, membership is listing. */
  lemma MemberIsListed(groups: map<string, PeerGroup>, lookup: NodeLookup, node: string, gs: seq<string>)
    requires ServesGroups(lookup, groups, node)
    ensures Listed(groups, gs, node) ==> InAnyGroup(lookup(node).value.groups, gs)
    ensures node in ListedPeers(groups, GROUP_ALL) && InAnyGroup(lookup(node).value.groups, gs) ==> Listed(groups, gs, node)
  {
    if Listed(groups, gs, node) {
      var i :| 0 <= i < |gs| && node in ListedPeers(groups, gs[i]);
      assert IsMember(lookup(node).value.groups, gs[i]);
    }
    if node in ListedPeers(groups, GROUP_ALL) && InAnyGroup(lookup(node).value.groups, gs) {
      var i :| 0 <= i < |gs| && IsMember(lookup(node).value.groups, gs[i]);
      assert node in ListedPeers(groups, gs[i]);
    }
  }

  lemma RelationIsMutual(p: PolicyRule, groups: map<string, PeerGroup>, lookup: NodeLookup, a: string, b: string)
    requires ServesGroups(lookup, groups, a) && ServesGroups(lookup, groups, b) && ListedAlike(groups, a, b)
    ensures RelatesOut(p, groups, lookup(a).value.groups, b) <==> RelatesIn(p, groups, lookup(b).value.groups, a)
  {
    MemberIsListed(groups, lookup, a, p.sourceGroups);
    MemberIsListed(groups, lookup, a, p.destGroups);
    MemberIsListed(groups, lookup, b, p.sourceGroups);
    MemberIsListed(groups, lookup, b, p.destGroups);
    if !ListedAnywhere(groups, a) && !ListedAnywhere(groups, b) {
      forall gs
        ensures !Listed(groups, gs, a) && !Listed(groups, gs, b)
      {}
    }
  }

  lemma {:induction false} SameRelationSameVerdict(ps: seq<PolicyRule>, f: PolicyRule -> bool, g: PolicyRule -> bool,
                                                   protocol: string, port: uint16)
    requires forall p :: f(p) == g(p)
    ensures DirectVerdict(ps, f, protocol, port) == DirectVerdict(ps, g, protocol, port)
  {
    if |ps| > 0 {
      SameRelationSameVerdict(ps[..|ps| - 1], f, g, protocol, port);
    }
  }

  /** The verdict at a's outbound table for b, and at b's inbound table for a. */
  ghost predicate EndsAgree(ps: seq<PolicyRule>, groups: map<string, PeerGroup>, lookup: NodeLookup,
                            a: string, va: Vip, b: string, vb: Vip, protocol: string, port: uint16)
    requires lookup(a).Some? && lookup(b).Some?
  {
    FirstMatch(Outbound(ps, lookup(a).value.groups, groups, a, lookup), vb, protocol, port)
    == FirstMatch(Inbound(ps, lookup(b).value.groups, groups, b, lookup), va, protocol, port)
  }

  /** Sender and receiver reach the same verdict, though their tables repeat rules differently. */
  lemma CompilerDuality(ps: seq<PolicyRule>, groups: map<string, PeerGroup>, lookup: NodeLookup,
                        a: string, va: Vip, b: string, vb: Vip, protocol: string, port: uint16)
    requires a != b && OnlyHolder(lookup, a, va) && OnlyHolder(lookup, b, vb)
    requires ServesGroups(lookup, groups, a) && ServesGroups(lookup, groups, b)
    requires ListedAlike(groups, a, b)
    ensures EndsAgree(ps, groups, lookup, a, va, b, vb, protocol, port)
  {
    OutboundMeansPolicies(ps, lookup(a).value.groups, groups, a, lookup, b, vb, protocol, port);
    InboundMeansPolicies(ps, lookup(b).value.groups, groups, b, lookup, a, va, protocol, port);
    var f := p => RelatesOut(p, groups, lookup(a).value.groups, b);
    var g := p => RelatesIn(p, groups, lookup(b).value.groups, a);
    forall p
      ensures f(p) == g(p)
    {
      RelationIsMutual(p, groups, lookup, a, b);
    }
    SameRelationSameVerdict(ps, f, g, protocol, port);
  }

  // ---- and only then -------------------------------------------------------------------------------

  /** Accept everything from one group to another. */
  function OpenPolicy(source: string, dest: string): PolicyRule {
    PolicyRule("open", true, [source], [dest], [RuleItem(PROTOCOL_ALL, [PortRange(1, 65535)], ACTION_ACCEPT)], false)
  }

  lemma OpenPolicyVerdicts(source: string, dest: string, groups: map<string, PeerGroup>, lookup: NodeLookup,
                           a: string, va: Vip, b: string, vb: Vip, port: uint16)
    requires a != b && OnlyHolder(lookup, a, va) && OnlyHolder(lookup, b, vb) && port > 0
    ensures var p := OpenPolicy(source, dest);
            EndsAgree([p], groups, lookup, a, va, b, vb, "TCP", port)
            <==> (RelatesOut(p, groups, lookup(a).value.groups, b) <==> RelatesIn(p, groups, lookup(b).value.groups, a))
  {
    var p := OpenPolicy(source, dest);
    OutboundMeansPolicies([p], lookup(a).value.groups, groups, a, lookup, b, vb, "TCP", port);
    InboundMeansPolicies([p], lookup(b).value.groups, groups, b, lookup, a, va, "TCP", port);
    assert p.rules[0].portRanges[0].Matches(port);
    assert ItemsVerdict(p.rules, "TCP", port) == Accept;
  }

  lemma OneGroup(groups: map<string, PeerGroup>, memberOf: seq<string>, g: string, node: string)
    ensures InAnyGroup(memberOf, [g]) <==> IsMember(memberOf, g)
    ensures Listed(groups, [g], node) <==> node in ListedPeers(groups, g)
  {
    assert [g][0] == g;
  }

  /** When the two nodes are not listed alike, one accept-all policy makes the ends disagree. */
  lemma DisagreementWitness(groups: map<string, PeerGroup>, lookup: NodeLookup, a: string, va: Vip, b: string, vb: Vip)
    returns (p: PolicyRule)
    requires a != b && OnlyHolder(lookup, a, va) && OnlyHolder(lookup, b, vb)
    requires ServesGroups(lookup, groups, a) && ServesGroups(lookup, groups, b) && GROUP_ALL in groups
    requires !ListedAlike(groups, a, b)
    ensures !EndsAgree([p], groups, lookup, a, va, b, vb, "TCP", 80)
  {
    var source, dest := GROUP_ALL, GROUP_ALL;
    if a !in groups[GROUP_ALL].peers && b !in groups[GROUP_ALL].peers {
      if ListedAnywhere(groups, a) {
        source :| source in groups && a in groups[source].peers;
      } else {
        dest :| dest in groups && b in groups[dest].peers;
      }
    }
    p := OpenPolicy(source, dest);
    OneGroup(groups, lookup(a).value.groups, source, a);
    OneGroup(groups, lookup(b).value.groups, dest, b);
    OpenPolicyVerdicts(source, dest, groups, lookup, a, va, b, vb, 80);
  }

  /** The exact condition: the two ends agree under every policy list just when the nodes are listed alike. */
  lemma DualityExactlyWhenListedAlike(groups: map<string, PeerGroup>, lookup: NodeLookup, a: string, va: Vip, b: string, vb: Vip)
    requires a != b && OnlyHolder(lookup, a, va) && OnlyHolder(lookup, b, vb)
    requires ServesGroups(lookup, groups, a) && ServesGroups(lookup, groups, b) && GROUP_ALL in groups
    ensures (forall ps, protocol, port :: EndsAgree(ps, groups, lookup, a, va, b, vb, protocol, port))
       <==> ListedAlike(groups, a, b)
  {
    if ListedAlike(groups, a, b) {
      forall ps, protocol, port
        ensures EndsAgree(ps, groups, lookup, a, va, b, vb, protocol, port)
      {
        CompilerDuality(ps, groups, lookup, a, va, b, vb, protocol, port);
      }
    } else {
      var p := DisagreementWitness(groups, lookup, a, va, b, vb);
      assert !EndsAgree([p], groups, lookup, a, va, b, vb, "TCP", 80);
    }
  }
}
