/** The policy engine and its compiler (pkg/acl/engine.go). */
module Engine {
  import opened Bytes
  import opened Policy
  import opened Results
  import opened Text

  datatype EngineError =
    | GroupNotFound | PolicyNotFound | SystemGroupLocked | NodeNotFound
    | EmptyId | NoGroups | NoRules

  // ---- the compiled tables as functions of the policies -----------------------------------

  /** A node counts as a member of group:all whether or not the group lists it. */
  predicate IsMember(groups: seq<string>, g: string) {
    g == GROUP_ALL || g in groups
  }

  predicate InAnyGroup(memberOf: seq<string>, gs: seq<string>) {
    exists i :: 0 <= i < |gs| && IsMember(memberOf, gs[i])
  }

  /** One filter rule for each rule item, all for the same peer. */
  function Block(items: seq<RuleItem>, peer: Vip, directional: bool): seq<FilterRule> {
    seq(|items|, i requires 0 <= i < |items| =>
      FilterRule(peer, items[i].protocol, items[i].portRanges, items[i].action, directional))
  }

  function PeerBlock(p: PolicyRule, peer: string, self: string, lookup: NodeLookup, directional: bool): seq<FilterRule> {
    if peer == self || lookup(peer).None? || lookup(peer).value.vip.None? then []
    else Block(p.rules, lookup(peer).value.vip.value, directional)
  }

  function PeerBlocks(p: PolicyRule, peers: seq<string>, self: string, lookup: NodeLookup, directional: bool): seq<FilterRule> {
    if |peers| == 0 then []
    else
      PeerBlocks(p, peers[..|peers| - 1], self, lookup, directional)
      + PeerBlock(p, peers[|peers| - 1], self, lookup, directional)
  }

  function ListedPeers(groups: map<string, PeerGroup>, g: string): seq<string> {
    if g in groups then groups[g].peers else []
  }

  /** The blocks of every listed member of the groups; a member of two groups comes twice. */
  function GroupBlocks(p: PolicyRule, gs: seq<string>, groups: map<string, PeerGroup>, self: string,
                       lookup: NodeLookup, directional: bool): seq<FilterRule> {
    if |gs| == 0 then []
    else
      GroupBlocks(p, gs[..|gs| - 1], groups, self, lookup, directional)
      + PeerBlocks(p, ListedPeers(groups, gs[|gs| - 1]), self, lookup, directional)
  }

  /** A group that is not there adds nothing. */
  lemma NextGroupBlock(p: PolicyRule, gs: seq<string>, i: nat, groups: map<string, PeerGroup>, self: string,
                       lookup: NodeLookup, directional: bool)
    requires i < |gs|
    ensures GroupBlocks(p, gs[..i + 1], groups, self, lookup, directional) ==
            GroupBlocks(p, gs[..i], groups, self, lookup, directional)
            + if gs[i] in groups then PeerBlocks(p, groups[gs[i]].peers, self, lookup, directional) else []
  {
    assert gs[..i + 1][..i] == gs[..i];
  }

  function PolicyOutbound(p: PolicyRule, memberOf: seq<string>, groups: map<string, PeerGroup>, self: string,
                          lookup: NodeLookup): seq<FilterRule> {
    if !p.enabled then [] else
    (if InAnyGroup(memberOf, p.sourceGroups)
     then GroupBlocks(p, p.destGroups, groups, self, lookup, !p.bidirectional) else [])
    + (if p.bidirectional && InAnyGroup(memberOf, p.destGroups)
       then GroupBlocks(p, p.sourceGroups, groups, self, lookup, false) else [])
  }

  function PolicyInbound(p: PolicyRule, memberOf: seq<string>, groups: map<string, PeerGroup>, self: string,
                         lookup: NodeLookup): seq<FilterRule> {
    if !p.enabled then [] else
    (if InAnyGroup(memberOf, p.destGroups)
     then GroupBlocks(p, p.sourceGroups, groups, self, lookup, !p.bidirectional) else [])
    + (if p.bidirectional && InAnyGroup(memberOf, p.sourceGroups)
       then GroupBlocks(p, p.destGroups, groups, self, lookup, false) else [])
  }

  function Outbound(ps: seq<PolicyRule>, memberOf: seq<string>, groups: map<string, PeerGroup>, self: string,
                    lookup: NodeLookup): seq<FilterRule> {
    if |ps| == 0 then []
    else
      Outbound(ps[..|ps| - 1], memberOf, groups, self, lookup)
      + PolicyOutbound(ps[|ps| - 1], memberOf, groups, self, lookup)
  }

  function Inbound(ps: seq<PolicyRule>, memberOf: seq<string>, groups: map<string, PeerGroup>, self: string,
                   lookup: NodeLookup): seq<FilterRule> {
    if |ps| == 0 then []
    else
      Inbound(ps[..|ps| - 1], memberOf, groups, self, lookup)
      + PolicyInbound(ps[|ps| - 1], memberOf, groups, self, lookup)
  }

  class PolicyEngine {
    var groups: map<string, PeerGroup>
    var policies: map<string, PolicyRule>
    var epoch: uint64

    /** Entries are stored under their own ID, and group:all is always there. */
    ghost predicate Valid()
      reads this
    {
      && (forall k :: k in groups ==> groups[k].id == k)
      && (forall k :: k in policies ==> policies[k].id == k)
      && GROUP_ALL in groups && groups[GROUP_ALL].isSystem
    }

    constructor ()
      ensures Valid() && epoch == 1 && policies == map[]
      ensures forall g :: g in groups ==> groups[g].isSystem && groups[g].peers == []
    {
      epoch := 1;
      policies := map[];
      groups := map g | g in {"group:all", "group:exit-nodes", "group:admin", "group:residential",
                              "group:mobile", "group:datacenter"} :: PeerGroup(g, [], true);
    }

    method UpsertGroup(g: PeerGroup) returns (r: Result<(), EngineError>)
      requires Valid()
      modifies this
      ensures Valid() && policies == old(policies)
      ensures g.id == "" ==> r == Err(EmptyId) && unchanged(this)
      ensures g.id != "" ==>
        && r == Ok(()) && epoch == NextEpoch(old(epoch))
        && groups == old(groups)[g.id := g.(isSystem := if g.id in old(groups) then old(groups)[g.id].isSystem
                                                         else g.isSystem)]
    {
      if g.id == "" {
        return Err(EmptyId);
      }
      var stored := g;
      if g.id in groups {
        stored := g.(isSystem := groups[g.id].isSystem);
      }
      groups := groups[g.id := stored];
      epoch := NextEpoch(epoch);
      return Ok(());
    }

    method DeleteGroup(groupId: string) returns (r: Result<(), EngineError>)
      requires Valid()
      modifies this
      ensures Valid() && policies == old(policies)
      ensures groupId !in old(groups) ==> r == Err(GroupNotFound) && unchanged(this)
      ensures groupId in old(groups) && old(groups)[groupId].isSystem ==> r == Err(SystemGroupLocked) && unchanged(this)
      ensures groupId in old(groups) && !old(groups)[groupId].isSystem ==>
        r == Ok(()) && groups == old(groups) - {groupId} && epoch == NextEpoch(old(epoch))
    {
      if groupId !in groups {
        return Err(GroupNotFound);
      }
      if groups[groupId].isSystem {
        return Err(SystemGroupLocked);
      }
      groups := groups - {groupId};
      epoch := NextEpoch(epoch);
      return Ok(());
    }

    /** Adding a peer that is listed already changes nothing, the epoch included. */
    method AssignPeerToGroup(groupId: string, nodeId: string) returns (r: Result<(), EngineError>)
      requires Valid()
      modifies this
      ensures Valid() && policies == old(policies)
      ensures groupId !in old(groups) ==> r == Err(GroupNotFound) && unchanged(this)
      ensures groupId in old(groups) ==> r == Ok(())
      ensures groupId in old(groups) && nodeId in old(groups)[groupId].peers ==> unchanged(this)
      ensures groupId in old(groups) && nodeId !in old(groups)[groupId].peers ==>
        && epoch == NextEpoch(old(epoch))
        && groups == old(groups)[groupId := old(groups)[groupId].(peers := old(groups)[groupId].peers + [nodeId])]
    {
      if groupId !in groups {
        return Err(GroupNotFound);
      }
      var grp := groups[groupId];
      for i := 0 to |grp.peers|
        invariant nodeId !in grp.peers[..i]
        invariant unchanged(this)
      {
        if grp.peers[i] == nodeId {
          return Ok(());
        }
      }
      groups := groups[groupId := grp.(peers := grp.peers + [nodeId])];
      epoch := NextEpoch(epoch);
      return Ok(());
    }

    static function Without(peers: seq<string>, nodeId: string): (r: seq<string>)
      ensures forall p :: p in r <==> p in peers && p != nodeId
      ensures nodeId !in peers ==> r == peers
    {
      if |peers| == 0 then []
      else
        var front := Without(peers[..|peers| - 1], nodeId);
        if peers[|peers| - 1] == nodeId then front else front + [peers[|peers| - 1]]
    }

    /** The next peer is kept or left out. */
    static lemma NextWithout(peers: seq<string>, i: nat, nodeId: string)
      requires i < |peers|
      ensures Without(peers[..i + 1], nodeId) ==
              Without(peers[..i], nodeId) + if peers[i] == nodeId then [] else [peers[i]]
      ensures nodeId in peers[..i + 1] <==> nodeId in peers[..i] || peers[i] == nodeId
    {
      assert peers[..i + 1][..i] == peers[..i];
      assert peers[..i + 1] == peers[..i] + [peers[i]];
    }

    method RemovePeerFromGroup(groupId: string, nodeId: string) returns (r: Result<(), EngineError>)
      requires Valid()
      modifies this
      ensures Valid() && policies == old(policies)
      ensures groupId !in old(groups) ==> r == Err(GroupNotFound) && unchanged(this)
      ensures groupId in old(groups) ==> r == Ok(())
      ensures groupId in old(groups) && nodeId !in old(groups)[groupId].peers ==> unchanged(this)
      ensures groupId in old(groups) && nodeId in old(groups)[groupId].peers ==>
        && epoch == NextEpoch(old(epoch))
        && groups == old(groups)[groupId := old(groups)[groupId].(peers := Without(old(groups)[groupId].peers, nodeId))]
    {
      if groupId !in groups {
        return Err(GroupNotFound);
      }
      var grp := groups[groupId];
      var newPeers: seq<string> := [];
      var found := false;
      for i := 0 to |grp.peers|
        invariant newPeers == Without(grp.peers[..i], nodeId)
        invariant found <==> nodeId in grp.peers[..i]
        invariant unchanged(this)
      {
        NextWithout(grp.peers, i, nodeId);
        if grp.peers[i] == nodeId {
          found := true;
        } else {
          newPeers := newPeers + [grp.peers[i]];
        }
      }
      assert grp.peers[..|grp.peers|] == grp.peers;
      if found {
        groups := groups[groupId := grp.(peers := newPeers)];
        epoch := NextEpoch(epoch);
      }
      return Ok(());
    }

    method UpsertPolicy(p: PolicyRule) returns (r: Result<(), EngineError>)
      requires Valid()
      modifies this
      ensures Valid() && groups == old(groups)
      ensures p.id == "" ==> r == Err(EmptyId)
      ensures p.id != "" && (p.sourceGroups == [] || p.destGroups == []) ==> r == Err(NoGroups)
      ensures p.id != "" && p.sourceGroups != [] && p.destGroups != [] && p.rules == [] ==> r == Err(NoRules)
      ensures r.Err? ==> unchanged(this)
      ensures p.id != "" && p.sourceGroups != [] && p.destGroups != [] && p.rules != [] ==>
        r == Ok(()) && policies == old(policies)[p.id := p] && epoch == NextEpoch(old(epoch))
    {
      if p.id == "" {
        return Err(EmptyId);
      }
      if |p.sourceGroups| == 0 || |p.destGroups| == 0 {
        return Err(NoGroups);
      }
      if |p.rules| == 0 {
        return Err(NoRules);
      }
      policies := policies[p.id := p];
      epoch := NextEpoch(epoch);
      return Ok(());
    }

    method DeletePolicy(policyId: string) returns (r: Result<(), EngineError>)
      requires Valid()
      modifies this
      ensures Valid() && groups == old(groups)
      ensures policyId !in old(policies) ==> r == Err(PolicyNotFound) && unchanged(this)
      ensures policyId in old(policies) ==>
        r == Ok(()) && policies == old(policies) - {policyId} && epoch == NextEpoch(old(epoch))
    {
      if policyId !in policies {
        return Err(PolicyNotFound);
      }
      policies := policies - {policyId};
      epoch := NextEpoch(epoch);
      return Ok(());
    }

    /** The groups of a node: group:all, and every group that lists it, in ascending order. */
    method GetPeerGroups(nodeId: string) returns (matched: seq<string>)
      requires Valid()
      ensures forall i, j :: 0 <= i < j < |matched| ==> Less(matched[i], matched[j])
      ensures forall g :: g in matched <==> g in groups && (g == GROUP_ALL || nodeId in groups[g].peers)
    {
      matched := [];
      var rest := groups.Keys;
      while rest != {}
        invariant rest <= groups.Keys
        invariant forall i, j :: 0 <= i < j < |matched| ==> Less(matched[i], matched[j])
        invariant forall g :: g in matched <==>
          g in groups.Keys - rest && (g == GROUP_ALL || nodeId in groups[g].peers)
        decreases rest
      {
        var id :| id in rest;
        if id == GROUP_ALL || nodeId in groups[id].peers {
          InsertNameKeepsOrder(id, matched);
          matched := InsertName(id, matched);
        }
        rest := rest - {id};
      }
    }

    /** sort.Strings, one name at a time. */
    static function InsertName(n: string, ns: seq<string>): seq<string> {
      if |ns| == 0 || Less(n, ns[0]) then [n] + ns else [ns[0]] + InsertName(n, ns[1..])
    }

    static lemma {:induction false} InsertNameKeepsOrder(n: string, ns: seq<string>)
      requires n !in ns && forall i, j :: 0 <= i < j < |ns| ==> Less(ns[i], ns[j])
      ensures forall i, j :: 0 <= i < j < |InsertName(n, ns)| ==> Less(InsertName(n, ns)[i], InsertName(n, ns)[j])
      ensures forall x :: x in InsertName(n, ns) <==> x == n || x in ns
    {
      if |ns| == 0 {
      } else if Less(n, ns[0]) {
        forall i | 0 < i < |ns|
          ensures Less(n, ns[i])
        {
          LessTransitive(n, ns[0], ns[i]);
        }
      } else {
        LessTrichotomy(n, ns[0]);
        InsertNameKeepsOrder(n, ns[1..]);
        assert ns == [ns[0]] + ns[1..];
        forall x | x in InsertName(n, ns[1..])
          ensures Less(ns[0], x)
        {
          if x in ns[1..] {
            var i :| 0 <= i < |ns[1..]| && ns[1..][i] == x;
            assert Less(ns[0], ns[i + 1]);
          }
        }
      }
    }

    /** The policies collected from the map in whatever order it yields them, then sorted by ID. */
    method SortedPolicies() returns (ps: seq<PolicyRule>)
      requires Valid()
      ensures Lists(policies, ps)
    {
      var list: seq<PolicyRule> := [];
      var rest := policies.Keys;
      while rest != {}
        invariant rest <= policies.Keys
        invariant forall p :: p in list <==> p.id in policies.Keys - rest && policies[p.id] == p
        invariant forall i, j :: 0 <= i < j < |list| ==> list[i].id != list[j].id
        decreases rest
      {
        var k :| k in rest;
        forall i | 0 <= i < |list|
          ensures list[i].id != k
        {
          assert list[i] in list;
        }
        list := list + [policies[k]];
        rest := rest - {k};
      }
      SortKeepsElements(list);
      ps := SortById(list);
    }

    method CompilePolicyForPeer(nodeId: string, lookup: NodeLookup) returns (r: Result<CompiledPolicy, EngineError>)
      requires Valid()
      ensures lookup(nodeId).None? ==> r == Err(NodeNotFound)
      ensures lookup(nodeId).Some? ==>
        forall ps :: Lists(policies, ps) ==>
          r == Ok(CompiledPolicy(nodeId, lookup(nodeId).value.vip,
                                 Inbound(ps, lookup(nodeId).value.groups, groups, nodeId, lookup),
                                 Outbound(ps, lookup(nodeId).value.groups, groups, nodeId, lookup), epoch))
    {
      if lookup(nodeId).None? {
        return Err(NodeNotFound);
      }
      var memberOf := lookup(nodeId).value.groups;
      var inbound: seq<FilterRule> := [];
      var outbound: seq<FilterRule> := [];
      var ps := SortedPolicies();
      for k := 0 to |ps|
        invariant inbound == Inbound(ps[..k], memberOf, groups, nodeId, lookup)
        invariant outbound == Outbound(ps[..k], memberOf, groups, nodeId, lookup)
      {
        assert ps[..k + 1][..k] == ps[..k];
        var moreIn, moreOut := CompilePolicy(ps[k], memberOf, nodeId, lookup);
        inbound := inbound + moreIn;
        outbound := outbound + moreOut;
      }
      assert ps[..|ps|] == ps;
      forall qs | Lists(policies, qs)
        ensures qs == ps
      {
        AscendingIsUnique(ps, qs);
      }
      r := Ok(CompiledPolicy(nodeId, lookup(nodeId).value.vip, inbound, outbound, epoch));
    }

    /** The body of the loop over policies. */
    method CompilePolicy(p: PolicyRule, memberOf: seq<string>, self: string, lookup: NodeLookup)
      returns (inbound: seq<FilterRule>, outbound: seq<FilterRule>)
      ensures inbound == PolicyInbound(p, memberOf, groups, self, lookup)
      ensures outbound == PolicyOutbound(p, memberOf, groups, self, lookup)
    {
      inbound, outbound := [], [];
      if !p.enabled {
        return;
      }
      var isSource := MatchesAnyGroup(memberOf, p.sourceGroups);
      var isDest := MatchesAnyGroup(memberOf, p.destGroups);
      var toDest: seq<FilterRule>, fromSource: seq<FilterRule> := [], [];
      if isSource {
        toDest := CompileGroups(p, p.destGroups, self, lookup, !p.bidirectional);
      }
      if isDest {
        fromSource := CompileGroups(p, p.sourceGroups, self, lookup, !p.bidirectional);
      }
      var toSource: seq<FilterRule>, fromDest: seq<FilterRule> := [], [];
      if p.bidirectional {
        if isSource {
          fromDest := CompileGroups(p, p.destGroups, self, lookup, false);
        }
        if isDest {
          toSource := CompileGroups(p, p.sourceGroups, self, lookup, false);
        }
      }
      inbound := fromSource + fromDest;
      outbound := toDest + toSource;
    }

    static method MatchesAnyGroup(memberOf: seq<string>, gs: seq<string>) returns (found: bool)
      ensures found <==> InAnyGroup(memberOf, gs)
    {
      for i := 0 to |gs|
        invariant forall k :: 0 <= k < i ==> !IsMember(memberOf, gs[k])
      {
        if IsMember(memberOf, gs[i]) {
          return true;
        }
      }
      return false;
    }

    /** The loops over groups, their peers and the policy's rule items. */
    method CompileGroups(p: PolicyRule, gs: seq<string>, self: string, lookup: NodeLookup, directional: bool)
      returns (blocks: seq<FilterRule>)
      ensures blocks == GroupBlocks(p, gs, groups, self, lookup, directional)
    {
      blocks := [];
      for i := 0 to |gs|
        invariant blocks == GroupBlocks(p, gs[..i], groups, self, lookup, directional)
      {
        NextGroupBlock(p, gs, i, groups, self, lookup, directional);
        if gs[i] in groups {
          var more := CompilePeers(p, groups[gs[i]].peers, self, lookup, directional);
          blocks := blocks + more;
        }
      }
      assert gs[..|gs|] == gs;
    }

    static method CompilePeers(p: PolicyRule, peers: seq<string>, self: string, lookup: NodeLookup, directional: bool)
      returns (blocks: seq<FilterRule>)
      ensures blocks == PeerBlocks(p, peers, self, lookup, directional)
    {
      blocks := [];
      for i := 0 to |peers|
        invariant blocks == PeerBlocks(p, peers[..i], self, lookup, directional)
      {
        assert peers[..i + 1][..i] == peers[..i];
        if peers[i] == self {
          continue;
        }
        var info := lookup(peers[i]);
        if info.None? || info.value.vip.None? {
          continue;
        }
        var more := CompileItems(p.rules, info.value.vip.value, directional);
        blocks := blocks + more;
      }
      assert peers[..|peers|] == peers;
    }

    static method CompileItems(items: seq<RuleItem>, peer: Vip, directional: bool) returns (block: seq<FilterRule>)
      ensures block == Block(items, peer, directional)
    {
      block := [];
      for k := 0 to |items|
        invariant block == Block(items[..k], peer, directional)
      {
        block := block + [FilterRule(peer, items[k].protocol, items[k].portRanges, items[k].action, directional)];
      }
      assert items[..|items|] == items;
    }
  }
}
