/**
 Access policies, the flat tables they are compiled into (pkg/acl/types.go, the value side of
 pkg/acl/engine.go), and what a table and a list of policies mean.
 */
module Policy {
  import opened Bytes
  import opened Results
  import opened Text

  const PROTOCOL_ALL := "ALL"
  const ACTION_ACCEPT := "ACCEPT"
  const GROUP_ALL := "group:all"

  /** An overlay address in its canonical text form, which has neither '-' nor '/'. */
  type Vip = s: string | '-' !in s && '/' !in s

  datatype PortRange = PortRange(start: uint16, end: uint16) {
    predicate Matches(port: uint16) {
      port >= start && port <= end
    }
  }

  datatype RuleItem = RuleItem(protocol: string, portRanges: seq<PortRange>, action: string)

  datatype PolicyRule = PolicyRule(
    id: string,
    enabled: bool,
    sourceGroups: seq<string>,
    destGroups: seq<string>,
    rules: seq<RuleItem>,
    bidirectional: bool)

  datatype PeerGroup = PeerGroup(id: string, peers: seq<string>, isSystem: bool)

  datatype FilterRule = FilterRule(
    peer: Vip,
    protocol: string,
    portRanges: seq<PortRange>,
    action: string,
    directional: bool)

  datatype CompiledPolicy = CompiledPolicy(
    nodeId: string,
    overlay: Option<Vip>,
    inbound: seq<FilterRule>,
    outbound: seq<FilterRule>,
    epoch: uint64)

  datatype NodeInfo = NodeInfo(vip: Option<Vip>, groups: seq<string>)

  type NodeLookup = string -> Option<NodeInfo>

  // ---- what a flat table means ---------------------------------------------------------

  datatype Verdict = Accept | Drop | NoMatch

  predicate AnyRange(ranges: seq<PortRange>, port: uint16) {
    exists i :: 0 <= i < |ranges| && ranges[i].Matches(port)
  }

  predicate RuleMatches(r: FilterRule, peer: Vip, protocol: string, port: uint16) {
    r.peer == peer && (r.protocol == PROTOCOL_ALL || r.protocol == protocol) && AnyRange(r.portRanges, port)
  }

  function ActionVerdict(action: string): Verdict {
    if action == ACTION_ACCEPT then Accept else Drop
  }

  /** The verdict of the first rule that matches. */
  function FirstMatch(rules: seq<FilterRule>, peer: Vip, protocol: string, port: uint16): Verdict {
    if |rules| == 0 then NoMatch
    else if RuleMatches(rules[0], peer, protocol, port) then ActionVerdict(rules[0].action)
    else FirstMatch(rules[1..], peer, protocol, port)
  }

  function OrElse(a: Verdict, b: Verdict): Verdict {
    if a == NoMatch then b else a
  }

  lemma {:induction false} FirstMatchOfConcat(a: seq<FilterRule>, b: seq<FilterRule>, peer: Vip, protocol: string, port: uint16)
    ensures FirstMatch(a + b, peer, protocol, port)
         == OrElse(FirstMatch(a, peer, protocol, port), FirstMatch(b, peer, protocol, port))
  {
    if |a| == 0 {
      assert a + b == b;
    } else {
      assert (a + b)[0] == a[0] && (a + b)[1..] == a[1..] + b;
      FirstMatchOfConcat(a[1..], b, peer, protocol, port);
    }
  }

  // ---- the deciding rule, stated over the table ---------------------------------------------------

  /** The protocol test and the port ranges of a rule, for one packet. */
  ghost predicate Covers(ruleProtocol: string, ranges: seq<PortRange>, protocol: string, port: uint16) {
    && (ruleProtocol == "ALL" || ruleProtocol == protocol)
    && exists i :: 0 <= i < |ranges| && ranges[i].start <= port <= ranges[i].end
  }

  ghost predicate Meets(rules: seq<FilterRule>, k: nat, peer: Vip, protocol: string, port: uint16) {
    k < |rules| && rules[k].peer == peer && Covers(rules[k].protocol, rules[k].portRanges, protocol, port)
  }

  /** Rule k meets the packet and no earlier rule does. */
  ghost predicate DecidedBy(rules: seq<FilterRule>, k: nat, peer: Vip, protocol: string, port: uint16) {
    Meets(rules, k, peer, protocol, port) && forall j: nat :: j < k ==> !Meets(rules, j, peer, protocol, port)
  }

  ghost predicate Accepts(rules: seq<FilterRule>, peer: Vip, protocol: string, port: uint16) {
    exists k: nat :: DecidedBy(rules, k, peer, protocol, port) && rules[k].action == "ACCEPT"
  }

  ghost predicate Drops(rules: seq<FilterRule>, peer: Vip, protocol: string, port: uint16) {
    exists k: nat :: DecidedBy(rules, k, peer, protocol, port) && rules[k].action != "ACCEPT"
  }

  ghost predicate Ignores(rules: seq<FilterRule>, peer: Vip, protocol: string, port: uint16) {
    forall k: nat :: !Meets(rules, k, peer, protocol, port)
  }

  lemma MeetsInRest(rules: seq<FilterRule>, k: nat, peer: Vip, protocol: string, port: uint16)
    requires |rules| > 0
    ensures Meets(rules, k + 1, peer, protocol, port) <==> Meets(rules[1..], k, peer, protocol, port)
  {}

  lemma FirstRuleMeets(rules: seq<FilterRule>, peer: Vip, protocol: string, port: uint16)
    requires |rules| > 0
    ensures Meets(rules, 0, peer, protocol, port) <==> RuleMatches(rules[0], peer, protocol, port)
  {
    var ranges := rules[0].portRanges;
    assert forall i :: 0 <= i < |ranges| ==> (ranges[i].Matches(port) <==> ranges[i].start <= port <= ranges[i].end);
  }

  /** A table that decides does so by its first rule that meets the packet. */
  lemma {:induction false} DecidingRule(rules: seq<FilterRule>, peer: Vip, protocol: string, port: uint16) returns (k: nat)
    requires FirstMatch(rules, peer, protocol, port) != NoMatch
    ensures DecidedBy(rules, k, peer, protocol, port)
    ensures FirstMatch(rules, peer, protocol, port) == if rules[k].action == "ACCEPT" then Accept else Drop
  {
    FirstRuleMeets(rules, peer, protocol, port);
    if RuleMatches(rules[0], peer, protocol, port) {
      k := 0;
    } else {
      var i := DecidingRule(rules[1..], peer, protocol, port);
      k := i + 1;
      MeetsInRest(rules, i, peer, protocol, port);
      forall j: nat | j < k
        ensures !Meets(rules, j, peer, protocol, port)
      {
        if j > 0 {
          MeetsInRest(rules, j - 1, peer, protocol, port);
        }
      }
    }
  }

  lemma {:induction false} NoRuleMeets(rules: seq<FilterRule>, peer: Vip, protocol: string, port: uint16, k: nat)
    requires FirstMatch(rules, peer, protocol, port) == NoMatch
    ensures !Meets(rules, k, peer, protocol, port)
  {
    if |rules| > 0 {
      FirstRuleMeets(rules, peer, protocol, port);
      if k > 0 {
        MeetsInRest(rules, k - 1, peer, protocol, port);
        NoRuleMeets(rules[1..], peer, protocol, port, k - 1);
      }
    }
  }

  lemma OneRuleDecides(rules: seq<FilterRule>, j: nat, k: nat, peer: Vip, protocol: string, port: uint16)
    requires DecidedBy(rules, j, peer, protocol, port) && DecidedBy(rules, k, peer, protocol, port)
    ensures j == k
  {}

  /** The verdict of a table is the action of the first rule that meets the packet, if there is one. */
  lemma FirstMatchExactly(rules: seq<FilterRule>, peer: Vip, protocol: string, port: uint16)
    ensures FirstMatch(rules, peer, protocol, port) == Accept <==> Accepts(rules, peer, protocol, port)
    ensures FirstMatch(rules, peer, protocol, port) == Drop <==> Drops(rules, peer, protocol, port)
    ensures FirstMatch(rules, peer, protocol, port) == NoMatch <==> Ignores(rules, peer, protocol, port)
  {
    if FirstMatch(rules, peer, protocol, port) == NoMatch {
      forall k: nat
        ensures !Meets(rules, k, peer, protocol, port)
      {
        NoRuleMeets(rules, peer, protocol, port, k);
      }
    } else {
      var k := DecidingRule(rules, peer, protocol, port);
      forall j: nat | DecidedBy(rules, j, peer, protocol, port)
        ensures j == k
      {
        OneRuleDecides(rules, j, k, peer, protocol, port);
      }
    }
  }

  // ---- what the policies themselves mean ---------------------------------------------------

  predicate ItemMatches(r: RuleItem, protocol: string, port: uint16) {
    (r.protocol == PROTOCOL_ALL || r.protocol == protocol) && AnyRange(r.portRanges, port)
  }

  /** The first rule item of one policy that matches protocol and port. */
  function ItemsVerdict(items: seq<RuleItem>, protocol: string, port: uint16): Verdict {
    if |items| == 0 then NoMatch
    else if ItemMatches(items[0], protocol, port) then ActionVerdict(items[0].action)
    else ItemsVerdict(items[1..], protocol, port)
  }

  /** Read the policies directly: the first one, in order, that relates the two nodes and decides. */
  ghost function DirectVerdict(policies: seq<PolicyRule>, related: PolicyRule -> bool, protocol: string, port: uint16): Verdict {
    if |policies| == 0 then NoMatch
    else
      OrElse(DirectVerdict(policies[..|policies| - 1], related, protocol, port),
             if related(policies[|policies| - 1])
             then ItemsVerdict(policies[|policies| - 1].rules, protocol, port)
             else NoMatch)
  }

  /** Item k of policy j covers the packet, and the policy relates the two nodes. */
  ghost predicate Speaks(ps: seq<PolicyRule>, related: PolicyRule -> bool, j: nat, k: nat, protocol: string, port: uint16) {
    && j < |ps| && related(ps[j]) && k < |ps[j].rules|
    && Covers(ps[j].rules[k].protocol, ps[j].rules[k].portRanges, protocol, port)
  }

  /** And no item before it does, in the same policy or an earlier one. */
  ghost predicate SpeaksFirst(ps: seq<PolicyRule>, related: PolicyRule -> bool, j: nat, k: nat, protocol: string, port: uint16) {
    && Speaks(ps, related, j, k, protocol, port)
    && forall i: nat, l: nat :: i < j || (i == j && l < k) ==> !Speaks(ps, related, i, l, protocol, port)
  }

  lemma CoveringItem(items: seq<RuleItem>, k: nat, protocol: string, port: uint16)
    requires k < |items|
    ensures ItemMatches(items[k], protocol, port) <==> Covers(items[k].protocol, items[k].portRanges, protocol, port)
  {
    var ranges := items[k].portRanges;
    assert forall i :: 0 <= i < |ranges| ==> (ranges[i].Matches(port) <==> ranges[i].start <= port <= ranges[i].end);
  }

  /** The verdict of one policy's items is the action of the first that covers the packet. */
  lemma {:induction false} FirstCoveringItem(items: seq<RuleItem>, protocol: string, port: uint16) returns (k: nat)
    ensures k <= |items| && (k == |items| <==> ItemsVerdict(items, protocol, port) == NoMatch)
    ensures forall i :: 0 <= i < k ==> !Covers(items[i].protocol, items[i].portRanges, protocol, port)
    ensures k < |items| ==>
      && Covers(items[k].protocol, items[k].portRanges, protocol, port)
      && ItemsVerdict(items, protocol, port) == if items[k].action == "ACCEPT" then Accept else Drop
  {
    if |items| == 0 {
      return 0;
    }
    CoveringItem(items, 0, protocol, port);
    if ItemMatches(items[0], protocol, port) {
      return 0;
    }
    k := FirstCoveringItem(items[1..], protocol, port);
    forall i | 0 <= i < k + 1
      ensures !Covers(items[i].protocol, items[i].portRanges, protocol, port)
    {
      if i > 0 {
        assert items[1..][i - 1] == items[i];
      }
    }
    k := k + 1;
  }

  /** A reading of the policies is decided by the first item that speaks, if there is one. */
  lemma {:induction false} DecidingItem(ps: seq<PolicyRule>, related: PolicyRule -> bool, protocol: string, port: uint16)
    returns (j: nat, k: nat)
    ensures DirectVerdict(ps, related, protocol, port) == NoMatch ==> forall i: nat, l: nat :: !Speaks(ps, related, i, l, protocol, port)
    ensures DirectVerdict(ps, related, protocol, port) != NoMatch ==>
      && SpeaksFirst(ps, related, j, k, protocol, port)
      && DirectVerdict(ps, related, protocol, port) == if ps[j].rules[k].action == "ACCEPT" then Accept else Drop
  {
    if |ps| == 0 {
      return 0, 0;
    }
    var front, last := ps[..|ps| - 1], |ps| - 1;
    j, k := DecidingItem(front, related, protocol, port);
    SpeaksInFront(ps, related, protocol, port);
    if DirectVerdict(front, related, protocol, port) == NoMatch {
      j := last;
      k := FirstCoveringItem(ps[last].rules, protocol, port);
    }
  }

  lemma SpeaksInFront(ps: seq<PolicyRule>, related: PolicyRule -> bool, protocol: string, port: uint16)
    requires |ps| > 0
    ensures forall i: nat, l: nat :: i < |ps| - 1 ==>
      (Speaks(ps, related, i, l, protocol, port) <==> Speaks(ps[..|ps| - 1], related, i, l, protocol, port))
  {}

  lemma OneItemSpeaksFirst(ps: seq<PolicyRule>, related: PolicyRule -> bool, i: nat, l: nat, j: nat, k: nat, protocol: string, port: uint16)
    requires SpeaksFirst(ps, related, i, l, protocol, port) && SpeaksFirst(ps, related, j, k, protocol, port)
    ensures i == j && l == k
  {}

  /** What the policies say of a packet: accept exactly when the first item that speaks accepts, and deny by default. */
  lemma DirectVerdictExactly(ps: seq<PolicyRule>, related: PolicyRule -> bool, protocol: string, port: uint16)
    ensures DirectVerdict(ps, related, protocol, port) == Accept <==>
      exists j: nat, k: nat :: SpeaksFirst(ps, related, j, k, protocol, port) && ps[j].rules[k].action == "ACCEPT"
    ensures DirectVerdict(ps, related, protocol, port) == Drop <==>
      exists j: nat, k: nat :: SpeaksFirst(ps, related, j, k, protocol, port) && ps[j].rules[k].action != "ACCEPT"
  {
    var j, k := DecidingItem(ps, related, protocol, port);
    forall i: nat, l: nat | SpeaksFirst(ps, related, i, l, protocol, port)
      ensures DirectVerdict(ps, related, protocol, port) != NoMatch && i == j && l == k
    {
      OneItemSpeaksFirst(ps, related, i, l, j, k, protocol, port);
    }
  }

  // ---- policies in ID order -------------------------------------------------------------------

  predicate Ascending(ps: seq<PolicyRule>) {
    forall i, j :: 0 <= i < j < |ps| ==> Less(ps[i].id, ps[j].id)
  }

  /** sort.Slice on the policies' IDs. */
  function InsertById(p: PolicyRule, ps: seq<PolicyRule>): seq<PolicyRule> {
    if |ps| == 0 || Less(p.id, ps[0].id) then [p] + ps else [ps[0]] + InsertById(p, ps[1..])
  }

  function SortById(ps: seq<PolicyRule>): seq<PolicyRule> {
    if |ps| == 0 then [] else InsertById(ps[|ps| - 1], SortById(ps[..|ps| - 1]))
  }

  /** Every policy once, in ID order. */
  ghost predicate Lists(policies: map<string, PolicyRule>, ps: seq<PolicyRule>) {
    Ascending(ps) && forall p :: p in ps <==> p.id in policies && policies[p.id] == p
  }

  lemma {:induction false} InsertKeepsOrder(p: PolicyRule, ps: seq<PolicyRule>)
    requires Ascending(ps) && forall q :: q in ps ==> q.id != p.id
    ensures Ascending(InsertById(p, ps))
    ensures forall q :: q in InsertById(p, ps) <==> q == p || q in ps
  {
    if |ps| == 0 {
    } else if Less(p.id, ps[0].id) {
      forall i | 0 < i < |ps|
        ensures Less(p.id, ps[i].id)
      {
        LessTransitive(p.id, ps[0].id, ps[i].id);
      }
    } else {
      assert ps[0] in ps;
      LessTrichotomy(p.id, ps[0].id);
      forall q | q in ps[1..]
        ensures q in ps
      {}
      InsertKeepsOrder(p, ps[1..]);
      assert ps == [ps[0]] + ps[1..];
      var rest := InsertById(p, ps[1..]);
      forall q | q in rest
        ensures Less(ps[0].id, q.id)
      {
        if q in ps[1..] {
          var i :| 0 <= i < |ps[1..]| && ps[1..][i] == q;
          assert Less(ps[0].id, ps[i + 1].id);
        }
      }
    }
  }

  lemma {:induction false} SortKeepsElements(ps: seq<PolicyRule>)
    requires forall i, j :: 0 <= i < j < |ps| ==> ps[i].id != ps[j].id
    ensures Ascending(SortById(ps))
    ensures forall q :: q in SortById(ps) <==> q in ps
  {
    if |ps| > 0 {
      var front, last := ps[..|ps| - 1], ps[|ps| - 1];
      SortKeepsElements(front);
      forall q | q in SortById(front)
        ensures q.id != last.id
      {
        assert q in front;
      }
      InsertKeepsOrder(last, SortById(front));
      assert ps == front + [last];
    }
  }

  /** Of two policies whose IDs first differ at some character, the one with the smaller character comes first. */
  lemma SmallerIdComesFirst(ps: seq<PolicyRule>, i: nat, j: nat, prefix: string, c: char, x: string, d: char, y: string)
    requires Ascending(ps) && i < |ps| && j < |ps|
    requires ps[i].id == prefix + [c] + x && ps[j].id == prefix + [d] + y && c != d
    ensures i < j <==> c < d
  {
    FirstDifferenceDecides(prefix, c, x, d, y);
    FirstDifferenceDecides(prefix, d, y, c, x);
    LessTrichotomy(ps[i].id, ps[j].id);
  }

  /** The order is fixed by the IDs: the order in which the map was read does not matter. */
  lemma {:induction false} AscendingIsUnique(a: seq<PolicyRule>, b: seq<PolicyRule>)
    requires Ascending(a) && Ascending(b) && forall p :: p in a <==> p in b
    ensures a == b
  {
    assert |a| > 0 ==> a[0] in b;
    assert |b| > 0 ==> b[0] in a;
    if |a| > 0 {
      FirstIsLeast(a, b[0]);
      FirstIsLeast(b, a[0]);
      LessTrichotomy(a[0].id, b[0].id);
      assert a[0] == b[0];
      forall p
        ensures p in a[1..] <==> p in b[1..]
      {
        RestOf(a, p);
        RestOf(b, p);
      }
      AscendingIsUnique(a[1..], b[1..]);
      assert a == [a[0]] + a[1..] && b == [b[0]] + b[1..];
    }
  }

  lemma FirstIsLeast(ps: seq<PolicyRule>, p: PolicyRule)
    requires Ascending(ps) && p in ps
    ensures p == ps[0] || Less(ps[0].id, p.id)
  {}

  lemma RestOf(ps: seq<PolicyRule>, p: PolicyRule)
    requires Ascending(ps) && |ps| > 0
    ensures p in ps[1..] <==> p in ps && p != ps[0]
  {
    assert ps == [ps[0]] + ps[1..];
    if p in ps[1..] {
      var i :| 0 <= i < |ps[1..]| && ps[1..][i] == p;
      assert Less(ps[0].id, ps[i + 1].id);
      LessTrichotomy(ps[0].id, p.id);
    }
  }

  ghost function Listing(policies: map<string, PolicyRule>): (ps: seq<PolicyRule>)
    requires forall k :: k in policies ==> policies[k].id == k
    ensures Lists(policies, ps)
  {
    if policies == map[] then []
    else
      var k :| k in policies;
      var rest := Listing(policies - {k});
      InsertKeepsOrder(policies[k], rest);
      InsertById(policies[k], rest)
  }
}
