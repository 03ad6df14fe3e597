/**
 Connection tracking over whole runs (pkg/acl/netfilter.go): policies are replaced, entries overwritten
 and purged, while the clock never goes back and the TTL is fixed.
 */
module ConntrackRuns {
  import opened Bytes
  import opened Netfilter
  import opened Policy
  import opened Results

  /** An outbound packet that was accepted, and when. */
  datatype Flow = Flow(src: Vip, srcPort: uint16, dst: Vip, dstPort: uint16, protocol: string, at: int)

  datatype Event =
    | Load(policy: Option<CompiledPolicy>)
    | Outbound(srcVip: Option<Vip>, srcPort: uint16, destVip: Vip, destPort: uint16, protocol: string, now: int)
    | Inbound(src: Vip, srcPort: uint16, destPort: uint16, protocol: string, purgedAt: int, now: int)
    | Purge(now: int)

  datatype State = State(filter: Filter, clock: int, flows: seq<Flow>)

  function Step(st: State, e: Event): State {
    match e
    case Load(p) => st.(filter := st.filter.(policy := p))
    case Outbound(srcVip, srcPort, destVip, destPort, protocol, now) =>
      State(AfterOutbound(st.filter, srcVip, srcPort, destVip, destPort, protocol, now), now,
            if OutboundVerdict(st.filter, destVip, destPort, protocol).Ok?
            then st.flows + [Flow(EffectiveSource(st.filter.policy.value, srcVip), srcPort, destVip, destPort, protocol, now)]
            else st.flows)
    case Inbound(_, _, _, _, purgedAt, now) =>
      State(st.filter.(conntrack := Purged(st.filter.conntrack, purgedAt)), now, st.flows)
    case Purge(now) =>
      State(st.filter.(conntrack := Purged(st.filter.conntrack, now)), now, st.flows)
  }

  predicate Timely(st: State, e: Event) {
    match e
    case Load(_) => true
    case Outbound(_, _, _, _, _, now) => st.clock <= now
    case Inbound(_, _, _, _, purgedAt, now) => st.clock <= purgedAt <= now
    case Purge(now) => st.clock <= now
  }

  function Run(ttl: int, start: int, es: seq<Event>): State {
    if |es| == 0 then State(Filter(None, map[], ttl), start, []) else Step(Run(ttl, start, es[..|es| - 1]), es[|es| - 1])
  }

  predicate ClockNeverGoesBack(ttl: int, start: int, es: seq<Event>) {
    forall i :: 0 <= i < |es| ==> Timely(Run(ttl, start, es[..i]), es[i])
  }

  /** The flows on record are exactly the outbound packets that the table then loaded accepts. */
  lemma FlowsGrowExactly(st: State, srcVip: Option<Vip>, srcPort: uint16, destVip: Vip, destPort: uint16,
                         protocol: string, now: int)
    requires srcVip.Some? || (st.filter.policy.Some? && st.filter.policy.value.overlay.Some?)
    ensures Step(st, Outbound(srcVip, srcPort, destVip, destPort, protocol, now)).flows ==
            if st.filter.policy.Some? && Accepts(st.filter.policy.value.outbound, destVip, protocol, destPort)
            then
              var source := if srcVip.Some? then srcVip.value else st.filter.policy.value.overlay.value;
              st.flows + [Flow(source, srcPort, destVip, destPort, protocol, now)]
            else st.flows
  {
    OutboundExactly(st.filter, destVip, destPort, protocol);
  }

  // ---- which packets answer which flows ------------------------------------------------------

  /** The keys recorded for a flow. */
  predicate IsKeyOf(f: Flow, key: string) {
    || key == FlowKey(f.dst, f.dstPort, f.src, f.srcPort, f.protocol)
    || (f.srcPort == 0 && key == FlowKey(f.dst, 0, f.src, f.dstPort, f.protocol))
  }

  /** The reverse packet; any reply port of a flow sent from port 0; and two uses of port 0 as a wildcard. */
  predicate PortsAnswer(f: Flow, srcPort: uint16, dstPort: uint16) {
    || (srcPort == f.dstPort && (dstPort == f.srcPort || f.srcPort == 0))
    || (f.srcPort == 0 && srcPort == 0 && dstPort == f.dstPort)
    || (f.dstPort == 0 && srcPort == f.srcPort)
  }

  predicate Answers(f: Flow, local: Vip, src: Vip, srcPort: uint16, dstPort: uint16, protocol: string) {
    f.src == local && f.dst == src && f.protocol == protocol && PortsAnswer(f, srcPort, dstPort)
  }

  lemma SameKey(f: Flow, from: Vip, fromPort: uint16, to: Vip, toPort: uint16, protocol: string)
    ensures IsKeyOf(f, FlowKey(from, fromPort, to, toPort, protocol))
       <==> from == f.dst && to == f.src && protocol == f.protocol
            && (|| (fromPort == f.dstPort && toPort == f.srcPort)
                || (f.srcPort == 0 && fromPort == 0 && toPort == f.dstPort))
  {
    if FlowKey(from, fromPort, to, toPort, protocol) == FlowKey(f.dst, f.dstPort, f.src, f.srcPort, f.protocol) {
      FlowKeyInjective(from, fromPort, to, toPort, protocol, f.dst, f.dstPort, f.src, f.srcPort, f.protocol);
    }
    if FlowKey(from, fromPort, to, toPort, protocol) == FlowKey(f.dst, 0, f.src, f.dstPort, f.protocol) {
      FlowKeyInjective(from, fromPort, to, toPort, protocol, f.dst, 0, f.src, f.dstPort, f.protocol);
    }
  }

  /** The three keys looked up meet the keys recorded for a flow exactly when the packet answers it. */
  lemma KeysMeetExactly(f: Flow, local: Vip, src: Vip, srcPort: uint16, dstPort: uint16, protocol: string)
    ensures Answers(f, local, src, srcPort, dstPort, protocol)
       <==> || IsKeyOf(f, FlowKey(src, srcPort, local, dstPort, protocol))
            || IsKeyOf(f, FlowKey(src, srcPort, local, 0, protocol))
            || IsKeyOf(f, FlowKey(src, 0, local, srcPort, protocol))
  {
    SameKey(f, src, srcPort, local, dstPort, protocol);
    SameKey(f, src, srcPort, local, 0, protocol);
    SameKey(f, src, 0, local, srcPort, protocol);
  }

  // ---- what every reachable state keeps ----------------------------------------------------------

  ghost predicate EntryHasFlow(st: State, ttl: int, key: string)
    requires key in st.filter.conntrack
  {
    exists f :: f in st.flows && IsKeyOf(f, key) && st.filter.conntrack[key].expiresAt == f.at + ttl
  }

  /** Each key of an accepted flow has an entry that lives at least as long, until the flow has expired. */
  ghost predicate FlowHasEntries(st: State, ttl: int, f: Flow) {
    && f.at <= st.clock
    && forall key :: IsKeyOf(f, key) && st.clock < f.at + ttl ==>
         key in st.filter.conntrack && f.at + ttl <= st.filter.conntrack[key].expiresAt
  }

  ghost predicate Inv(st: State, ttl: int) {
    && st.filter.ttl == ttl
    && (forall key :: key in st.filter.conntrack ==> EntryHasFlow(st, ttl, key))
    && (forall f :: f in st.flows ==> FlowHasEntries(st, ttl, f))
  }

  lemma PurgeKeepsInv(st: State, ttl: int, purgedAt: int, now: int)
    requires Inv(st, ttl) && st.clock <= purgedAt <= now
    ensures Inv(State(st.filter.(conntrack := Purged(st.filter.conntrack, purgedAt)), now, st.flows), ttl)
  {
    var st' := State(st.filter.(conntrack := Purged(st.filter.conntrack, purgedAt)), now, st.flows);
    forall key | key in st'.filter.conntrack
      ensures EntryHasFlow(st', ttl, key)
    {
      assert EntryHasFlow(st, ttl, key);
    }
    forall f | f in st'.flows
      ensures FlowHasEntries(st', ttl, f)
    {
      assert FlowHasEntries(st, ttl, f);
    }
  }

  /** Recording sets the flow's keys and leaves every other entry alone. */
  lemma RecordedEntries(ct: Conntrack, f: Flow, ttl: int)
    ensures var ct' := Recorded(ct, f.src, f.srcPort, f.dst, f.dstPort, f.protocol, ttl, f.at);
            && (forall key :: IsKeyOf(f, key) ==> key in ct' && ct'[key].expiresAt == f.at + ttl)
            && (forall key :: !IsKeyOf(f, key) ==> (key in ct' <==> key in ct) && (key in ct ==> ct'[key] == ct[key]))
  {}

  lemma RecordKeepsInv(st: State, ttl: int, f: Flow)
    requires Inv(st, ttl) && st.clock <= f.at
    ensures Inv(State(st.filter.(conntrack := Recorded(st.filter.conntrack, f.src, f.srcPort, f.dst, f.dstPort, f.protocol,
                                                       ttl, f.at)), f.at, st.flows + [f]), ttl)
  {
    var ct, ct' := st.filter.conntrack, Recorded(st.filter.conntrack, f.src, f.srcPort, f.dst, f.dstPort, f.protocol, ttl, f.at);
    var st' := State(st.filter.(conntrack := ct'), f.at, st.flows + [f]);
    RecordedEntries(ct, f, ttl);
    assert st'.flows[|st.flows|] == f;
    forall key | key in ct'
      ensures EntryHasFlow(st', ttl, key)
    {
      if !IsKeyOf(f, key) {
        assert EntryHasFlow(st, ttl, key);
        var g :| g in st.flows && IsKeyOf(g, key) && ct[key].expiresAt == g.at + ttl;
        assert g in st'.flows;
      }
    }
    forall g | g in st'.flows
      ensures FlowHasEntries(st', ttl, g)
    {
      if g != f {
        assert FlowHasEntries(st, ttl, g);
      }
    }
  }

  lemma StepKeepsInv(st: State, ttl: int, e: Event)
    requires Inv(st, ttl) && Timely(st, e)
    ensures Inv(Step(st, e), ttl)
  {
    match e
    case Load(p) =>
      forall key | key in st.filter.conntrack
        ensures EntryHasFlow(Step(st, e), ttl, key)
      {
        assert EntryHasFlow(st, ttl, key);
      }
      forall f | f in st.flows
        ensures FlowHasEntries(Step(st, e), ttl, f)
      {
        assert FlowHasEntries(st, ttl, f);
      }
    case Outbound(srcVip, srcPort, destVip, destPort, protocol, now) =>
      if OutboundVerdict(st.filter, destVip, destPort, protocol).Ok? {
        RecordKeepsInv(st, ttl, Flow(EffectiveSource(st.filter.policy.value, srcVip), srcPort, destVip, destPort, protocol, now));
      } else {
        LaterKeepsInv(st, ttl, now);
      }
    case Inbound(_, _, _, _, purgedAt, now) => PurgeKeepsInv(st, ttl, purgedAt, now);
    case Purge(now) => PurgeKeepsInv(st, ttl, now, now);
  }

  lemma LaterKeepsInv(st: State, ttl: int, now: int)
    requires Inv(st, ttl) && st.clock <= now
    ensures Inv(st.(clock := now), ttl)
  {
    forall key | key in st.filter.conntrack
      ensures EntryHasFlow(st.(clock := now), ttl, key)
    {
      assert EntryHasFlow(st, ttl, key);
    }
    forall f | f in st.flows
      ensures FlowHasEntries(st.(clock := now), ttl, f)
    {
      assert FlowHasEntries(st, ttl, f);
    }
  }

  lemma {:induction false} EveryRunKeepsInv(ttl: int, start: int, es: seq<Event>)
    requires ClockNeverGoesBack(ttl, start, es)
    ensures Inv(Run(ttl, start, es), ttl)
  {
    if |es| > 0 {
      var before := es[..|es| - 1];
      forall i | 0 <= i < |before|
        ensures Timely(Run(ttl, start, before[..i]), before[i])
      {
        assert before[..i] == es[..i];
      }
      EveryRunKeepsInv(ttl, start, before);
      StepKeepsInv(Run(ttl, start, before), ttl, es[|es| - 1]);
    }
  }

  // ---- what is admitted ------------------------------------------------------------------------------

  ghost predicate AnswersLiveFlow(st: State, ttl: int, local: Vip, src: Vip, srcPort: uint16, dstPort: uint16,
                                  protocol: string, now: int) {
    exists f :: f in st.flows && Answers(f, local, src, srcPort, dstPort, protocol) && now < f.at + ttl
  }

  /** The first rule of the loaded policy that meets the packet accepts it. */
  ghost predicate RuleAdmits(st: State, src: Vip, dstPort: uint16, protocol: string) {
    st.filter.policy.Some? && Accepts(st.filter.policy.value.inbound, src, protocol, dstPort)
  }

  /** An outbound packet from the local address, accepted less than the TTL ago, is answered. */
  ghost predicate FlowAdmits(st: State, ttl: int, src: Vip, srcPort: uint16, dstPort: uint16, protocol: string, now: int) {
    && st.filter.policy.Some? && st.filter.policy.value.overlay.Some?
    && AnswersLiveFlow(st, ttl, st.filter.policy.value.overlay.value, src, srcPort, dstPort, protocol, now)
  }

  lemma LiveKeyHasFlow(st: State, ttl: int, key: string, now: int)
    requires Inv(st, ttl) && st.clock <= now
    ensures Live(st.filter.conntrack, key, now) <==> exists f :: f in st.flows && IsKeyOf(f, key) && now < f.at + ttl
  {
    if key in st.filter.conntrack {
      assert EntryHasFlow(st, ttl, key);
    }
    if f :| f in st.flows && IsKeyOf(f, key) && now < f.at + ttl {
      assert FlowHasEntries(st, ttl, f);
    }
  }

  lemma TrackedExactly(st: State, ttl: int, local: Vip, src: Vip, srcPort: uint16, dstPort: uint16, protocol: string, now: int)
    requires Inv(st, ttl) && st.clock <= now
    ensures Tracked(st.filter.conntrack, Some(local), src, srcPort, dstPort, protocol, now)
       <==> AnswersLiveFlow(st, ttl, local, src, srcPort, dstPort, protocol, now)
  {
    LiveKeyHasFlow(st, ttl, FlowKey(src, srcPort, local, dstPort, protocol), now);
    LiveKeyHasFlow(st, ttl, FlowKey(src, srcPort, local, 0, protocol), now);
    LiveKeyHasFlow(st, ttl, FlowKey(src, 0, local, srcPort, protocol), now);
    forall f | f in st.flows
      ensures Answers(f, local, src, srcPort, dstPort, protocol)
         <==> || IsKeyOf(f, FlowKey(src, srcPort, local, dstPort, protocol))
              || IsKeyOf(f, FlowKey(src, srcPort, local, 0, protocol))
              || IsKeyOf(f, FlowKey(src, 0, local, srcPort, protocol))
    {
      KeysMeetExactly(f, local, src, srcPort, dstPort, protocol);
    }
  }

  /**
   After any run, an inbound packet is admitted exactly when the loaded policy accepts it, or it answers
   an outbound packet from the local address that was accepted less than the TTL ago.
   */
  lemma AdmittedExactly(ttl: int, start: int, es: seq<Event>, src: Vip, srcPort: uint16, dstPort: uint16,
                        protocol: string, now: int)
    requires ClockNeverGoesBack(ttl, start, es) && Run(ttl, start, es).clock <= now
    ensures InboundVerdict(Run(ttl, start, es).filter, src, srcPort, dstPort, protocol, now).Ok?
       <==> RuleAdmits(Run(ttl, start, es), src, dstPort, protocol)
            || FlowAdmits(Run(ttl, start, es), ttl, src, srcPort, dstPort, protocol, now)
  {
    EveryRunKeepsInv(ttl, start, es);
    var st := Run(ttl, start, es);
    InboundExactly(st.filter, src, srcPort, dstPort, protocol, now);
    if st.filter.policy.Some? && st.filter.policy.value.overlay.Some? {
      TrackedExactly(st, ttl, st.filter.policy.value.overlay.value, src, srcPort, dstPort, protocol, now);
    }
  }

  /** Accepted flows stay on record for the rest of the run. */
  lemma {:induction false} FlowsAreKept(ttl: int, start: int, es: seq<Event>, n: nat)
    requires n <= |es|
    ensures Run(ttl, start, es[..n]).flows <= Run(ttl, start, es).flows
  {
    if n == |es| {
      assert es[..n] == es;
    } else {
      FlowsAreKept(ttl, start, es[..|es| - 1], n);
      assert es[..|es| - 1][..n] == es[..n];
    }
  }

  /**
   The reverse packet of an outbound packet accepted at step i is admitted until the TTL is over, whatever
   policies have been loaded since, as long as the one loaded now has the packet's source as local address.
   */
  lemma ReplyAdmitted(ttl: int, start: int, es: seq<Event>, i: nat, now: int)
    requires ClockNeverGoesBack(ttl, start, es) && Run(ttl, start, es).clock <= now
    requires i < |es| && es[i].Outbound? && now < es[i].now + ttl
    requires var atThatTime := Run(ttl, start, es[..i]).filter.policy;
             atThatTime.Some? && Accepts(atThatTime.value.outbound, es[i].destVip, es[i].protocol, es[i].destPort)
    requires var loaded := Run(ttl, start, es).filter.policy;
             && loaded.Some?
             && loaded.value.overlay == Some(EffectiveSource(Run(ttl, start, es[..i]).filter.policy.value, es[i].srcVip))
    ensures InboundVerdict(Run(ttl, start, es).filter, es[i].destVip, es[i].destPort, es[i].srcPort, es[i].protocol, now)
         == Ok(())
  {
    var e := es[i];
    OutboundExactly(Run(ttl, start, es[..i]).filter, e.destVip, e.destPort, e.protocol);
    var source := EffectiveSource(Run(ttl, start, es[..i]).filter.policy.value, e.srcVip);
    var f := Flow(source, e.srcPort, e.destVip, e.destPort, e.protocol, e.now);
    assert es[..i + 1][..i] == es[..i];
    assert f in Run(ttl, start, es[..i + 1]).flows;
    FlowsAreKept(ttl, start, es, i + 1);
    assert f in Run(ttl, start, es).flows && Answers(f, source, e.destVip, e.destPort, e.srcPort, e.protocol);
    AdmittedExactly(ttl, start, es, e.destVip, e.destPort, e.srcPort, e.protocol, now);
  }
}
