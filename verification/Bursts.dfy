/**
 What the limiter grants (cmd/sovereign-security-daemon/limiter.go:27-141): a request is refused only for want of
 credit, and credit is lost to nothing but grants.
 */
module Bursts {
  import opened Limiter
  import opened Results

  /** A bucket grants a request exactly when the tokens it has by then, capped, amount to one. */
  lemma GrantsExactly(b: Bucket, f: Refill, now: real)
    ensures Grants(b, f, 1.0, now) <==> b.capacity >= 1.0 && b.tokens + f(b.lastRefill, now) >= 1.0
    ensures var c := Charged(b, f, 1.0, now);
            && c.capacity == b.capacity && c.lastRefill == now
            && c.tokens == (if b.tokens + f(b.lastRefill, now) <= b.capacity then b.tokens + f(b.lastRefill, now) else b.capacity)
                           - (if b.capacity >= 1.0 && b.tokens + f(b.lastRefill, now) >= 1.0 then 1.0 else 0.0)
  {}

  /** A request is refused only when the credit of its address or of its subnet is below one token as it is asked. */
  lemma AllowedExactly(cfg: Config, st: State, clock: real, ip: Ip, t: Readings)
    requires SteadyConfig(cfg) && Sound(cfg, st, clock) && clock <= t.ipMade && InOrder(t)
    ensures IpGrants(cfg, st, ip, t) <==> Credit(Lookup(st.ips, ip), cfg.ipCap, cfg.ipRefill, t.ipAsked) >= 1.0
    ensures Allowed(cfg, st, ip, t) <==>
      && Credit(Lookup(st.ips, ip), cfg.ipCap, cfg.ipRefill, t.ipAsked) >= 1.0
      && Credit(Lookup(st.subnets, SubnetOf(ip)), cfg.subnetCap, cfg.subnetRefill, t.subnetAsked) >= 1.0
  {
    FreshBucketCredit(cfg.ipCap, cfg.ipRefill, t.ipMade, t.ipAsked);
    FreshBucketCredit(cfg.subnetCap, cfg.subnetRefill, t.subnetMade, t.subnetAsked);
  }

  /**
   A request takes a token from its address whenever that has one, even if the subnet then refuses, and one from
   its subnet exactly when it is allowed; it touches no other address and no other subnet.
   */
  lemma RequestTakesExactly(cfg: Config, st: State, clock: real, ip: Ip, t: Readings)
    requires SteadyConfig(cfg) && Sound(cfg, st, clock) && clock <= t.ipMade && InOrder(t)
    ensures var u, s := Step(cfg, st, Request(ip, t)), SubnetOf(ip);
            var ofIp := Credit(Lookup(st.ips, ip), cfg.ipCap, cfg.ipRefill, t.ipAsked);
            var ofSubnet := Credit(Lookup(st.subnets, s), cfg.subnetCap, cfg.subnetRefill, t.subnetAsked);
            && Credit(Lookup(u.ips, ip), cfg.ipCap, cfg.ipRefill, t.ipAsked) == ofIp - One(ofIp >= 1.0)
            && Credit(Lookup(u.subnets, s), cfg.subnetCap, cfg.subnetRefill, t.subnetAsked)
               == ofSubnet - One(ofIp >= 1.0 && ofSubnet >= 1.0)
            && (forall other :: other != ip ==> Lookup(u.ips, other) == Lookup(st.ips, other))
            && (forall other :: other != s ==> Lookup(u.subnets, other) == Lookup(st.subnets, other))
  {
    var s := SubnetOf(ip);
    FreshBucketCredit(cfg.ipCap, cfg.ipRefill, t.ipMade, t.ipAsked);
    FreshBucketCredit(cfg.subnetCap, cfg.subnetRefill, t.subnetMade, t.subnetAsked);
    ChargeTakesCredit(IpBucket(cfg, st, ip, t.ipMade), cfg.ipRefill, t.ipAsked, cfg.ipCap);
    ChargeTakesCredit(SubnetBucket(cfg, st, s, t.subnetMade), cfg.subnetRefill, t.subnetAsked, cfg.subnetCap);
  }

  // ---- credit never falls but for grants -----------------------------------------------------------

  /** Waiting loses nothing: the credit grows with the refill, up to the capacity. */
  lemma WaitingFloor(b: Option<Bucket>, capacity: real, f: Refill, t0: real, t1: real)
    requires b.Some? ==> WellFormed(b.value, capacity, t0)
    requires Steady(f) && t0 <= t1
    ensures Credit(b, capacity, f, t1) == Min(capacity, Credit(b, capacity, f, t0) + f(t0, t1))
  {
    assert f(t0, t1) >= 0.0;
    if b.Some? {
      assert f(b.value.lastRefill, t0) + f(t0, t1) == f(b.value.lastRefill, t1);
    }
  }

  predicate Takes<K(==)>(c: Change<K>, k: K) {
    c.Charge? && c.key == k && c.granted
  }

  lemma ChangeFloorAt<K>(m: map<K, Bucket>, capacity: real, f: Refill, c: Change<K>, clock: real, now: real, k: K)
    requires AllWellFormed(m, capacity, clock) && Steady(f) && clock <= now
    requires c.Charge? ==> c.made <= now
    requires c.Charge? ==> c.granted == Grants(if c.key in m then m[c.key] else NewBucket(capacity, c.made), f, 1.0, now)
    ensures Credit(Lookup(Changed(m, capacity, f, c, now), k), capacity, f, now) + One(Takes(c, k))
         >= Min(capacity, Credit(Lookup(m, k), capacity, f, clock) + f(clock, now))
  {
    WaitingFloor(Lookup(m, k), capacity, f, clock, now);
    FreshBucketCredit(capacity, f, now, now);
    match c
    case Charge(key, made, _) =>
      FreshBucketCredit(capacity, f, made, now);
      ChargeTakesCredit(if key in m then m[key] else NewBucket(capacity, made), f, now, capacity);
    case Materialise(key) =>
    case Sweep(tick) =>
      if k in m && Evictable(m[k], tick) {
        EvictionKeepsCredit(m[k], f, tick, now, capacity);
      }
  }

  lemma ChangeFloor<K>(m: map<K, Bucket>, capacity: real, f: Refill, c: Change<K>, clock: real, now: real, end: real, k: K)
    requires AllWellFormed(m, capacity, clock) && Steady(f) && clock <= now <= end
    requires c.Charge? ==> c.made <= now
    requires c.Charge? ==> c.granted == Grants(if c.key in m then m[c.key] else NewBucket(capacity, c.made), f, 1.0, now)
    ensures Credit(Lookup(Changed(m, capacity, f, c, now), k), capacity, f, end) + One(Takes(c, k))
         >= Min(capacity, Credit(Lookup(m, k), capacity, f, clock) + f(clock, end))
  {
    ChangeFloorAt(m, capacity, f, c, clock, now, k);
    ChangePaysFromCredit(m, capacity, f, c, clock, now, k);
    WaitingFloor(Lookup(Changed(m, capacity, f, c, now), k), capacity, f, now, end);
    assert f(clock, now) + f(now, end) == f(clock, end);
    assert f(now, end) >= 0.0;
  }

  /** A bucket of the source grants and is left with what the elapsed time at its rate, capped, allows. */
  lemma BucketGrantsExactly(b: Bucket, rate: real, earned: real, now: real)
    requires earned == (now - b.lastRefill) * rate
    ensures Grants(b, Linear(rate), 1.0, now) <==> b.capacity >= 1.0 && b.tokens + earned >= 1.0
    ensures Charged(b, Linear(rate), 1.0, now).tokens + (if Grants(b, Linear(rate), 1.0, now) then 1.0 else 0.0)
         == if b.tokens + earned <= b.capacity then b.tokens + earned else b.capacity
  {
    LinearMeans(rate, b.lastRefill, now);
    GrantsExactly(b, Linear(rate), now);
  }

  // ---- over runs ---------------------------------------------------------------------------------------

  predicate IpTakes(cfg: Config, st: State, e: Event, ip: Ip) {
    e.Request? && e.ip == ip && IpGrants(cfg, st, ip, e.at)
  }

  /** How many requests the bucket of an address grants, its subnet's bucket apart. */
  function IpGranted(cfg: Config, st: State, es: seq<Event>, ip: Ip): nat {
    if |es| == 0 then 0
    else
      IpGranted(cfg, st, es[..|es| - 1], ip)
      + if IpTakes(cfg, Run(cfg, st, es[..|es| - 1]), es[|es| - 1], ip) then 1 else 0
  }

  lemma StepFloor(cfg: Config, st: State, clock: real, e: Event, ip: Ip, s: Subnet)
    requires SteadyConfig(cfg) && Sound(cfg, st, clock) && clock <= Begins(e) && (e.Request? ==> InOrder(e.at))
    ensures Credit(Lookup(Step(cfg, st, e).ips, ip), cfg.ipCap, cfg.ipRefill, Ends(e)) + One(IpTakes(cfg, st, e, ip))
         >= Min(cfg.ipCap, Credit(Lookup(st.ips, ip), cfg.ipCap, cfg.ipRefill, clock) + cfg.ipRefill(clock, Ends(e)))
    ensures Credit(Lookup(Step(cfg, st, e).subnets, s), cfg.subnetCap, cfg.subnetRefill, Ends(e))
            + One(AcceptsFor(cfg, st, e, Within(s)))
         >= Min(cfg.subnetCap, Credit(Lookup(st.subnets, s), cfg.subnetCap, cfg.subnetRefill, clock)
                               + cfg.subnetRefill(clock, Ends(e)))
  {
    StepIsTwoChanges(cfg, st, e);
    ChangeFloor(st.ips, cfg.ipCap, cfg.ipRefill, IpChange(cfg, st, e), clock, IpTime(e), Ends(e), ip);
    ChangeFloor(st.subnets, cfg.subnetCap, cfg.subnetRefill, SubnetChange(cfg, st, e), clock, SubnetTime(cfg, st, e),
                Ends(e), s);
  }

  /** Two floors one after the other. */
  lemma FloorsAdd(cap: real, c0: real, f01: real, c1: real, g1: real, f12: real, c2: real, g2: real)
    requires g1 >= 0.0 && f12 >= 0.0
    requires c1 + g1 >= Min(cap, c0 + f01) && c2 + g2 >= Min(cap, c1 + f12)
    ensures c2 + (g1 + g2) >= Min(cap, c0 + (f01 + f12))
  {}

  /** Over any run the credit is at least what it was and the refill since, up to the capacity, less what was granted. */
  lemma {:induction false} IpFloor(cfg: Config, st: State, start: real, end: real, es: seq<Event>, ip: Ip)
    requires SteadyConfig(cfg) && Sound(cfg, st, start) && Timely(es, start, end)
    ensures var u, clock := Run(cfg, st, es), ClockAfter(es, start);
            Credit(Lookup(u.ips, ip), cfg.ipCap, cfg.ipRefill, clock) + IpGranted(cfg, st, es, ip) as real
            >= Min(cfg.ipCap, Credit(Lookup(st.ips, ip), cfg.ipCap, cfg.ipRefill, start) + cfg.ipRefill(start, clock))
  {
    if |es| == 0 {
      NoTimeNoRefill(cfg.ipRefill, start);
    } else {
      var front, last := es[..|es| - 1], es[|es| - 1];
      var clock, mid, f := ClockAfter(front, start), Run(cfg, st, front), cfg.ipRefill;
      TimelyPrefix(es, start, end);
      IpFloor(cfg, st, start, end, front, ip);
      RunPays(cfg, st, start, end, front, ip, SubnetOf(ip));
      StepFloor(cfg, mid, clock, last, ip, SubnetOf(ip));
      assert f(clock, Ends(last)) >= 0.0 && f(start, clock) + f(clock, Ends(last)) == f(start, Ends(last));
      FloorsAdd(cfg.ipCap, Credit(Lookup(st.ips, ip), cfg.ipCap, f, start), f(start, clock),
                Credit(Lookup(mid.ips, ip), cfg.ipCap, f, clock), IpGranted(cfg, st, front, ip) as real, f(clock, Ends(last)),
                Credit(Lookup(Run(cfg, st, es).ips, ip), cfg.ipCap, f, Ends(last)), One(IpTakes(cfg, mid, last, ip)));
    }
  }

  /** Likewise the credit of a subnet. */
  lemma {:induction false} SubnetFloor(cfg: Config, st: State, start: real, end: real, es: seq<Event>, ip: Ip, s: Subnet)
    requires SteadyConfig(cfg) && Sound(cfg, st, start) && Timely(es, start, end)
    ensures var u, clock := Run(cfg, st, es), ClockAfter(es, start);
            Credit(Lookup(u.subnets, s), cfg.subnetCap, cfg.subnetRefill, clock) + Accepted(cfg, st, es, Within(s)) as real
            >= Min(cfg.subnetCap, Credit(Lookup(st.subnets, s), cfg.subnetCap, cfg.subnetRefill, start)
                                  + cfg.subnetRefill(start, clock))
  {
    if |es| == 0 {
      NoTimeNoRefill(cfg.subnetRefill, start);
    } else {
      var front, last := es[..|es| - 1], es[|es| - 1];
      var clock, mid, f := ClockAfter(front, start), Run(cfg, st, front), cfg.subnetRefill;
      TimelyPrefix(es, start, end);
      SubnetFloor(cfg, st, start, end, front, ip, s);
      RunPays(cfg, st, start, end, front, ip, s);
      StepFloor(cfg, mid, clock, last, ip, s);
      assert f(clock, Ends(last)) >= 0.0 && f(start, clock) + f(clock, Ends(last)) == f(start, Ends(last));
      FloorsAdd(cfg.subnetCap, Credit(Lookup(st.subnets, s), cfg.subnetCap, f, start), f(start, clock),
                Credit(Lookup(mid.subnets, s), cfg.subnetCap, f, clock), Accepted(cfg, st, front, Within(s)) as real,
                f(clock, Ends(last)),
                Credit(Lookup(Run(cfg, st, es).subnets, s), cfg.subnetCap, f, Ends(last)),
                One(AcceptsFor(cfg, mid, last, Within(s))));
    }
  }

  /** How many requests a history holds for a subnet, whatever became of them. */
  function Asked(es: seq<Event>, s: Subnet): nat {
    if |es| == 0 then 0
    else Asked(es[..|es| - 1], s) + if es[|es| - 1].Request? && SubnetOf(es[|es| - 1].ip) == s then 1 else 0
  }

  lemma {:induction false} GrantsAreAsked(cfg: Config, st: State, es: seq<Event>, ip: Ip)
    ensures IpGranted(cfg, st, es, ip) <= Asked(es, SubnetOf(ip))
    ensures Accepted(cfg, st, es, Within(SubnetOf(ip))) <= Asked(es, SubnetOf(ip))
  {
    if |es| > 0 {
      GrantsAreAsked(cfg, st, es[..|es| - 1], ip);
    }
  }

  /** At any later time, still without a grant, the credit of an address and of its subnet has the same floor. */
  lemma CreditFloor(cfg: Config, created: real, es: seq<Event>, ip: Ip, ipTime: real, subnetTime: real)
    requires SteadyConfig(cfg) && Timely(es, created, ipTime) && ipTime <= subnetTime
    ensures var u := Run(cfg, State(map[], map[]), es);
            && Sound(cfg, u, ClockAfter(es, created))
            && Credit(Lookup(u.ips, ip), cfg.ipCap, cfg.ipRefill, ipTime) >= cfg.ipCap - Asked(es, SubnetOf(ip)) as real
            && Credit(Lookup(u.subnets, SubnetOf(ip)), cfg.subnetCap, cfg.subnetRefill, subnetTime)
               >= cfg.subnetCap - Asked(es, SubnetOf(ip)) as real
  {
    var new_, s := State(map[], map[]), SubnetOf(ip);
    RunPays(cfg, new_, created, ipTime, es, ip, s);
    IpFloor(cfg, new_, created, ipTime, es, ip);
    SubnetFloor(cfg, new_, created, ipTime, es, ip, s);
    GrantsAreAsked(cfg, new_, es, ip);
    var u, clock := Run(cfg, new_, es), ClockAfter(es, created);
    assert cfg.ipRefill(created, clock) >= 0.0 && cfg.subnetRefill(created, clock) >= 0.0;
    assert cfg.ipRefill(clock, ipTime) >= 0.0 && cfg.subnetRefill(clock, subnetTime) >= 0.0;
    WaitingFloor(Lookup(u.ips, ip), cfg.ipCap, cfg.ipRefill, clock, ipTime);
    WaitingFloor(Lookup(u.subnets, s), cfg.subnetCap, cfg.subnetRefill, clock, subnetTime);
  }

  /**
   Bursts: after any history of a new limiter, a request is allowed as long as fewer requests than either
   capacity have been made from its subnet, at whatever times, and whatever was swept meanwhile.
   */
  lemma BurstIsAllowed(ipCap: int, ipRefill: real, subnetCap: int, subnetRefill: real, created: real, es: seq<Event>,
                       ip: Ip, t: Readings)
    requires ipRefill >= 0.0 && subnetRefill >= 0.0 && Timely(es, created, t.ipMade) && InOrder(t)
    requires Asked(es, SubnetOf(ip)) < ipCap && Asked(es, SubnetOf(ip)) < subnetCap
    ensures Allowed(LinearConfig(ipCap, ipRefill, subnetCap, subnetRefill),
                    Run(LinearConfig(ipCap, ipRefill, subnetCap, subnetRefill), State(map[], map[]), es), ip, t)
  {
    LinearIsSteady(ipRefill);
    LinearIsSteady(subnetRefill);
    var cfg := LinearConfig(ipCap, ipRefill, subnetCap, subnetRefill);
    TimelyLater(es, created, t.ipMade, t.ipAsked);
    CreditFloor(cfg, created, es, ip, t.ipAsked, t.subnetAsked);
    RunPays(cfg, State(map[], map[]), created, t.ipMade, es, ip, SubnetOf(ip));
    AllowedExactly(cfg, Run(cfg, State(map[], map[]), es), ClockAfter(es, created), ip, t);
  }

  lemma TimelyLater(es: seq<Event>, start: real, end: real, later: real)
    requires Timely(es, start, end) && end <= later
    ensures Timely(es, start, later)
  {}
}
