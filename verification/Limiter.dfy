/** Dual token buckets (cmd/sovereign-security-daemon/limiter.go), with reals for float64. */
module Limiter {
  import opened Bytes
  import opened Results

  // ---- addresses and subnets -----------------------------------------------------------------

  /** IPv4 (also in its IPv6 form), IPv6 as eight groups, or bytes of any other length. */
  datatype Ip = V4(a: byte, b: byte, c: byte, d: byte) | V6(groups: seq<uint16>) | Other(raw: seq<byte>)

  datatype Subnet = Net24(a: byte, b: byte, c: byte) | Net48(groups: seq<uint16>) | Unknown

  /** getSubnet24Key: /24 for IPv4, /48 for IPv6. */
  function SubnetOf(ip: Ip): Subnet {
    match ip
    case V4(a, b, c, _) => Net24(a, b, c)
    case V6(g) => if |g| == 8 then Net48(g[..3]) else Unknown
    case Other(_) => Unknown
  }

  /** IPv4 addresses share a subnet exactly when their first three bytes agree, IPv6 addresses when their first three groups do. */
  lemma SameSubnetExactly(x: Ip, y: Ip)
    ensures x.V4? && y.V4? ==> (SubnetOf(x) == SubnetOf(y) <==> x.a == y.a && x.b == y.b && x.c == y.c)
    ensures x.V6? && y.V6? && |x.groups| == 8 && |y.groups| == 8 ==>
      (SubnetOf(x) == SubnetOf(y) <==> x.groups[0] == y.groups[0] && x.groups[1] == y.groups[1] && x.groups[2] == y.groups[2])
    ensures x.V4? && !y.V4? ==> SubnetOf(x) != SubnetOf(y)
  {
    if x.V6? && y.V6? && |x.groups| == 8 && |y.groups| == 8 {
      assert x.groups[..3] == [x.groups[0], x.groups[1], x.groups[2]];
      assert y.groups[..3] == [y.groups[0], y.groups[1], y.groups[2]];
    }
  }

  /** What a bucket is kept for. */
  datatype Slot = IpSlot(ip: Ip) | SubnetSlot(s: Subnet)

  // ---- one bucket ------------------------------------------------------------------------

  datatype Bucket = Bucket(tokens: real, capacity: real, lastRefill: real)

  /** The tokens a bucket earns between two times. */
  type Refill = (real, real) -> real

  /** The refill of the source: a constant rate, in tokens per second. */
  function Linear(rate: real): Refill {
    (from, to) => (to - from) * rate
  }

  /** What the rate bound needs of a refill: never negative, and additive over time. */
  ghost predicate Steady(f: Refill) {
    && (forall a, b :: a <= b ==> f(a, b) >= 0.0)
    && (forall a, b, c {:trigger f(a, b), f(b, c)} :: a <= b <= c ==> f(a, b) + f(b, c) == f(a, c))
  }

  lemma LinearMeans(rate: real, from: real, to: real)
    ensures Linear(rate)(from, to) == (to - from) * rate
  {}

  lemma LinearIsSteady(rate: real)
    requires rate >= 0.0
    ensures Steady(Linear(rate))
  {
    forall a: real, b: real | a <= b
      ensures Linear(rate)(a, b) >= 0.0
    {
      Product(b - a, rate);
    }
  }

  lemma Product(x: real, y: real)
    requires x >= 0.0 && y >= 0.0
    ensures x * y >= 0.0
  {}

  function Min(a: real, b: real): real {
    if a <= b then a else b
  }

  function NewBucket(capacity: real, now: real): Bucket {
    Bucket(capacity, capacity, now)
  }

  /** Tokens the bucket would have at a given time. */
  function TokensAt(b: Bucket, refill: Refill, now: real): real {
    Min(b.capacity, b.tokens + refill(b.lastRefill, now))
  }

  predicate Grants(b: Bucket, refill: Refill, cost: real, now: real) {
    TokensAt(b, refill, now) >= cost
  }

  function Charged(b: Bucket, refill: Refill, cost: real, now: real): Bucket {
    b.(tokens := TokensAt(b, refill, now) - if Grants(b, refill, cost, now) then cost else 0.0, lastRefill := now)
  }

  class TokenBucket {
    var tokens: real
    const capacity: real
    const refillRate: real
    var lastRefill: real
    /** The key the bucket is made for. */
    ghost const slot: Slot

    function View(): Bucket
      reads this
    {
      Bucket(tokens, capacity, lastRefill)
    }

    constructor (capacity: real, refillRate: real, now: real, ghost slot: Slot)
      ensures View() == NewBucket(capacity, now) && this.refillRate == refillRate && this.slot == slot
    {
      this.slot := slot;
      this.tokens, this.capacity, this.refillRate, this.lastRefill := capacity, capacity, refillRate, now;
    }

    method Allow(cost: real, now: real) returns (ok: bool)
      modifies this
      ensures ok == Grants(old(View()), Linear(refillRate), cost, now)
      ensures View() == Charged(old(View()), Linear(refillRate), cost, now)
    {
      var elapsed := now - lastRefill;
      ghost var earned := Linear(refillRate)(lastRefill, now);
      assert elapsed * refillRate == earned;
      lastRefill := now;
      tokens := Min(capacity, tokens + elapsed * refillRate);
      if tokens >= cost {
        tokens := tokens - cost;
        return true;
      }
      return false;
    }
  }

  // ---- the limiter as a value ---------------------------------------------------------------------

  datatype Config = Config(ipCap: real, ipRefill: Refill, subnetCap: real, subnetRefill: Refill)

  datatype State = State(ips: map<Ip, Bucket>, subnets: map<Subnet, Bucket>)

  /** The clock as one request reads it: when it makes missing buckets, and when each is asked. */
  datatype Readings = Readings(ipMade: real, subnetMade: real, ipAsked: real, subnetAsked: real)

  /** The readings in the order of the code. */
  predicate InOrder(t: Readings) {
    t.ipMade <= t.subnetMade <= t.ipAsked <= t.subnetAsked
  }

  datatype Event = Request(ip: Ip, at: Readings) | Cleanup(tick: real, now: real)

  /** The first and the last reading of the clock in an event. */
  function Begins(e: Event): real {
    if e.Request? then e.at.ipMade else e.now
  }

  function Ends(e: Event): real {
    if e.Request? then e.at.subnetAsked else e.now
  }

  function IpBucket(cfg: Config, st: State, ip: Ip, made: real): Bucket {
    if ip in st.ips then st.ips[ip] else NewBucket(cfg.ipCap, made)
  }

  function SubnetBucket(cfg: Config, st: State, s: Subnet, made: real): Bucket {
    if s in st.subnets then st.subnets[s] else NewBucket(cfg.subnetCap, made)
  }

  predicate IpGrants(cfg: Config, st: State, ip: Ip, t: Readings) {
    Grants(IpBucket(cfg, st, ip, t.ipMade), cfg.ipRefill, 1.0, t.ipAsked)
  }

  predicate SubnetGrants(cfg: Config, st: State, s: Subnet, t: Readings) {
    Grants(SubnetBucket(cfg, st, s, t.subnetMade), cfg.subnetRefill, 1.0, t.subnetAsked)
  }

  predicate Allowed(cfg: Config, st: State, ip: Ip, t: Readings) {
    IpGrants(cfg, st, ip, t) && SubnetGrants(cfg, st, SubnetOf(ip), t)
  }

  /** The subnet bucket is charged only when the IP bucket granted; both exist afterwards. */
  function AfterRequest(cfg: Config, st: State, ip: Ip, t: Readings): State {
    var s := SubnetOf(ip);
    State(st.ips[ip := Charged(IpBucket(cfg, st, ip, t.ipMade), cfg.ipRefill, 1.0, t.ipAsked)],
          st.subnets[s := if IpGrants(cfg, st, ip, t)
                          then Charged(SubnetBucket(cfg, st, s, t.subnetMade), cfg.subnetRefill, 1.0, t.subnetAsked)
                          else SubnetBucket(cfg, st, s, t.subnetMade)])
  }

  /** The buckets are looked up, or made, first; then charged in turn. */
  lemma RequestCharges(cfg: Config, st: State, ip: Ip, t: Readings, after: State, granted: bool)
    requires granted == IpGrants(cfg, st, ip, t)
    requires var b := IpBucket(cfg, st, ip, t.ipMade);
             after.ips == st.ips[ip := b][ip := Charged(b, cfg.ipRefill, 1.0, t.ipAsked)]
    requires var s := SubnetOf(ip);
             var b := SubnetBucket(cfg, st, s, t.subnetMade);
             var made := st.subnets[s := b];
             after.subnets == if granted then made[s := Charged(b, cfg.subnetRefill, 1.0, t.subnetAsked)] else made
    ensures after == AfterRequest(cfg, st, ip, t)
  {
    assert after.ips == AfterRequest(cfg, st, ip, t).ips;
    assert after.subnets == AfterRequest(cfg, st, ip, t).subnets;
  }

  const IDLE_SECONDS: real := 1800.0

  predicate Evictable(b: Bucket, tick: real) {
    b.lastRefill < tick - IDLE_SECONDS && b.tokens >= b.capacity
  }

  /** What a sweep leaves; the time of the tick may lag behind the clock. */
  function Kept<K>(m: map<K, Bucket>, tick: real): map<K, Bucket> {
    map k | k in m && !Evictable(m[k], tick) :: m[k]
  }

  /** A sweep takes the buckets idle for half an hour that are full, and no other. */
  lemma KeptExactly<K>(m: map<K, Bucket>, tick: real, k: K)
    ensures k in Kept(m, tick) <==> k in m && (m[k].lastRefill >= tick - 1800.0 || m[k].tokens < m[k].capacity)
    ensures k in Kept(m, tick) ==> Kept(m, tick)[k] == m[k]
  {}

  function Step(cfg: Config, st: State, e: Event): State {
    match e
    case Request(ip, t) => AfterRequest(cfg, st, ip, t)
    case Cleanup(tick, _) => State(Kept(st.ips, tick), Kept(st.subnets, tick))
  }

  function Run(cfg: Config, st: State, es: seq<Event>): State {
    if |es| == 0 then st else Step(cfg, Run(cfg, st, es[..|es| - 1]), es[|es| - 1])
  }

  function From(ip: Ip): Ip -> bool {
    i => i == ip
  }

  function Within(s: Subnet): Ip -> bool {
    i => SubnetOf(i) == s
  }

  predicate AcceptsFor(cfg: Config, st: State, e: Event, who: Ip -> bool) {
    e.Request? && who(e.ip) && Allowed(cfg, st, e.ip, e.at)
  }

  /** How many requests of the chosen addresses a run accepts. */
  function Accepted(cfg: Config, st: State, es: seq<Event>, who: Ip -> bool): nat {
    if |es| == 0 then 0
    else
      Accepted(cfg, st, es[..|es| - 1], who)
      + if AcceptsFor(cfg, Run(cfg, st, es[..|es| - 1]), es[|es| - 1], who) then 1 else 0
  }

  /** The clock never goes back, and all its readings lie within the window. */
  predicate Timely(es: seq<Event>, start: real, end: real) {
    && start <= end
    && (forall i :: 0 <= i < |es| ==> start <= Begins(es[i]) && Ends(es[i]) <= end && (es[i].Request? ==> InOrder(es[i].at)))
    && forall i, j :: 0 <= i < j < |es| ==> Ends(es[i]) <= Begins(es[j])
  }

  // ---- credit: what a bucket, present or not, can still grant -----------------------------------------

  /** A missing bucket stands for a full one. */
  function Credit(b: Option<Bucket>, capacity: real, refill: Refill, now: real): real {
    match b
    case None => capacity
    case Some(b) => TokensAt(b, refill, now)
  }

  function Positive(x: real): real {
    if x > 0.0 then x else 0.0
  }

  predicate WellFormed(b: Bucket, capacity: real, clock: real) {
    b.capacity == capacity && b.tokens <= capacity && b.lastRefill <= clock
  }

  predicate AllWellFormed<K>(m: map<K, Bucket>, capacity: real, clock: real) {
    forall k :: k in m ==> WellFormed(m[k], capacity, clock)
  }

  /** Credit grows no faster than the refill, and never beyond the capacity. */
  lemma CreditGrowth(b: Option<Bucket>, capacity: real, f: Refill, t0: real, t1: real)
    requires b.Some? ==> WellFormed(b.value, capacity, t0)
    requires Steady(f) && t0 <= t1
    ensures Credit(b, capacity, f, t1) <= Credit(b, capacity, f, t0) + f(t0, t1)
    ensures Credit(b, capacity, f, t1) <= capacity
  {
    assert f(t0, t1) >= 0.0;
    if b.Some? {
      assert f(b.value.lastRefill, t0) + f(t0, t1) == f(b.value.lastRefill, t1);
    }
  }

  /** No time, no refill. */
  lemma NoTimeNoRefill(f: Refill, t: real)
    requires Steady(f)
    ensures f(t, t) == 0.0
  {
    assert f(t, t) + f(t, t) == f(t, t);
  }

  /** A grant takes one token of credit, a refusal none. */
  lemma ChargeTakesCredit(b: Bucket, f: Refill, now: real, capacity: real)
    requires WellFormed(b, capacity, now) && Steady(f)
    ensures WellFormed(Charged(b, f, 1.0, now), capacity, now)
    ensures Credit(Some(Charged(b, f, 1.0, now)), capacity, f, now)
         == Credit(Some(b), capacity, f, now) - if Grants(b, f, 1.0, now) then 1.0 else 0.0
  {
    NoTimeNoRefill(f, now);
  }

  /** Only full buckets are evicted, and a full bucket has the credit of a missing one. */
  lemma EvictionKeepsCredit(b: Bucket, f: Refill, tick: real, now: real, capacity: real)
    requires WellFormed(b, capacity, now) && Steady(f) && Evictable(b, tick)
    ensures Credit(Some(b), capacity, f, now) == Credit(None, capacity, f, now)
  {
    assert f(b.lastRefill, now) >= 0.0;
  }

  /** A bucket made a moment ago has the credit of a missing one. */
  lemma FreshBucketCredit(capacity: real, f: Refill, made: real, now: real)
    requires Steady(f) && made <= now
    ensures Credit(Some(NewBucket(capacity, made)), capacity, f, now) == capacity
    ensures WellFormed(NewBucket(capacity, made), capacity, now)
  {
    assert f(made, now) >= 0.0;
  }

  function Lookup<K, V>(m: map<K, V>, k: K): Option<V> {
    if k in m then Some(m[k]) else None
  }

  // ---- what one event does to the credit of one key ------------------------------------------------------

  /** The bucket map is charged at one key, or swept, or left alone. */
  datatype Change<K> = Charge(key: K, made: real, granted: bool) | Materialise(key: K) | Sweep(tick: real)

  function Changed<K>(m: map<K, Bucket>, capacity: real, f: Refill, c: Change<K>, now: real): map<K, Bucket> {
    match c
    case Charge(k, made, _) => m[k := Charged(if k in m then m[k] else NewBucket(capacity, made), f, 1.0, now)]
    case Materialise(k) => m[k := if k in m then m[k] else NewBucket(capacity, now)]
    case Sweep(tick) => Kept(m, tick)
  }

  /** Every change keeps well-formedness, and a grant is paid for out of the credit of its key. */
  lemma ChangePaysFromCredit<K>(m: map<K, Bucket>, capacity: real, f: Refill, c: Change<K>, clock: real, now: real, k: K)
    requires AllWellFormed(m, capacity, clock) && Steady(f) && clock <= now
    requires c.Charge? ==> c.made <= now
    requires c.Charge? ==> c.granted == Grants(if c.key in m then m[c.key] else NewBucket(capacity, c.made), f, 1.0, now)
    ensures AllWellFormed(Changed(m, capacity, f, c, now), capacity, now)
    ensures Positive(Credit(Lookup(Changed(m, capacity, f, c, now), k), capacity, f, now))
            + (if c.Charge? && c.key == k && c.granted then 1.0 else 0.0)
         <= Positive(Credit(Lookup(m, k), capacity, f, clock)) + f(clock, now)
  {
    assert f(clock, now) >= 0.0;
    CreditGrowth(Lookup(m, k), capacity, f, clock, now);
    FreshBucketCredit(capacity, f, now, now);
    match c
    case Charge(key, made, _) =>
      FreshBucketCredit(capacity, f, made, now);
      ChargeTakesCredit(if key in m then m[key] else NewBucket(capacity, made), f, now, capacity);
    case Materialise(key) =>
    case Sweep(tick) =>
      if k in m && Evictable(m[k], tick) {
        EvictionKeepsCredit(m[k], f, tick, now, capacity);
      }
  }

  function IpChange(cfg: Config, st: State, e: Event): Change<Ip> {
    match e
    case Request(ip, t) => Charge(ip, t.ipMade, IpGrants(cfg, st, ip, t))
    case Cleanup(tick, _) => Sweep(tick)
  }

  function SubnetChange(cfg: Config, st: State, e: Event): Change<Subnet> {
    match e
    case Request(ip, t) =>
      if IpGrants(cfg, st, ip, t) then Charge(SubnetOf(ip), t.subnetMade, SubnetGrants(cfg, st, SubnetOf(ip), t))
      else Materialise(SubnetOf(ip))
    case Cleanup(tick, _) => Sweep(tick)
  }

  /** When each map changes. */
  function IpTime(e: Event): real {
    if e.Request? then e.at.ipAsked else e.now
  }

  function SubnetTime(cfg: Config, st: State, e: Event): real {
    if e.Cleanup? then e.now else if IpGrants(cfg, st, e.ip, e.at) then e.at.subnetAsked else e.at.subnetMade
  }

  /** One event is one change of each map. */
  lemma StepIsTwoChanges(cfg: Config, st: State, e: Event)
    ensures Step(cfg, st, e).ips == Changed(st.ips, cfg.ipCap, cfg.ipRefill, IpChange(cfg, st, e), IpTime(e))
    ensures Step(cfg, st, e).subnets ==
            Changed(st.subnets, cfg.subnetCap, cfg.subnetRefill, SubnetChange(cfg, st, e), SubnetTime(cfg, st, e))
  {}

  /** A change at some time between the clock and the end of the event. */
  lemma ChangePaysUntil<K>(m: map<K, Bucket>, capacity: real, f: Refill, c: Change<K>, clock: real, now: real, end: real, k: K)
    requires AllWellFormed(m, capacity, clock) && Steady(f) && clock <= now <= end
    requires c.Charge? ==> c.made <= now
    requires c.Charge? ==> c.granted == Grants(if c.key in m then m[c.key] else NewBucket(capacity, c.made), f, 1.0, now)
    ensures AllWellFormed(Changed(m, capacity, f, c, now), capacity, end)
    ensures Positive(Credit(Lookup(Changed(m, capacity, f, c, now), k), capacity, f, end))
            + (if c.Charge? && c.key == k && c.granted then 1.0 else 0.0)
         <= Positive(Credit(Lookup(m, k), capacity, f, clock)) + f(clock, end)
  {
    ChangePaysFromCredit(m, capacity, f, c, clock, now, k);
    CreditGrowth(Lookup(Changed(m, capacity, f, c, now), k), capacity, f, now, end);
    assert f(clock, now) + f(now, end) == f(clock, end);
    assert f(now, end) >= 0.0;
  }

  // ---- rate bounds over every run and window ------------------------------------------------------------

  predicate Sound(cfg: Config, st: State, clock: real) {
    AllWellFormed(st.ips, cfg.ipCap, clock) && AllWellFormed(st.subnets, cfg.subnetCap, clock)
  }

  ghost predicate SteadyConfig(cfg: Config) {
    Steady(cfg.ipRefill) && Steady(cfg.subnetRefill)
  }

  function IpCredit(cfg: Config, st: State, ip: Ip, clock: real): real {
    Positive(Credit(Lookup(st.ips, ip), cfg.ipCap, cfg.ipRefill, clock))
  }

  function SubnetCredit(cfg: Config, st: State, s: Subnet, clock: real): real {
    Positive(Credit(Lookup(st.subnets, s), cfg.subnetCap, cfg.subnetRefill, clock))
  }

  function One(b: bool): real {
    if b then 1.0 else 0.0
  }

  lemma StepPays(cfg: Config, st: State, clock: real, e: Event, ip: Ip, s: Subnet)
    requires SteadyConfig(cfg) && Sound(cfg, st, clock) && clock <= Begins(e) && (e.Request? ==> InOrder(e.at))
    ensures Sound(cfg, Step(cfg, st, e), Ends(e))
    ensures IpCredit(cfg, Step(cfg, st, e), ip, Ends(e)) + One(AcceptsFor(cfg, st, e, From(ip)))
         <= IpCredit(cfg, st, ip, clock) + cfg.ipRefill(clock, Ends(e))
    ensures SubnetCredit(cfg, Step(cfg, st, e), s, Ends(e)) + One(AcceptsFor(cfg, st, e, Within(s)))
         <= SubnetCredit(cfg, st, s, clock) + cfg.subnetRefill(clock, Ends(e))
  {
    StepIsTwoChanges(cfg, st, e);
    ChangePaysUntil(st.ips, cfg.ipCap, cfg.ipRefill, IpChange(cfg, st, e), clock, IpTime(e), Ends(e), ip);
    ChangePaysUntil(st.subnets, cfg.subnetCap, cfg.subnetRefill, SubnetChange(cfg, st, e), clock, SubnetTime(cfg, st, e),
                    Ends(e), s);
  }

  function ClockAfter(es: seq<Event>, start: real): real {
    if |es| == 0 then start else Ends(es[|es| - 1])
  }

  lemma TimelyPrefix(es: seq<Event>, start: real, end: real)
    requires Timely(es, start, end) && |es| > 0
    ensures Timely(es[..|es| - 1], start, end)
    ensures start <= ClockAfter(es[..|es| - 1], start) <= Begins(es[|es| - 1])
  {}

  /** Accepted requests are paid for out of the credit at the start and what is refilled since. */
  lemma {:induction false} RunPays(cfg: Config, st: State, start: real, end: real, es: seq<Event>, ip: Ip, s: Subnet)
    requires SteadyConfig(cfg) && Sound(cfg, st, start) && Timely(es, start, end)
    ensures start <= ClockAfter(es, start) <= end
    ensures Sound(cfg, Run(cfg, st, es), ClockAfter(es, start))
    ensures IpCredit(cfg, Run(cfg, st, es), ip, ClockAfter(es, start)) + Accepted(cfg, st, es, From(ip)) as real
         <= IpCredit(cfg, st, ip, start) + cfg.ipRefill(start, ClockAfter(es, start))
    ensures SubnetCredit(cfg, Run(cfg, st, es), s, ClockAfter(es, start))
            + Accepted(cfg, st, es, Within(s)) as real
         <= SubnetCredit(cfg, st, s, start) + cfg.subnetRefill(start, ClockAfter(es, start))
  {
    if |es| == 0 {
      NoTimeNoRefill(cfg.ipRefill, start);
      NoTimeNoRefill(cfg.subnetRefill, start);
    } else {
      var front, last := es[..|es| - 1], es[|es| - 1];
      var clock := ClockAfter(front, start);
      TimelyPrefix(es, start, end);
      RunPays(cfg, st, start, end, front, ip, s);
      StepPays(cfg, Run(cfg, st, front), clock, last, ip, s);
      assert cfg.ipRefill(start, clock) + cfg.ipRefill(clock, Ends(last)) == cfg.ipRefill(start, Ends(last));
      assert cfg.subnetRefill(start, clock) + cfg.subnetRefill(clock, Ends(last)) == cfg.subnetRefill(start, Ends(last));
    }
  }

  /** For any steady refill, in any window of any history: at most the capacity and the refill of the window. */
  lemma WindowBound(cfg: Config, created: real, history: seq<Event>, start: real, end: real, window: seq<Event>, ip: Ip, s: Subnet)
    requires SteadyConfig(cfg) && Timely(history, created, start) && Timely(window, start, end)
    ensures var st := Run(cfg, State(map[], map[]), history);
            && Accepted(cfg, st, window, From(ip)) as real <= Positive(cfg.ipCap) + cfg.ipRefill(start, end)
            && Accepted(cfg, st, window, Within(s)) as real <= Positive(cfg.subnetCap) + cfg.subnetRefill(start, end)
  {
    var st := Run(cfg, State(map[], map[]), history);
    RunPays(cfg, State(map[], map[]), created, start, history, ip, s);
    RunPays(cfg, st, start, end, window, ip, s);
    CreditGrowth(Lookup(st.ips, ip), cfg.ipCap, cfg.ipRefill, start, start);
    CreditGrowth(Lookup(st.subnets, s), cfg.subnetCap, cfg.subnetRefill, start, start);
    var clock := ClockAfter(window, start);
    assert cfg.ipRefill(start, clock) + cfg.ipRefill(clock, end) == cfg.ipRefill(start, end);
    assert cfg.subnetRefill(start, clock) + cfg.subnetRefill(clock, end) == cfg.subnetRefill(start, end);
  }

  /** The configuration of NewDualTokenBucketLimiter. */
  function LinearConfig(ipCap: int, ipRefill: real, subnetCap: int, subnetRefill: real): Config {
    Config(ipCap as real, Linear(ipRefill), subnetCap as real, Linear(subnetRefill))
  }

  /**
   After any history since creation, in any time window: the requests accepted for one address number at
   most ipCap + ipRefill * (end - start), and those for one subnet, all its addresses together, at most
   subnetCap + subnetRefill * (end - start), whatever was evicted meanwhile.
   */
  lemma RateBound(ipCap: int, ipRefill: real, subnetCap: int, subnetRefill: real, created: real, history: seq<Event>,
                  start: real, end: real, window: seq<Event>, ip: Ip, s: Subnet)
    requires ipRefill >= 0.0 && subnetRefill >= 0.0
    requires Timely(history, created, start) && Timely(window, start, end)
    ensures var cfg := LinearConfig(ipCap, ipRefill, subnetCap, subnetRefill);
            var st := Run(cfg, State(map[], map[]), history);
            && Accepted(cfg, st, window, From(ip)) as real <= Positive(ipCap as real) + (end - start) * ipRefill
            && Accepted(cfg, st, window, Within(s)) as real <= Positive(subnetCap as real) + (end - start) * subnetRefill
  {
    LinearIsSteady(ipRefill);
    LinearIsSteady(subnetRefill);
    var cfg := LinearConfig(ipCap, ipRefill, subnetCap, subnetRefill);
    WindowBound(cfg, created, history, start, end, window, ip, s);
    var st := Run(cfg, State(map[], map[]), history);
    LinearBound(Accepted(cfg, st, window, From(ip)) as real, ipCap, ipRefill, start, end);
    LinearBound(Accepted(cfg, st, window, Within(s)) as real, subnetCap, subnetRefill, start, end);
  }

  lemma LinearBound(accepted: real, cap: int, rate: real, start: real, end: real)
    requires accepted <= Positive(cap as real) + Linear(rate)(start, end)
    ensures accepted <= Positive(cap as real) + (end - start) * rate
  {}

  // ---- the limiter ------------------------------------------------------------------------------------------

  class DualTokenBucketLimiter {
    var ipBuckets: map<Ip, TokenBucket>
    var subnetBucket: map<Subnet, TokenBucket>
    const ipCap: int
    const ipRefill: real
    const subnetCap: int
    const subnetRefill: real

    /** Every bucket was made for its key, so no bucket is shared between keys. */
    ghost predicate Valid()
      reads this
    {
      && (forall k :: k in ipBuckets ==> ipBuckets[k].refillRate == ipRefill && ipBuckets[k].slot == IpSlot(k))
      && (forall k :: k in subnetBucket ==>
            subnetBucket[k].refillRate == subnetRefill && subnetBucket[k].slot == SubnetSlot(k))
    }

    static ghost function Views<K>(m: map<K, TokenBucket>): map<K, Bucket>
      reads m.Values
    {
      map k | k in m :: m[k].View()
    }

    ghost function View(): State
      reads this, ipBuckets.Values, subnetBucket.Values
    {
      State(Views(ipBuckets), Views(subnetBucket))
    }

    ghost function Settings(): Config {
      LinearConfig(ipCap, ipRefill, subnetCap, subnetRefill)
    }

    constructor (ipCap: int, ipRefill: real, subnetCap: int, subnetRefill: real)
      ensures Valid() && View() == State(map[], map[])
      ensures Settings() == LinearConfig(ipCap, ipRefill, subnetCap, subnetRefill)
    {
      ipBuckets, subnetBucket := map[], map[];
      this.ipCap, this.ipRefill, this.subnetCap, this.subnetRefill := ipCap, ipRefill, subnetCap, subnetRefill;
    }

    /** A missing address is refused; any other request charges the buckets as AfterRequest says. */
    method Allow(ip: Option<Ip>, t: Readings) returns (ok: bool)
      requires Valid()
      modifies this, ipBuckets.Values, subnetBucket.Values
      ensures Valid()
      ensures ip.None? ==> !ok && View() == old(View())
      ensures ip.Some? ==> ok == Allowed(Settings(), old(View()), ip.value, t)
      ensures ip.Some? ==> View() == AfterRequest(Settings(), old(View()), ip.value, t)
    {
      if ip.None? {
        return false;
      }
      ok := AllowAddress(ip.value, t);
    }

    method AllowAddress(ip: Ip, t: Readings) returns (ok: bool)
      requires Valid()
      modifies this, ipBuckets.Values, subnetBucket.Values
      ensures Valid()
      ensures ok == Allowed(Settings(), old(View()), ip, t)
      ensures View() == AfterRequest(Settings(), old(View()), ip, t)
    {
      ghost var st := View();
      ghost var perIp := IpBucket(Settings(), st, ip, t.ipMade);
      var subnet := SubnetOf(ip);
      ghost var perSubnet := SubnetBucket(Settings(), st, subnet, t.subnetMade);
      ghost var made := State(st.ips[ip := perIp], st.subnets[subnet := perSubnet]);
      var tbIp, tbSubnet := LookUp(ip, subnet, t, st);
      ok := ChargeIp(ip, tbIp, t.ipAsked, made);
      ghost var granted := ok;
      if ok {
        ok := ChargeSubnet(subnet, tbSubnet, t.subnetAsked, View());
      }
      RequestCharges(Settings(), st, ip, t, View(), granted);
    }

    /** Both buckets, each made when missing. */
    method LookUp(ip: Ip, subnet: Subnet, t: Readings, ghost st: State) returns (tbIp: TokenBucket, tbSubnet: TokenBucket)
      requires Valid() && View() == st
      modifies this
      ensures Valid()
      ensures ip in ipBuckets && ipBuckets[ip] == tbIp && subnet in subnetBucket && subnetBucket[subnet] == tbSubnet
      ensures tbIp in old(ipBuckets.Values) || fresh(tbIp)
      ensures tbSubnet in old(subnetBucket.Values) || fresh(tbSubnet)
      ensures View().ips == st.ips[ip := IpBucket(Settings(), st, ip, t.ipMade)]
      ensures View().subnets == st.subnets[subnet := SubnetBucket(Settings(), st, subnet, t.subnetMade)]
    {
      tbIp := BucketForIp(ip, t.ipMade, st);
      tbSubnet := BucketForSubnet(subnet, t.subnetMade, View());
    }

    method BucketForIp(ip: Ip, now: real, ghost st: State) returns (tb: TokenBucket)
      requires Valid() && View() == st
      modifies this`ipBuckets
      ensures Valid() && ip in ipBuckets && ipBuckets[ip] == tb
      ensures tb in old(ipBuckets.Values) || fresh(tb)
      ensures View() == State(st.ips[ip := IpBucket(Settings(), st, ip, now)], st.subnets)
    {
      if ip !in ipBuckets {
        tb := new TokenBucket(ipCap as real, ipRefill, now, IpSlot(ip));
        ipBuckets := ipBuckets[ip := tb];
      } else {
        tb := ipBuckets[ip];
      }
    }

    method BucketForSubnet(s: Subnet, now: real, ghost st: State) returns (tb: TokenBucket)
      requires Valid() && View() == st
      modifies this`subnetBucket
      ensures Valid() && s in subnetBucket && subnetBucket[s] == tb
      ensures tb in old(subnetBucket.Values) || fresh(tb)
      ensures View() == State(st.ips, st.subnets[s := SubnetBucket(Settings(), st, s, now)])
    {
      if s !in subnetBucket {
        tb := new TokenBucket(subnetCap as real, subnetRefill, now, SubnetSlot(s));
        subnetBucket := subnetBucket[s := tb];
      } else {
        tb := subnetBucket[s];
      }
    }

    method ChargeIp(ip: Ip, tb: TokenBucket, now: real, ghost st: State) returns (ok: bool)
      requires Valid() && View() == st && ip in ipBuckets && ipBuckets[ip] == tb
      modifies tb
      ensures ok == Grants(st.ips[ip], Settings().ipRefill, 1.0, now)
      ensures View() == State(st.ips[ip := Charged(st.ips[ip], Settings().ipRefill, 1.0, now)], st.subnets)
    {
      ok := tb.Allow(1.0, now);
    }

    method ChargeSubnet(s: Subnet, tb: TokenBucket, now: real, ghost st: State) returns (ok: bool)
      requires Valid() && View() == st && s in subnetBucket && subnetBucket[s] == tb
      modifies tb
      ensures ok == Grants(st.subnets[s], Settings().subnetRefill, 1.0, now)
      ensures View() == State(st.ips, st.subnets[s := Charged(st.subnets[s], Settings().subnetRefill, 1.0, now)])
    {
      ok := tb.Allow(1.0, now);
    }

    /** One tick of cleanupLoop. */
    method CleanupTick(tick: real)
      requires Valid()
      modifies this`ipBuckets, this`subnetBucket
      ensures Valid()
      ensures Views(ipBuckets) == Kept(old(Views(ipBuckets)), tick)
      ensures Views(subnetBucket) == Kept(old(Views(subnetBucket)), tick)
    {
      var ips := Sweep(ipBuckets, tick);
      var subnets := Sweep(subnetBucket, tick);
      ipBuckets := ips;
      subnetBucket := subnets;
    }

    /** The loop over one map, in an arbitrary order. */
    static method Sweep<K(==)>(m: map<K, TokenBucket>, tick: real) returns (left: map<K, TokenBucket>)
      ensures left.Keys <= m.Keys && forall k :: k in left ==> left[k] == m[k]
      ensures Views(left) == Kept(Views(m), tick)
    {
      left := m;
      var rest := m.Keys;
      while rest != {}
        invariant rest <= left.Keys <= m.Keys
        invariant forall k :: k in left ==> left[k] == m[k]
        invariant forall k :: k in m && k !in rest ==> (k in left <==> !Evictable(m[k].View(), tick))
        decreases rest
      {
        var k :| k in rest;
        if left[k].lastRefill < tick - IDLE_SECONDS && left[k].tokens >= left[k].capacity {
          left := left - {k};
        }
        rest := rest - {k};
      }
    }
  }
}
