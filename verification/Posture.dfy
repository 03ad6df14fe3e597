/** Posture policies and the quarantine they lead to (pkg/posture/posture.go). */
module Posture {
  import opened Groups
  import opened Text
  import Semver

  // ---- policies and attestations ------------------------------------------------------------------

  datatype OsRule = OsRule(osName: string, minVersion: string)

  datatype GeoRule = GeoRule(allowedCountries: seq<string>, prohibitedCountries: seq<string>, allowedAsns: seq<nat>)

  datatype SecurityRule = SecurityRule(requireDiskEncryption: bool, requireFirewall: bool, requireRootless: bool)

  datatype PosturePolicy = PosturePolicy(
    id: string, enabled: bool, targetGroups: seq<string>, minClientVer: string, osRules: seq<OsRule>,
    geo: GeoRule, security: SecurityRule)

  datatype Attestation = Attestation(
    nodeId: string, osName: string, osVersion: string, clientVersion: string, countryCode: string, asn: nat,
    diskEncrypted: bool, firewallActive: bool, isRootless: bool)

  datatype PostureResult = PostureResult(compliant: bool, quarantine: bool, failedChecks: seq<Failure>, reason: string)

  datatype QuarantineRecord = QuarantineRecord(nodeId: string, reason: string, failedChecks: seq<Failure>)

  /** strings.EqualFold and strings.ToUpper, whatever they do. */
  datatype Casing = Casing(equalFold: (string, string) -> bool, toUpper: string -> string)

  // ---- what a policy asks ----------------------------------------------------------------------------

  predicate Applies(p: PosturePolicy, memberOf: set<string>) {
    p.enabled && Targets(p.targetGroups, memberOf)
  }

  /** A disabled policy never applies; an enabled one to its target groups, or to everyone. */
  lemma AppliesExactly(p: PosturePolicy, peerGroups: seq<string>)
    ensures Applies(p, MemberOf(peerGroups)) <==>
      && p.enabled
      && (p.targetGroups == [] || "group:all" in p.targetGroups || exists g :: g in p.targetGroups && g in peerGroups)
  {
    TargetsExactly(p.targetGroups, peerGroups);
  }

  ghost predicate ClientMeets(minimum: string, version: string) {
    minimum == "" || version == "" || Semver.Compare(version, minimum) >= 0
  }

  /** An empty OS version is compared like any other. */
  ghost predicate OsMeets(cs: Casing, r: OsRule, att: Attestation) {
    !cs.equalFold(att.osName, r.osName) || r.minVersion == "" || Semver.Compare(att.osVersion, r.minVersion) >= 0
  }

  function Country(cs: Casing, text: string): string {
    cs.toUpper(Semver.TrimSpace(text))
  }

  predicate Names(cs: Casing, countries: seq<string>, cc: string) {
    exists i :: 0 <= i < |countries| && Country(cs, countries[i]) == cc
  }

  predicate CountryMeets(cs: Casing, geo: GeoRule, att: Attestation) {
    var cc := Country(cs, att.countryCode);
    cc == "" || (!Names(cs, geo.prohibitedCountries, cc) && (geo.allowedCountries == [] || Names(cs, geo.allowedCountries, cc)))
  }

  predicate AsnMeets(geo: GeoRule, att: Attestation) {
    geo.allowedAsns == [] || att.asn == 0 || att.asn in geo.allowedAsns
  }

  predicate SecurityMeets(s: SecurityRule, att: Attestation) {
    && (s.requireDiskEncryption ==> att.diskEncrypted)
    && (s.requireFirewall ==> att.firewallActive)
    && (s.requireRootless ==> att.isRootless)
  }

  ghost predicate PolicyMet(cs: Casing, p: PosturePolicy, att: Attestation) {
    && ClientMeets(p.minClientVer, att.clientVersion)
    && (forall i :: 0 <= i < |p.osRules| ==> OsMeets(cs, p.osRules[i], att))
    && CountryMeets(cs, p.geo, att)
    && AsnMeets(p.geo, att)
    && SecurityMeets(p.security, att)
  }

  /**
   A country is refused exactly when its code, trimmed and in upper case, is not blank and either is that of a
   prohibited country or, where some countries are allowed, that of none of them.
   */
  lemma CountryRefusedExactly(cs: Casing, geo: GeoRule, att: Attestation)
    ensures var cc := cs.toUpper(Semver.TrimSpace(att.countryCode));
            !CountryMeets(cs, geo, att) <==>
            && cc != ""
            && (|| (exists i :: 0 <= i < |geo.prohibitedCountries| && cs.toUpper(Semver.TrimSpace(geo.prohibitedCountries[i])) == cc)
                || (geo.allowedCountries != []
                    && forall i :: 0 <= i < |geo.allowedCountries| ==> cs.toUpper(Semver.TrimSpace(geo.allowedCountries[i])) != cc))
  {
    var cc := Country(cs, att.countryCode);
    forall i | 0 <= i < |geo.prohibitedCountries|
      ensures Country(cs, geo.prohibitedCountries[i]) == cs.toUpper(Semver.TrimSpace(geo.prohibitedCountries[i]))
    {}
    forall i | 0 <= i < |geo.allowedCountries|
      ensures Country(cs, geo.allowedCountries[i]) == cs.toUpper(Semver.TrimSpace(geo.allowedCountries[i]))
    {}
  }

  /**
   A policy is met exactly when no minimum version that is set is above the one reported (a missing client
   version passes, a missing OS version is compared), the country and the network are allowed, and no safeguard
   it requires is missing.
   */
  lemma MetExactly(cs: Casing, p: PosturePolicy, att: Attestation)
    ensures PolicyMet(cs, p, att) <==>
      && !(p.minClientVer != "" && att.clientVersion != "" && Semver.Compare(att.clientVersion, p.minClientVer) == -1)
      && (forall i :: 0 <= i < |p.osRules| ==>
            !(cs.equalFold(att.osName, p.osRules[i].osName) && p.osRules[i].minVersion != ""
              && Semver.Compare(att.osVersion, p.osRules[i].minVersion) == -1))
      && CountryMeets(cs, p.geo, att)
      && !(p.geo.allowedAsns != [] && att.asn > 0 && att.asn !in p.geo.allowedAsns)
      && !(p.security.requireDiskEncryption && !att.diskEncrypted)
      && !(p.security.requireFirewall && !att.firewallActive)
      && !(p.security.requireRootless && !att.isRootless)
  {
    forall i | 0 <= i < |p.osRules|
      ensures !OsMeets(cs, p.osRules[i], att) <==>
        && cs.equalFold(att.osName, p.osRules[i].osName) && p.osRules[i].minVersion != ""
        && Semver.Compare(att.osVersion, p.osRules[i].minVersion) == -1
    {}
  }

  /** A policy that applies is met. */
  ghost predicate Met(cs: Casing, p: PosturePolicy, att: Attestation, memberOf: set<string>) {
    Applies(p, memberOf) ==> PolicyMet(cs, p, att)
  }

  /** Compliance: every enabled policy that applies is met. */
  ghost predicate Compliant(cs: Casing, policies: map<string, PosturePolicy>, att: Attestation, peerGroups: seq<string>) {
    forall id :: id in policies ==> Met(cs, policies[id], att, MemberOf(peerGroups))
  }

  // ---- raising a minimum ---------------------------------------------------------------------------------

  /** A new minimum at least as high as the old one; a minimum that was set is not dropped. */
  ghost predicate Raised(former: string, latter: string) {
    former == "" || (latter != "" && Semver.Compare(former, latter) <= 0)
  }

  /** The same policy but for minimum versions that were raised. */
  ghost predicate PolicyRaised(p: PosturePolicy, q: PosturePolicy) {
    && q == p.(minClientVer := q.minClientVer, osRules := q.osRules)
    && Raised(p.minClientVer, q.minClientVer)
    && |q.osRules| == |p.osRules|
    && forall i :: 0 <= i < |p.osRules| ==>
         q.osRules[i].osName == p.osRules[i].osName && Raised(p.osRules[i].minVersion, q.osRules[i].minVersion)
  }

  lemma BelowStaysBelow(version: string, former: string, latter: string)
    requires Raised(former, latter) && former != "" && Semver.Compare(version, former) < 0
    ensures latter != "" && Semver.Compare(version, latter) < 0
  {
    Semver.CompareTransitive(version, former, latter);
  }

  lemma PolicyStaysUnmet(cs: Casing, p: PosturePolicy, q: PosturePolicy, att: Attestation)
    requires PolicyRaised(p, q) && !PolicyMet(cs, p, att)
    ensures !PolicyMet(cs, q, att)
  {
    if !ClientMeets(p.minClientVer, att.clientVersion) {
      BelowStaysBelow(att.clientVersion, p.minClientVer, q.minClientVer);
    } else if i :| 0 <= i < |p.osRules| && !OsMeets(cs, p.osRules[i], att) {
      BelowStaysBelow(att.osVersion, p.osRules[i].minVersion, q.osRules[i].minVersion);
      assert !OsMeets(cs, q.osRules[i], att);
    }
  }

  /** Raising minimum versions, in any policies at once, never turns a failing attestation into a compliant one. */
  lemma RaisingNeverForgives(
    cs: Casing, before: map<string, PosturePolicy>, after: map<string, PosturePolicy>, att: Attestation, peerGroups: seq<string>)
    requires before.Keys <= after.Keys
    requires forall id :: id in before ==> PolicyRaised(before[id], after[id])
    ensures !Compliant(cs, before, att, peerGroups) ==> !Compliant(cs, after, att, peerGroups)
  {
    if !Compliant(cs, before, att, peerGroups) {
      var id :| id in before && !Met(cs, before[id], att, MemberOf(peerGroups));
      PolicyStaysUnmet(cs, before[id], after[id], att);
      assert !Met(cs, after[id], att, MemberOf(peerGroups));
    }
  }

  /** Between minimums that are set, one refuses all that the other refuses exactly when it is at least as high. */
  lemma StricterExactlyWhenRaised(low: string, high: string)
    requires low != "" && high != ""
    ensures (forall v :: ClientMeets(high, v) ==> ClientMeets(low, v)) <==> Semver.Compare(low, high) <= 0
  {
    Semver.CompareSigns(low, high);
    Semver.CompareSigns(high, high);
    if Semver.Compare(low, high) <= 0 {
      forall v | ClientMeets(high, v)
        ensures ClientMeets(low, v)
      {
        if !ClientMeets(low, v) {
          BelowStaysBelow(v, low, high);
        }
      }
    } else {
      assert ClientMeets(high, high) && !ClientMeets(low, high);
    }
  }

  // ---- what is reported -------------------------------------------------------------------------------------

  datatype Failure =
    | ClientBelow(version: string, minimum: string)
    | OsBelow(osName: string, version: string, minimum: string)
    | Prohibited(cc: string)
    | NotAllowed(cc: string)
    | AsnNotAllowed(asn: nat)
    | DiskNotEncrypted
    | FirewallDisabled
    | Privileged

  function Message(f: Failure): string {
    match f
    case ClientBelow(version, minimum) => "Client version " + version + " below required min " + minimum
    case OsBelow(osName, version, minimum) => "OS " + osName + " version " + version + " below required min " + minimum
    case Prohibited(cc) => "Node located in prohibited country " + cc
    case NotAllowed(cc) => "Country " + cc + " is not in allowed compliance list"
    case AsnNotAllowed(asn) => "ASN " + Decimal(asn) + " is not in allowed compliance list"
    case DiskNotEncrypted => "Host disk encryption is not enabled"
    case FirewallDisabled => "Host local firewall is disabled"
    case Privileged => "Process running with privileged root execution"
  }

  /** The messages joined with semicolons. */
  function Reason(failed: seq<Failure>): string {
    if failed == [] then ""
    else if |failed| == 1 then Message(failed[0])
    else Message(failed[0]) + "; " + Reason(failed[1..])
  }

  /** All that a check reports about the elements, in their order. */
  function Collect<T>(xs: seq<T>, check: T -> seq<Failure>): seq<Failure> {
    if xs == [] then [] else Collect(xs[..|xs| - 1], check) + check(xs[|xs| - 1])
  }

  lemma {:induction false} CollectsNothing<T>(xs: seq<T>, check: T -> seq<Failure>)
    ensures Collect(xs, check) == [] <==> forall i :: 0 <= i < |xs| ==> check(xs[i]) == []
  {
    if xs != [] {
      var front := xs[..|xs| - 1];
      CollectsNothing(front, check);
      assert forall i :: 0 <= i < |front| ==> front[i] == xs[i];
    }
  }

  lemma CollectNext<T>(xs: seq<T>, check: T -> seq<Failure>, i: nat)
    requires i < |xs|
    ensures Collect(xs[..i + 1], check) == Collect(xs[..i], check) + check(xs[i])
  {
    assert xs[..i + 1][..i] == xs[..i];
  }

  ghost function ClientFailures(p: PosturePolicy, att: Attestation): seq<Failure> {
    if ClientMeets(p.minClientVer, att.clientVersion) then [] else [ClientBelow(att.clientVersion, p.minClientVer)]
  }

  ghost function OsCheck(cs: Casing, att: Attestation): OsRule -> seq<Failure> {
    r => if OsMeets(cs, r, att) then [] else [OsBelow(att.osName, att.osVersion, r.minVersion)]
  }

  function CountryFailures(cs: Casing, geo: GeoRule, att: Attestation): seq<Failure> {
    var cc := Country(cs, att.countryCode);
    if cc == "" then []
    else
      (if Names(cs, geo.prohibitedCountries, cc) then [Prohibited(cc)] else [])
      + if geo.allowedCountries == [] || Names(cs, geo.allowedCountries, cc) then [] else [NotAllowed(cc)]
  }

  function AsnFailures(geo: GeoRule, att: Attestation): seq<Failure> {
    if AsnMeets(geo, att) then [] else [AsnNotAllowed(att.asn)]
  }

  function SecurityFailures(s: SecurityRule, att: Attestation): seq<Failure> {
    (if s.requireDiskEncryption && !att.diskEncrypted then [DiskNotEncrypted] else [])
    + (if s.requireFirewall && !att.firewallActive then [FirewallDisabled] else [])
    + if s.requireRootless && !att.isRootless then [Privileged] else []
  }

  ghost function PolicyFailures(cs: Casing, p: PosturePolicy, att: Attestation): seq<Failure> {
    ClientFailures(p, att) + Collect(p.osRules, OsCheck(cs, att)) + CountryFailures(cs, p.geo, att)
    + AsnFailures(p.geo, att) + SecurityFailures(p.security, att)
  }

  /** A policy that does not apply reports nothing. */
  ghost function PolicyCheck(cs: Casing, att: Attestation, memberOf: set<string>): PosturePolicy -> seq<Failure> {
    p => if Applies(p, memberOf) then PolicyFailures(cs, p, att) else []
  }

  lemma NoOsFailures(cs: Casing, rules: seq<OsRule>, att: Attestation)
    ensures Collect(rules, OsCheck(cs, att)) == [] <==> forall i :: 0 <= i < |rules| ==> OsMeets(cs, rules[i], att)
  {
    var check := OsCheck(cs, att);
    CollectsNothing(rules, check);
    assert forall r :: check(r) == [] <==> OsMeets(cs, r, att);
  }

  lemma NoOtherFailures(cs: Casing, p: PosturePolicy, att: Attestation)
    ensures CountryFailures(cs, p.geo, att) == [] <==> CountryMeets(cs, p.geo, att)
    ensures SecurityFailures(p.security, att) == [] <==> SecurityMeets(p.security, att)
  {}

  lemma NoFailuresExactlyWhenMet(cs: Casing, p: PosturePolicy, att: Attestation)
    ensures PolicyFailures(cs, p, att) == [] <==> PolicyMet(cs, p, att)
  {
    NoOsFailures(cs, p.osRules, att);
    NoOtherFailures(cs, p, att);
    var failures := [ClientFailures(p, att), Collect(p.osRules, OsCheck(cs, att)), CountryFailures(cs, p.geo, att),
      AsnFailures(p.geo, att), SecurityFailures(p.security, att)];
    assert |PolicyFailures(cs, p, att)| == |failures[0]| + |failures[1]| + |failures[2]| + |failures[3]| + |failures[4]|;
  }

  /** The place of a failure among one policy's. */
  function Kind(f: Failure): nat {
    match f
    case ClientBelow(_, _) => 0
    case OsBelow(_, _, _) => 1
    case Prohibited(_) => 2
    case NotAllowed(_) => 3
    case AsnNotAllowed(_) => 4
    case DiskNotEncrypted => 5
    case FirewallDisabled => 6
    case Privileged => 7
  }

  /** The failure is one the attestation has under the policy, and says what was reported and what is asked. */
  ghost predicate IsGenuine(cs: Casing, p: PosturePolicy, att: Attestation, f: Failure) {
    match f
    case ClientBelow(version, minimum) =>
      version == att.clientVersion && minimum == p.minClientVer && !ClientMeets(minimum, version)
    case OsBelow(osName, version, minimum) =>
      osName == att.osName && version == att.osVersion
      && exists r :: r in p.osRules && minimum == r.minVersion && !OsMeets(cs, r, att)
    case Prohibited(cc) => cc == Country(cs, att.countryCode) && Names(cs, p.geo.prohibitedCountries, cc)
    case NotAllowed(cc) => cc == Country(cs, att.countryCode) && !Names(cs, p.geo.allowedCountries, cc)
    case AsnNotAllowed(asn) => asn == att.asn && asn !in p.geo.allowedAsns
    case DiskNotEncrypted => p.security.requireDiskEncryption && !att.diskEncrypted
    case FirewallDisabled => p.security.requireFirewall && !att.firewallActive
    case Privileged => p.security.requireRootless && !att.isRootless
  }

  /** Genuine failures of kinds from lo to hi, never falling. */
  ghost predicate IsReport(cs: Casing, p: PosturePolicy, att: Attestation, fs: seq<Failure>, lo: nat, hi: nat) {
    && (forall i :: 0 <= i < |fs| ==> IsGenuine(cs, p, att, fs[i]) && lo <= Kind(fs[i]) <= hi)
    && forall i, j :: 0 <= i < j < |fs| ==> Kind(fs[i]) <= Kind(fs[j])
  }

  lemma OneAfterAnother(cs: Casing, p: PosturePolicy, att: Attestation, a: seq<Failure>, b: seq<Failure>,
                        lo: nat, mid: nat, next: nat, hi: nat)
    requires IsReport(cs, p, att, a, lo, mid) && IsReport(cs, p, att, b, next, hi) && lo <= mid <= next <= hi
    ensures IsReport(cs, p, att, a + b, lo, hi)
  {}

  lemma ClientReport(cs: Casing, p: PosturePolicy, att: Attestation)
    ensures IsReport(cs, p, att, ClientFailures(p, att), 0, 0)
  {}

  lemma RuleReport(cs: Casing, p: PosturePolicy, att: Attestation, r: OsRule)
    requires r in p.osRules
    ensures IsReport(cs, p, att, OsCheck(cs, att)(r), 1, 1)
  {
    if !OsMeets(cs, r, att) {
      assert IsGenuine(cs, p, att, OsBelow(att.osName, att.osVersion, r.minVersion));
    }
  }

  lemma {:induction false} OsReport(cs: Casing, p: PosturePolicy, att: Attestation, n: nat)
    requires n <= |p.osRules|
    ensures IsReport(cs, p, att, Collect(p.osRules[..n], OsCheck(cs, att)), 1, 1)
  {
    if n > 0 {
      OsReport(cs, p, att, n - 1);
      CollectNext(p.osRules, OsCheck(cs, att), n - 1);
      RuleReport(cs, p, att, p.osRules[n - 1]);
      OneAfterAnother(cs, p, att, Collect(p.osRules[..n - 1], OsCheck(cs, att)), OsCheck(cs, att)(p.osRules[n - 1]), 1, 1, 1, 1);
    }
  }

  lemma CountryReport(cs: Casing, p: PosturePolicy, att: Attestation)
    ensures IsReport(cs, p, att, CountryFailures(cs, p.geo, att), 2, 3)
  {}

  lemma AsnReport(cs: Casing, p: PosturePolicy, att: Attestation)
    ensures IsReport(cs, p, att, AsnFailures(p.geo, att), 4, 4)
  {}

  lemma SecurityReport(cs: Casing, p: PosturePolicy, att: Attestation)
    ensures IsReport(cs, p, att, SecurityFailures(p.security, att), 5, 7)
  {}

  /** What one policy reports is genuine, and comes in a fixed order. */
  lemma ReportsAreGenuine(cs: Casing, p: PosturePolicy, att: Attestation)
    ensures IsReport(cs, p, att, PolicyFailures(cs, p, att), 0, 7)
  {
    var n := |p.osRules|;
    var a, b, c, d, e := ClientFailures(p, att), Collect(p.osRules[..n], OsCheck(cs, att)), CountryFailures(cs, p.geo, att),
      AsnFailures(p.geo, att), SecurityFailures(p.security, att);
    assert p.osRules[..n] == p.osRules;
    ClientReport(cs, p, att);
    OsReport(cs, p, att, n);
    CountryReport(cs, p, att);
    AsnReport(cs, p, att);
    SecurityReport(cs, p, att);
    OneAfterAnother(cs, p, att, a, b, 0, 0, 1, 1);
    OneAfterAnother(cs, p, att, a + b, c, 0, 1, 2, 3);
    OneAfterAnother(cs, p, att, a + b + c, d, 0, 3, 4, 4);
    OneAfterAnother(cs, p, att, a + b + c + d, e, 0, 4, 5, 7);
  }

  /** An order in which the keys of a map are visited, each once. */
  ghost predicate IsOrder(order: seq<string>, keys: set<string>) {
    && (forall i, j :: 0 <= i < j < |order| ==> order[i] != order[j])
    && forall k :: k in keys <==> k in order
  }

  function Visited(policies: map<string, PosturePolicy>, order: seq<string>): seq<PosturePolicy>
    requires forall k :: k in order ==> k in policies
  {
    seq(|order|, i requires 0 <= i < |order| => policies[order[i]])
  }

  lemma CheckedExactlyWhenMet(cs: Casing, p: PosturePolicy, att: Attestation, memberOf: set<string>)
    ensures PolicyCheck(cs, att, memberOf)(p) == [] <==> Met(cs, p, att, memberOf)
  {
    NoFailuresExactlyWhenMet(cs, p, att);
  }

  /** Nothing is reported exactly when the attestation is compliant, in whatever order the map is visited. */
  lemma NothingFailsExactlyWhenCompliant(
    cs: Casing, policies: map<string, PosturePolicy>, order: seq<string>, att: Attestation, peerGroups: seq<string>)
    requires IsOrder(order, policies.Keys)
    ensures Collect(Visited(policies, order), PolicyCheck(cs, att, MemberOf(peerGroups))) == [] <==>
            Compliant(cs, policies, att, peerGroups)
  {
    var ps, memberOf := Visited(policies, order), MemberOf(peerGroups);
    CollectsNothing(ps, PolicyCheck(cs, att, memberOf));
    forall i | 0 <= i < |ps|
      ensures PolicyCheck(cs, att, memberOf)(ps[i]) == [] <==> Met(cs, ps[i], att, memberOf)
    {
      CheckedExactlyWhenMet(cs, ps[i], att, memberOf);
    }
    forall id | id in policies
      ensures exists i :: 0 <= i < |order| && order[i] == id && ps[i] == policies[id]
    {
      var i :| 0 <= i < |order| && order[i] == id;
      assert ps[i] == policies[id];
    }
  }

  // ---- the engine ----------------------------------------------------------------------------------------------

  class PostureEngine {
    var policies: map<string, PosturePolicy>
    var quarantined: map<string, QuarantineRecord>
    const casing: Casing

    constructor (casing: Casing)
      ensures policies == map[] && quarantined == map[] && this.casing == casing
    {
      policies, quarantined := map[], map[];
      this.casing := casing;
    }

    method UpsertPolicy(p: PosturePolicy) returns (ok: bool)
      modifies this`policies
      ensures ok == (p.id != "")
      ensures policies == if ok then old(policies)[p.id := p] else old(policies)
    {
      ok := p.id != "";
      if ok {
        policies := policies[p.id := p];
      }
    }

    /**
     Compliance is decided as Compliant says, the failed checks are those of the policies in the order the
     map was visited, and a named node is quarantined with them or released.
     */
    method EvaluateAttestation(att: Attestation, peerGroups: seq<string>)
      returns (r: PostureResult)
      modifies this`quarantined
      ensures r.compliant <==> Compliant(casing, policies, att, peerGroups)
      ensures r.quarantine == !r.compliant
      ensures exists order ::
        IsOrder(order, policies.Keys)
        && r.failedChecks == Collect(Visited(policies, order), PolicyCheck(casing, att, MemberOf(peerGroups)))
      ensures r.reason == Reason(r.failedChecks)
      ensures att.nodeId == "" ==> quarantined == old(quarantined)
      ensures att.nodeId != "" && r.compliant ==> quarantined == old(quarantined) - {att.nodeId}
      ensures att.nodeId != "" && !r.compliant ==>
        quarantined == old(quarantined)[att.nodeId := QuarantineRecord(att.nodeId, r.reason, r.failedChecks)]
    {
      var listed := ListPolicies();
      ghost var order :| IsOrder(order, policies.Keys) && listed == Visited(policies, order);
      var memberOf := MemberOf(peerGroups);
      var failed := CheckAll(listed, att, memberOf);
      NothingFailsExactlyWhenCompliant(casing, policies, order, att, peerGroups);
      r := PostureResult(failed == [], failed != [], failed, Reason(failed));
      if att.nodeId != "" {
        if failed != [] {
          quarantined := quarantined[att.nodeId := QuarantineRecord(att.nodeId, r.reason, failed)];
        } else {
          quarantined := quarantined - {att.nodeId};
        }
      }
    }

    /** The map's values, in an arbitrary order. */
    method ListPolicies() returns (listed: seq<PosturePolicy>)
      ensures exists order :: IsOrder(order, policies.Keys) && listed == Visited(policies, order)
    {
      listed := [];
      ghost var order: seq<string> := [];
      var rest := policies.Keys;
      while rest != {}
        invariant rest <= policies.Keys
        invariant IsOrder(order, policies.Keys - rest) && listed == Visited(policies, order)
        decreases rest
      {
        var id :| id in rest;
        listed, rest := listed + [policies[id]], rest - {id};
        order := order + [id];
      }
    }

    /** The loop over the policies. */
    method CheckAll(listed: seq<PosturePolicy>, att: Attestation, memberOf: set<string>) returns (failed: seq<Failure>)
      ensures failed == Collect(listed, PolicyCheck(casing, att, memberOf))
    {
      failed := [];
      for i := 0 to |listed|
        invariant failed == Collect(listed[..i], PolicyCheck(casing, att, memberOf))
      {
        CollectNext(listed, PolicyCheck(casing, att, memberOf), i);
        if listed[i].enabled {
          var applies := IsTargeted(listed[i].targetGroups, memberOf);
          if applies {
            var more := CheckPolicy(listed[i], att);
            failed := failed + more;
          }
        }
      }
      assert listed[..|listed|] == listed;
    }

    method CheckPolicy(p: PosturePolicy, att: Attestation) returns (failed: seq<Failure>)
      ensures failed == PolicyFailures(casing, p, att)
    {
      failed := CheckClient(p, att);
      var more := CheckOs(p.osRules, att);
      failed := failed + more;
      more := CheckCountry(p.geo, att);
      failed := failed + more;
      more := CheckAsn(p.geo, att);
      failed := failed + more;
      more := CheckSecurity(p.security, att);
      failed := failed + more;
    }

    method CheckClient(p: PosturePolicy, att: Attestation) returns (failed: seq<Failure>)
      ensures failed == ClientFailures(p, att)
    {
      failed := [];
      if p.minClientVer != "" && att.clientVersion != "" {
        var c := Semver.CompareSemver(att.clientVersion, p.minClientVer);
        if c < 0 {
          failed := failed + [ClientBelow(att.clientVersion, p.minClientVer)];
        }
      }
    }

    method CheckSecurity(rule: SecurityRule, att: Attestation) returns (failed: seq<Failure>)
      ensures failed == SecurityFailures(rule, att)
    {
      failed := [];
      if rule.requireDiskEncryption && !att.diskEncrypted {
        failed := failed + [DiskNotEncrypted];
      }
      if rule.requireFirewall && !att.firewallActive {
        failed := failed + [FirewallDisabled];
      }
      if rule.requireRootless && !att.isRootless {
        failed := failed + [Privileged];
      }
    }

    method CheckOs(rules: seq<OsRule>, att: Attestation) returns (failed: seq<Failure>)
      ensures failed == Collect(rules, OsCheck(casing, att))
    {
      failed := [];
      for i := 0 to |rules|
        invariant failed == Collect(rules[..i], OsCheck(casing, att))
      {
        CollectNext(rules, OsCheck(casing, att), i);
        if casing.equalFold(att.osName, rules[i].osName) {
          if rules[i].minVersion != "" {
            var c := Semver.CompareSemver(att.osVersion, rules[i].minVersion);
            if c < 0 {
              failed := failed + [OsBelow(att.osName, att.osVersion, rules[i].minVersion)];
            }
          }
        }
      }
      assert rules[..|rules|] == rules;
    }

    method CheckCountry(geo: GeoRule, att: Attestation) returns (failed: seq<Failure>)
      ensures failed == CountryFailures(casing, geo, att)
    {
      failed := [];
      var cc := Country(casing, att.countryCode);
      if cc != "" {
        var prohibited := AnyCountry(geo.prohibitedCountries, cc);
        if prohibited {
          failed := failed + [Prohibited(cc)];
        }
        if |geo.allowedCountries| > 0 {
          var allowed := AnyCountry(geo.allowedCountries, cc);
          if !allowed {
            failed := failed + [NotAllowed(cc)];
          }
        }
      }
    }

    method AnyCountry(countries: seq<string>, cc: string) returns (found: bool)
      ensures found <==> Names(casing, countries, cc)
    {
      for i := 0 to |countries|
        invariant forall k :: 0 <= k < i ==> Country(casing, countries[k]) != cc
      {
        if Country(casing, countries[i]) == cc {
          return true;
        }
      }
      return false;
    }

    method CheckAsn(geo: GeoRule, att: Attestation) returns (failed: seq<Failure>)
      ensures failed == AsnFailures(geo, att)
    {
      failed := [];
      if |geo.allowedAsns| > 0 && att.asn > 0 {
        var allowed := false;
        for i := 0 to |geo.allowedAsns|
          invariant allowed <==> exists k :: 0 <= k < i && geo.allowedAsns[k] == att.asn
        {
          if geo.allowedAsns[i] == att.asn {
            allowed := true;
            break;
          }
        }
        if !allowed {
          failed := failed + [AsnNotAllowed(att.asn)];
        }
      }
    }
  }
}
