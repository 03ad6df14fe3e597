/** Group membership as the posture engine and the route table test it. */
module Groups {
  import Policy

  /** The groups of a caller, group:all always among them. */
  function MemberOf(groups: seq<string>): set<string> {
    (set g | g in groups) + {Policy.GROUP_ALL}
  }

  /** No target groups means everyone. */
  predicate Targets(targetGroups: seq<string>, memberOf: set<string>) {
    targetGroups == [] || exists g :: g in targetGroups && g in memberOf
  }

  /** A caller is targeted when no group is named, when group:all is, or when one of its own groups is. */
  lemma TargetsExactly(targetGroups: seq<string>, groups: seq<string>)
    ensures Targets(targetGroups, MemberOf(groups)) <==>
      targetGroups == [] || "group:all" in targetGroups || exists g :: g in targetGroups && g in groups
  {
    if "group:all" in targetGroups {
      assert "group:all" in MemberOf(groups);
    }
  }

  method IsTargeted(targetGroups: seq<string>, memberOf: set<string>) returns (found: bool)
    ensures found <==> Targets(targetGroups, memberOf)
  {
    if |targetGroups| == 0 {
      return true;
    }
    for i := 0 to |targetGroups|
      invariant forall k :: 0 <= k < i ==> targetGroups[k] !in memberOf
    {
      if targetGroups[i] in memberOf {
        return true;
      }
    }
    return false;
  }
}
