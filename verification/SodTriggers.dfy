/** The two separation triggers as they evaluate: lineages are computed, then joined with the rules. */
module SodTriggers {
  import opened Options
  import opened Hierarchy
  import opened RbacTables
  import opened SeparationOfDuties

  ghost predicate LineageSet(roles: Roles, x: Id, lineage: set<Id>) {
    forall y :: y in lineage <==> InLineage(roles, x, y)
  }

  /** CROSS JOIN LATERAL fn_role_lineage(ur.role_id) over the whole user_role table. */
  method AssignmentLineages(t: Tables) returns (lineages: map<Id, set<Id>>)
    ensures lineages.Keys == t.assignments.Keys
    ensures forall i :: i in lineages ==> LineageSet(t.roles, t.assignments[i].role, lineages[i])
  {
    lineages := map[];
    var pending: set<Id> := t.assignments.Keys;
    while pending != {}
      invariant pending <= t.assignments.Keys
      invariant lineages.Keys == t.assignments.Keys - pending
      invariant forall i :: i in lineages ==> LineageSet(t.roles, t.assignments[i].role, lineages[i])
    {
      var i := Pick(pending);
      var lineage := RoleLineage(t.roles, t.assignments[i].role);
      lineages := lineages[i := lineage];
      pending := pending - {i};
    }
  }

  predicate Holds(t: Tables, lineages: map<Id, set<Id>>, i: Id, user: Id, y: Id)
    requires lineages.Keys == t.assignments.Keys
  {
    i in lineages && t.assignments[i].user == user && !t.assignments[i].revoked && y in lineages[i]
  }

  /** The WHERE clause of the conflict query for one rule. */
  predicate RuleConflict(t: Tables, own: set<Id>, lineages: map<Id, set<Id>>, id: Id, user: Id, rule: Rule)
    requires lineages.Keys == t.assignments.Keys
  {
    && rule.isStatic
    && (rule.roleA in own || rule.roleB in own)
    && ((rule.roleA in own && rule.roleB in own)
        || exists i :: i in lineages && i != id
                       && Holds(t, lineages, i, user, if rule.roleA in own then rule.roleB else rule.roleA))
  }

  /** fn_check_sod_violation, before a user_role row (id, a) is inserted or updated. */
  method CheckSodViolation(t: Tables, id: Id, a: Assignment) returns (passes: bool)
    ensures passes <==> AssignmentPasses(t, id, a)
  {
    if a.revoked {
      return true;
    }
    var own := RoleLineage(t.roles, a.role);
    var lineages := AssignmentLineages(t);
    forall s | s in t.rules && t.rules[s].isStatic
      ensures StaticRule(t, s)
      ensures RuleConflict(t, own, lineages, id, a.user, t.rules[s]) <==> AssignmentConflict(t, id, a, s)
    {
      HeldIsEffective(t, lineages);
    }
    return !exists s :: s in t.rules && RuleConflict(t, own, lineages, id, a.user, t.rules[s]);
  }

  /** The WHERE clause of check 2 for one holder and one rule. */
  predicate HolderConflict(t: Tables, own: set<Id>, lineages: map<Id, set<Id>>, x: Id, user: Id, rule: Rule)
    requires lineages.Keys == t.assignments.Keys
  {
    && rule.isStatic
    && EffectivelyHolds(t, lineages, user, x)
    && (rule.roleA in own || rule.roleB in own)
    && EffectivelyHolds(t, lineages, user, rule.roleA)
    && EffectivelyHolds(t, lineages, user, rule.roleB)
  }

  /** fn_check_role_inheritance_sod, after a role row is inserted or its parent changes. */
  method CheckRoleInheritanceSod(after: Tables, x: Id) returns (passes: bool)
    requires x in after.roles
    ensures passes <==> RolePasses(after, x)
  {
    if after.roles[x].parent.None? || after.roles[x].deleted {
      return true;
    }
    var own := RoleLineage(after.roles, x);
    assert forall s :: s in after.rules && after.rules[s].isStatic ==> StaticRule(after, s);
    if exists s :: s in after.rules && after.rules[s].isStatic && after.rules[s].roleA in own && after.rules[s].roleB in own {
      return false;
    }
    var lineages := AssignmentLineages(after);
    HeldIsEffective(after, lineages);
    var holders := set i | i in after.assignments :: after.assignments[i].user;
    var clash := exists user, s :: user in holders && s in after.rules
                                   && HolderConflict(after, own, lineages, x, user, after.rules[s]);
    forall user, s | StaticRule(after, s)
      ensures HolderConflict(after, own, lineages, x, user, after.rules[s]) ==> clash
      ensures HolderConflict(after, own, lineages, x, user, after.rules[s]) ==> HolderClash(after, x)
    {
      if HolderConflict(after, own, lineages, x, user, after.rules[s]) {
        var i :| i in lineages && Holds(after, lineages, i, user, x);
        assert after.assignments[i].user in holders;
      }
    }
    if HolderClash(after, x) {
      ghost var user, s :| Effective(after, user, x) && StaticRule(after, s)
        && (InLineage(after.roles, x, after.rules[s].roleA) || InLineage(after.roles, x, after.rules[s].roleB))
        && Effective(after, user, after.rules[s].roleA) && Effective(after, user, after.rules[s].roleB);
      assert HolderConflict(after, own, lineages, x, user, after.rules[s]);
    }
    return !clash;
  }

  /** fn_user_effective_role_ids(user) contains y. */
  predicate EffectivelyHolds(t: Tables, lineages: map<Id, set<Id>>, user: Id, y: Id)
    requires lineages.Keys == t.assignments.Keys
  {
    exists i :: i in lineages && Holds(t, lineages, i, user, y)
  }

  lemma HeldIsEffective(t: Tables, lineages: map<Id, set<Id>>)
    requires lineages.Keys == t.assignments.Keys
    requires forall i :: i in lineages ==> LineageSet(t.roles, t.assignments[i].role, lineages[i])
    ensures forall user, y :: EffectivelyHolds(t, lineages, user, y) <==> Effective(t, user, y)
    ensures forall i, user, y :: i in lineages ==> (Holds(t, lineages, i, user, y) <==> Grants(t, i, user, y))
  {
    forall user, y
      ensures EffectivelyHolds(t, lineages, user, y) <==> Effective(t, user, y)
    {
      forall i | i in lineages
        ensures Holds(t, lineages, i, user, y) <==> Grants(t, i, user, y)
      {
      }
    }
  }
}
