/**
 Static separation of duties over a role hierarchy: the two triggers fn_check_sod_violation (on user_role)
 and fn_check_role_inheritance_sod (on role), and what every accepted write keeps.
 */
module SeparationOfDuties {
  import opened Options
  import opened Hierarchy
  import opened RbacTables

  datatype Tables = Tables(roles: Roles, assignments: map<Id, Assignment>, rules: map<Id, Rule>)

  /** An unrevoked assignment of the user has `y` in its lineage (fn_user_effective_role_ids). */
  ghost predicate Effective(t: Tables, user: Id, y: Id) {
    exists i :: i in t.assignments && Grants(t, i, user, y)
  }

  ghost predicate Grants(t: Tables, i: Id, user: Id, y: Id)
    requires i in t.assignments
  {
    var a := t.assignments[i];
    a.user == user && !a.revoked && InLineage(t.roles, a.role, y)
  }

  ghost predicate StaticRule(t: Tables, s: Id) {
    s in t.rules && t.rules[s].isStatic
  }

  /** No user effectively holds both sides of a static rule. */
  ghost predicate Separated(t: Tables) {
    forall user, s :: StaticRule(t, s) ==> !(Effective(t, user, t.rules[s].roleA) && Effective(t, user, t.rules[s].roleB))
  }

  /** Foreign keys and the chk_different_roles CHECK. */
  ghost predicate References(t: Tables) {
    && (forall x :: x in t.roles && t.roles[x].parent.Some? ==> t.roles[x].parent.value in t.roles)
    && (forall x :: x in t.roles && t.roles[x].superior.Some? ==> t.roles[x].superior.value in t.roles)
    && (forall i :: i in t.assignments ==> t.assignments[i].role in t.roles)
    && (forall s :: s in t.rules ==>
          t.rules[s].roleA in t.roles && t.rules[s].roleB in t.roles && t.rules[s].roleA != t.rules[s].roleB)
  }

  ghost predicate Sound(t: Tables) {
    References(t) && Acyclic(ParentColumn(t.roles)) && Separated(t)
  }

  // ---- The triggers ----

  /** The conflict query of fn_check_sod_violation for a row (id, a) about to be written. */
  ghost predicate AssignmentConflict(t: Tables, id: Id, a: Assignment, s: Id)
    requires StaticRule(t, s)
  {
    var rule := t.rules[s];
    var hasA := InLineage(t.roles, a.role, rule.roleA);
    var hasB := InLineage(t.roles, a.role, rule.roleB);
    && (hasA || hasB)
    && ((hasA && hasB)
        || exists i :: i in t.assignments && i != id && Grants(t, i, a.user, if hasA then rule.roleB else rule.roleA))
  }

  ghost predicate AssignmentPasses(t: Tables, id: Id, a: Assignment) {
    a.revoked || forall s :: StaticRule(t, s) ==> !AssignmentConflict(t, id, a, s)
  }

  /** Check 1 of fn_check_role_inheritance_sod: the role's own lineage holds both sides of a static rule. */
  ghost predicate LineageClash(t: Tables, x: Id) {
    exists s :: StaticRule(t, s) && InLineage(t.roles, x, t.rules[s].roleA) && InLineage(t.roles, x, t.rules[s].roleB)
  }

  /** Check 2: a holder ends with both sides, at least one of them through the changed role's lineage. */
  ghost predicate HolderClash(t: Tables, x: Id) {
    exists user, s ::
      && Effective(t, user, x)
      && StaticRule(t, s)
      && (InLineage(t.roles, x, t.rules[s].roleA) || InLineage(t.roles, x, t.rules[s].roleB))
      && Effective(t, user, t.rules[s].roleA)
      && Effective(t, user, t.rules[s].roleB)
  }

  /** The trigger runs after the write, on the new tables. */
  ghost predicate RolePasses(after: Tables, x: Id)
    requires x in after.roles
  {
    || after.roles[x].parent.None?
    || after.roles[x].deleted
    || (!LineageClash(after, x) && !HolderClash(after, x))
  }

  // ---- Guarded writes ----

  datatype Step =
    | PutAssignment(id: Id, assignment: Assignment)   // insert, update, revoke or un-revoke
    | DeleteAssignment(id: Id)
    | InsertRole(id: Id, role: Role)
    | Reparent(id: Id, parent: Option<Id>)
    | SetSuperior(id: Id, superior: Option<Id>)
    | SoftDelete(id: Id)
    | DeleteRole(id: Id)
    | DropRule(id: Id)

  function After(t: Tables, step: Step): Tables {
    match step
    case PutAssignment(id, a) => t.(assignments := t.assignments[id := a])
    case DeleteAssignment(id) => t.(assignments := t.assignments - {id})
    case InsertRole(id, role) => t.(roles := t.roles[id := role])
    case Reparent(id, parent) => if id in t.roles then WithParent(t, id, parent) else t
    case SetSuperior(id, superior) => t.(roles := SetSuperiors(t.roles, {id}, superior))
    case SoftDelete(id) => if id in t.roles then t.(roles := t.roles[id := t.roles[id].(deleted := true)]) else t
    case DeleteRole(id) => t.(roles := t.roles - {id})
    case DropRule(id) => t.(rules := t.rules - {id})
  }

  function WithParent(t: Tables, id: Id, parent: Option<Id>): Tables
    requires id in t.roles
  {
    t.(roles := t.roles[id := t.roles[id].(parent := parent)])
  }

  /** Keys, foreign keys and triggers let the write through. Other constraints could only refuse more. */
  ghost predicate Allowed(t: Tables, step: Step) {
    match step
    case PutAssignment(id, a) => a.role in t.roles && AssignmentPasses(t, id, a)
    case DeleteAssignment(id) => true
    case InsertRole(id, role) =>
      && id !in t.roles && ParentAllowed(t, id, role.parent) && RolePasses(After(t, step), id)
      && (role.superior.None? || role.superior.value in t.roles)
    case Reparent(id, parent) =>
      id in t.roles && ParentAllowed(t, id, parent) && RolePasses(After(t, step), id)
    case SetSuperior(id, superior) => superior.None? || superior.value in t.roles
    case SoftDelete(id) => id in t.roles
    case DeleteRole(id) => id in t.roles && References(After(t, step))
    case DropRule(id) => true
  }

  /** The foreign key on parent_role_id and trg_role_no_cycle. */
  ghost predicate ParentAllowed(t: Tables, id: Id, parent: Option<Id>) {
    parent.None? || (parent.value in t.roles && !Reaches(ParentColumn(t.roles), parent.value, id))
  }

  // ---- What each write writes, and when it may ----

  /** One row of the assignments after a write. */
  lemma AssignmentsAfter(t: Tables, step: Step, i: Id)
    ensures var before, after := t.assignments, After(t, step).assignments;
            && (step.PutAssignment? && step.id == i ==> i in after && after[i] == step.assignment)
            && (step.DeleteAssignment? && step.id == i ==> i !in after)
            && (!((step.PutAssignment? || step.DeleteAssignment?) && step.id == i) ==>
                  (i in after <==> i in before) && (i in before ==> after[i] == before[i]))
  {
  }

  /** One row of the roles after a write. */
  lemma RolesAfter(t: Tables, step: Step, x: Id)
    ensures var before, after := t.roles, After(t, step).roles;
            && (step.InsertRole? && step.id == x ==> x in after && after[x] == step.role)
            && (step.Reparent? && step.id == x && x in before ==> x in after && after[x] == before[x].(parent := step.parent))
            && (step.SetSuperior? && step.id == x && x in before ==> x in after && after[x] == before[x].(superior := step.superior))
            && (step.SoftDelete? && step.id == x && x in before ==> x in after && after[x] == before[x].(deleted := true))
            && (step.DeleteRole? && step.id == x ==> x !in after)
            && (step.PutAssignment? || step.DeleteAssignment? || step.DropRule? || step.id != x ==>
                  (x in after <==> x in before) && (x in before ==> after[x] == before[x]))
  {
  }

  lemma RulesAfter(t: Tables, step: Step, s: Id)
    ensures var before, after := t.rules, After(t, step).rules;
            && (s in after <==> s in before && !(step.DropRule? && step.id == s)) && (s in after ==> after[s] == before[s])
  {
  }

  /** A new role under a parent is refused, its keys being in order, exactly when its own lineage would clash. */
  lemma InsertAllowedExactlyWhen(t: Tables, id: Id, role: Role)
    requires Sound(t) && id !in t.roles
    ensures Allowed(t, InsertRole(id, role)) <==>
            && (role.parent.Some? ==> role.parent.value in t.roles)
            && (role.superior.Some? ==> role.superior.value in t.roles)
            && (role.parent.None? || role.deleted || !LineageClash(After(t, InsertRole(id, role)), id))
  {
    var after := After(t, InsertRole(id, role));
    forall n: nat | role.parent.Some? && role.parent.value in t.roles
      ensures Up(ParentColumn(t.roles), role.parent.value, n) != Some(id)
    {
      if Up(ParentColumn(t.roles), role.parent.value, n).Some? {
        RowsAreNotAbove(t, role.parent.value, n);
      }
    }
    forall user
      ensures !Effective(after, user, id)
    {
      forall i | i in after.assignments
        ensures !Grants(after, i, user, id)
      {
        forall n: nat
          ensures LiveUp(after.roles, t.assignments[i].role, n) != Some(id)
        {
          UnreferencedRow(t.roles, after.roles, id, t.assignments[i].role, n);
          LineageIsLive(t.roles, t.assignments[i].role, n);
        }
      }
    }
  }

  /** A chain of existing rows stays among them. */
  lemma {:induction false} RowsAreNotAbove(t: Tables, x: Id, n: nat)
    requires References(t) && x in t.roles && Up(ParentColumn(t.roles), x, n).Some?
    ensures Up(ParentColumn(t.roles), x, n).value in t.roles
  {
    if n > 0 {
      RowsAreNotAbove(t, x, n - 1);
    }
  }

  /** The writes that no trigger looks at: a role goes when nothing refers to it, a superior must exist. */
  lemma OtherWritesAllowedExactlyWhen(t: Tables, id: Id, superior: Option<Id>)
    requires References(t) && id in t.roles
    ensures Allowed(t, SetSuperior(id, superior)) <==> (superior.Some? ==> superior.value in t.roles)
    ensures Allowed(t, SoftDelete(id)) && Allowed(t, DeleteAssignment(id)) && Allowed(t, DropRule(id))
    ensures Allowed(t, DeleteRole(id)) <==>
            && (forall x :: x in t.roles && x != id ==> t.roles[x].parent != Some(id) && t.roles[x].superior != Some(id))
            && (forall i :: i in t.assignments ==> t.assignments[i].role != id)
            && (forall s :: s in t.rules ==> t.rules[s].roleA != id && t.rules[s].roleB != id)
  {
    var after := After(t, DeleteRole(id));
    if Allowed(t, DeleteRole(id)) {
      forall x | x in t.roles && x != id
        ensures t.roles[x].parent != Some(id) && t.roles[x].superior != Some(id)
      {
        assert x in after.roles && after.roles[x] == t.roles[x];
      }
      assert forall i :: i in t.assignments ==> i in after.assignments;
      assert forall s :: s in t.rules ==> s in after.rules;
    }
  }

  // ---- What each write keeps ----

  /** Fewer effective roles and no new rule keep every user separated. */
  lemma FewerEffectiveRoles(t: Tables, after: Tables)
    requires Separated(t)
    requires forall s :: StaticRule(after, s) ==> StaticRule(t, s) && after.rules[s] == t.rules[s]
    requires forall user, y :: Effective(after, user, y) ==> Effective(t, user, y)
    ensures Separated(after)
  {
  }

  /** fn_check_sod_violation refuses exactly the assignments that would break separation. */
  lemma AssignmentTriggerIsExact(t: Tables, id: Id, a: Assignment)
    requires Separated(t)
    ensures AssignmentPasses(t, id, a) <==> Separated(After(t, PutAssignment(id, a)))
  {
    if AssignmentPasses(t, id, a) {
      AssignmentKeepsSeparation(t, id, a);
    } else {
      var s :| StaticRule(t, s) && AssignmentConflict(t, id, a, s);
      ConflictBreaksSeparation(t, id, a, s);
    }
  }

  lemma ConflictBreaksSeparation(t: Tables, id: Id, a: Assignment, s: Id)
    requires !a.revoked && StaticRule(t, s) && AssignmentConflict(t, id, a, s)
    ensures !Separated(After(t, PutAssignment(id, a)))
  {
    var after := After(t, PutAssignment(id, a));
    var rule := t.rules[s];
    assert StaticRule(after, s);
    var own := if InLineage(t.roles, a.role, rule.roleA) then rule.roleA else rule.roleB;
    var other := if own == rule.roleA then rule.roleB else rule.roleA;
    assert Grants(after, id, a.user, own);
    if InLineage(t.roles, a.role, other) {
      assert Grants(after, id, a.user, other);
    } else {
      var i :| i in t.assignments && i != id && Grants(t, i, a.user, other);
      assert Grants(after, i, a.user, other);
    }
    assert Effective(after, a.user, rule.roleA) && Effective(after, a.user, rule.roleB);
  }

  lemma AssignmentKeepsSeparation(t: Tables, id: Id, a: Assignment)
    requires Separated(t) && AssignmentPasses(t, id, a)
    ensures Separated(After(t, PutAssignment(id, a)))
  {
    var after := After(t, PutAssignment(id, a));
    forall user, s | StaticRule(after, s) && Effective(after, user, t.rules[s].roleA) && Effective(after, user, t.rules[s].roleB)
      ensures false
    {
      var rule := t.rules[s];
      assert StaticRule(t, s);
      var i :| i in after.assignments && Grants(after, i, user, rule.roleA);
      var j :| j in after.assignments && Grants(after, j, user, rule.roleB);
      if i != id && j != id {
        assert Grants(t, i, user, rule.roleA) && Grants(t, j, user, rule.roleB);
        assert Effective(t, user, rule.roleA);
      } else {
        // The row just written brings one side; the other side is in its lineage or in another assignment.
        assert i != id ==> Grants(t, i, a.user, rule.roleA);
        assert j != id ==> Grants(t, j, a.user, rule.roleB);
        assert AssignmentConflict(t, id, a, s);
      }
    }
  }

  /**
   The reparenting lemma: a lineage that does not meet the changed role is unchanged, and any other lineage
   gains only members of the changed role's new lineage.
   */
  lemma ReparentedLineage(t: Tables, id: Id, parent: Option<Id>, x: Id, y: Id)
    requires id in t.roles
    requires InLineage(WithParent(t, id, parent).roles, x, y)
    ensures InLineage(t.roles, x, y)
            || (InLineage(WithParent(t, id, parent).roles, x, id) && InLineage(WithParent(t, id, parent).roles, id, y))
  {
    var after := WithParent(t, id, parent).roles;
    var n: nat :| LiveUp(after, x, n) == Some(y);
    if k: nat :| k < n && LiveUp(after, x, k) == Some(id) {
      LineageSplits(after, x, k, n - k);
      assert LiveUp(after, id, n - k) == Some(y);
    } else {
      forall k: nat | k < n && LiveUp(after, x, k).Some?
        ensures LiveParent(t.roles, LiveUp(after, x, k).value) == LiveParent(after, LiveUp(after, x, k).value)
      {
        assert LiveUp(after, x, k).value != id;
      }
      SameLineagePrefix(after, t.roles, x, n);
      assert LiveUp(t.roles, x, n) == Some(y);
    }
  }

  /** The same for users: new effective roles reach holders of the changed role only, through its lineage. */
  lemma ReparentedUser(t: Tables, id: Id, parent: Option<Id>, user: Id, y: Id)
    requires id in t.roles
    requires Effective(WithParent(t, id, parent), user, y)
    ensures Effective(t, user, y)
            || (Effective(WithParent(t, id, parent), user, id) && InLineage(WithParent(t, id, parent).roles, id, y))
  {
    var after := WithParent(t, id, parent);
    var i :| i in after.assignments && Grants(after, i, user, y);
    ReparentedLineage(t, id, parent, t.assignments[i].role, y);
    if InLineage(t.roles, t.assignments[i].role, y) {
      assert Grants(t, i, user, y);
    } else {
      assert Grants(after, i, user, id);
    }
  }

  /**
   Check 2 of fn_check_role_inheritance_sod is exact: a reparenting breaks separation precisely when some
   holder of the role ends with both sides. Check 1 refuses more.
   */
  lemma HolderCheckIsExact(t: Tables, id: Id, parent: Option<Id>)
    requires Separated(t) && id in t.roles
    ensures Separated(WithParent(t, id, parent)) <==> !HolderClash(WithParent(t, id, parent), id)
  {
    var after := WithParent(t, id, parent);
    if !HolderClash(after, id) {
      forall user, s | StaticRule(after, s) && Effective(after, user, t.rules[s].roleA) && Effective(after, user, t.rules[s].roleB)
        ensures false
      {
        assert StaticRule(t, s);
        ReparentedUser(t, id, parent, user, t.rules[s].roleA);
        ReparentedUser(t, id, parent, user, t.rules[s].roleB);
      }
    }
  }

  lemma ReparentKeepsSeparation(t: Tables, id: Id, parent: Option<Id>)
    requires Separated(t) && id in t.roles
    requires RolePasses(WithParent(t, id, parent), id)
    ensures Separated(WithParent(t, id, parent))
  {
    var after := WithParent(t, id, parent);
    if parent.None? || after.roles[id].deleted {
      forall user, y | Effective(after, user, y)
        ensures Effective(t, user, y)
      {
        CutLineage(t, id, parent, user, y);
      }
      FewerEffectiveRoles(t, after);
    } else {
      HolderCheckIsExact(t, id, parent);
    }
  }

  /** Removing the parent of a role, or moving a deleted role, adds nothing to any user. */
  lemma CutLineage(t: Tables, id: Id, parent: Option<Id>, user: Id, y: Id)
    requires id in t.roles && (parent.None? || t.roles[id].deleted)
    requires Effective(WithParent(t, id, parent), user, y)
    ensures Effective(t, user, y)
  {
    var after := WithParent(t, id, parent);
    ReparentedUser(t, id, parent, user, y);
    if !Effective(t, user, y) {
      OnlyLiveRolesHaveLineage(after.roles, id, y);
      LineageUnfolds(after.roles, id, y);
      assert y == id;
      var i :| i in after.assignments && Grants(after, i, user, id);
      IdStaysReachable(t, id, parent, t.assignments[i].role);
      assert Grants(t, i, user, id);
    }
  }

  /** Reparenting does not change which lineages meet the role itself. */
  lemma IdStaysReachable(t: Tables, id: Id, parent: Option<Id>, x: Id)
    requires id in t.roles && InLineage(WithParent(t, id, parent).roles, x, id)
    ensures InLineage(t.roles, x, id)
  {
    var after := WithParent(t, id, parent).roles;
    var n: nat :| LiveUp(after, x, n) == Some(id);
    FirstMeeting(t, id, parent, x, n);
  }

  lemma {:induction false} FirstMeeting(t: Tables, id: Id, parent: Option<Id>, x: Id, n: nat)
    requires id in t.roles && LiveUp(WithParent(t, id, parent).roles, x, n) == Some(id)
    ensures InLineage(t.roles, x, id)
  {
    var after := WithParent(t, id, parent).roles;
    if k: nat :| k < n && LiveUp(after, x, k) == Some(id) {
      FirstMeeting(t, id, parent, x, k);
    } else {
      SameLineagePrefix(after, t.roles, x, n);
      assert LiveUp(t.roles, x, n) == Some(id);
    }
  }

  /** Soft deletion only shortens lineages. */
  lemma {:induction false} SoftDeleteShortens(t: Tables, id: Id, x: Id, n: nat)
    requires id in t.roles
    ensures LiveUp(After(t, SoftDelete(id)).roles, x, n).Some? ==>
              LiveUp(After(t, SoftDelete(id)).roles, x, n) == LiveUp(t.roles, x, n)
  {
    if n > 0 {
      SoftDeleteShortens(t, id, x, n - 1);
    }
  }

  lemma SoftDeleteKeepsSeparation(t: Tables, id: Id)
    requires Separated(t) && id in t.roles
    ensures Separated(After(t, SoftDelete(id)))
  {
    var after := After(t, SoftDelete(id));
    forall user, y | Effective(after, user, y)
      ensures Effective(t, user, y)
    {
      var i :| i in after.assignments && Grants(after, i, user, y);
      var n: nat :| LiveUp(after.roles, t.assignments[i].role, n) == Some(y);
      SoftDeleteShortens(t, id, t.assignments[i].role, n);
      assert Grants(t, i, user, y);
    }
    FewerEffectiveRoles(t, after);
  }

  /** A row nobody refers to does not occur in any existing lineage. */
  lemma {:induction false} UnreferencedRow(small: Roles, big: Roles, id: Id, x: Id, n: nat)
    requires id in big && id !in small && big == small[id := big[id]]
    requires forall y :: y in small ==> small[y].parent != Some(id)
    requires x in small
    ensures LiveUp(big, x, n) == LiveUp(small, x, n)
  {
    if n > 0 {
      UnreferencedRow(small, big, id, x, n - 1);
      LineageIsLive(small, x, n - 1);
    }
  }

  lemma UnreferencedRowKeepsSeparation(t: Tables, after: Tables, small: Tables, big: Tables, id: Id)
    requires (t == small && after == big) || (t == big && after == small)
    requires Separated(t)
    requires id in big.roles && id !in small.roles && big.roles == small.roles[id := big.roles[id]]
    requires small.assignments == big.assignments && small.rules == big.rules
    requires References(small)
    ensures Separated(after)
  {
    forall user, y | Effective(after, user, y)
      ensures Effective(t, user, y)
    {
      var i :| i in after.assignments && Grants(after, i, user, y);
      var n: nat :| LiveUp(after.roles, t.assignments[i].role, n) == Some(y);
      UnreferencedRow(small.roles, big.roles, id, t.assignments[i].role, n);
      assert LiveUp(t.roles, t.assignments[i].role, n) == Some(y);
      assert Grants(t, i, user, y);
    }
    FewerEffectiveRoles(t, after);
  }

  /** Tables with the same assignments, rules, parents and deletion marks look the same to the triggers. */
  ghost predicate SameHierarchy(a: Tables, b: Tables) {
    && a.assignments == b.assignments && a.rules == b.rules && a.roles.Keys == b.roles.Keys
    && forall x :: x in a.roles ==> a.roles[x].parent == b.roles[x].parent && a.roles[x].deleted == b.roles[x].deleted
  }

  lemma SameHierarchySameLineage(a: Tables, b: Tables, x: Id, y: Id)
    requires SameHierarchy(a, b)
    ensures InLineage(a.roles, x, y) <==> InLineage(b.roles, x, y)
  {
    forall n: nat
      ensures LiveUp(a.roles, x, n) == LiveUp(b.roles, x, n)
    {
      SameLineagePrefix(a.roles, b.roles, x, n);
    }
  }

  lemma SameHierarchySameEffects(a: Tables, b: Tables)
    requires SameHierarchy(a, b)
    ensures forall x, y :: InLineage(a.roles, x, y) <==> InLineage(b.roles, x, y)
    ensures forall user, y :: Effective(a, user, y) <==> Effective(b, user, y)
    ensures Separated(a) <==> Separated(b)
    ensures forall x :: LineageClash(a, x) <==> LineageClash(b, x)
  {
    forall x, y
      ensures InLineage(a.roles, x, y) <==> InLineage(b.roles, x, y)
    {
      SameHierarchySameLineage(a, b, x, y);
    }
    forall user, y
      ensures Effective(a, user, y) <==> Effective(b, user, y)
    {
      forall i | i in a.assignments
        ensures Grants(a, i, user, y) <==> Grants(b, i, user, y)
      {
      }
    }
    assert forall s :: StaticRule(a, s) <==> StaticRule(b, s);
    forall x
      ensures LineageClash(a, x) <==> LineageClash(b, x)
    {
    }
  }

  lemma StepKeepsSeparation(t: Tables, step: Step)
    requires References(t) && Separated(t) && Allowed(t, step)
    ensures Separated(After(t, step))
  {
    var after := After(t, step);
    match step {
      case PutAssignment(id, a) =>
        AssignmentKeepsSeparation(t, id, a);
      case DeleteAssignment(id) =>
        forall user, y | Effective(after, user, y)
          ensures Effective(t, user, y)
        {
          var i :| i in after.assignments && Grants(after, i, user, y);
          assert Grants(t, i, user, y);
        }
        FewerEffectiveRoles(t, after);
      case InsertRole(id, role) =>
        UnreferencedRowKeepsSeparation(t, after, t, after, id);
      case Reparent(id, parent) =>
        ReparentKeepsSeparation(t, id, parent);
      case SetSuperior(id, superior) =>
        SameHierarchySameEffects(t, after);
      case SoftDelete(id) =>
        SoftDeleteKeepsSeparation(t, id);
      case DeleteRole(id) =>
        assert t.roles == after.roles[id := t.roles[id]];
        UnreferencedRowKeepsSeparation(t, after, after, t, id);
      case DropRule(id) =>
        forall user, y | Effective(after, user, y)
          ensures Effective(t, user, y)
        {
          var i :| i in after.assignments && Grants(after, i, user, y);
          assert Grants(t, i, user, y);
        }
        FewerEffectiveRoles(t, after);
    }
  }

  lemma StepKeepsStructure(t: Tables, step: Step)
    requires References(t) && Acyclic(ParentColumn(t.roles)) && Allowed(t, step)
    ensures References(After(t, step)) && Acyclic(ParentColumn(After(t, step).roles))
  {
    var before, after := ParentColumn(t.roles), ParentColumn(After(t, step).roles);
    match step {
      case InsertRole(id, role) =>
        assert after == before[id := role.parent];
        OtherParentKeepsAcyclic(before, id, role.parent);
      case Reparent(id, parent) =>
        assert after == before[id := parent];
        OtherParentKeepsAcyclic(before, id, parent);
      case DeleteRole(id) =>
        assert after == before - {id};
        RemovalKeepsAcyclic(before, id);
      case _ =>
        assert after == before;
    }
  }

  // ---- Whole runs ----

  ghost predicate AllowedRun(t: Tables, run: seq<Step>)
    decreases run
  {
    run == [] || (Allowed(t, run[0]) && AllowedRun(After(t, run[0]), run[1..]))
  }

  function AfterRun(t: Tables, run: seq<Step>): Tables
    decreases run
  {
    if run == [] then t else AfterRun(After(t, run[0]), run[1..])
  }

  /** In every state reachable by guarded writes no user holds both sides of a static rule. */
  lemma {:induction false} RunsStaySeparated(t: Tables, run: seq<Step>)
    requires Sound(t) && AllowedRun(t, run)
    ensures Sound(AfterRun(t, run))
    decreases run
  {
    if run != [] {
      StepKeepsSeparation(t, run[0]);
      StepKeepsStructure(t, run[0]);
      RunsStaySeparated(After(t, run[0]), run[1..]);
    }
  }

  // ---- What the triggers do not give ----

  /** createSodRule inserts the rule without looking at holders. */
  function WithRule(t: Tables, s: Id, rule: Rule): Tables {
    t.(rules := t.rules[s := rule])
  }

  /** A new rule keeps every user separated exactly when it is dynamic or nobody holds both of its roles yet. */
  lemma NewRuleSeparation(t: Tables, s: Id, rule: Rule)
    requires Separated(t) && s !in t.rules
    ensures Separated(WithRule(t, s, rule)) <==>
            (!rule.isStatic || forall user :: !(Effective(t, user, rule.roleA) && Effective(t, user, rule.roleB)))
  {
    var after := WithRule(t, s, rule);
    forall user, y
      ensures Effective(after, user, y) <==> Effective(t, user, y)
    {
      forall i | i in t.assignments
        ensures Grants(after, i, user, y) == Grants(t, i, user, y)
      {
      }
    }
    assert rule.isStatic ==> StaticRule(after, s);
    forall r | StaticRule(after, r) && r != s
      ensures StaticRule(t, r) && after.rules[r] == t.rules[r]
    {
    }
  }

  const NO_TABLES := Tables(map[], map[], map[])

  const PLAIN := Role("R", None, None, false)

  const HELD := Assignment(0, 0, "GLOBAL", None, 0, None, false, false)

  /** Two roles given to one user by guarded writes, from empty tables. */
  const TWO_ROLES_HELD: seq<Step> :=
    [InsertRole(0, PLAIN), InsertRole(1, PLAIN.(code := "S")), PutAssignment(0, HELD), PutAssignment(1, HELD.(role := 1))]

  /** After them a static rule between the two roles is not refused, and the user holds both of its sides. */
  lemma NewRuleCanBreakSeparation()
    ensures Sound(NO_TABLES) && AllowedRun(NO_TABLES, TWO_ROLES_HELD)
    ensures var t := AfterRun(NO_TABLES, TWO_ROLES_HELD); 0 !in t.rules && !Separated(WithRule(t, 0, Rule(0, 1, true)))
  {
    RootsAreAcyclic(NO_TABLES.roles);
    var run := TWO_ROLES_HELD;
    var t1 := After(NO_TABLES, run[0]);
    var t2 := After(t1, run[1]);
    var t3 := After(t2, run[2]);
    var t := After(t3, run[3]);
    assert Allowed(NO_TABLES, run[0]) && Allowed(t1, run[1]) && Allowed(t2, run[2]) && Allowed(t3, run[3]);
    assert run[1..][1..] == run[2..] && run[2..][1..] == run[3..] && run[3..][1..] == [];
    assert AfterRun(t3, run[3..]) == t && AllowedRun(t3, run[3..]);
    assert AfterRun(t2, run[2..]) == t && AllowedRun(t2, run[2..]);
    assert AfterRun(t1, run[1..]) == t && AllowedRun(t1, run[1..]);
    assert LiveUp(t.roles, 0, 0) == Some(0) && LiveUp(t.roles, 1, 0) == Some(1);
    assert Grants(t, 0, 0, 0) && Grants(t, 1, 0, 1);
    assert Effective(t, 0, 0) && Effective(t, 0, 1);
    RunsStaySeparated(NO_TABLES, run);
    NewRuleSeparation(t, 0, Rule(0, 1, true));
  }

  lemma RootsAreAcyclic(roles: Roles)
    requires forall x :: x in roles ==> roles[x].parent.None?
    ensures Acyclic(ParentColumn(roles))
  {
    var p := ParentColumn(roles);
    forall x: Id, n: nat | 0 < n
      ensures Up(p, x, n) != Some(x)
    {
      UpSplits(p, x, 1, n - 1);
      assert Up(p, x, 1) == ParentOf(p, x) by { assert Up(p, x, 0) == Some(x); }
    }
  }
}
