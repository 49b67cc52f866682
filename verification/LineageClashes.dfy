/**
 Separation is a promise about users, not about roles: check 1 of fn_check_role_inheritance_sod looks at the
 changed role only, so a reparenting it passes can leave a descendant whose own lineage holds both sides of a rule.
 */
module LineageClashes {
  import opened Options
  import opened Hierarchy
  import opened RbacTables
  import opened SeparationOfDuties

  ghost predicate AllClean(t: Tables) {
    forall x :: !LineageClash(t, x)
  }

  /** Of two members of one lineage one is in the lineage of the other. */
  lemma LineageIsLinear(roles: Roles, x: Id, y: Id, z: Id)
    requires InLineage(roles, x, y) && InLineage(roles, x, z)
    ensures InLineage(roles, y, z) || InLineage(roles, z, y)
  {
    var m: nat :| LiveUp(roles, x, m) == Some(y);
    var n: nat :| LiveUp(roles, x, n) == Some(z);
    if m <= n {
      LineageSplits(roles, x, m, n - m);
      assert LiveUp(roles, y, n - m) == Some(z);
    } else {
      LineageSplits(roles, x, n, m - n);
      assert LiveUp(roles, z, m - n) == Some(y);
    }
  }

  /** The rule has one side at or below the role and the other in the lineage of its new parent. */
  ghost predicate Joins(t: Tables, id: Id, p: Id, s: Id)
    requires StaticRule(t, s)
  {
    var rule := t.rules[s];
    || (InLineage(t.roles, rule.roleA, id) && InLineage(t.roles, p, rule.roleB))
    || (InLineage(t.roles, rule.roleB, id) && InLineage(t.roles, p, rule.roleA))
  }

  /** The two tables are reparentings of each other. */
  lemma ParentBack(t: Tables, id: Id, parent: Option<Id>)
    requires id in t.roles
    ensures WithParent(WithParent(t, id, parent), id, t.roles[id].parent) == t
  {
    var back := WithParent(WithParent(t, id, parent), id, t.roles[id].parent);
    assert back.roles == t.roles;
  }

  lemma SubordinatesStay(t: Tables, id: Id, parent: Option<Id>, x: Id)
    requires id in t.roles
    ensures InLineage(WithParent(t, id, parent).roles, x, id) <==> InLineage(t.roles, x, id)
  {
    if InLineage(t.roles, x, id) {
      ParentBack(t, id, parent);
      IdStaysReachable(WithParent(t, id, parent), id, t.roles[id].parent, x);
    }
    if InLineage(WithParent(t, id, parent).roles, x, id) {
      IdStaysReachable(t, id, parent, x);
    }
  }

  lemma ParentIsNotBelow(t: Tables, id: Id, p: Id)
    requires id in t.roles && ParentAllowed(t, id, Some(p))
    ensures !InLineage(t.roles, p, id)
  {
    if n: nat :| LiveUp(t.roles, p, n) == Some(id) {
      LineageIsChain(t.roles, p, n);
    }
  }

  lemma {:induction false} LineageIsChain(roles: Roles, x: Id, n: nat)
    ensures LiveUp(roles, x, n).Some? ==> Up(ParentColumn(roles), x, n) == LiveUp(roles, x, n)
  {
    if n > 0 {
      LineageIsChain(roles, x, n - 1);
    }
  }

  /** The lineage of the new parent does not meet the role, so it stays. */
  lemma NewParentLineage(t: Tables, id: Id, p: Id, y: Id)
    requires id in t.roles && ParentAllowed(t, id, Some(p))
    ensures InLineage(WithParent(t, id, Some(p)).roles, p, y) <==> InLineage(t.roles, p, y)
  {
    var after := WithParent(t, id, Some(p));
    ParentIsNotBelow(t, id, p);
    SubordinatesStay(t, id, Some(p), p);
    if InLineage(after.roles, p, y) {
      ReparentedLineage(t, id, Some(p), p, y);
    }
    if InLineage(t.roles, p, y) {
      ParentBack(t, id, Some(p));
      ReparentedLineage(after, id, t.roles[id].parent, p, y);
    }
  }

  /** After the reparenting a lineage that meets the role goes on in the new parent's. */
  lemma AfterTheRole(t: Tables, id: Id, p: Id, y: Id)
    requires id in t.roles && ParentAllowed(t, id, Some(p)) && Live(t.roles, id)
    ensures InLineage(WithParent(t, id, Some(p)).roles, id, y) <==> y == id || InLineage(t.roles, p, y)
  {
    var after := WithParent(t, id, Some(p)).roles;
    LineageUnfolds(after, id, y);
    NewParentLineage(t, id, p, y);
    if InLineage(t.roles, p, y) {
      OnlyLiveRolesHaveLineage(t.roles, p, y);
    }
  }

  /** A member of a changed lineage is at or below the role, or in the lineage of the new parent. */
  lemma MemberIsBelowOrAbove(t: Tables, id: Id, p: Id, x: Id, y: Id)
    requires id in t.roles && ParentAllowed(t, id, Some(p))
    requires InLineage(WithParent(t, id, Some(p)).roles, x, id) && InLineage(WithParent(t, id, Some(p)).roles, x, y)
    ensures InLineage(t.roles, y, id) || InLineage(t.roles, p, y)
  {
    var after := WithParent(t, id, Some(p)).roles;
    LineageIsLinear(after, x, id, y);
    OnlyLiveRolesHaveLineage(after, x, id);
    if InLineage(after, y, id) {
      SubordinatesStay(t, id, Some(p), y);
    } else {
      AfterTheRole(t, id, p, y);
    }
  }

  /** A member at or below the role was in the lineage before. */
  lemma BelowIsOld(t: Tables, id: Id, p: Id, x: Id, y: Id)
    requires id in t.roles && ParentAllowed(t, id, Some(p))
    requires InLineage(WithParent(t, id, Some(p)).roles, x, y) && InLineage(t.roles, y, id)
    ensures InLineage(t.roles, x, y)
  {
    ReparentedLineage(t, id, Some(p), x, y);
    if !InLineage(t.roles, x, y) {
      OnlyLiveRolesHaveLineage(t.roles, y, id);
      AfterTheRole(t, id, p, y);
      if y == id {
        SubordinatesStay(t, id, Some(p), x);
      } else {
        LineageIsTransitive(t.roles, p, y, id);
        ParentIsNotBelow(t, id, p);
      }
    }
  }

  /** A clash after the reparenting was there before, sits above the new parent, or joins its two sides. */
  lemma ClashComesFromJoin(t: Tables, id: Id, p: Id, x: Id, s: Id)
    requires id in t.roles && ParentAllowed(t, id, Some(p)) && AllClean(t) && StaticRule(t, s)
    requires var after := WithParent(t, id, Some(p)).roles;
             InLineage(after, x, t.rules[s].roleA) && InLineage(after, x, t.rules[s].roleB)
    ensures Joins(t, id, p, s)
  {
    var after := WithParent(t, id, Some(p)).roles;
    var a, b := t.rules[s].roleA, t.rules[s].roleB;
    assert !LineageClash(t, x) && !LineageClash(t, p);
    if InLineage(after, x, id) {
      MemberIsBelowOrAbove(t, id, p, x, a);
      MemberIsBelowOrAbove(t, id, p, x, b);
      if InLineage(t.roles, a, id) && InLineage(t.roles, b, id) {
        BelowIsOld(t, id, p, x, a);
        BelowIsOld(t, id, p, x, b);
      }
    } else {
      ReparentedLineage(t, id, Some(p), x, a);
      ReparentedLineage(t, id, Some(p), x, b);
    }
  }

  lemma JoinMakesClash(t: Tables, id: Id, p: Id, s: Id, below: Id, above: Id)
    requires id in t.roles && ParentAllowed(t, id, Some(p)) && StaticRule(t, s)
    requires {below, above} == {t.rules[s].roleA, t.rules[s].roleB}
    requires InLineage(t.roles, below, id) && InLineage(t.roles, p, above)
    ensures LineageClash(WithParent(t, id, Some(p)), below)
  {
    var after := WithParent(t, id, Some(p));
    OnlyLiveRolesHaveLineage(t.roles, below, id);
    assert LiveUp(after.roles, below, 0) == Some(below);
    SubordinatesStay(t, id, Some(p), below);
    AfterTheRole(t, id, p, above);
    LineageIsTransitive(after.roles, below, id, above);
    assert below in {t.rules[s].roleA, t.rules[s].roleB} && above in {t.rules[s].roleA, t.rules[s].roleB};
    assert t.rules[s].roleA in {below, above} && t.rules[s].roleB in {below, above};
    assert StaticRule(after, s);
  }

  /**
   A parent change keeps every role's own lineage clean exactly when no static rule has one side at or below the
   role and the other in the lineage of the new parent.
   */
  lemma LineagesStayCleanExactlyWhen(t: Tables, id: Id, p: Id)
    requires id in t.roles && ParentAllowed(t, id, Some(p)) && AllClean(t)
    ensures AllClean(WithParent(t, id, Some(p))) <==> forall s :: StaticRule(t, s) ==> !Joins(t, id, p, s)
  {
    var after := WithParent(t, id, Some(p));
    forall s | StaticRule(t, s) && Joins(t, id, p, s)
      ensures !AllClean(after)
    {
      var a, b := t.rules[s].roleA, t.rules[s].roleB;
      if InLineage(t.roles, a, id) && InLineage(t.roles, p, b) {
        JoinMakesClash(t, id, p, s, a, b);
      } else {
        JoinMakesClash(t, id, p, s, b, a);
      }
    }
    forall x | LineageClash(after, x)
      ensures exists s :: StaticRule(t, s) && Joins(t, id, p, s)
    {
      var s :| StaticRule(after, s) && InLineage(after.roles, x, t.rules[s].roleA) && InLineage(after.roles, x, t.rules[s].roleB);
      assert StaticRule(t, s);
      ClashComesFromJoin(t, id, p, x, s);
    }
  }

  /** While users are separated nobody holds a role whose lineage clashes. */
  lemma ClashingRoleIsUnheld(t: Tables, x: Id, user: Id)
    requires Separated(t) && LineageClash(t, x)
    ensures !Effective(t, user, x)
  {
    if Effective(t, user, x) {
      var i :| i in t.assignments && Grants(t, i, user, x);
      HolderHoldsLineage(t, i, user, x);
    }
  }

  lemma HolderHoldsLineage(t: Tables, i: Id, user: Id, x: Id)
    requires i in t.assignments && Grants(t, i, user, x)
    ensures forall y :: InLineage(t.roles, x, y) ==> Effective(t, user, y)
  {
    forall y | InLineage(t.roles, x, y)
      ensures Effective(t, user, y)
    {
      LineageIsTransitive(t.roles, t.assignments[i].role, x, y);
      assert Grants(t, i, user, y);
    }
  }

  /** In every state a run of guarded writes reaches, a role with a clashing lineage is held by nobody. */
  lemma ClashingRolesStayUnheld(t: Tables, run: seq<Step>, x: Id, user: Id)
    requires Sound(t) && AllowedRun(t, run) && LineageClash(SeparationOfDuties.AfterRun(t, run), x)
    ensures !Effective(SeparationOfDuties.AfterRun(t, run), user, x)
  {
    RunsStaySeparated(t, run);
    ClashingRoleIsUnheld(SeparationOfDuties.AfterRun(t, run), x, user);
  }

  /** A reparenting both triggers pass, after which a descendant's lineage holds both sides of a static rule. */
  lemma DescendantLineageCanClash()
    ensures exists t: Tables, step: Step, x: Id ::
              Sound(t) && Allowed(t, step) && !LineageClash(t, x) && LineageClash(After(t, step), x)
  {
    // 0 <- (to be) 1 <- 2, with a static rule between 0 and 2.
    var plain := Role("R", None, None, false);
    var t := Tables(map[0 := plain, 1 := plain, 2 := plain.(parent := Some(1))], map[], map[0 := Rule(0, 2, true)]);
    var step := Reparent(1, Some(0));
    var after := After(t, step);
    var p := ParentColumn(map[0 := plain, 1 := plain, 2 := plain]);
    RootsAreAcyclic(map[0 := plain, 1 := plain, 2 := plain]);
    assert ParentColumn(t.roles) == p[2 := Some(1)];
    RootReachesItselfOnly(p, 1, 2);
    OtherParentKeepsAcyclic(p, 2, Some(1));
    RootReachesItselfOnly(ParentColumn(t.roles), 0, 1);
    assert Allowed(t, step) by {
      LineageUnfolds(after.roles, 1, 2);
      LineageUnfolds(after.roles, 0, 2);
    }
    assert !LineageClash(t, 2) by {
      LineageUnfolds(t.roles, 2, 0);
      LineageUnfolds(t.roles, 1, 0);
    }
    assert LineageClash(after, 2) by {
      assert LiveUp(after.roles, 2, 0) == Some(2);
      assert LiveUp(after.roles, 2, 1) == Some(1);
      assert LiveUp(after.roles, 2, 2) == Some(0);
      assert StaticRule(after, 0);
    }
  }

  lemma RootReachesItselfOnly(p: Parents, root: Id, target: Id)
    requires ParentOf(p, root).None? && root != target
    ensures !Reaches(p, root, target)
  {
    forall n: nat
      ensures Up(p, root, n) != Some(target)
    {
      assert Up(p, root, 0) == Some(root);
      if n > 0 {
        UpSplits(p, root, 1, n - 1);
      }
    }
  }
}
