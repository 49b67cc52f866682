/** The role tables as finite maps, and role lineage: a live role with its chain of live parents. */
module RbacTables {
  import opened Options
  import opened Hierarchy

  datatype Role = Role(code: string, parent: Option<Id>, superior: Option<Id>, deleted: bool)

  datatype Rule = Rule(roleA: Id, roleB: Id, isStatic: bool)

  datatype Assignment = Assignment(
    user: Id, role: Id, scopeType: string, scopeId: Option<Id>,
    validFrom: int, validUntil: Option<int>, delegated: bool, revoked: bool)

  type Roles = map<Id, Role>

  predicate Live(roles: Roles, x: Id) {
    x in roles && !roles[x].deleted
  }

  /** The parent of a row, when the row exists and the parent is live. */
  function LiveParent(roles: Roles, x: Id): Option<Id> {
    if x in roles && roles[x].parent.Some? && Live(roles, roles[x].parent.value) then roles[x].parent else None
  }

  /** The n-th member of the lineage of `x`; a soft-deleted role cuts the chain. */
  function LiveUp(roles: Roles, x: Id, n: nat): Option<Id> {
    if n == 0 then
      if Live(roles, x) then Some(x) else None
    else
      match LiveUp(roles, x, n - 1)
      case None => None
      case Some(y) => LiveParent(roles, y)
  }

  /** `y` is in fn_role_lineage(x), by the path definition. */
  ghost predicate InLineage(roles: Roles, x: Id, y: Id) {
    exists n: nat :: LiveUp(roles, x, n) == Some(y)
  }

  /** UPDATE role SET parent_role_id = parent, for the rows in `ids`. */
  function SetParents(roles: Roles, ids: set<Id>, parent: Option<Id>): Roles {
    map x | x in roles :: if x in ids then roles[x].(parent := parent) else roles[x]
  }

  function SetSuperiors(roles: Roles, ids: set<Id>, superior: Option<Id>): Roles {
    map x | x in roles :: if x in ids then roles[x].(superior := superior) else roles[x]
  }

  function ParentColumn(roles: Roles): Parents {
    map x | x in roles :: roles[x].parent
  }

  // ---- Walking a lineage ----

  lemma {:induction false} LineageSplits(roles: Roles, x: Id, m: nat, n: nat)
    ensures LiveUp(roles, x, m).None? ==> LiveUp(roles, x, m + n).None?
    ensures LiveUp(roles, x, m).Some? ==> LiveUp(roles, x, m + n) == LiveUp(roles, LiveUp(roles, x, m).value, n)
  {
    if n > 0 {
      LineageSplits(roles, x, m, n - 1);
    } else {
      LineageIsLive(roles, x, m);
    }
  }

  lemma {:induction false} LineageIsLive(roles: Roles, x: Id, n: nat)
    ensures LiveUp(roles, x, n).Some? ==> Live(roles, LiveUp(roles, x, n).value)
  {
    if n > 0 {
      LineageIsLive(roles, x, n - 1);
    }
  }

  lemma LineageIsTransitive(roles: Roles, x: Id, y: Id, z: Id)
    requires InLineage(roles, x, y) && InLineage(roles, y, z)
    ensures InLineage(roles, x, z)
  {
    var m: nat :| LiveUp(roles, x, m) == Some(y);
    var n: nat :| LiveUp(roles, y, n) == Some(z);
    LineageSplits(roles, x, m, n);
    assert LiveUp(roles, x, m + n) == Some(z);
  }

  /** A lineage consists of its start and the lineage of the start's live parent. */
  lemma LineageUnfolds(roles: Roles, x: Id, y: Id)
    requires Live(roles, x)
    ensures InLineage(roles, x, y) <==>
            (y == x || (LiveParent(roles, x).Some? && InLineage(roles, LiveParent(roles, x).value, y)))
  {
    assert LiveUp(roles, x, 0) == Some(x);
    var parent := LiveParent(roles, x);
    assert LiveUp(roles, x, 1) == parent;
    if n: nat :| LiveUp(roles, x, n) == Some(y) {
      if n > 0 {
        LineageSplits(roles, x, 1, n - 1);
      }
    }
    if parent.Some? && InLineage(roles, parent.value, y) {
      LineageIsTransitive(roles, x, parent.value, y);
    }
  }

  lemma OnlyLiveRolesHaveLineage(roles: Roles, x: Id, y: Id)
    requires InLineage(roles, x, y)
    ensures Live(roles, x) && Live(roles, y)
  {
    var n: nat :| LiveUp(roles, x, n) == Some(y);
    LineageIsLive(roles, x, n);
    LineageSplits(roles, x, 0, n);
  }

  /** The first `n` steps agree when the two tables agree on every member met. */
  lemma {:induction false} SameLineagePrefix(roles: Roles, other: Roles, x: Id, n: nat)
    requires Live(roles, x) == Live(other, x)
    requires forall k: nat :: k < n && LiveUp(roles, x, k).Some? ==>
               LiveParent(other, LiveUp(roles, x, k).value) == LiveParent(roles, LiveUp(roles, x, k).value)
    ensures LiveUp(other, x, n) == LiveUp(roles, x, n)
  {
    if n > 0 {
      SameLineagePrefix(roles, other, x, n - 1);
    }
  }

  // ---- fn_role_lineage as PostgreSQL evaluates it ----

  /**
   fn_role_lineage: the working-table evaluation of the recursive query. UNION drops rows already found,
   so it also ends on a cyclic table.
   */
  method RoleLineage(roles: Roles, roleId: Id) returns (lineage: set<Id>)
    ensures forall y :: y in lineage <==> InLineage(roles, roleId, y)
  {
    lineage := {};
    var working: set<Id> := if Live(roles, roleId) then {roleId} else {};
    ghost var n: nat := 0;
    while working != {}
      invariant forall y :: y in lineage <==> FoundBefore(roles, roleId, n, y)
      invariant working == (if LiveUp(roles, roleId, n).Some? then {LiveUp(roles, roleId, n).value} else {}) - lineage
      invariant lineage <= roles.Keys
      decreases roles.Keys - lineage
    {
      LineageIsLive(roles, roleId, n);
      lineage := lineage + working;
      working := (set l | l in working && LiveParent(roles, l).Some? :: LiveParent(roles, l).value) - lineage;
      assert LiveUp(roles, roleId, n + 1) == LiveParent(roles, LiveUp(roles, roleId, n).value);
      n := n + 1;
    }
    if LiveUp(roles, roleId, n).Some? {
      assert LiveUp(roles, roleId, n).value !in working;
    }
    forall y
      ensures y in lineage <==> InLineage(roles, roleId, y)
    {
      if k: nat :| LiveUp(roles, roleId, k) == Some(y) {
        NothingNewLater(roles, roleId, n, k);
      }
    }
  }

  ghost predicate FoundBefore(roles: Roles, x: Id, n: nat, y: Id) {
    exists k: nat :: k < n && LiveUp(roles, x, k) == Some(y)
  }

  /** Once a step finds nothing new, no later step does. */
  lemma {:induction false} NothingNewLater(roles: Roles, x: Id, n: nat, k: nat)
    requires LiveUp(roles, x, n).Some? ==> FoundBefore(roles, x, n, LiveUp(roles, x, n).value)
    ensures LiveUp(roles, x, k).Some? ==> FoundBefore(roles, x, n, LiveUp(roles, x, k).value)
  {
    if k > n {
      NothingNewLater(roles, x, n, k - 1);
      if LiveUp(roles, x, k).Some? {
        var y := LiveUp(roles, x, k - 1).value;
        var j: nat :| j < n && LiveUp(roles, x, j) == Some(y);
        assert LiveUp(roles, x, j + 1) == LiveUp(roles, x, k);
      }
    }
  }

  // ---- UPDATE role SET parent_role_id over several rows ----

  /** No updated row lies on the chain of the new parent. */
  ghost predicate ParentClear(roles: Roles, ids: set<Id>, parent: Option<Id>) {
    parent.Some? ==> forall h :: h in ids ==> !Reaches(ParentColumn(roles), parent.value, h)
  }

  lemma {:induction false} ChainOfNewParent(roles: Roles, ids: set<Id>, parent: Id, n: nat)
    requires ParentClear(roles, ids, Some(parent))
    ensures Up(ParentColumn(SetParents(roles, ids, Some(parent))), parent, n) == Up(ParentColumn(roles), parent, n)
  {
    if n > 0 {
      ChainOfNewParent(roles, ids, parent, n - 1);
    }
  }

  /** Updating one more row: the trigger's answer does not depend on which rows went before. */
  lemma NextRow(roles: Roles, ids: set<Id>, parent: Option<Id>, h: Id)
    requires ParentClear(roles, ids, parent) && h in roles
    requires Acyclic(ParentColumn(SetParents(roles, ids, parent)))
    ensures Acyclic(ParentColumn(SetParents(roles, ids + {h}, parent))) <==> ParentClear(roles, ids + {h}, parent)
    ensures ParentColumn(SetParents(roles, ids + {h}, parent)) == ParentColumn(SetParents(roles, ids, parent))[h := parent]
  {
    var q := ParentColumn(SetParents(roles, ids, parent));
    assert ParentColumn(SetParents(roles, ids + {h}, parent)) == q[h := parent];
    AcyclicAfterChange(q, h, parent);
    if parent.Some? {
      forall n: nat
        ensures Up(q, parent.value, n) == Up(ParentColumn(roles), parent.value, n)
      {
        ChainOfNewParent(roles, ids, parent.value, n);
      }
      assert Reaches(q, parent.value, h) <==> Reaches(ParentColumn(roles), parent.value, h);
    }
  }

  lemma {:induction false} SetParentsIsAcyclic(roles: Roles, ids: set<Id>, parent: Option<Id>)
    requires Acyclic(ParentColumn(roles)) && ids <= roles.Keys && ParentClear(roles, ids, parent)
    ensures Acyclic(ParentColumn(SetParents(roles, ids, parent)))
    decreases ids
  {
    if ids == {} {
      assert SetParents(roles, ids, parent) == roles;
    } else {
      var h := Element(ids);
      SetParentsIsAcyclic(roles, ids - {h}, parent);
      NextRow(roles, ids - {h}, parent, h);
      assert ids - {h} + {h} == ids;
    }
  }

  /** The UPDATE with trg_role_no_cycle before each row, rows taken in any order. */
  method UpdateParents(roles: Roles, ids: set<Id>, parent: Option<Id>) returns (accepted: bool, updated: Roles)
    requires Acyclic(ParentColumn(roles)) && ids <= roles.Keys
    ensures accepted <==> ParentClear(roles, ids, parent)
    ensures accepted ==> updated == SetParents(roles, ids, parent) && Acyclic(ParentColumn(updated))
  {
    updated := roles;
    var pending := ids;
    assert SetParents(roles, {}, parent) == roles;
    while pending != {}
      invariant pending <= ids
      invariant updated == SetParents(roles, ids - pending, parent)
      invariant Acyclic(ParentColumn(updated))
      invariant ParentClear(roles, ids - pending, parent)
    {
      var h := Pick(pending);
      NextRow(roles, ids - pending, parent, h);
      accepted := CheckRoleHierarchyNoCycle(ParentColumn(updated), h, parent);
      assert ids - (pending - {h}) == ids - pending + {h};
      if !accepted {
        return false, updated;
      }
      updated := updated[h := updated[h].(parent := parent)];
      assert updated == SetParents(roles, ids - (pending - {h}), parent);
      pending := pending - {h};
    }
    assert ids - {} == ids;
    return true, updated;
  }
}
