/**
 Retiring a role and restoring it from its audit record (retireCustodian, restoreCustodian): what the
 statements leave in the tables, and what becomes of lineages, permissions and separation.
 */
module RoleRetirement {
  import opened Options
  import opened Hierarchy
  import opened RbacTables
  import opened SeparationOfDuties

  datatype Grant = Grant(conditions: Option<string>, grantedAt: int, grantedBy: Option<Id>)

  type GrantTable = map<(Id, Id), Grant>

  datatype Snapshot = Snapshot(
    roleId: Id, role: Role, permissions: GrantTable, rules: map<Id, Rule>,
    heirs: set<Id>, subordinates: set<Id>, copied: set<(Id, Id)>)

  /** audit_log in (performed_at, id) order; `Retirement` is a ROLE_DELETED entry of this migration. */
  datatype AuditEntry = Retirement(snapshot: Snapshot) | OtherEntry(text: string)

  datatype Db = Db(tables: Tables, grants: GrantTable, audit: seq<AuditEntry>)

  function Heirs(roles: Roles, r: Id): set<Id> {
    set x | x in roles && roles[x].parent == Some(r)
  }

  function Subordinates(roles: Roles, r: Id): set<Id> {
    set x | x in roles && roles[x].superior == Some(r)
  }

  /** Keys of the grants inserted for heirs: the retired role's permissions they lack. */
  function CopiedKeys(db: Db, r: Id): set<(Id, Id)> {
    set h, g | h in Heirs(db.tables.roles, r) && g in db.grants && g.0 == r && (h, g.1) !in db.grants :: (h, g.1)
  }

  function CopiedGrants(db: Db, r: Id, at: int): GrantTable {
    map k | k in CopiedKeys(db, r) :: Grant(db.grants[CopySource(db, r, k)].conditions, at, None)
  }

  /** The grant a copied key comes from. */
  function CopySource(db: Db, r: Id, k: (Id, Id)): (g: (Id, Id))
    requires k in CopiedKeys(db, r)
    ensures g in db.grants && g.0 == r && g.1 == k.1
  {
    (r, k.1)
  }

  function RulesAbout(rules: map<Id, Rule>, r: Id): map<Id, Rule> {
    map s | s in rules && (rules[s].roleA == r || rules[s].roleB == r) :: rules[s]
  }

  function GrantsOf(grants: GrantTable, r: Id): GrantTable {
    map k | k in grants && k.0 == r :: grants[k]
  }

  function SnapshotOf(db: Db, r: Id): Snapshot
    requires r in db.tables.roles
  {
    Snapshot(r, db.tables.roles[r], GrantsOf(db.grants, r), RulesAbout(db.tables.rules, r),
             Heirs(db.tables.roles, r), Subordinates(db.tables.roles, r), CopiedKeys(db, r))
  }

  /** The tables just after the heirs' UPDATE, which is when the inheritance trigger looks at them. */
  function Moved(t: Tables, r: Id): Tables
    requires r in t.roles
  {
    t.(roles := SetParents(t.roles, Heirs(t.roles, r), t.roles[r].parent))
  }

  function RolesWithout(roles: Roles, r: Id): Roles
    requires r in roles
  {
    SetSuperiors(SetParents(roles, Heirs(roles, r), roles[r].parent), Subordinates(roles, r), roles[r].superior) - {r}
  }

  function TablesWithout(t: Tables, r: Id): Tables
    requires r in t.roles
  {
    Tables(RolesWithout(t.roles, r), t.assignments, t.rules - RulesAbout(t.rules, r).Keys)
  }

  /** The committed state after a successful retirement. */
  function Retired(db: Db, r: Id, at: int): Db
    requires r in db.tables.roles
  {
    Db(TablesWithout(db.tables, r),
       (db.grants + CopiedGrants(db, r, at)) - GrantsOf(db.grants, r).Keys,
       db.audit + [Retirement(SnapshotOf(db, r))])
  }

  /** The role has no assignment, no trigger objects, and nothing refers to it once heirs and subordinates moved. */
  ghost predicate Retirable(t: Tables, r: Id)
    requires r in t.roles
  {
    && (forall i :: i in t.assignments ==> t.assignments[i].role != r)
    && (forall h :: h in Heirs(t.roles, r) ==> RolePasses(Moved(t, r), h))
    && (t.roles[r].superior == Some(r) ==> Subordinates(t.roles, r) <= {r})
  }

  // ---- The rows a retirement leaves ----

  /** Other roles keep their grants; what is new is the role's own, with its conditions, at its heirs. */
  lemma GrantsAfterRetirement(db: Db, r: Id, at: int, k: (Id, Id))
    requires r in db.tables.roles && db.tables.roles[r].parent != Some(r)
    ensures var after := Retired(db, r, at).grants;
            && (k in db.grants && k.0 != r ==> k in after && after[k] == db.grants[k])
            && (k in after && k !in db.grants ==>
                  && k.0 in db.tables.roles && db.tables.roles[k.0].parent == Some(r) && (r, k.1) in db.grants
                  && after[k] == Grant(db.grants[(r, k.1)].conditions, at, None))
            && (k.0 in db.tables.roles && db.tables.roles[k.0].parent == Some(r) && (r, k.1) in db.grants ==> k in after)
            && (k in after ==> k.0 != r)
  {
    var after := Retired(db, r, at).grants;
    if k.0 in db.tables.roles && db.tables.roles[k.0].parent == Some(r) && (r, k.1) in db.grants && k !in db.grants {
      CopyReachesHeir(db, r, at, k.0, k.1);
      assert k == (k.0, k.1);
    }
    if k in after && k !in db.grants {
      assert k in CopiedKeys(db, r);
    }
  }

  /** Heirs and subordinates move to the role's own parent and superior; nothing else about a role changes. */
  lemma RolesAfterRetirement(db: Db, r: Id, at: int, x: Id)
    requires r in db.tables.roles
    ensures var before, after := db.tables.roles, Retired(db, r, at).tables.roles;
            && (x in after <==> x in before && x != r)
            && (x in after ==>
                  after[x] == Role(before[x].code,
                                   if before[x].parent == Some(r) then before[r].parent else before[x].parent,
                                   if before[x].superior == Some(r) then before[r].superior else before[x].superior,
                                   before[x].deleted))
  {
  }

  /** Rules about the role go, assignments stay, and the log gains one entry that says what was there. */
  lemma RestAfterRetirement(db: Db, r: Id, at: int)
    requires r in db.tables.roles
    ensures var after := Retired(db, r, at);
            && after.tables.assignments == db.tables.assignments
            && (forall s :: s in after.tables.rules <==>
                  s in db.tables.rules && r !in {db.tables.rules[s].roleA, db.tables.rules[s].roleB})
            && (forall s :: s in after.tables.rules ==> after.tables.rules[s] == db.tables.rules[s])
            && |after.audit| == |db.audit| + 1 && after.audit[..|db.audit|] == db.audit && after.audit[|db.audit|].Retirement?
            && after.audit[|db.audit|].snapshot.roleId == r && after.audit[|db.audit|].snapshot.role == db.tables.roles[r]
            && (forall k :: k in after.audit[|db.audit|].snapshot.permissions <==> k in db.grants && k.0 == r)
            && (forall x :: x in after.audit[|db.audit|].snapshot.heirs <==> x in db.tables.roles && db.tables.roles[x].parent == Some(r))
            && (forall x :: x in after.audit[|db.audit|].snapshot.subordinates <==>
                  x in db.tables.roles && db.tables.roles[x].superior == Some(r))
  {
  }

  // ---- The parent graph ----

  /** An heir is never above the retired role's parent. */
  lemma ParentAvoidsHeir(p: Parents, r: Id, h: Id)
    requires Acyclic(p) && ParentOf(p, h) == Some(r) && ParentOf(p, r).Some?
    ensures !Reaches(p, ParentOf(p, r).value, h)
  {
    var q := ParentOf(p, r).value;
    if n: nat :| Up(p, q, n) == Some(h) {
      assert Up(p, h, 0) == Some(h) && Up(p, h, 1) == Some(r) && Up(p, h, 2) == Some(q);
      UpSplits(p, h, 2, n);
    }
  }

  lemma RetiredIsAcyclic(roles: Roles, r: Id)
    requires r in roles && Acyclic(ParentColumn(roles))
    ensures Acyclic(ParentColumn(RolesWithout(roles, r)))
    ensures r !in Heirs(roles, r)
  {
    var p := ParentColumn(roles);
    assert Up(p, r, 1) == ParentOf(p, r) by { assert Up(p, r, 0) == Some(r); }
    forall h | h in Heirs(roles, r) && roles[r].parent.Some?
      ensures !Reaches(p, roles[r].parent.value, h)
    {
      ParentAvoidsHeir(p, r, h);
    }
    SetParentsIsAcyclic(roles, Heirs(roles, r), roles[r].parent);
    var q := ParentColumn(SetParents(roles, Heirs(roles, r), roles[r].parent));
    RemovalKeepsAcyclic(q, r);
    assert ParentColumn(RolesWithout(roles, r)) == q - {r};
  }

  // ---- Lineages ----

  /** Every lineage step after retirement is one or two steps before it. */
  lemma {:induction false} NewLineageIsOld(roles: Roles, r: Id, x: Id, n: nat)
    requires Live(roles, r) && LiveUp(RolesWithout(roles, r), x, n).Some?
    ensures InLineage(roles, x, LiveUp(RolesWithout(roles, r), x, n).value)
  {
    var after := RolesWithout(roles, r);
    if n == 0 {
      assert LiveUp(roles, x, 0) == Some(x);
    } else {
      NewLineageIsOld(roles, r, x, n - 1);
      var below, y := LiveUp(after, x, n - 1).value, LiveUp(after, x, n).value;
      LineageIsLive(after, x, n - 1);
      LineageUnfolds(roles, below, y);
      LineageUnfolds(roles, r, y);
      if roles[below].parent != Some(r) {
        assert LiveUp(roles, y, 0) == Some(y);
      } else {
        assert LiveUp(roles, roles[r].parent.value, 0) == Some(y);
      }
      LineageIsTransitive(roles, x, below, y);
    }
  }

  /** Every member of a lineage other than the retired role is still there. */
  lemma {:induction false} OldLineageIsNew(roles: Roles, r: Id, x: Id, n: nat)
    requires Live(roles, r) && r !in Heirs(roles, r) && x != r
    requires LiveUp(roles, x, n).Some? && LiveUp(roles, x, n) != Some(r)
    ensures InLineage(RolesWithout(roles, r), x, LiveUp(roles, x, n).value)
  {
    var after := RolesWithout(roles, r);
    var y := LiveUp(roles, x, n).value;
    LineageIsLive(roles, x, n);
    assert LiveUp(after, y, 0) == Some(y);
    if n > 0 {
      var z := LiveUp(roles, x, n - 1).value;
      if z != r {
        OldLineageIsNew(roles, r, x, n - 1);
        LineageIsLive(roles, x, n - 1);
        LineageUnfolds(after, z, y);
        LineageIsTransitive(after, x, z, y);
      } else {
        var h := LiveUp(roles, x, n - 2).value;
        OldLineageIsNew(roles, r, x, n - 2);
        LineageIsLive(roles, x, n - 2);
        LineageUnfolds(after, h, y);
        LineageIsTransitive(after, x, h, y);
      }
    }
  }

  /** Retiring a live role removes it from every lineage and changes no lineage otherwise. */
  lemma RetiredLineage(roles: Roles, r: Id, x: Id, y: Id)
    requires Live(roles, r) && Acyclic(ParentColumn(roles)) && x != r
    ensures InLineage(RolesWithout(roles, r), x, y) <==> (InLineage(roles, x, y) && y != r)
  {
    RetiredIsAcyclic(roles, r);
    if n: nat :| LiveUp(RolesWithout(roles, r), x, n) == Some(y) {
      NewLineageIsOld(roles, r, x, n);
      LineageIsLive(RolesWithout(roles, r), x, n);
    }
    if n: nat :| LiveUp(roles, x, n) == Some(y) && y != r {
      OldLineageIsNew(roles, r, x, n);
    }
  }

  // ---- Permissions ----

  /** A role of the lineage of `x` is granted `permission`. */
  ghost predicate RoleHas(roles: Roles, grants: GrantTable, x: Id, permission: Id) {
    exists y :: InLineage(roles, x, y) && (y, permission) in grants
  }

  /** Retiring a live role leaves every other role's permissions as they were. */
  lemma RetiringKeepsPermissions(db: Db, r: Id, at: int, x: Id, permission: Id)
    requires r in db.tables.roles && Live(db.tables.roles, r) && Acyclic(ParentColumn(db.tables.roles)) && x != r
    ensures RoleHas(Retired(db, r, at).tables.roles, Retired(db, r, at).grants, x, permission)
            <==> RoleHas(db.tables.roles, db.grants, x, permission)
  {
    if y :| InLineage(db.tables.roles, x, y) && (y, permission) in db.grants {
      KeepsPermissionOf(db, r, at, x, y, permission);
    }
    if y :| InLineage(RolesWithout(db.tables.roles, r), x, y) && (y, permission) in Retired(db, r, at).grants {
      GivesNoPermission(db, r, at, x, y, permission);
    }
  }

  /** A permission granted anywhere in the lineage is still granted in it, through an heir at worst. */
  lemma KeepsPermissionOf(db: Db, r: Id, at: int, x: Id, y: Id, permission: Id)
    requires r in db.tables.roles && Live(db.tables.roles, r) && Acyclic(ParentColumn(db.tables.roles)) && x != r
    requires InLineage(db.tables.roles, x, y) && (y, permission) in db.grants
    ensures RoleHas(RolesWithout(db.tables.roles, r), Retired(db, r, at).grants, x, permission)
  {
    var roles, grants := db.tables.roles, Retired(db, r, at).grants;
    if y != r {
      RetiredLineage(roles, r, x, y);
      assert (y, permission) in grants;
    } else {
      var h := HeirOnTheWay(roles, r, x);
      RetiredLineage(roles, r, x, h);
      CopyReachesHeir(db, r, at, h, permission);
      assert (h, permission) in grants;
    }
  }

  lemma GivesNoPermission(db: Db, r: Id, at: int, x: Id, y: Id, permission: Id)
    requires r in db.tables.roles && Live(db.tables.roles, r) && Acyclic(ParentColumn(db.tables.roles)) && x != r
    requires InLineage(RolesWithout(db.tables.roles, r), x, y) && (y, permission) in Retired(db, r, at).grants
    ensures RoleHas(db.tables.roles, db.grants, x, permission)
  {
    RetiredLineage(db.tables.roles, r, x, y);
    if (y, permission) !in db.grants {
      CopyComesFromRole(db, r, at, y, permission);
      HeirMeetsRole(db.tables.roles, r, x, y);
      assert InLineage(db.tables.roles, x, r) && (r, permission) in db.grants;
    }
  }

  lemma CopyComesFromRole(db: Db, r: Id, at: int, y: Id, permission: Id)
    requires r in db.tables.roles && (y, permission) in Retired(db, r, at).grants && (y, permission) !in db.grants
    ensures y in Heirs(db.tables.roles, r) && (r, permission) in db.grants
  {
    assert (y, permission) in CopiedKeys(db, r);
  }

  lemma HeirMeetsRole(roles: Roles, r: Id, x: Id, y: Id)
    requires Live(roles, r) && y in Heirs(roles, r) && InLineage(roles, x, y)
    ensures InLineage(roles, x, r)
  {
    OnlyLiveRolesHaveLineage(roles, x, y);
    LineageUnfolds(roles, y, r);
    assert LiveUp(roles, r, 0) == Some(r);
    LineageIsTransitive(roles, x, y, r);
  }

  lemma CopyReachesHeir(db: Db, r: Id, at: int, h: Id, permission: Id)
    requires r in db.tables.roles && h in Heirs(db.tables.roles, r) && h != r
    requires (r, permission) in db.grants
    ensures (h, permission) in Retired(db, r, at).grants
  {
    if (h, permission) !in db.grants {
      assert (h, (r, permission).1) in CopiedKeys(db, r);
    }
  }

  /** A lineage that meets the retired role meets one of its heirs just before. */
  lemma HeirOnTheWay(roles: Roles, r: Id, x: Id) returns (h: Id)
    requires InLineage(roles, x, r) && x != r && Acyclic(ParentColumn(roles))
    ensures h in Heirs(roles, r) && h != r && InLineage(roles, x, h) && Live(roles, h)
  {
    OnlyLiveRolesHaveLineage(roles, x, r);
    RetiredIsAcyclic(roles, r);
    var n: nat :| LiveUp(roles, x, n) == Some(r);
    h := LiveUp(roles, x, n - 1).value;
    LineageIsLive(roles, x, n - 1);
  }

  /** A soft-deleted role cuts every lineage, so its heirs' chains are what they were and may only grow. */
  lemma {:induction false} DeadRoleOldLineageStays(roles: Roles, r: Id, x: Id, n: nat)
    requires r in roles && !Live(roles, r) && LiveUp(roles, x, n).Some?
    ensures LiveUp(RolesWithout(roles, r), x, n) == LiveUp(roles, x, n)
  {
    if n > 0 {
      DeadRoleOldLineageStays(roles, r, x, n - 1);
      LineageIsLive(roles, x, n - 1);
      LineageIsLive(roles, x, n);
    }
  }

  /** What a lineage gains when the retired role was soft-deleted: the lineage of its parent, through a live heir. */
  ghost predicate GainedThroughHeir(roles: Roles, r: Id, x: Id, y: Id)
    requires r in roles
  {
    && roles[r].parent.Some?
    && InLineage(roles, roles[r].parent.value, y)
    && exists h :: h in Heirs(roles, r) && InLineage(roles, x, h)
  }

  lemma {:induction false} DeadRoleNewLineage(roles: Roles, r: Id, x: Id, n: nat)
    requires r in roles && !Live(roles, r) && LiveUp(RolesWithout(roles, r), x, n).Some?
    ensures var y := LiveUp(RolesWithout(roles, r), x, n).value;
            InLineage(roles, x, y) || GainedThroughHeir(roles, r, x, y)
  {
    var after := RolesWithout(roles, r);
    LineageIsLive(after, x, n);
    var y := LiveUp(after, x, n).value;
    assert LiveUp(roles, y, 0) == Some(y);
    if n > 0 {
      DeadRoleNewLineage(roles, r, x, n - 1);
      var z := LiveUp(after, x, n - 1).value;
      LineageIsLive(after, x, n - 1);
      if z !in Heirs(roles, r) {
        LineageUnfolds(roles, z, y);
        if InLineage(roles, x, z) {
          LineageIsTransitive(roles, x, z, y);
        } else {
          LineageIsTransitive(roles, roles[r].parent.value, z, y);
        }
      }
    }
  }

  /** What an heir of a soft-deleted role would be given: the role's own grants and those of its parent's lineage. */
  ghost predicate Inherited(db: Db, r: Id, permission: Id)
    requires r in db.tables.roles
  {
    var parent := db.tables.roles[r].parent;
    (r, permission) in db.grants || (parent.Some? && RoleHas(db.tables.roles, db.grants, parent.value, permission))
  }

  ghost predicate HeirsHaveAll(db: Db, r: Id)
    requires r in db.tables.roles
  {
    forall h, permission :: h in Heirs(db.tables.roles, r) && Live(db.tables.roles, h) && Inherited(db, r, permission)
      ==> RoleHas(db.tables.roles, db.grants, h, permission)
  }

  ghost predicate SamePermissions(db: Db, r: Id, after: Db) {
    forall x, permission :: x in db.tables.roles && x != r ==>
      (RoleHas(after.tables.roles, after.grants, x, permission) <==> RoleHas(db.tables.roles, db.grants, x, permission))
  }

  /**
   The exact condition under which retirement changes nobody's permissions: the role is live, or it was
   soft-deleted and its live heirs already had everything it and its parent would now bring them.
   */
  lemma PermissionsKeptExactlyWhen(db: Db, r: Id, at: int)
    requires r in db.tables.roles && Acyclic(ParentColumn(db.tables.roles))
    ensures SamePermissions(db, r, Retired(db, r, at)) <==> (Live(db.tables.roles, r) || HeirsHaveAll(db, r))
  {
    var after := Retired(db, r, at);
    RetiredIsAcyclic(db.tables.roles, r);
    if Live(db.tables.roles, r) {
      forall x, permission | x in db.tables.roles && x != r
        ensures RoleHas(after.tables.roles, after.grants, x, permission) <==> RoleHas(db.tables.roles, db.grants, x, permission)
      {
        RetiringKeepsPermissions(db, r, at, x, permission);
      }
    } else if HeirsHaveAll(db, r) {
      forall x, permission | x in db.tables.roles && x != r
        ensures RoleHas(after.tables.roles, after.grants, x, permission) <==> RoleHas(db.tables.roles, db.grants, x, permission)
      {
        if RoleHas(db.tables.roles, db.grants, x, permission) {
          DeadRoleKeepsGrants(db, r, at, x, permission);
        } else if RoleHas(after.tables.roles, after.grants, x, permission) {
          DeadRoleAddsNothing(db, r, at, x, permission);
        }
      }
    } else {
      var h, permission :| h in Heirs(db.tables.roles, r) && Live(db.tables.roles, h) && Inherited(db, r, permission)
                           && !RoleHas(db.tables.roles, db.grants, h, permission);
      DeadRoleGivesHeir(db, r, at, h, permission);
    }
  }

  lemma DeadRoleKeepsGrants(db: Db, r: Id, at: int, x: Id, permission: Id)
    requires r in db.tables.roles && !Live(db.tables.roles, r) && r !in Heirs(db.tables.roles, r)
    requires RoleHas(db.tables.roles, db.grants, x, permission)
    ensures RoleHas(Retired(db, r, at).tables.roles, Retired(db, r, at).grants, x, permission)
  {
    var y :| InLineage(db.tables.roles, x, y) && (y, permission) in db.grants;
    var n: nat :| LiveUp(db.tables.roles, x, n) == Some(y);
    LineageIsLive(db.tables.roles, x, n);
    DeadRoleOldLineageStays(db.tables.roles, r, x, n);
    assert InLineage(RolesWithout(db.tables.roles, r), x, y);
    assert (y, permission) in Retired(db, r, at).grants;
  }

  lemma DeadRoleAddsNothing(db: Db, r: Id, at: int, x: Id, permission: Id)
    requires r in db.tables.roles && !Live(db.tables.roles, r) && HeirsHaveAll(db, r)
    requires RoleHas(Retired(db, r, at).tables.roles, Retired(db, r, at).grants, x, permission)
    ensures RoleHas(db.tables.roles, db.grants, x, permission)
  {
    var roles, after := db.tables.roles, Retired(db, r, at);
    var y :| InLineage(after.tables.roles, x, y) && (y, permission) in after.grants;
    var n: nat :| LiveUp(after.tables.roles, x, n) == Some(y);
    DeadRoleNewLineage(roles, r, x, n);
    // The role that brings the permission had it already, by a grant or by the condition on heirs.
    LineageIsLive(after.tables.roles, x, n);
    assert RoleHas(roles, db.grants, y, permission) by {
      assert LiveUp(roles, y, 0) == Some(y);
      if (y, permission) !in db.grants {
        assert (y, permission) in CopiedKeys(db, r);
        assert Inherited(db, r, permission);
      }
    }
    if InLineage(roles, x, y) {
      HasThrough(roles, db.grants, x, y, permission);
    } else {
      var h :| h in Heirs(roles, r) && InLineage(roles, x, h);
      OnlyLiveRolesHaveLineage(roles, x, h);
      HasThrough(roles, db.grants, roles[r].parent.value, y, permission);
      assert Inherited(db, r, permission);
      HasThrough(roles, db.grants, x, h, permission);
    }
  }

  lemma HasThrough(roles: Roles, grants: GrantTable, x: Id, y: Id, permission: Id)
    requires InLineage(roles, x, y) && RoleHas(roles, grants, y, permission)
    ensures RoleHas(roles, grants, x, permission)
  {
    var z :| InLineage(roles, y, z) && (z, permission) in grants;
    LineageIsTransitive(roles, x, y, z);
  }

  lemma DeadRoleGivesHeir(db: Db, r: Id, at: int, h: Id, permission: Id)
    requires r in db.tables.roles && !Live(db.tables.roles, r) && r !in Heirs(db.tables.roles, r)
    requires h in Heirs(db.tables.roles, r) && Live(db.tables.roles, h) && Inherited(db, r, permission)
    ensures RoleHas(Retired(db, r, at).tables.roles, Retired(db, r, at).grants, h, permission)
  {
    var roles, after := db.tables.roles, Retired(db, r, at);
    assert LiveUp(after.tables.roles, h, 0) == Some(h);
    if (r, permission) in db.grants {
      CopyReachesHeir(db, r, at, h, permission);
    } else {
      var q := roles[r].parent.value;
      var y :| InLineage(roles, q, y) && (y, permission) in db.grants;
      OnlyLiveRolesHaveLineage(roles, q, y);
      DeadRoleKeepsGrants(db, r, at, q, permission);
      assert LiveParent(after.tables.roles, h) == Some(q);
      assert LiveUp(after.tables.roles, h, 1) == Some(q);
      HasThrough(after.tables.roles, after.grants, h, q, permission);
    }
  }

  const HEIR_OF_DELETED: Roles := map[0 := Role("CUSTODIAN", None, None, true), 1 := Role("HEIR", Some(0), None, false)]

  lemma DeletedRoleHasHeir()
    ensures Sound(Tables(HEIR_OF_DELETED, map[], map[])) && Heirs(HEIR_OF_DELETED, 0) == {1}
    ensures Retirable(Tables(HEIR_OF_DELETED, map[], map[]), 0)
  {
    var p := ParentColumn(HEIR_OF_DELETED);
    forall x: Id, n: nat | 0 < n
      ensures Up(p, x, n) != Some(x)
    {
      OneLevel(p, x, n);
    }
    var t := Tables(HEIR_OF_DELETED, map[], map[]);
    assert Moved(t, 0).roles[1].parent.None?;
  }

  lemma HeirReachesItselfOnly(y: Id)
    ensures InLineage(HEIR_OF_DELETED, 1, y) <==> y == 1
  {
    LineageUnfolds(HEIR_OF_DELETED, 1, y);
  }

  /** A soft-deleted role with a grant and a live heir: retiring it hands the heir the permission. */
  lemma SoftDeletedRoleGivesItsHeir(at: int) returns (db: Db)
    ensures 0 in db.tables.roles && Sound(db.tables) && Retirable(db.tables, 0) && !Live(db.tables.roles, 0)
    ensures !RoleHas(db.tables.roles, db.grants, 1, 5)
    ensures RoleHas(Retired(db, 0, at).tables.roles, Retired(db, 0, at).grants, 1, 5)
  {
    db := Db(Tables(HEIR_OF_DELETED, map[], map[]), map[(0, 5) := Grant(None, 0, None)], []);
    DeletedRoleHasHeir();
    assert !RoleHas(HEIR_OF_DELETED, db.grants, 1, 5) by {
      forall y
        ensures InLineage(HEIR_OF_DELETED, 1, y) <==> y == 1
      {
        HeirReachesItselfOnly(y);
      }
    }
    assert Inherited(db, 0, 5);
    DeadRoleGivesHeir(db, 0, at, 1, 5);
  }

  lemma OneLevel(p: Parents, x: Id, n: nat)
    requires p == map[0 := None, 1 := Some(0)] && 0 < n
    ensures Up(p, x, n) == if x == 1 && n == 1 then Some(0) else None
  {
    assert Up(p, x, 0) == Some(x);
    if n > 1 {
      OneLevel(p, x, n - 1);
    }
  }

  // ---- Separation of duties ----

  /** A lineage gains members only through a moved heir. */
  lemma {:induction false} MovedLineage(t: Tables, r: Id, x: Id, n: nat)
    requires r in t.roles && LiveUp(Moved(t, r).roles, x, n).Some?
    ensures var after := Moved(t, r).roles; var y := LiveUp(after, x, n).value;
            InLineage(t.roles, x, y)
            || exists h :: h in Heirs(t.roles, r) && t.roles[r].parent.Some? && InLineage(after, x, h) && InLineage(after, h, y)
  {
    var after := Moved(t, r).roles;
    var y := LiveUp(after, x, n).value;
    if k: nat :| k < n && LiveUp(after, x, k).Some? && LiveUp(after, x, k).value in Heirs(t.roles, r) {
      var h := LiveUp(after, x, k).value;
      LineageSplits(after, x, k, n - k);
      LineageSplits(after, x, k, 1);
      LineageSplits(after, x, k + 1, n - k - 1);
      assert LiveUp(after, h, n - k) == Some(y);
      assert InLineage(after, x, h) && InLineage(after, h, y);
    } else {
      forall k: nat | k < n && LiveUp(after, x, k).Some?
        ensures LiveParent(t.roles, LiveUp(after, x, k).value) == LiveParent(after, LiveUp(after, x, k).value)
      {
        assert LiveUp(after, x, k).value !in Heirs(t.roles, r);
      }
      SameLineagePrefix(after, t.roles, x, n);
    }
  }

  /** If the inheritance trigger passes every heir after the UPDATE, all users are still separated. */
  lemma MovedIsSeparated(t: Tables, r: Id)
    requires r in t.roles && Separated(t)
    requires forall h :: h in Heirs(t.roles, r) ==> RolePasses(Moved(t, r), h)
    ensures Separated(Moved(t, r))
  {
    var after := Moved(t, r);
    forall user, s | StaticRule(after, s) && Effective(after, user, t.rules[s].roleA) && Effective(after, user, t.rules[s].roleB)
      ensures false
    {
      assert StaticRule(t, s);
      MovedEffect(t, r, user, s, t.rules[s].roleA);
      MovedEffect(t, r, user, s, t.rules[s].roleB);
    }
  }

  lemma MovedEffect(t: Tables, r: Id, user: Id, s: Id, y: Id)
    requires r in t.roles && StaticRule(Moved(t, r), s)
    requires forall h :: h in Heirs(t.roles, r) ==> RolePasses(Moved(t, r), h)
    requires y == t.rules[s].roleA || y == t.rules[s].roleB
    requires Effective(Moved(t, r), user, t.rules[s].roleA) && Effective(Moved(t, r), user, t.rules[s].roleB)
    ensures Effective(t, user, y)
  {
    var after := Moved(t, r);
    var i :| i in after.assignments && Grants(after, i, user, y);
    var x := t.assignments[i].role;
    var n: nat :| LiveUp(after.roles, x, n) == Some(y);
    MovedLineage(t, r, x, n);
    if InLineage(t.roles, x, y) {
      assert Grants(t, i, user, y);
    } else {
      var h :| h in Heirs(t.roles, r) && t.roles[r].parent.Some? && InLineage(after.roles, x, h) && InLineage(after.roles, h, y);
      OnlyLiveRolesHaveLineage(after.roles, x, h);
      assert Grants(after, i, user, h);
      assert Effective(after, user, h);
    }
  }

  /** Retirement keeps references, acyclicity and separation, live role or not. */
  lemma RetirementIsSound(t: Tables, r: Id)
    requires Sound(t) && r in t.roles && Retirable(t, r)
    ensures Sound(TablesWithout(t, r))
  {
    RetiredIsAcyclic(t.roles, r);
    MovedIsSeparated(t, r);
    var moved, after := Moved(t, r), TablesWithout(t, r);
    assert Up(ParentColumn(t.roles), r, 1) == t.roles[r].parent by { assert Up(ParentColumn(t.roles), r, 0) == Some(r); }
    assert References(after);
    var big := Tables(SetSuperiors(moved.roles, Subordinates(t.roles, r), t.roles[r].superior), t.assignments, t.rules);
    SameHierarchySameEffects(moved, big);
    var fewer := big.(rules := after.rules);
    assert forall user, y :: Effective(fewer, user, y) <==> Effective(big, user, y) by {
      forall user, y
        ensures Effective(fewer, user, y) <==> Effective(big, user, y)
      {
        forall i | i in big.assignments
          ensures Grants(fewer, i, user, y) <==> Grants(big, i, user, y)
        {
        }
      }
    }
    FewerEffectiveRoles(big, fewer);
    assert big.roles == after.roles[r := big.roles[r]];
    UnreferencedRowKeepsSeparation(fewer, after, after, fewer, r);
  }
}
