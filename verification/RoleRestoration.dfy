/** restoreCustodian: putting a retired role back from its audit record, and the round trip with retirement. */
module RoleRestoration {
  import opened Options
  import opened Hierarchy
  import opened RbacTables
  import opened SeparationOfDuties
  import opened RoleRetirement

  // ---- What the statements leave ----

  /** After INSERT INTO role: the rules about the role are not there yet. */
  function WithRow(t: Tables, s: Snapshot): Tables {
    t.(roles := t.roles[s.roleId := s.role])
  }

  /** After the rules are inserted and the heirs updated: what the inheritance trigger sees. */
  function WithHeirs(t: Tables, s: Snapshot): Tables {
    var inserted := WithRow(t, s);
    Tables(SetParents(inserted.roles, s.heirs, Some(s.roleId)), inserted.assignments, inserted.rules + s.rules)
  }

  function RestoredTables(t: Tables, s: Snapshot): Tables {
    var reattached := WithHeirs(t, s);
    reattached.(roles := SetSuperiors(reattached.roles, s.subordinates, Some(s.roleId)))
  }

  function RestoredGrants(grants: GrantTable, s: Snapshot): GrantTable {
    (grants + s.permissions) - s.copied
  }

  /** Position of the latest retirement record: one past the end when there is none. */
  function LatestRecord(audit: seq<AuditEntry>): (i: nat)
    ensures i <= |audit|
    ensures i < |audit| ==> audit[i].Retirement?
    ensures forall j :: (i == |audit| && 0 <= j < |audit|) || (i < j < |audit|) ==> audit[j].OtherEntry?
  {
    if audit == [] then 0
    else if audit[|audit| - 1].Retirement? then |audit| - 1
    else
      var i := LatestRecord(audit[..|audit| - 1]);
      if i == |audit| - 1 then |audit| else i
  }

  function Restored(db: Db, i: nat): Db
    requires i < |db.audit| && db.audit[i].Retirement?
  {
    var s := db.audit[i].snapshot;
    Db(RestoredTables(db.tables, s), RestoredGrants(db.grants, s), db.audit[..i] + db.audit[i + 1..])
  }

  /** Primary and foreign keys of the inserted role and rules, and the self-parent CHECK of the heirs' UPDATE. */
  predicate Fits(t: Tables, s: Snapshot) {
    && s.roleId !in t.roles
    && (s.role.parent.Some? ==> s.role.parent.value in t.roles)
    && (s.role.superior.Some? ==> s.role.superior.value in t.roles.Keys + {s.roleId})
    && (forall k :: k in s.rules ==> k !in t.rules && s.rules[k].roleA in t.roles.Keys + {s.roleId}
                                     && s.rules[k].roleB in t.roles.Keys + {s.roleId})
    && s.roleId !in s.heirs
  }

  /** UNIQUE (code), and the keys of the inserted grants: role, permission and the user who granted it. */
  predicate GrantsFit(t: Tables, grants: GrantTable, permissions: set<Id>, users: set<Id>, s: Snapshot) {
    && (forall x :: x in t.roles ==> t.roles[x].code != s.role.code)
    && (forall k :: k in s.permissions ==>
          && k !in grants && k.0 in t.roles.Keys + {s.roleId} && k.1 in permissions
          && (s.permissions[k].grantedBy.Some? ==> s.permissions[k].grantedBy.value in users))
  }

  /** The foreign keys of role_permission. */
  ghost predicate GrantsRefer(db: Db, permissions: set<Id>, users: set<Id>) {
    forall k :: k in db.grants ==>
      && k.0 in db.tables.roles && k.1 in permissions
      && (db.grants[k].grantedBy.Some? ==> db.grants[k].grantedBy.value in users)
  }

  /** role.code is UNIQUE. */
  ghost predicate UniqueCodes(roles: Roles) {
    forall x, y :: x in roles && y in roles && roles[x].code == roles[y].code ==> x == y
  }

  /** Both role triggers pass the inserted role, then every heir. */
  ghost predicate TriggersPass(t: Tables, s: Snapshot) {
    && (s.role.parent.Some? ==> !Reaches(ParentColumn(t.roles), s.role.parent.value, s.roleId))
    && RolePasses(WithRow(t, s), s.roleId)
    && ParentClear(WithRow(t, s).roles, s.heirs * t.roles.Keys, Some(s.roleId))
    && forall h :: h in s.heirs && h in t.roles ==> RolePasses(WithHeirs(t, s), h)
  }

  // ---- The rows a restoration leaves ----

  /** The role is back as recorded, its heirs and subordinates that still exist are under it, and nothing else moves. */
  lemma RolesAfterRestoration(t: Tables, s: Snapshot, x: Id)
    requires Fits(t, s)
    ensures var after := RestoredTables(t, s).roles;
            && (x in after <==> x in t.roles || x == s.roleId)
            && (x in t.roles ==>
                  after[x] == Role(t.roles[x].code, if x in s.heirs then Some(s.roleId) else t.roles[x].parent,
                                   if x in s.subordinates then Some(s.roleId) else t.roles[x].superior, t.roles[x].deleted))
            && (x == s.roleId ==>
                  after[x] == s.role.(superior := if s.roleId in s.subordinates then Some(s.roleId) else s.role.superior))
  {
  }

  /** The recorded grants are back as they were, the copies that were made are gone, and every other grant stays. */
  lemma GrantsAfterRestoration(grants: GrantTable, s: Snapshot, k: (Id, Id))
    requires k in s.permissions ==> k !in s.copied
    ensures var after := RestoredGrants(grants, s);
            && (k in s.permissions ==> k in after && after[k] == s.permissions[k])
            && (k in s.copied ==> k !in after)
            && (k !in s.permissions && k !in s.copied ==> (k in after <==> k in grants) && (k in grants ==> after[k] == grants[k]))
  {
  }

  /** The recorded rules are back beside the others, and assignments stay. */
  lemma RulesAfterRestoration(t: Tables, s: Snapshot, k: Id)
    requires Fits(t, s)
    ensures var after := RestoredTables(t, s);
            && after.assignments == t.assignments
            && (k in after.rules <==> k in t.rules || k in s.rules)
            && (k in s.rules ==> after.rules[k] == s.rules[k]) && (k in t.rules ==> after.rules[k] == t.rules[k])
  {
  }

  // ---- The round trip ----

  /** Retirement followed by restoration gives back every table and the audit log. */
  lemma RestoreUndoesRetire(db: Db, r: Id, at: int)
    requires Sound(db.tables) && r in db.tables.roles && Retirable(db.tables, r)
    ensures LatestRecord(Retired(db, r, at).audit) == |db.audit|
    ensures Restored(Retired(db, r, at), |db.audit|) == db
    ensures Fits(Retired(db, r, at).tables, SnapshotOf(db, r))
  {
    var after, s := Retired(db, r, at), SnapshotOf(db, r);
    RetiredIsAcyclic(db.tables.roles, r);
    RecordIsLatest(db, r, at);
    RestoresTables(db.tables, s, r);
    RestoresGrants(db, r, at);
    assert Up(ParentColumn(db.tables.roles), r, 1) == s.role.parent by {
      assert Up(ParentColumn(db.tables.roles), r, 0) == Some(r);
    }
  }

  lemma RecordIsLatest(db: Db, r: Id, at: int)
    requires r in db.tables.roles
    ensures var audit := Retired(db, r, at).audit;
            && LatestRecord(audit) == |db.audit| < |audit|
            && audit[|db.audit|].snapshot == SnapshotOf(db, r)
            && audit[..|db.audit|] + audit[|db.audit| + 1..] == db.audit
  {
  }

  lemma RestoresTables(t: Tables, s: Snapshot, r: Id)
    requires r in t.roles && s.roleId == r && s.role == t.roles[r] && r !in Heirs(t.roles, r)
    requires s.heirs == Heirs(t.roles, r) && s.subordinates == Subordinates(t.roles, r) && s.rules == RulesAbout(t.rules, r)
    ensures RestoredTables(TablesWithout(t, r), s) == t
  {
    RestoresRoles(t, s, r);
    assert RestoredTables(TablesWithout(t, r), s).rules == t.rules;
  }

  lemma RestoresRoles(t: Tables, s: Snapshot, r: Id)
    requires r in t.roles && s.roleId == r && s.role == t.roles[r] && r !in Heirs(t.roles, r)
    requires s.heirs == Heirs(t.roles, r) && s.subordinates == Subordinates(t.roles, r)
    ensures RestoredTables(TablesWithout(t, r), s).roles == t.roles
  {
    var back := RestoredTables(TablesWithout(t, r), s).roles;
    assert back.Keys == t.roles.Keys;
    forall x | x in t.roles
      ensures back[x] == t.roles[x]
    {
    }
  }

  /** The grants removed on restoration are exactly the ones that did not exist before retirement. */
  lemma RestoresGrants(db: Db, r: Id, at: int)
    requires r in db.tables.roles && r !in Heirs(db.tables.roles, r)
    ensures RestoredGrants(Retired(db, r, at).grants, SnapshotOf(db, r)) == db.grants
  {
    var back := RestoredGrants(Retired(db, r, at).grants, SnapshotOf(db, r));
    forall k
      ensures k in back <==> k in db.grants
      ensures k in back && k in db.grants ==> back[k] == db.grants[k]
    {
    }
  }

  // ---- When the triggers let the restoration through ----

  /** Lineages that the restoration trigger will object to: of a live heir, or of the role apart from its own rules. */
  ghost predicate CleanAround(t: Tables, r: Id)
    requires r in t.roles
  {
    && (forall h :: h in Heirs(t.roles, r) && Live(t.roles, h) ==> !LineageClash(t, h))
    && (Live(t.roles, r) ==> !LineageClash(t.(rules := t.rules - RulesAbout(t.rules, r).Keys), r))
  }

  /** An ancestor of the role is not one of its heirs. */
  lemma {:induction false} AncestorsAreNotHeirs(roles: Roles, r: Id, n: nat)
    requires r in roles && Acyclic(ParentColumn(roles))
    ensures LiveUp(roles, r, n).Some? ==> LiveUp(roles, r, n) == Up(ParentColumn(roles), r, n)
    ensures LiveUp(roles, r, n).Some? ==> LiveUp(roles, r, n).value !in Heirs(roles, r)
  {
    var p := ParentColumn(roles);
    if n > 0 {
      AncestorsAreNotHeirs(roles, r, n - 1);
    }
    // An heir n steps up would put the role itself n + 1 steps up.
    assert Up(p, r, n + 1) != Some(r);
  }

  lemma InsertedLineage(t: Tables, r: Id, y: Id)
    requires r in t.roles && Acyclic(ParentColumn(t.roles))
    ensures InLineage(TablesWithout(t, r).roles[r := t.roles[r]], r, y) <==> InLineage(t.roles, r, y)
  {
    var inserted := TablesWithout(t, r).roles[r := t.roles[r]];
    forall n: nat
      ensures LiveUp(inserted, r, n) == LiveUp(t.roles, r, n)
    {
      forall k: nat | k < n && LiveUp(t.roles, r, k).Some?
        ensures LiveParent(inserted, LiveUp(t.roles, r, k).value) == LiveParent(t.roles, LiveUp(t.roles, r, k).value)
      {
        AncestorsAreNotHeirs(t.roles, r, k);
        LineageIsLive(t.roles, r, k);
      }
      SameLineagePrefix(t.roles, inserted, r, n);
    }
  }

  /** Nobody holds the role again until its heirs are reattached. */
  lemma NobodyHoldsInserted(t: Tables, r: Id, user: Id)
    requires r in t.roles && Acyclic(ParentColumn(t.roles))
    requires forall i :: i in t.assignments ==> t.assignments[i].role != r
    ensures !Effective(TablesWithout(t, r).(roles := TablesWithout(t, r).roles[r := t.roles[r]]), user, r)
  {
    var after := TablesWithout(t, r).(roles := TablesWithout(t, r).roles[r := t.roles[r]]);
    RetiredIsAcyclic(t.roles, r);
    var p := ParentColumn(t.roles);
    assert t.roles[r].parent != Some(r) by {
      assert Up(p, r, 0) == Some(r) && Up(p, r, 1) == t.roles[r].parent;
    }
    forall i | i in after.assignments
      ensures !Grants(after, i, user, r)
    {
      forall n: nat
        ensures LiveUp(after.roles, after.assignments[i].role, n) != Some(r)
      {
      }
    }
  }

  /** The no-cycle trigger never objects to a restoration that follows a retirement. */
  lemma RestorationClosesNoCycle(t: Tables, r: Id, s: Snapshot)
    requires Sound(t) && r in t.roles && s.roleId == r && s.role == t.roles[r] && s.heirs == Heirs(t.roles, r)
    ensures s.role.parent.Some? ==> !Reaches(ParentColumn(TablesWithout(t, r).roles), s.role.parent.value, r)
    ensures ParentClear(WithRow(TablesWithout(t, r), s).roles, s.heirs, Some(r))
  {
    RetiredIsAcyclic(t.roles, r);
    var p, without := ParentColumn(t.roles), ParentColumn(TablesWithout(t, r).roles);
    var inserted := ParentColumn(WithRow(TablesWithout(t, r), s).roles);
    assert Up(p, r, 1) == s.role.parent by { assert Up(p, r, 0) == Some(r); }
    if s.role.parent.Some? {
      forall n: nat
        ensures Up(without, s.role.parent.value, n) != Some(r)
      {
      }
    }
    forall h | h in s.heirs
      ensures !Reaches(inserted, r, h)
    {
      forall n: nat
        ensures Up(inserted, r, n) != Some(h)
      {
        InsertedChain(t, r, s, n);
      }
    }
  }

  /** The reinserted role has its old ancestors, none of them an heir. */
  lemma {:induction false} InsertedChain(t: Tables, r: Id, s: Snapshot, n: nat)
    requires Sound(t) && r in t.roles && s.roleId == r && s.role == t.roles[r] && s.heirs == Heirs(t.roles, r)
    ensures Up(ParentColumn(WithRow(TablesWithout(t, r), s).roles), r, n) == Up(ParentColumn(t.roles), r, n)
    ensures Up(ParentColumn(t.roles), r, n).Some? ==> Up(ParentColumn(t.roles), r, n).value !in s.heirs
  {
    if n > 0 {
      InsertedChain(t, r, s, n - 1);
    }
    assert Up(ParentColumn(t.roles), r, n + 1) != Some(r);
  }

  /** After a retirement the restoration's triggers pass exactly when the original lineages around the role were clean. */
  lemma RestorationPassesExactlyWhen(db: Db, r: Id, at: int)
    requires Sound(db.tables) && r in db.tables.roles && Retirable(db.tables, r)
    ensures TriggersPass(Retired(db, r, at).tables, SnapshotOf(db, r)) <==> CleanAround(db.tables, r)
  {
    var t, s := db.tables, SnapshotOf(db, r);
    var after := TablesWithout(t, r);
    RetiredIsAcyclic(t.roles, r);
    RestoresRoles(t, s, r);
    RestoreUndoesRetire(db, r, at);
    // The heirs' triggers see the original hierarchy, where users are separated.
    var reattached := WithHeirs(after, s);
    assert reattached.roles.Keys == t.roles.Keys;
    assert SameHierarchy(reattached, t);
    SameHierarchySameEffects(reattached, t);
    forall h | h in s.heirs
      ensures RolePasses(reattached, h) <==> (Live(t.roles, h) ==> !LineageClash(t, h))
    {
      assert !HolderClash(reattached, h);
    }
    // The insertion trigger sees the original lineage of the role, without the rules about it, and no holder.
    var inserted := WithRow(after, s);
    var fewer := t.(rules := after.rules);
    forall y
      ensures InLineage(inserted.roles, r, y) <==> InLineage(fewer.roles, r, y)
    {
      InsertedLineage(t, r, y);
    }
    forall k
      ensures StaticRule(inserted, k) <==> StaticRule(fewer, k)
    {
    }
    assert LineageClash(inserted, r) <==> LineageClash(fewer, r);
    assert !HolderClash(inserted, r) by {
      forall user
        ensures !Effective(inserted, user, r)
      {
        NobodyHoldsInserted(t, r, user);
      }
    }
    assert t.roles[r].parent.None? && Live(t.roles, r) ==> !LineageClash(fewer, r) by {
      if t.roles[r].parent.None? && Live(t.roles, r) {
        forall y
          ensures InLineage(t.roles, r, y) <==> y == r
        {
          LineageUnfolds(t.roles, r, y);
        }
      }
    }
    assert RolePasses(inserted, r) <==> (Live(t.roles, r) ==> !LineageClash(fewer, r));
    assert s.heirs * after.roles.Keys == s.heirs;
    RestorationClosesNoCycle(t, r, s);
  }

  /** The INSERTs of the role and its grants, before the copies are removed. */
  function WithGrants(db: Db, s: Snapshot): Db {
    db.(tables := WithRow(db.tables, s), grants := db.grants + s.permissions)
  }

  /** The keys let the role and its grants in exactly when they hold afterwards and no grant is overwritten. */
  lemma GrantsFitExactlyWhen(db: Db, permissions: set<Id>, users: set<Id>, s: Snapshot)
    requires s.roleId !in db.tables.roles && UniqueCodes(db.tables.roles) && GrantsRefer(db, permissions, users)
    ensures GrantsFit(db.tables, db.grants, permissions, users, s) <==>
            && s.permissions.Keys !! db.grants.Keys
            && UniqueCodes(WithGrants(db, s).tables.roles) && GrantsRefer(WithGrants(db, s), permissions, users)
  {
    var after := WithGrants(db, s);
    assert after.tables.roles[s.roleId] == s.role;
    if s.permissions.Keys !! db.grants.Keys && UniqueCodes(after.tables.roles) && GrantsRefer(after, permissions, users) {
      forall x | x in db.tables.roles
        ensures db.tables.roles[x].code != s.role.code
      {
        assert after.tables.roles[x] == db.tables.roles[x];
      }
      forall k | k in s.permissions
        ensures k !in db.grants && k.0 in db.tables.roles.Keys + {s.roleId} && k.1 in permissions
        ensures s.permissions[k].grantedBy.Some? ==> s.permissions[k].grantedBy.value in users
      {
        assert k in after.grants && after.grants[k] == s.permissions[k];
      }
    }
  }

  /** Right after a retirement only the separation trigger can refuse: no key is missing or taken. */
  lemma RetiredGrantsFit(db: Db, r: Id, at: int, permissions: set<Id>, users: set<Id>)
    requires GrantsRefer(db, permissions, users) && UniqueCodes(db.tables.roles)
    requires r in db.tables.roles && r !in Heirs(db.tables.roles, r)
    ensures GrantsFit(Retired(db, r, at).tables, Retired(db, r, at).grants, permissions, users, SnapshotOf(db, r))
  {
    var after := Retired(db, r, at);
    forall x | x in after.tables.roles
      ensures after.tables.roles[x].code != db.tables.roles[r].code
    {
      assert x in db.tables.roles && after.tables.roles[x].code == db.tables.roles[x].code;
    }
  }

  // ---- A retirement that cannot be undone ----

  const RETIRED := Role("CUSTODIAN", None, None, false)

  /** A role under the one to retire, and a static rule between the two. Nobody holds either. */
  const RULED_HEIR := Db(
    Tables(map[0 := RETIRED, 1 := Role("HEIR", Some(0), None, false)], map[], map[0 := Rule(0, 1, true)]), map[], [])

  lemma RuledHeirIsSound()
    ensures Sound(RULED_HEIR.tables)
  {
    var roots := map[0 := RETIRED, 1 := Role("HEIR", None, None, false)];
    RootsAreAcyclic(roots);
    assert ParentColumn(RULED_HEIR.tables.roles) == ParentColumn(roots)[1 := Some(0)];
    forall n: nat
      ensures Up(ParentColumn(roots), 0, n) != Some(1)
    {
      assert Up(ParentColumn(roots), 0, 0) == Some(0);
      if n > 0 {
        UpSplits(ParentColumn(roots), 0, 1, n - 1);
      }
    }
    OtherParentKeepsAcyclic(ParentColumn(roots), 1, Some(0));
  }

  lemma RuledHeirClashes()
    ensures !CleanAround(RULED_HEIR.tables, 0)
  {
    var t := RULED_HEIR.tables;
    assert LineageClash(t, 1) by {
      assert LiveUp(t.roles, 1, 0) == Some(1) && LiveUp(t.roles, 1, 1) == Some(0);
      assert StaticRule(t, 0);
    }
    assert 1 in Heirs(t.roles, 0);
  }

  lemma RuledHeirIsRetirable()
    ensures Live(RULED_HEIR.tables.roles, 0) && Retirable(RULED_HEIR.tables, 0)
  {
    assert RolePasses(Moved(RULED_HEIR.tables, 0), 1);
  }

  /** The role is retired without objection, and the inheritance trigger then refuses its restoration. */
  lemma RuledHeirBlocksRestoration(at: int)
    ensures Sound(RULED_HEIR.tables) && Live(RULED_HEIR.tables.roles, 0) && Retirable(RULED_HEIR.tables, 0)
    ensures Fits(Retired(RULED_HEIR, 0, at).tables, SnapshotOf(RULED_HEIR, 0))
    ensures !TriggersPass(Retired(RULED_HEIR, 0, at).tables, SnapshotOf(RULED_HEIR, 0))
  {
    RuledHeirIsSound();
    RuledHeirIsRetirable();
    RuledHeirClashes();
    RefusedAfterRetirement(RULED_HEIR, 0, at);
  }

  lemma RefusedAfterRetirement(db: Db, r: Id, at: int)
    requires Sound(db.tables) && r in db.tables.roles && Retirable(db.tables, r) && !CleanAround(db.tables, r)
    ensures Fits(Retired(db, r, at).tables, SnapshotOf(db, r)) && !TriggersPass(Retired(db, r, at).tables, SnapshotOf(db, r))
  {
    RestoreUndoesRetire(db, r, at);
    RestorationPassesExactlyWhen(db, r, at);
  }

  // ---- What a restoration keeps, whatever was written since the retirement ----

  /** The rules of a retirement record: about the role and another one. */
  predicate RulesFit(s: Snapshot) {
    forall k :: k in s.rules ==>
      s.rules[k].roleA != s.rules[k].roleB && (s.rules[k].roleA == s.roleId || s.rules[k].roleB == s.roleId)
  }

  lemma RecordedRulesFit(db: Db, r: Id)
    requires References(db.tables) && r in db.tables.roles
    ensures RulesFit(SnapshotOf(db, r))
  {
  }

  /** A multi-row parent update gives a lineage new members only through an updated row. */
  lemma {:induction false} UpdatedLineage(roles: Roles, ids: set<Id>, parent: Option<Id>, x: Id, n: nat)
    requires LiveUp(SetParents(roles, ids, parent), x, n).Some?
    ensures var after := SetParents(roles, ids, parent); var y := LiveUp(after, x, n).value;
            InLineage(roles, x, y) || exists h :: h in ids && InLineage(after, x, h) && InLineage(after, h, y)
  {
    var after := SetParents(roles, ids, parent);
    var y := LiveUp(after, x, n).value;
    if k: nat :| k < n && LiveUp(after, x, k).Some? && LiveUp(after, x, k).value in ids {
      var h := LiveUp(after, x, k).value;
      LineageSplits(after, x, k, n - k);
      assert LiveUp(after, h, n - k) == Some(y);
      assert InLineage(after, x, h) && InLineage(after, h, y);
    } else {
      forall k: nat | k < n && LiveUp(after, x, k).Some?
        ensures LiveParent(roles, LiveUp(after, x, k).value) == LiveParent(after, LiveUp(after, x, k).value)
      {
        assert LiveUp(after, x, k).value !in ids;
      }
      SameLineagePrefix(after, roles, x, n);
    }
  }

  /** An effective role after the heirs' update is one from before, or comes through a live heir the user holds. */
  lemma RestoredEffect(t: Tables, s: Snapshot, user: Id, y: Id) returns (h: Id)
    requires References(t) && Fits(t, s) && Effective(WithHeirs(t, s), user, y)
    ensures Effective(WithRow(t, s), user, y)
            || (h in s.heirs * t.roles.Keys && Effective(WithHeirs(t, s), user, h)
                && InLineage(WithHeirs(t, s).roles, h, y) && Live(WithHeirs(t, s).roles, h))
  {
    var small, after := WithRow(t, s), WithHeirs(t, s);
    var i :| i in after.assignments && Grants(after, i, user, y);
    var x := t.assignments[i].role;
    var n: nat :| LiveUp(after.roles, x, n) == Some(y);
    UpdatedLineage(small.roles, s.heirs, Some(s.roleId), x, n);
    h := s.roleId;
    if InLineage(small.roles, x, y) {
      assert Grants(small, i, user, y);
    } else {
      h :| h in s.heirs && InLineage(after.roles, x, h) && InLineage(after.roles, h, y);
      OnlyLiveRolesHaveLineage(after.roles, x, h);
      assert Grants(after, i, user, h);
    }
  }

  /** Before its heirs are back nobody holds the inserted role. */
  lemma InsertedIsUnheld(t: Tables, s: Snapshot, user: Id)
    requires References(t) && Fits(t, s)
    ensures !Effective(WithRow(t, s), user, s.roleId)
  {
    var small := WithRow(t, s);
    forall i | i in small.assignments
      ensures !Grants(small, i, user, s.roleId)
    {
      forall n: nat
        ensures LiveUp(small.roles, t.assignments[i].role, n) != Some(s.roleId)
      {
        UnreferencedRow(t.roles, small.roles, s.roleId, t.assignments[i].role, n);
        LineageIsLive(t.roles, t.assignments[i].role, n);
      }
    }
  }

  /** With a live heir's triggers passed, its holder ends with both sides of no rule that its lineage touches. */
  lemma HeirHolderIsClear(t: Tables, s: Snapshot, user: Id, h: Id, k: Id, y: Id)
    requires Fits(t, s) && TriggersPass(t, s) && h in s.heirs * t.roles.Keys && Live(WithHeirs(t, s).roles, h)
    requires StaticRule(WithHeirs(t, s), k) && y in {WithHeirs(t, s).rules[k].roleA, WithHeirs(t, s).rules[k].roleB}
    requires Effective(WithHeirs(t, s), user, h) && InLineage(WithHeirs(t, s).roles, h, y)
    ensures !(Effective(WithHeirs(t, s), user, WithHeirs(t, s).rules[k].roleA)
              && Effective(WithHeirs(t, s), user, WithHeirs(t, s).rules[k].roleB))
  {
    var after := WithHeirs(t, s);
    assert RolePasses(after, h);
    assert !HolderClash(after, h);
  }

  lemma ReattachedIsSeparated(t: Tables, s: Snapshot)
    requires References(t) && Separated(t) && Fits(t, s) && TriggersPass(t, s) && RulesFit(s)
    ensures Separated(WithHeirs(t, s))
  {
    var small, after := WithRow(t, s), WithHeirs(t, s);
    UnreferencedRowKeepsSeparation(t, small, t, small, s.roleId);
    forall user, k | StaticRule(after, k)
      ensures !(Effective(after, user, after.rules[k].roleA) && Effective(after, user, after.rules[k].roleB))
    {
      var a, b := after.rules[k].roleA, after.rules[k].roleB;
      InsertedIsUnheld(t, s, user);
      if Effective(after, user, a) && Effective(after, user, b) {
        if !Effective(small, user, a) {
          var h := RestoredEffect(t, s, user, a);
          HeirHolderIsClear(t, s, user, h, k, a);
        } else if !Effective(small, user, b) {
          var h := RestoredEffect(t, s, user, b);
          HeirHolderIsClear(t, s, user, h, k, b);
        } else if k !in s.rules {
          assert StaticRule(small, k);
        }
      }
    }
  }

  lemma RestoredReferences(t: Tables, s: Snapshot)
    requires References(t) && Fits(t, s) && RulesFit(s)
    ensures References(RestoredTables(t, s))
  {
  }

  lemma RestoredIsAcyclic(t: Tables, s: Snapshot)
    requires Acyclic(ParentColumn(t.roles)) && TriggersPass(t, s) && s.roleId !in s.heirs
    ensures Acyclic(ParentColumn(WithHeirs(t, s).roles))
  {
    var small := WithRow(t, s);
    OtherParentKeepsAcyclic(ParentColumn(t.roles), s.roleId, s.role.parent);
    assert ParentColumn(small.roles) == ParentColumn(t.roles)[s.roleId := s.role.parent];
    SetParentsIsAcyclic(small.roles, s.heirs * t.roles.Keys, Some(s.roleId));
    assert SetParents(small.roles, s.heirs * t.roles.Keys, Some(s.roleId)) == WithHeirs(t, s).roles;
  }

  /** Any restoration the keys and triggers let through leaves the tables sound, whatever was written since. */
  lemma RestorationIsSound(t: Tables, s: Snapshot)
    requires Sound(t) && Fits(t, s) && TriggersPass(t, s) && RulesFit(s)
    ensures Sound(RestoredTables(t, s))
  {
    RestoredReferences(t, s);
    RestoredIsAcyclic(t, s);
    ReattachedIsSeparated(t, s);
    SuperiorsChangeNothing(WithHeirs(t, s), s.subordinates, Some(s.roleId));
  }

  lemma SuperiorsChangeNothing(t: Tables, ids: set<Id>, superior: Option<Id>)
    ensures var after := t.(roles := SetSuperiors(t.roles, ids, superior));
            ParentColumn(after.roles) == ParentColumn(t.roles) && (Separated(after) <==> Separated(t))
  {
    SameHierarchySameEffects(t, t.(roles := SetSuperiors(t.roles, ids, superior)));
  }
}
