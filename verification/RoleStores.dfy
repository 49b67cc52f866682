/** The migration 1767226010000 running against the role tables, statement by statement. */
module RoleStores {
  import opened Options
  import opened Hierarchy
  import opened RbacTables
  import opened SeparationOfDuties
  import opened SodTriggers
  import opened RoleRetirement
  import opened RoleRestoration

  const RETIRED_ROLE := "CUSTODIAN"

  datatype Outcome = Nothing | Done | HasAssignments | SodViolation | Cycle | ForeignKey | MissingRecord

  predicate IsRetiredRole(roles: Roles, x: Id) {
    x in roles && roles[x].code == RETIRED_ROLE
  }

  /** Every record of a retirement holds rules about its role only, between two different roles. */
  ghost predicate RecordsFit(audit: seq<AuditEntry>) {
    forall i :: 0 <= i < |audit| && audit[i].Retirement? ==> RulesFit(audit[i].snapshot)
  }

  lemma RecordsStayFit(db: Db, r: Id, now: int)
    requires References(db.tables) && r in db.tables.roles
    ensures RecordsFit(db.audit) ==> RecordsFit(Retired(db, r, now).audit)
  {
    RecordedRulesFit(db, r);
  }

  /** The inheritance trigger fires for each updated row at the end of the statement. */
  method TriggersAfterUpdate(after: Tables, ids: set<Id>) returns (passes: bool)
    requires ids <= after.roles.Keys
    ensures passes <==> forall h :: h in ids ==> RolePasses(after, h)
  {
    var pending := ids;
    while pending != {}
      invariant pending <= ids
      invariant forall h :: h in ids - pending ==> RolePasses(after, h)
    {
      var h := Pick(pending);
      passes := CheckRoleInheritanceSod(after, h);
      if !passes {
        return;
      }
      pending := pending - {h};
    }
    return true;
  }

  /** Only a role that is its own superior can still be referred to after its subordinates moved. */
  lemma ReferencesLeft(roles: Roles, r: Id, moved: Roles, after: Roles)
    requires r in roles && moved == SetParents(roles, Heirs(roles, r), roles[r].parent)
    requires after == SetSuperiors(moved, Subordinates(roles, r), roles[r].superior)
    ensures (exists x :: x in after && x != r && after[x].superior == Some(r)) <==>
            roles[r].superior == Some(r) && !(Subordinates(roles, r) <= {r})
  {
    assert forall x :: x in Subordinates(roles, r) ==> after[x].superior == roles[r].superior;
    if roles[r].superior == Some(r) && !(Subordinates(roles, r) <= {r}) {
      var x := Element(Subordinates(roles, r) - {r});
      assert x in after && after[x].superior == Some(r);
    }
  }

  /** UPDATE role SET parent_role_id = the role's own parent, for its heirs, with the triggers it fires. */
  method MoveHeirs(t: Tables, r: Id) returns (passes: bool, moved: Roles)
    requires Sound(t) && r in t.roles
    ensures moved == Moved(t, r).roles
    ensures passes <==> forall h :: h in Heirs(t.roles, r) ==> RolePasses(Moved(t, r), h)
  {
    RetiredIsAcyclic(t.roles, r);
    HeirsAreClear(t.roles, r);
    var _, after := UpdateParents(t.roles, Heirs(t.roles, r), t.roles[r].parent);
    moved := after;
    passes := TriggersAfterUpdate(t.(roles := moved), Heirs(t.roles, r));
  }

  /** The keys and both triggers let the record's rows back in. */
  ghost predicate Passes(db: Db, permissions: set<Id>, users: set<Id>, s: Snapshot) {
    Fits(db.tables, s) && GrantsFit(db.tables, db.grants, permissions, users, s) && TriggersPass(db.tables, s)
  }

  /** No role of that code is there, and the latest record can be put back. */
  ghost predicate CanRestore(db: Db, permissions: set<Id>, users: set<Id>) {
    var i := LatestRecord(db.audit);
    && !(exists x :: IsRetiredRole(db.tables.roles, x))
    && i < |db.audit| && Passes(db, permissions, users, db.audit[i].snapshot)
  }

  /** INSERT INTO role and the heirs' UPDATE, with the triggers they fire; the rules go in between. */
  method InsertAndReattach(t: Tables, s: Snapshot) returns (outcome: Outcome, reattached: Roles)
    requires Acyclic(ParentColumn(t.roles)) && Fits(t, s)
    ensures outcome in {Done, Cycle, SodViolation}
    ensures outcome.Done? <==> TriggersPass(t, s)
    ensures outcome.Done? ==> reattached == WithHeirs(t, s).roles
  {
    var inserted := WithRow(t, s);
    reattached := inserted.roles;
    var accepted := CheckRoleHierarchyNoCycle(ParentColumn(t.roles), s.roleId, s.role.parent);
    AcyclicAfterChange(ParentColumn(t.roles), s.roleId, s.role.parent);
    assert ParentColumn(inserted.roles) == ParentColumn(t.roles)[s.roleId := s.role.parent];
    if !accepted {
      return Cycle, reattached;
    }
    var passes := CheckRoleInheritanceSod(inserted, s.roleId);
    if !passes {
      return SodViolation, reattached;
    }
    var heirs := s.heirs * t.roles.Keys;
    accepted, reattached := UpdateParents(inserted.roles, heirs, Some(s.roleId));
    if !accepted {
      return Cycle, reattached;
    }
    assert reattached == WithHeirs(t, s).roles;
    passes := TriggersAfterUpdate(Tables(reattached, t.assignments, t.rules + s.rules), heirs);
    outcome := if passes then Done else SodViolation;
  }

  class RoleStore {
    var roles: Roles
    var assignments: map<Id, Assignment>
    var rules: map<Id, Rule>
    var grants: GrantTable
    var audit: seq<AuditEntry>
    /** The ids that grants refer to: neither method writes these tables. */
    var permissions: set<Id>
    var users: set<Id>

    ghost function State(): Db
      reads this
    {
      Db(Tables(roles, assignments, rules), grants, audit)
    }

    constructor (db: Db, permissions: set<Id>, users: set<Id>)
      ensures State() == db && this.permissions == permissions && this.users == users
    {
      this.permissions, this.users := permissions, users;
      roles, assignments, rules := db.tables.roles, db.tables.assignments, db.tables.rules;
      grants, audit := db.grants, db.audit;
    }

    /** The statements about the role found: a refusal leaves every table as it was. */
    method Retire(r: Id, now: int) returns (outcome: Outcome)
      requires Sound(State().tables) && r in roles
      modifies `roles, `rules, `grants, `audit
      ensures !outcome.Nothing?
      ensures outcome.Done? <==> Retirable(old(State()).tables, r)
      ensures State() == if outcome.Done? then Retired(old(State()), r, now) else old(State())
    {
      if exists i :: i in assignments && assignments[i].role == r {
        return HasAssignments;
      }
      var t := Tables(roles, assignments, rules);
      var db := Db(t, grants, audit);
      var snapshot := SnapshotOf(db, r);
      var copied := grants + CopiedGrants(db, r, now);
      var passes, moved := MoveHeirs(t, r);
      if !passes {
        return SodViolation;
      }
      var newRoles := SetSuperiors(moved, snapshot.subordinates, roles[r].superior);
      ReferencesLeft(roles, r, moved, newRoles);
      if exists x :: x in newRoles && x != r && newRoles[x].superior == Some(r) {
        return ForeignKey;
      }
      rules := rules - RulesAbout(rules, r).Keys;
      grants := copied - GrantsOf(grants, r).Keys;
      roles := newRoles - {r};
      audit := audit + [Retirement(snapshot)];
      return Done;
    }

    /** retireCustodian in one transaction at time `now`: a refusal leaves every table as it was. */
    method RetireCustodian(now: int) returns (outcome: Outcome)
      requires Sound(State().tables) && UniqueCodes(roles)
      modifies `roles, `rules, `grants, `audit
      ensures outcome.Nothing? <==> forall x :: !IsRetiredRole(old(roles), x)
      ensures forall r :: IsRetiredRole(old(roles), r) ==>
                (outcome.Done? <==> Retirable(old(State()).tables, r))
                && (outcome.Done? ==> State() == Retired(old(State()), r, now))
      ensures !outcome.Done? ==> State() == old(State())
      ensures Sound(State().tables) && (RecordsFit(old(audit)) ==> RecordsFit(audit))
    {
      if !exists x :: x in roles && IsRetiredRole(roles, x) {
        return Nothing;
      }
      var r :| r in roles && IsRetiredRole(roles, r);
      outcome := Retire(r, now);
      if outcome.Done? {
        RetirementIsSound(old(State()).tables, r);
        RecordsStayFit(old(State()), r, now);
      }
    }

    /** The statements about one record: a refusal leaves every table as it was. */
    method Restore(i: nat) returns (outcome: Outcome)
      requires Acyclic(ParentColumn(roles)) && i < |audit| && audit[i].Retirement?
      modifies `roles, `rules, `grants, `audit
      ensures !outcome.Nothing? && !outcome.MissingRecord?
      ensures outcome.Done? <==> Passes(old(State()), permissions, users, old(audit)[i].snapshot)
      ensures State() == if outcome.Done? then Restored(old(State()), i) else old(State())
    {
      var s := audit[i].snapshot;
      var t := Tables(roles, assignments, rules);
      if !Fits(t, s) || !GrantsFit(t, grants, permissions, users, s) {
        return ForeignKey;
      }
      var reattached;
      outcome, reattached := InsertAndReattach(t, s);
      if !outcome.Done? {
        return;
      }
      rules := rules + s.rules;
      roles := SetSuperiors(reattached, s.subordinates, Some(s.roleId));
      grants := RestoredGrants(grants, s);
      audit := audit[..i] + audit[i + 1..];
    }

    /**
     restoreCustodian in one transaction: it uses the latest record and removes it. Whatever was written since
     the retirement, tables that were sound stay so.
     */
    method RestoreCustodian() returns (outcome: Outcome)
      requires Acyclic(ParentColumn(roles))
      modifies `roles, `rules, `grants, `audit
      ensures outcome.Nothing? <==> exists x :: IsRetiredRole(old(roles), x)
      ensures !outcome.Nothing? ==> (outcome.MissingRecord? <==> LatestRecord(old(audit)) == |old(audit)|)
      ensures outcome.Done? <==> CanRestore(old(State()), permissions, users)
      ensures outcome.Done? ==> State() == Restored(old(State()), LatestRecord(old(audit)))
      ensures !outcome.Done? ==> State() == old(State())
      ensures Sound(old(State()).tables) && RecordsFit(old(audit)) ==> Sound(State().tables) && RecordsFit(audit)
    {
      if exists x :: x in roles && IsRetiredRole(roles, x) {
        return Nothing;
      }
      var i := LatestRecord(audit);
      if i == |audit| {
        return MissingRecord;
      }
      outcome := Restore(i);
      if outcome.Done? && Sound(old(State()).tables) && RecordsFit(old(audit)) {
        RestorationIsSound(old(State()).tables, old(audit)[i].snapshot);
      }
    }
  }

  /** Right after a retirement only a clash around the role stands in the way of its restoration. */
  lemma AfterRetirement(db: Db, r: Id, now: int, permissions: set<Id>, users: set<Id>)
    requires Sound(db.tables) && UniqueCodes(db.tables.roles) && GrantsRefer(db, permissions, users)
    requires IsRetiredRole(db.tables.roles, r) && Retirable(db.tables, r)
    ensures CanRestore(Retired(db, r, now), permissions, users) <==> CleanAround(db.tables, r)
    ensures LatestRecord(Retired(db, r, now).audit) == |db.audit| && Restored(Retired(db, r, now), |db.audit|) == db
  {
    RetiredIsAcyclic(db.tables.roles, r);
    RestoreUndoesRetire(db, r, now);
    RetiredGrantsFit(db, r, now, permissions, users);
    RestorationPassesExactlyWhen(db, r, now);
  }

  /**
   up and down of the migration: after a retirement that went through, the restoration brings back the old state
   exactly when no lineage around the role clashes, and otherwise refuses and leaves the role retired.
   */
  method RetireThenRestore(store: RoleStore, now: int) returns (retired: Outcome, restored: Outcome)
    requires Sound(store.State().tables) && UniqueCodes(store.roles)
    requires GrantsRefer(store.State(), store.permissions, store.users)
    modifies store
    ensures forall r :: retired.Done? && IsRetiredRole(old(store.roles), r) ==>
              && (restored.Done? <==> CleanAround(old(store.State()).tables, r))
              && store.State() == if restored.Done? then old(store.State()) else Retired(old(store.State()), r, now)
    ensures !retired.Done? ==> store.State() == old(store.State())
    ensures Sound(store.State().tables)
  {
    ghost var db := store.State();
    retired := store.RetireCustodian(now);
    restored := Nothing;
    if retired.Done? {
      ghost var r :| IsRetiredRole(db.tables.roles, r);
      AfterRetirement(db, r, now, store.permissions, store.users);
      restored := store.RestoreCustodian();
    }
  }

  lemma HeirsAreClear(roles: Roles, r: Id)
    requires r in roles && Acyclic(ParentColumn(roles))
    ensures ParentClear(roles, Heirs(roles, r), roles[r].parent)
  {
    forall h | h in Heirs(roles, r) && roles[r].parent.Some?
      ensures !Reaches(ParentColumn(roles), roles[r].parent.value, h)
    {
      ParentAvoidsHeir(ParentColumn(roles), r, h);
    }
  }
}
