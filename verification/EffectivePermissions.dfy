/** v_user_effective_permissions and fn_user_has_permission: the recursive evaluation against the path definition. */
module EffectivePermissions {
  import opened Options
  import opened Hierarchy
  import opened RbacTables
  import opened SeparationOfDuties
  import RoleRetirement

  /** A row of the view's role_hierarchy subquery (role_code follows from the role). */
  datatype HierarchyRow = HierarchyRow(
    user: Id, role: Id, scopeType: string, scopeId: Option<Id>,
    validFrom: int, validUntil: Option<int>, delegated: bool)

  /** role_permission as its set of keys, permission as id to code. */
  datatype Catalog = Catalog(grants: set<(Id, Id)>, codes: map<Id, string>)

  predicate Current(a: Assignment, now: int) {
    !a.revoked && a.validFrom <= now && (a.validUntil.None? || a.validUntil.value > now)
  }

  function RowFor(a: Assignment, role: Id): HierarchyRow {
    HierarchyRow(a.user, role, a.scopeType, a.scopeId, a.validFrom, a.validUntil, a.delegated)
  }

  /** The path definition: an assignment current at `now` whose lineage meets the row's role. */
  ghost predicate PathRow(t: Tables, now: int, row: HierarchyRow) {
    exists i :: i in t.assignments && RowFromAssignment(t, now, i, row)
  }

  ghost predicate RowFromAssignment(t: Tables, now: int, i: Id, row: HierarchyRow)
    requires i in t.assignments
  {
    var a := t.assignments[i];
    Current(a, now) && row == RowFor(a, row.role) && InLineage(t.roles, a.role, row.role)
  }

  function BaseRows(t: Tables, now: int): set<HierarchyRow> {
    set i | i in t.assignments && Current(t.assignments[i], now) && Live(t.roles, t.assignments[i].role)
      :: RowFor(t.assignments[i], t.assignments[i].role)
  }

  function ParentRows(roles: Roles, rows: set<HierarchyRow>): set<HierarchyRow> {
    set row | row in rows && LiveParent(roles, row.role).Some? :: row.(role := LiveParent(roles, row.role).value)
  }

  /** Rows the recursion may still reach: a base row carried to some role. */
  ghost function Universe(t: Tables, now: int): set<HierarchyRow> {
    set row, y | row in BaseRows(t, now) && y in t.roles :: row.(role := y)
  }

  ghost predicate SoundRows(t: Tables, now: int, rows: set<HierarchyRow>) {
    rows <= Universe(t, now) && forall row :: row in rows ==> PathRow(t, now, row)
  }

  /** WITH RECURSIVE ... UNION: the working table is joined with the parents until it holds nothing new. */
  method RoleHierarchy(t: Tables, now: int) returns (rows: set<HierarchyRow>)
    ensures forall row :: row in rows <==> PathRow(t, now, row)
  {
    rows := {};
    var working := BaseRows(t, now);
    BaseRowsAreSound(t, now);
    while working != {}
      invariant BaseRows(t, now) <= rows + working
      invariant ParentRows(t.roles, rows) <= rows + working
      invariant rows !! working
      invariant SoundRows(t, now, rows) && SoundRows(t, now, working)
      decreases Universe(t, now) - rows
    {
      ParentRowsAreSound(t, now, working);
      ParentRowsOfUnion(t.roles, rows, working);
      rows, working := rows + working, ParentRows(t.roles, working) - (rows + working);
    }
    forall row | PathRow(t, now, row)
      ensures row in rows
    {
      var i :| i in t.assignments && RowFromAssignment(t, now, i, row);
      var n: nat :| LiveUp(t.roles, t.assignments[i].role, n) == Some(row.role);
      ClosedRowsHoldPaths(t, now, rows, i, n);
    }
  }

  lemma BaseRowsAreSound(t: Tables, now: int)
    ensures SoundRows(t, now, BaseRows(t, now))
  {
    forall row | row in BaseRows(t, now)
      ensures row in Universe(t, now) && PathRow(t, now, row)
    {
      BaseRowIsPath(t, now, row);
      assert row == row.(role := row.role);
    }
  }

  lemma ParentRowsAreSound(t: Tables, now: int, rows: set<HierarchyRow>)
    requires SoundRows(t, now, rows)
    ensures SoundRows(t, now, ParentRows(t.roles, rows))
  {
    forall row | row in ParentRows(t.roles, rows)
      ensures row in Universe(t, now) && PathRow(t, now, row)
    {
      var from :| from in rows && LiveParent(t.roles, from.role).Some?
                  && row == from.(role := LiveParent(t.roles, from.role).value);
      ParentRowIsPath(t, now, from);
      var base, y :| base in BaseRows(t, now) && y in t.roles && from == base.(role := y);
      assert row == base.(role := row.role);
    }
  }

  lemma ParentRowsOfUnion(roles: Roles, a: set<HierarchyRow>, b: set<HierarchyRow>)
    ensures ParentRows(roles, a + b) == ParentRows(roles, a) + ParentRows(roles, b)
  {
  }

  lemma BaseRowIsPath(t: Tables, now: int, row: HierarchyRow)
    requires row in BaseRows(t, now)
    ensures row.role in t.roles && PathRow(t, now, row)
  {
    var i :| i in t.assignments && Current(t.assignments[i], now) && Live(t.roles, t.assignments[i].role)
             && row == RowFor(t.assignments[i], t.assignments[i].role);
    assert LiveUp(t.roles, row.role, 0) == Some(row.role);
    assert RowFromAssignment(t, now, i, row);
  }

  lemma ParentRowIsPath(t: Tables, now: int, row: HierarchyRow)
    requires PathRow(t, now, row) && LiveParent(t.roles, row.role).Some?
    ensures PathRow(t, now, row.(role := LiveParent(t.roles, row.role).value))
  {
    var up := row.(role := LiveParent(t.roles, row.role).value);
    var i :| i in t.assignments && RowFromAssignment(t, now, i, row);
    var n: nat :| LiveUp(t.roles, t.assignments[i].role, n) == Some(row.role);
    assert LiveUp(t.roles, t.assignments[i].role, n + 1) == Some(up.role);
    assert RowFromAssignment(t, now, i, up);
  }

  /** Rows closed under the parent step and holding the base rows hold every path. */
  lemma {:induction false} ClosedRowsHoldPaths(t: Tables, now: int, rows: set<HierarchyRow>, i: Id, n: nat)
    requires i in t.assignments && Current(t.assignments[i], now)
    requires BaseRows(t, now) <= rows && ParentRows(t.roles, rows) <= rows
    ensures LiveUp(t.roles, t.assignments[i].role, n).Some? ==>
              RowFor(t.assignments[i], LiveUp(t.roles, t.assignments[i].role, n).value) in rows
  {
    var a := t.assignments[i];
    if n == 0 {
      assert Live(t.roles, a.role) ==> RowFor(a, a.role) in BaseRows(t, now);
    } else {
      ClosedRowsHoldPaths(t, now, rows, i, n - 1);
      if LiveUp(t.roles, a.role, n).Some? {
        var below := RowFor(a, LiveUp(t.roles, a.role, n - 1).value);
        assert below.(role := LiveParent(t.roles, below.role).value) in ParentRows(t.roles, rows);
      }
    }
  }

  // ---- fn_user_has_permission ----

  /** The scope test of the query, with SQL's NULL never equal to anything. */
  predicate ScopeTest(scopeType: string, scopeId: Option<Id>, askedType: Option<string>, askedId: Option<Id>) {
    || scopeType == "GLOBAL"
    || (askedType == Some(scopeType) && ((scopeId.Some? && askedId == scopeId) || scopeId.None?))
  }

  /** chk_scope_consistency on every assignment. */
  ghost predicate ScopesConsistent(t: Tables) {
    forall i :: i in t.assignments ==> (t.assignments[i].scopeType == "GLOBAL" <==> t.assignments[i].scopeId.None?)
  }

  /** An assignment that is global, or made for exactly the asked resource. */
  predicate Covers(a: Assignment, askedType: Option<string>, askedId: Option<Id>) {
    a.scopeType == "GLOBAL" || (askedType == Some(a.scopeType) && askedId == a.scopeId && askedId.Some?)
  }

  /** A current assignment that covers the resource has a role in its lineage with a grant of the code. */
  ghost predicate Authorized(t: Tables, c: Catalog, now: int, user: Id, code: string,
                             askedType: Option<string>, askedId: Option<Id>) {
    exists i, y :: i in t.assignments && CarriesGrant(t, c, now, i, y, code)
                   && t.assignments[i].user == user && Covers(t.assignments[i], askedType, askedId)
  }

  ghost predicate CarriesGrant(t: Tables, c: Catalog, now: int, i: Id, y: Id, code: string)
    requires i in t.assignments
  {
    Current(t.assignments[i], now) && InLineage(t.roles, t.assignments[i].role, y) && HasGrant(c, y, code)
  }

  /** role_permission joined with permission holds (role, code). */
  predicate HasGrant(c: Catalog, role: Id, code: string) {
    exists g :: g in c.grants && g.0 == role && g.1 in c.codes && c.codes[g.1] == code
  }

  method UserHasPermission(t: Tables, c: Catalog, now: int, user: Id, code: string,
                           askedType: Option<string>, askedId: Option<Id>) returns (allowed: bool)
    requires ScopesConsistent(t)
    ensures allowed <==> Authorized(t, c, now, user, code, askedType, askedId)
  {
    var rows := RoleHierarchy(t, now);
    allowed := exists row :: row in rows && row.user == user && HasGrant(c, row.role, code)
                             && ScopeTest(row.scopeType, row.scopeId, askedType, askedId);
    if allowed {
      var row :| row in rows && row.user == user && HasGrant(c, row.role, code)
                 && ScopeTest(row.scopeType, row.scopeId, askedType, askedId);
      assert PathRow(t, now, row);
      ghost var i :| i in t.assignments && RowFromAssignment(t, now, i, row);
      assert CarriesGrant(t, c, now, i, row.role, code);
    }
    if Authorized(t, c, now, user, code, askedType, askedId) {
      ghost var i, y :| i in t.assignments && CarriesGrant(t, c, now, i, y, code)
                        && t.assignments[i].user == user && Covers(t.assignments[i], askedType, askedId);
      assert RowFromAssignment(t, now, i, RowFor(t.assignments[i], y));
      assert PathRow(t, now, RowFor(t.assignments[i], y));
    }
  }

  // ---- The validity window ----

  /** An assignment brings its rows at the instants of [validFrom, validUntil), while it is not revoked, and at no other. */
  lemma RowsAppearExactlyWithin(t: Tables, i: Id, y: Id, now: int)
    requires i in t.assignments && InLineage(t.roles, t.assignments[i].role, y)
    ensures var a := t.assignments[i];
            var row := HierarchyRow(a.user, y, a.scopeType, a.scopeId, a.validFrom, a.validUntil, a.delegated);
            RowFromAssignment(t, now, i, row) <==>
            !a.revoked && a.validFrom <= now && !(a.validUntil.Some? && a.validUntil.value <= now)
  {
  }

  /** The unrevoked assignment a row of the view shows. */
  ghost predicate Shows(t: Tables, row: HierarchyRow, i: Id)
    requires i in t.assignments
  {
    var a := t.assignments[i];
    && !a.revoked && InLineage(t.roles, a.role, row.role)
    && row.user == a.user && row.scopeType == a.scopeType && row.scopeId == a.scopeId
    && row.validFrom == a.validFrom && row.validUntil == a.validUntil && row.delegated == a.delegated
  }

  /** A row is in the view exactly when it shows an assignment and its own window holds the instant. */
  lemma ViewRowExactlyWhen(t: Tables, now: int, row: HierarchyRow)
    ensures PathRow(t, now, row) <==>
            && row.validFrom <= now && (row.validUntil.Some? ==> now < row.validUntil.value)
            && exists i :: i in t.assignments && Shows(t, row, i)
  {
    if PathRow(t, now, row) {
      var i :| i in t.assignments && RowFromAssignment(t, now, i, row);
      assert Shows(t, row, i);
    }
    if i :| i in t.assignments && Shows(t, row, i) && row.validFrom <= now
            && (row.validUntil.Some? ==> now < row.validUntil.value) {
      assert RowFromAssignment(t, now, i, row);
    }
  }

  /** The assignment lets its user act on the resource at the instant. */
  predicate LetsAct(a: Assignment, user: Id, now: int, askedType: Option<string>, askedId: Option<Id>) {
    && a.user == user && !a.revoked
    && a.validFrom <= now && (a.validUntil.Some? ==> now < a.validUntil.value)
    && (a.scopeType == "GLOBAL" || (askedType == Some(a.scopeType) && askedId.Some? && a.scopeId == askedId))
  }

  /** The role `y`, in the lineage of the assignment's role, is granted the permission `p` of that code. */
  ghost predicate Brings(t: Tables, c: Catalog, i: Id, y: Id, p: Id, code: string)
    requires i in t.assignments
  {
    InLineage(t.roles, t.assignments[i].role, y) && (y, p) in c.grants && p in c.codes && c.codes[p] == code
  }

  /** The answer in terms of the rows of the four tables. */
  lemma AuthorizedExactlyWhen(t: Tables, c: Catalog, now: int, user: Id, code: string,
                              askedType: Option<string>, askedId: Option<Id>)
    ensures Authorized(t, c, now, user, code, askedType, askedId) <==>
            exists i, y, p ::
              i in t.assignments && LetsAct(t.assignments[i], user, now, askedType, askedId) && Brings(t, c, i, y, p, code)
  {
    if Authorized(t, c, now, user, code, askedType, askedId) {
      var i, y :| i in t.assignments && CarriesGrant(t, c, now, i, y, code)
                  && t.assignments[i].user == user && Covers(t.assignments[i], askedType, askedId);
      var g :| g in c.grants && g.0 == y && g.1 in c.codes && c.codes[g.1] == code;
      assert (y, g.1) == g && Brings(t, c, i, y, g.1, code);
      assert LetsAct(t.assignments[i], user, now, askedType, askedId);
    }
    if i, y, p :| i in t.assignments && LetsAct(t.assignments[i], user, now, askedType, askedId) && Brings(t, c, i, y, p, code) {
      assert (y, p).0 == y && (y, p).1 == p;
      assert HasGrant(c, y, code);
      assert CarriesGrant(t, c, now, i, y, code);
    }
  }

  /** While no assignment of the user starts or ends, no answer about the user changes. */
  lemma AnswersChangeAtBoundsOnly(t: Tables, c: Catalog, from: int, to: int, user: Id, code: string,
                                  askedType: Option<string>, askedId: Option<Id>)
    requires from <= to
    requires forall i :: i in t.assignments && t.assignments[i].user == user ==>
               var a := t.assignments[i];
               !(from < a.validFrom <= to) && !(a.validUntil.Some? && from < a.validUntil.value <= to)
    ensures Authorized(t, c, from, user, code, askedType, askedId) <==> Authorized(t, c, to, user, code, askedType, askedId)
  {
    AuthorizedExactlyWhen(t, c, from, user, code, askedType, askedId);
    AuthorizedExactlyWhen(t, c, to, user, code, askedType, askedId);
    forall i | i in t.assignments
      ensures LetsAct(t.assignments[i], user, from, askedType, askedId) <==> LetsAct(t.assignments[i], user, to, askedType, askedId)
    {
    }
  }

  // ---- The view against the separation check ----

  /** At every instant the view uses only roles that the separation triggers look at. */
  lemma ViewRolesAreChecked(t: Tables, now: int, row: HierarchyRow)
    requires PathRow(t, now, row)
    ensures Effective(t, row.user, row.role)
  {
    var i :| i in t.assignments && RowFromAssignment(t, now, i, row);
    assert Grants(t, i, row.user, row.role);
  }

  /** So after any allowed run, at no instant does a user act under both sides of a static rule. */
  lemma NoUserActsUnderBothSides(t: Tables, run: seq<Step>, end: Tables, now: int,
                                 r1: HierarchyRow, r2: HierarchyRow, s: Id)
    requires Sound(t) && AllowedRun(t, run) && end == SeparationOfDuties.AfterRun(t, run)
    requires PathRow(end, now, r1) && PathRow(end, now, r2) && r1.user == r2.user
    requires StaticRule(end, s)
    ensures !(r1.role == end.rules[s].roleA && r2.role == end.rules[s].roleB)
  {
    RunsStaySeparated(t, run);
    ViewRolesAreChecked(end, now, r1);
    ViewRolesAreChecked(end, now, r2);
  }

  // ---- Answers across the retirement of a role ----

  function CatalogOf(db: RoleRetirement.Db, codes: map<Id, string>): Catalog {
    Catalog(db.grants.Keys, codes)
  }

  /** An assignment brings a code through its lineage when its role has a permission of that code. */
  ghost predicate RoleHasCode(db: RoleRetirement.Db, codes: map<Id, string>, x: Id, code: string) {
    exists p :: p in codes && codes[p] == code && RoleRetirement.RoleHas(db.tables.roles, db.grants, x, p)
  }

  lemma CodeByRole(db: RoleRetirement.Db, codes: map<Id, string>, now: int, i: Id, code: string)
    requires i in db.tables.assignments
    ensures (exists y :: CarriesGrant(db.tables, CatalogOf(db, codes), now, i, y, code)) <==>
            Current(db.tables.assignments[i], now) && RoleHasCode(db, codes, db.tables.assignments[i].role, code)
  {
    var c, x := CatalogOf(db, codes), db.tables.assignments[i].role;
    if y :| CarriesGrant(db.tables, c, now, i, y, code) {
      var g :| g in c.grants && g.0 == y && g.1 in codes && codes[g.1] == code;
      assert g == (y, g.1);
      assert RoleRetirement.RoleHas(db.tables.roles, db.grants, x, g.1);
    }
    if Current(db.tables.assignments[i], now) && RoleHasCode(db, codes, x, code) {
      var p :| p in codes && codes[p] == code && RoleRetirement.RoleHas(db.tables.roles, db.grants, x, p);
      var y :| InLineage(db.tables.roles, x, y) && (y, p) in db.grants;
      assert (y, p) in c.grants && (y, p).0 == y;
      assert CarriesGrant(db.tables, c, now, i, y, code);
    }
  }

  /**
   Retiring a role that is live, or whose live heirs already had what it would hand down, changes no answer of
   fn_user_has_permission: for every user, code, scope and instant.
   */
  lemma RetirementKeepsAnswers(db: RoleRetirement.Db, r: Id, at: int, codes: map<Id, string>, now: int, user: Id,
                               code: string, askedType: Option<string>, askedId: Option<Id>)
    requires Sound(db.tables) && r in db.tables.roles && RoleRetirement.Retirable(db.tables, r)
    requires Live(db.tables.roles, r) || RoleRetirement.HeirsHaveAll(db, r)
    ensures var after := RoleRetirement.Retired(db, r, at);
            Authorized(after.tables, CatalogOf(after, codes), now, user, code, askedType, askedId) <==>
            Authorized(db.tables, CatalogOf(db, codes), now, user, code, askedType, askedId)
  {
    var after := RoleRetirement.Retired(db, r, at);
    RoleRetirement.PermissionsKeptExactlyWhen(db, r, at);
    forall i | i in db.tables.assignments
      ensures (exists y :: CarriesGrant(after.tables, CatalogOf(after, codes), now, i, y, code)) <==>
              (exists y :: CarriesGrant(db.tables, CatalogOf(db, codes), now, i, y, code))
    {
      CodeByRole(db, codes, now, i, code);
      CodeByRole(after, codes, now, i, code);
      SameCodes(db, r, after, codes, db.tables.assignments[i].role, code);
    }
    SameAnswers(db, after, codes, now, user, code, askedType, askedId);
    SameAnswers(after, db, codes, now, user, code, askedType, askedId);
  }

  lemma SameCodes(db: RoleRetirement.Db, r: Id, after: RoleRetirement.Db, codes: map<Id, string>, x: Id, code: string)
    requires RoleRetirement.SamePermissions(db, r, after) && x in db.tables.roles && x != r
    ensures RoleHasCode(after, codes, x, code) <==> RoleHasCode(db, codes, x, code)
  {
  }

  lemma SameAnswers(a: RoleRetirement.Db, b: RoleRetirement.Db, codes: map<Id, string>, now: int, user: Id,
                    code: string, askedType: Option<string>, askedId: Option<Id>)
    requires a.tables.assignments == b.tables.assignments
    requires forall i :: i in a.tables.assignments ==>
               ((exists y :: CarriesGrant(b.tables, CatalogOf(b, codes), now, i, y, code)) <==>
                (exists y :: CarriesGrant(a.tables, CatalogOf(a, codes), now, i, y, code)))
    ensures Authorized(a.tables, CatalogOf(a, codes), now, user, code, askedType, askedId) ==>
              Authorized(b.tables, CatalogOf(b, codes), now, user, code, askedType, askedId)
  {
    if Authorized(a.tables, CatalogOf(a, codes), now, user, code, askedType, askedId) {
      var i, y :| i in a.tables.assignments && CarriesGrant(a.tables, CatalogOf(a, codes), now, i, y, code)
                  && a.tables.assignments[i].user == user && Covers(a.tables.assignments[i], askedType, askedId);
      var z :| CarriesGrant(b.tables, CatalogOf(b, codes), now, i, z, code);
    }
  }
}
