/**
 EmailTemplatesService.create and .activate as interleaved transactions of any number of clients under
 READ COMMITTED: a transaction sees committed rows and its own writes, and the per-type advisory lock is
 held from lockType until the transaction ends. `activate` reads its row before it takes the lock.
 */
module TemplateVersions {
  import opened Options

  type RowId = int
  type TemplateType = int
  type ClientId = int
  type Design = string   // subject and blocks

  datatype Version = Version(templateType: TemplateType, version: int, design: Design, active: bool)

  type Table = map<RowId, Version>

  datatype Op = Create(templateType: TemplateType, design: Design) | Activate(id: RowId)

  datatype Stage = Begun | Found | Locked | Counted | Deactivated | Saved | Ended

  /** `found` is the row activate read; `latest` the highest version create read; `writes` are not committed yet. */
  datatype Txn = Txn(op: Op, stage: Stage, found: Option<Version>, latest: int, saved: RowId, writes: Table)

  /** `chosen` records, per type, the row and design of the last committed create or activate. */
  datatype State = State(
    committed: Table, txns: map<ClientId, Txn>, locks: map<int, ClientId>, chosen: map<TemplateType, (RowId, Design)>)

  datatype Step =
    | Begin(c: ClientId, op: Op)
    | Find(c: ClientId)
    | Lock(c: ClientId)
    | Count(c: ClientId, latest: int)
    | Deactivate(c: ClientId)
    | Save(c: ClientId, id: RowId)
    | Commit(c: ClientId)
    | Rollback(c: ClientId)

  // ---- Queries ----

  function OfType(rows: Table, t: TemplateType): Table {
    map i | i in rows && rows[i].templateType == t :: rows[i]
  }

  function Seen(s: State, x: Txn): Table {
    s.committed + x.writes
  }

  /** ORDER BY version DESC, first row, or 0 without rows. */
  ghost predicate IsLatest(v: Table, n: int) {
    (v == map[] && n == 0) || ((exists i :: i in v && v[i].version == n) && forall i :: i in v ==> v[i].version <= n)
  }

  /** UPDATE ... SET is_active = FALSE WHERE is_active. */
  function Deactivations(v: Table): Table {
    map i | i in v && v[i].active :: v[i].(active := false)
  }

  function TypeOf(x: Txn): TemplateType {
    match x.op
    case Create(t, _) => t
    case Activate(_) => if x.found.Some? then x.found.value.templateType else 0
  }

  /** The row the transaction saves: a new version, or the row it found, with whatever it held then, made active. */
  function SavedRow(x: Txn): Version {
    match x.op
    case Create(t, design) => Version(t, x.latest + 1, design, true)
    case Activate(_) => if x.found.Some? then x.found.value.(active := true) else Version(0, 0, "", true)
  }

  // ---- Steps, for any assignment of lock keys to types (hashtext may collide) ----

  ghost predicate Enabled(s: State, hash: TemplateType -> int, step: Step) {
    && (step.Begin? || (step.c in s.txns && !s.txns[step.c].stage.Ended?))
    && match step
       case Begin(c, _) => c !in s.txns
       case Find(c) => s.txns[c].op.Activate? && s.txns[c].stage.Begun?
       case Lock(c) =>
         && s.txns[c].stage == (if s.txns[c].op.Create? then Begun else Found)
         && hash(TypeOf(s.txns[c])) !in s.locks
       case Count(c, latest) =>
         && s.txns[c].op.Create? && s.txns[c].stage.Locked?
         && IsLatest(OfType(Seen(s, s.txns[c]), TypeOf(s.txns[c])), latest)
       case Deactivate(c) => s.txns[c].stage == (if s.txns[c].op.Create? then Counted else Locked)
       case Save(c, id) =>
         && s.txns[c].stage.Deactivated?
         && (match s.txns[c].op
             case Create(_, _) => id !in s.committed && forall d :: d in s.txns ==> id !in s.txns[d].writes
             case Activate(wanted) => id == wanted)
       case Commit(c) => s.txns[c].stage.Saved?
       case Rollback(c) => true
  }

  function Unlocked(s: State, c: ClientId): map<int, ClientId> {
    map k | k in s.locks && s.locks[k] != c :: s.locks[k]
  }

  function Next(s: State, hash: TemplateType -> int, step: Step): State
    requires step.Begin? || step.c in s.txns
  {
    match step
    case Begin(c, op) => s.(txns := s.txns[c := Txn(op, Begun, None, 0, 0, map[])])
    case Find(c) =>
      var x := s.txns[c];
      if x.op.Activate? && x.op.id in s.committed
      then s.(txns := s.txns[c := x.(stage := Found, found := Some(s.committed[x.op.id]))])
      else s.(txns := s.txns[c := x.(stage := Ended)])
    case Lock(c) =>
      var x := s.txns[c];
      s.(txns := s.txns[c := x.(stage := Locked)], locks := s.locks[hash(TypeOf(x)) := c])
    case Count(c, latest) => s.(txns := s.txns[c := s.txns[c].(stage := Counted, latest := latest)])
    case Deactivate(c) =>
      var x := s.txns[c];
      var off := Deactivations(OfType(Seen(s, x), TypeOf(x)));
      s.(txns := s.txns[c := x.(stage := Deactivated, writes := x.writes + off)])
    case Save(c, id) =>
      var x := s.txns[c];
      s.(txns := s.txns[c := x.(stage := Saved, saved := id, writes := x.writes[id := SavedRow(x)])])
    case Commit(c) =>
      var x := s.txns[c];
      s.(committed := Seen(s, x),
         txns := s.txns[c := x.(stage := Ended, writes := map[])],
         locks := Unlocked(s, c),
         chosen := s.chosen[TypeOf(x) := (x.saved, SavedRow(x).design)])
    case Rollback(c) =>
      s.(txns := s.txns[c := s.txns[c].(stage := Ended, writes := map[])], locks := Unlocked(s, c))
  }

  // ---- The consistent table ----

  /** The versions of one type are exactly 1..n, each once. */
  ghost predicate NumberedTo(v: Table, n: int) {
    && 0 <= n
    && (forall i :: i in v ==> 1 <= v[i].version <= n)
    && (forall i, j :: i in v && j in v && v[i].version == v[j].version ==> i == j)
    && (forall k :: 1 <= k <= n ==> HasVersion(v, k))
  }

  ghost predicate Numbered(v: Table) {
    exists n :: NumberedTo(v, n)
  }

  ghost predicate HasVersion(v: Table, k: int) {
    exists i :: i in v && v[i].version == k
  }

  /** Exactly one active row, unless the type has no row. */
  ghost predicate OneActive(v: Table) {
    && (forall i, j :: i in v && j in v && v[i].active && v[j].active ==> i == j)
    && (v != map[] ==> exists i :: i in v && v[i].active)
  }

  ghost predicate TypeConsistent(s: State, t: TemplateType) {
    var v := OfType(s.committed, t);
    && Numbered(v)
    && OneActive(v)
    && (t in s.chosen <==> v != map[])
    && (t in s.chosen ==> s.chosen[t].0 in v && v[s.chosen[t].0].active && v[s.chosen[t].0].design == s.chosen[t].1)
  }

  predicate Holding(x: Txn) {
    x.stage.Locked? || x.stage.Counted? || x.stage.Deactivated? || x.stage.Saved?
  }

  /** What is known of one transaction while others run. */
  ghost predicate TxnConsistent(s: State, hash: TemplateType -> int, c: ClientId)
    requires c in s.txns
  {
    var x := s.txns[c];
    var t := TypeOf(x);
    var v := OfType(s.committed, t);
    && (Holding(x) ==> hash(t) in s.locks && s.locks[hash(t)] == c)
    && (x.op.Activate? && (x.stage.Found? || Holding(x)) ==>
          x.found.Some? && x.op.id in v && v[x.op.id].(active := true) == SavedRow(x))
    && (x.op.Create? && Holding(x) && !x.stage.Locked? ==> NumberedTo(v, x.latest))
    && (!x.stage.Deactivated? && !x.stage.Saved? ==> x.writes == map[])
    && (x.stage.Deactivated? ==> x.writes == Deactivations(v))
    && (x.stage.Saved? ==>
          && x.writes == Deactivations(v)[x.saved := SavedRow(x)]
          && (if x.op.Create? then x.saved !in s.committed else x.saved == x.op.id))
  }

  /** New row ids are used by one transaction. */
  ghost predicate NewIdsExclusive(s: State) {
    forall c, d :: c in s.txns && d in s.txns && c != d && s.txns[c].stage.Saved? && s.txns[c].op.Create? ==>
      s.txns[c].saved !in s.txns[d].writes
  }

  ghost predicate Consistent(s: State, hash: TemplateType -> int) {
    && (forall t :: TypeConsistent(s, t))
    && (forall c :: c in s.txns ==> TxnConsistent(s, hash, c))
    && NewIdsExclusive(s)
  }

  // ---- One transaction's own type ----

  lemma LatestIsCount(v: Table, n: int, latest: int)
    requires NumberedTo(v, n) && IsLatest(v, latest)
    ensures latest == n
  {
    if v == map[] {
      assert n > 0 ==> HasVersion(v, n);
    } else {
      assert latest < n ==> HasVersion(v, n);
    }
  }

  /** The rows of the type once the transaction's writes are in. */
  function Applied(v: Table, id: RowId, row: Version): Table {
    v + Deactivations(v)[id := row]
  }

  /** Every other row is kept but for its active mark. */
  lemma AppliedRows(v: Table, id: RowId, row: Version)
    ensures Applied(v, id, row).Keys == v.Keys + {id} && Applied(v, id, row)[id] == row
    ensures forall i :: i in v && i != id ==> Applied(v, id, row)[i] == v[i].(active := false)
  {
  }

  lemma AppliedHasVersions(v: Table, n: int, id: RowId, row: Version, k: int)
    requires NumberedTo(v, n) && 1 <= k <= n && (id in v ==> row.version == v[id].version)
    ensures HasVersion(Applied(v, id, row), k)
  {
    AppliedRows(v, id, row);
    assert HasVersion(v, k);
    var i :| i in v && v[i].version == k;
    assert i in Applied(v, id, row) && Applied(v, id, row)[i].version == k;
  }

  lemma OnlyAppliedIsActive(v: Table, id: RowId, row: Version)
    requires row.active
    ensures OneActive(Applied(v, id, row))
  {
    AppliedRows(v, id, row);
    assert id in Applied(v, id, row) && Applied(v, id, row)[id].active;
  }

  lemma CreatedIsConsistent(v: Table, n: int, id: RowId, row: Version)
    requires NumberedTo(v, n) && OneActive(v) && id !in v && row.version == n + 1 && row.active
    ensures NumberedTo(Applied(v, id, row), n + 1) && OneActive(Applied(v, id, row))
    ensures Applied(v, id, row)[id] == row
  {
    var w := Applied(v, id, row);
    AppliedRows(v, id, row);
    OnlyAppliedIsActive(v, id, row);
    forall k | 1 <= k <= n + 1
      ensures HasVersion(w, k)
    {
      if k <= n {
        AppliedHasVersions(v, n, id, row, k);
      } else {
        assert w[id].version == k;
      }
    }
  }

  lemma ActivatedIsConsistent(v: Table, n: int, id: RowId, row: Version)
    requires NumberedTo(v, n) && OneActive(v) && id in v && row == v[id].(active := true)
    ensures NumberedTo(Applied(v, id, row), n) && OneActive(Applied(v, id, row))
    ensures Applied(v, id, row)[id] == row
  {
    var w := Applied(v, id, row);
    AppliedRows(v, id, row);
    OnlyAppliedIsActive(v, id, row);
    forall k | 1 <= k <= n
      ensures HasVersion(w, k)
    {
      AppliedHasVersions(v, n, id, row, k);
    }
  }

  // ---- Commit ----

  /** A commit changes only rows of the transaction's type. */
  lemma CommitTouchesOneType(s: State, hash: TemplateType -> int, c: ClientId, t: TemplateType)
    requires Consistent(s, hash) && Enabled(s, hash, Commit(c))
    ensures var x := s.txns[c];
            OfType(Seen(s, x), t) ==
              if t == TypeOf(x) then Applied(OfType(s.committed, t), x.saved, SavedRow(x)) else OfType(s.committed, t)
  {
    var x := s.txns[c];
    assert TxnConsistent(s, hash, c);
    var v := OfType(s.committed, TypeOf(x));
    assert forall i :: i in x.writes ==> x.writes[i].templateType == TypeOf(x);
    assert forall i :: i in x.writes && i in s.committed ==> s.committed[i].templateType == TypeOf(x);
  }

  lemma CommitKeepsTypes(s: State, hash: TemplateType -> int, c: ClientId, t: TemplateType)
    requires Consistent(s, hash) && Enabled(s, hash, Commit(c))
    ensures TypeConsistent(Next(s, hash, Commit(c)), t)
  {
    var x := s.txns[c];
    CommitTouchesOneType(s, hash, c, t);
    assert TypeConsistent(s, t) && TxnConsistent(s, hash, c);
    if t == TypeOf(x) {
      var v := OfType(s.committed, t);
      var n :| NumberedTo(v, n);
      if x.op.Create? {
        CreatedIsConsistent(v, x.latest, x.saved, SavedRow(x));
      } else {
        ActivatedIsConsistent(v, n, x.saved, SavedRow(x));
      }
    }
  }

  /** The lock keeps every other transaction's view of its own type unchanged. */
  lemma CommitKeepsOthers(s: State, hash: TemplateType -> int, c: ClientId, d: ClientId)
    requires Consistent(s, hash) && Enabled(s, hash, Commit(c)) && d in s.txns
    ensures TxnConsistent(Next(s, hash, Commit(c)), hash, d)
  {
    var x, y := s.txns[c], s.txns[d];
    assert TxnConsistent(s, hash, c) && TxnConsistent(s, hash, d);
    CommitTouchesOneType(s, hash, c, TypeOf(y));
    if d != c && TypeOf(y) == TypeOf(x) {
      assert !Holding(y);
      var v := OfType(s.committed, TypeOf(y));
      var w := Applied(v, x.saved, SavedRow(x));
      if y.stage.Found? && y.op.Activate? {
        assert w[y.op.id].(active := true) == v[y.op.id].(active := true);
      }
    }
  }

  lemma CommitKeepsConsistent(s: State, hash: TemplateType -> int, c: ClientId)
    requires Consistent(s, hash) && Enabled(s, hash, Commit(c))
    ensures Consistent(Next(s, hash, Commit(c)), hash)
  {
    forall t
      ensures TypeConsistent(Next(s, hash, Commit(c)), t)
    {
      CommitKeepsTypes(s, hash, c, t);
    }
    forall d | d in s.txns
      ensures TxnConsistent(Next(s, hash, Commit(c)), hash, d)
    {
      CommitKeepsOthers(s, hash, c, d);
    }
  }

  // ---- The other steps leave the committed table alone ----

  /** Another client's step does not touch transaction `d`. */
  lemma StepKeepsOthers(s: State, hash: TemplateType -> int, step: Step, d: ClientId)
    requires Consistent(s, hash) && Enabled(s, hash, step) && !step.Commit?
    requires d in s.txns && d != step.c
    ensures TxnConsistent(Next(s, hash, step), hash, d)
  {
    assert TxnConsistent(s, hash, d);
    var next := Next(s, hash, step);
    assert next.committed == s.committed && next.txns[d] == s.txns[d];
  }

  lemma CountKeepsOwn(s: State, hash: TemplateType -> int, c: ClientId, latest: int)
    requires Consistent(s, hash) && Enabled(s, hash, Count(c, latest))
    ensures TxnConsistent(Next(s, hash, Count(c, latest)), hash, c)
  {
    var x := s.txns[c];
    assert TxnConsistent(s, hash, c) && TypeConsistent(s, TypeOf(x));
    assert Seen(s, x) == s.committed;
    var n :| NumberedTo(OfType(s.committed, TypeOf(x)), n);
    LatestIsCount(OfType(s.committed, TypeOf(x)), n, latest);
  }

  lemma DeactivateKeepsOwn(s: State, hash: TemplateType -> int, c: ClientId)
    requires Consistent(s, hash) && Enabled(s, hash, Deactivate(c))
    ensures TxnConsistent(Next(s, hash, Deactivate(c)), hash, c)
  {
    var x := s.txns[c];
    assert TxnConsistent(s, hash, c);
    assert Seen(s, x) == s.committed;
    var off := Deactivations(OfType(s.committed, TypeOf(x)));
    assert x.writes + off == off;
  }

  lemma SaveKeepsOwn(s: State, hash: TemplateType -> int, c: ClientId, id: RowId)
    requires Consistent(s, hash) && Enabled(s, hash, Save(c, id))
    ensures TxnConsistent(Next(s, hash, Save(c, id)), hash, c)
  {
    assert TxnConsistent(s, hash, c);
    var x, y := s.txns[c], Next(s, hash, Save(c, id)).txns[c];
    assert TypeOf(y) == TypeOf(x) && SavedRow(y) == SavedRow(x);
  }

  lemma StepKeepsOwn(s: State, hash: TemplateType -> int, step: Step)
    requires Consistent(s, hash) && Enabled(s, hash, step) && !step.Commit?
    ensures TxnConsistent(Next(s, hash, step), hash, step.c)
  {
    match step {
      case Begin(_, _) =>
      case Find(c) => assert TxnConsistent(s, hash, c);
      case Lock(c) => assert TxnConsistent(s, hash, c);
      case Count(c, latest) => CountKeepsOwn(s, hash, c, latest);
      case Deactivate(c) => DeactivateKeepsOwn(s, hash, c);
      case Save(c, id) => SaveKeepsOwn(s, hash, c, id);
      case Rollback(c) => assert TxnConsistent(s, hash, c);
    }
  }

  lemma StepKeepsConsistent(s: State, hash: TemplateType -> int, step: Step)
    requires Consistent(s, hash) && Enabled(s, hash, step)
    ensures Consistent(Next(s, hash, step), hash)
  {
    if step.Commit? {
      CommitKeepsConsistent(s, hash, step.c);
    } else {
      var next := Next(s, hash, step);
      forall t
        ensures TypeConsistent(next, t)
      {
        assert TypeConsistent(s, t);
      }
      forall d | d in next.txns
        ensures TxnConsistent(next, hash, d)
      {
        if d == step.c {
          StepKeepsOwn(s, hash, step);
        } else {
          StepKeepsOthers(s, hash, step, d);
        }
      }
      StepKeepsNewIds(s, hash, step);
    }
  }

  lemma StepKeepsNewIds(s: State, hash: TemplateType -> int, step: Step)
    requires Consistent(s, hash) && Enabled(s, hash, step) && !step.Commit?
    ensures NewIdsExclusive(Next(s, hash, step))
  {
    if !step.Begin? {
      assert TxnConsistent(s, hash, step.c);
      assert s.committed + map[] == s.committed;
    }
    forall c | c in s.txns
      ensures s.txns[c].stage.Saved? && s.txns[c].op.Create? ==> s.txns[c].saved !in s.committed
    {
      assert TxnConsistent(s, hash, c);
    }
  }

  // ---- Whole runs ----

  ghost predicate Run(s: State, hash: TemplateType -> int, steps: seq<Step>)
    decreases steps
  {
    steps == [] || (Enabled(s, hash, steps[0]) && Run(Next(s, hash, steps[0]), hash, steps[1..]))
  }

  ghost function End(s: State, hash: TemplateType -> int, steps: seq<Step>): State
    requires Run(s, hash, steps)
    decreases steps
  {
    if steps == [] then s else End(Next(s, hash, steps[0]), hash, steps[1..])
  }

  lemma {:induction false} EveryRunIsConsistent(s: State, hash: TemplateType -> int, steps: seq<Step>)
    requires Consistent(s, hash) && Run(s, hash, steps)
    ensures Consistent(End(s, hash, steps), hash)
    decreases steps
  {
    if steps != [] {
      StepKeepsConsistent(s, hash, steps[0]);
      EveryRunIsConsistent(Next(s, hash, steps[0]), hash, steps[1..]);
    }
  }

  // ---- What readers see ----

  /** findOne({ templateType, isActive: true }). */
  ghost function ActiveRow(rows: Table, t: TemplateType): (row: Option<RowId>)
    ensures row.Some? ==> row.value in rows && rows[row.value].templateType == t && rows[row.value].active
    ensures row.None? ==> forall i :: i in rows && rows[i].templateType == t ==> !rows[i].active
  {
    if i :| i in rows && rows[i].templateType == t && rows[i].active then Some(i) else None
  }

  /** resolveDesign: the asked version if it is of the type, else the active one, else the built-in default. */
  ghost function ResolveDesign(rows: Table, t: TemplateType, asked: Option<RowId>, builtIn: Design): Design {
    if asked.Some? && asked.value in OfType(rows, t) then rows[asked.value].design
    else if ActiveRow(rows, t).Some? then rows[ActiveRow(rows, t).value].design
    else builtIn
  }

  lemma ChosenIsActive(s: State, t: TemplateType)
    requires TypeConsistent(s, t)
    ensures ActiveRow(s.committed, t) == if t in s.chosen then Some(s.chosen[t].0) else None
  {
    var v := OfType(s.committed, t);
    var row := ActiveRow(s.committed, t);
    if t in s.chosen {
      var i := s.chosen[t].0;
      assert i in v && v[i].active && s.committed[i].templateType == t;
      assert row.Some?;
      assert row.value in v && v[row.value].active;
    } else {
      assert forall i :: i in s.committed ==> i in v || s.committed[i].templateType != t;
    }
  }

  /**
   In every committed state of every run the default design of a type, and the version id put on outgoing
   mail, are those of the last committed create or activate; without one, the built-in default is used.
   */
  lemma DefaultIsLastCommitted(s: State, hash: TemplateType -> int, steps: seq<Step>, t: TemplateType, builtIn: Design)
    requires Consistent(s, hash) && Run(s, hash, steps)
    ensures var end := End(s, hash, steps);
            && ActiveRow(end.committed, t) == (if t in end.chosen then Some(end.chosen[t].0) else None)
            && ResolveDesign(end.committed, t, None, builtIn) == if t in end.chosen then end.chosen[t].1 else builtIn
  {
    EveryRunIsConsistent(s, hash, steps);
    ChosenIsActive(End(s, hash, steps), t);
  }

  /** In every committed state the versions of a type are exactly 1..n, and one row is active unless there is none. */
  lemma VersionsAreNumbered(s: State, hash: TemplateType -> int, steps: seq<Step>, t: TemplateType)
    requires Consistent(s, hash) && Run(s, hash, steps)
    ensures var v := OfType(End(s, hash, steps).committed, t);
            Numbered(v) && OneActive(v)
  {
    EveryRunIsConsistent(s, hash, steps);
    assert TypeConsistent(End(s, hash, steps), t);
  }

  /** The row activate read before locking may be stale in `active` only, and the stale value is overwritten. */
  lemma StaleReadIsHarmless(s: State, hash: TemplateType -> int, steps: seq<Step>, c: ClientId)
    requires Consistent(s, hash) && Run(s, hash, steps)
    requires var end := End(s, hash, steps);
             c in end.txns && end.txns[c].op.Activate? && (end.txns[c].stage.Found? || Holding(end.txns[c]))
    ensures var end := End(s, hash, steps); var x := end.txns[c];
            x.op.id in end.committed && SavedRow(x) == end.committed[x.op.id].(active := true)
  {
    EveryRunIsConsistent(s, hash, steps);
    assert TxnConsistent(End(s, hash, steps), hash, c);
  }

  lemma OneActiveSeen(s: State, hash: TemplateType -> int, c: ClientId, i: RowId, j: RowId)
    requires c in s.txns && TxnConsistent(s, hash, c)
    requires i in Seen(s, s.txns[c]) && j in Seen(s, s.txns[c])
    requires Seen(s, s.txns[c])[i].active && Seen(s, s.txns[c])[j].active
    requires Seen(s, s.txns[c])[i].templateType == Seen(s, s.txns[c])[j].templateType
    requires OneActive(OfType(s.committed, Seen(s, s.txns[c])[i].templateType))
    ensures i == j
  {
    var x := s.txns[c];
    var v := OfType(s.committed, Seen(s, x)[i].templateType);
    assert i !in x.writes ==> i in v && v[i].active;
    assert j !in x.writes ==> j in v && v[j].active;
  }

  /** Inside a transaction no statement ever shows two active rows of a type, so uq_email_template_active cannot fire. */
  lemma UniqueActiveIndexHolds(s: State, hash: TemplateType -> int, steps: seq<Step>, c: ClientId, i: RowId, j: RowId)
    requires Consistent(s, hash) && Run(s, hash, steps)
    requires c in End(s, hash, steps).txns
    requires var rows := Seen(End(s, hash, steps), End(s, hash, steps).txns[c]);
             i in rows && j in rows && rows[i].active && rows[j].active && rows[i].templateType == rows[j].templateType
    ensures i == j
  {
    EveryRunIsConsistent(s, hash, steps);
    var end := End(s, hash, steps);
    assert TypeConsistent(end, Seen(end, end.txns[c])[i].templateType);
    OneActiveSeen(end, hash, c, i, j);
  }

  /**
   A version asked for by id decides the design while it is of the type, active or not; an id of another type, or of
   no row, is as if none was asked for.
   */
  lemma AskedVersionDecides(s: State, hash: TemplateType -> int, steps: seq<Step>, t: TemplateType, asked: RowId, builtIn: Design)
    requires Consistent(s, hash) && Run(s, hash, steps)
    ensures var end := End(s, hash, steps);
            ResolveDesign(end.committed, t, Some(asked), builtIn) ==
            if asked in end.committed && end.committed[asked].templateType == t then end.committed[asked].design
            else if t in end.chosen then end.chosen[t].1
            else builtIn
  {
    EveryRunIsConsistent(s, hash, steps);
    ChosenIsActive(End(s, hash, steps), t);
  }

  // ---- What create and activate do, undisturbed ----

  lemma RunsOn(s: State, hash: TemplateType -> int, step: Step, rest: seq<Step>)
    requires Enabled(s, hash, step) && Run(Next(s, hash, step), hash, rest)
    ensures Run(s, hash, [step] + rest) && End(s, hash, [step] + rest) == End(Next(s, hash, step), hash, rest)
  {
    assert ([step] + rest)[1..] == rest;
  }

  lemma {:induction false} RunsTogether(s: State, hash: TemplateType -> int, first: seq<Step>, second: seq<Step>)
    requires Run(s, hash, first) && Run(End(s, hash, first), hash, second)
    ensures Run(s, hash, first + second) && End(s, hash, first + second) == End(End(s, hash, first), hash, second)
    decreases first
  {
    if first == [] {
      assert first + second == second;
    } else {
      RunsTogether(Next(s, hash, first[0]), hash, first[1..], second);
      RunsOn(s, hash, first[0], first[1..] + second);
      assert [first[0]] + (first[1..] + second) == first + second;
    }
  }

  /** The other clients' transactions and locks are as they were, and the client's own is over. */
  ghost predicate OnlyEnds(s: State, end: State, c: ClientId) {
    && end.locks == s.locks && end.txns.Keys == s.txns.Keys + {c} && end.txns[c].stage.Ended?
    && forall d :: d in s.txns ==> end.txns[d] == s.txns[d]
  }

  /** create: the rows of the type go inactive, and the new one is the active one after the latest. */
  ghost predicate IsCreated(before: Table, after: Table, t: TemplateType, design: Design, id: RowId) {
    && (forall i :: i in after <==> i in before || i == id)
    && (forall i :: i in before ==> after[i] == if before[i].templateType == t then before[i].(active := false) else before[i])
    && id in after && after[id].templateType == t && after[id].design == design && after[id].active
    && (forall i :: i in before && before[i].templateType == t ==> before[i].version < after[id].version)
    && (after[id].version == 1 || exists i :: i in before && before[i].templateType == t && before[i].version + 1 == after[id].version)
  }

  /** activate: the row found is the active one of its type, and nothing else of any row changes. */
  ghost predicate IsActivated(before: Table, after: Table, id: RowId)
    requires id in before
  {
    && after.Keys == before.Keys && after[id] == before[id].(active := true)
    && forall i :: i in before && i != id ==>
         after[i] == if before[i].templateType == before[id].templateType then before[i].(active := false) else before[i]
  }

  /** The statements of create before the lock, and after it. */
  lemma CreateReachesLock(s: State, hash: TemplateType -> int, c: ClientId, t: TemplateType, design: Design) returns (x: Txn)
    requires c !in s.txns && hash(t) !in s.locks
    ensures var steps := [Begin(c, Create(t, design)), Lock(c)];
            Run(s, hash, steps) && End(s, hash, steps) == s.(txns := s.txns[c := x], locks := s.locks[hash(t) := c])
    ensures x == Txn(Create(t, design), Locked, None, 0, 0, map[])
  {
    x := Txn(Create(t, design), Locked, None, 0, 0, map[]);
    var begun := Next(s, hash, Begin(c, Create(t, design)));
    RunsOn(begun, hash, Lock(c), []);
    assert Next(begun, hash, Lock(c)).txns == s.txns[c := x];
    RunsOn(s, hash, Begin(c, Create(t, design)), [Lock(c)]);
    assert [Begin(c, Create(t, design))] + [Lock(c)] == [Begin(c, Create(t, design)), Lock(c)];
    assert [Lock(c)] + [] == [Lock(c)];
  }

  lemma RunsThree(s: State, hash: TemplateType -> int, first: Step, second: Step, third: Step)
    requires Enabled(s, hash, first) && Enabled(Next(s, hash, first), hash, second)
    requires Enabled(Next(Next(s, hash, first), hash, second), hash, third)
    ensures Run(s, hash, [first, second, third])
    ensures End(s, hash, [first, second, third]) == Next(Next(Next(s, hash, first), hash, second), hash, third)
  {
    var s1 := Next(s, hash, first);
    var s2 := Next(s1, hash, second);
    RunsOn(s2, hash, third, []);
    RunsOn(s1, hash, second, [third]);
    RunsOn(s, hash, first, [second, third]);
    assert [third] + [] == [third] && [second] + [third] == [second, third] && [first] + [second, third] == [first, second, third];
  }

  lemma Deactivates(s: State, hash: TemplateType -> int, c: ClientId)
    requires c in s.txns && Enabled(s, hash, Deactivate(c)) && s.txns[c].writes == map[]
    ensures var x := s.txns[c];
            Next(s, hash, Deactivate(c)) ==
            s.(txns := s.txns[c := x.(stage := Deactivated, writes := Deactivations(OfType(s.committed, TypeOf(x))))])
  {
    var x := s.txns[c];
    assert Seen(s, x) == s.committed;
    var off := Deactivations(OfType(s.committed, TypeOf(x)));
    assert x.writes + off == off;
  }

  ghost predicate MaySave(s: State, c: ClientId, id: RowId)
    requires c in s.txns
  {
    match s.txns[c].op
    case Create(_, _) => id !in s.committed && forall d :: d in s.txns ==> id !in s.txns[d].writes
    case Activate(wanted) => id == wanted
  }

  /** The table a transaction leaves that saves its row under `id`. */
  function Written(s: State, x: Txn, id: RowId): Table {
    s.committed + Deactivations(OfType(s.committed, TypeOf(x)))[id := SavedRow(x)]
  }

  lemma Saves(s: State, hash: TemplateType -> int, c: ClientId, id: RowId)
    requires c in s.txns && Enabled(s, hash, Deactivate(c)) && s.txns[c].writes == map[] && MaySave(s, c, id)
    ensures var s1, x := Next(s, hash, Deactivate(c)), s.txns[c];
            && Enabled(s1, hash, Save(c, id))
            && Next(s1, hash, Save(c, id)) ==
               s.(txns := s.txns[c := x.(stage := Saved, saved := id,
                                         writes := Deactivations(OfType(s.committed, TypeOf(x)))[id := SavedRow(x)])])
  {
    Deactivates(s, hash, c);
    var x := s.txns[c];
    var off := Deactivations(OfType(s.committed, TypeOf(x)));
    assert forall i :: i in off ==> i in s.committed;
    var y := x.(stage := Deactivated, writes := off);
    assert TypeOf(y) == TypeOf(x) && SavedRow(y) == SavedRow(x);
    assert s.txns[c := y][c := y.(stage := Saved, saved := id, writes := off[id := SavedRow(x)])]
           == s.txns[c := x.(stage := Saved, saved := id, writes := off[id := SavedRow(x)])];
  }

  /** The transaction is over, its lock is free, and its table is committed. */
  ghost predicate CommitsTo(s: State, end: State, c: ClientId, table: Table)
    requires c in s.txns
  {
    && end.committed == table
    && end.txns.Keys == s.txns.Keys && end.txns[c].stage.Ended?
    && (forall d :: d in s.txns && d != c ==> end.txns[d] == s.txns[d])
    && end.locks == Unlocked(s, c)
  }

  /** The UPDATE and the save of a transaction that has its lock, and its COMMIT. */
  lemma SaveAndCommit(s: State, hash: TemplateType -> int, c: ClientId, id: RowId)
    requires c in s.txns && Enabled(s, hash, Deactivate(c)) && s.txns[c].writes == map[] && MaySave(s, c, id)
    ensures var steps := [Deactivate(c), Save(c, id), Commit(c)];
            Run(s, hash, steps) && CommitsTo(s, End(s, hash, steps), c, Written(s, s.txns[c], id))
  {
    Saves(s, hash, c, id);
    RunsThree(s, hash, Deactivate(c), Save(c, id), Commit(c));
  }

  lemma LatestIs(v: Table) returns (n: int)
    requires Numbered(v)
    ensures IsLatest(v, n)
  {
    n :| NumberedTo(v, n);
    if n >= 1 {
      assert HasVersion(v, n);
    } else {
      assert v == map[] by {
        assert forall i :: i !in v;
      }
    }
  }

  lemma CreatedTable(before: Table, t: TemplateType, design: Design, id: RowId, n: int)
    requires id !in before && IsLatest(OfType(before, t), n)
    ensures IsCreated(before, before + Deactivations(OfType(before, t))[id := Version(t, n + 1, design, true)], t, design, id)
  {
    var v := OfType(before, t);
    forall i | i in before && before[i].templateType == t
      ensures before[i].version <= n
    {
      assert i in v;
    }
    if n != 0 {
      var i :| i in v && v[i].version == n;
      assert i in before && before[i].templateType == t;
    }
  }

  lemma ActivatedTable(before: Table, id: RowId)
    requires id in before
    ensures IsActivated(before, before + Deactivations(OfType(before, before[id].templateType))[id := before[id].(active := true)], id)
  {
    var v := OfType(before, before[id].templateType);
    var after := before + Deactivations(v)[id := before[id].(active := true)];
    assert forall i :: i in Deactivations(v) ==> i in before;
    assert after.Keys == before.Keys;
  }

  /** The COUNT of a create that has its lock. */
  lemma Counts(s: State, hash: TemplateType -> int, c: ClientId, n: int)
    requires c in s.txns && s.txns[c].op.Create? && s.txns[c].stage.Locked? && s.txns[c].writes == map[]
    requires IsLatest(OfType(s.committed, TypeOf(s.txns[c])), n)
    ensures Enabled(s, hash, Count(c, n))
    ensures var counted := Next(s, hash, Count(c, n));
            counted == s.(txns := s.txns[c := s.txns[c].(stage := Counted, latest := n)]) && Enabled(counted, hash, Deactivate(c))
  {
    assert Seen(s, s.txns[c]) == s.committed;
  }

  lemma LatestOf(s: State, hash: TemplateType -> int, t: TemplateType) returns (n: int)
    requires Consistent(s, hash)
    ensures IsLatest(OfType(s.committed, t), n)
  {
    assert TypeConsistent(s, t);
    n := LatestIs(OfType(s.committed, t));
  }

  /** A design saved as a new version, when the lock of its type is free: the transaction goes through and does just that. */
  lemma CreateAlone(s: State, hash: TemplateType -> int, c: ClientId, t: TemplateType, design: Design, id: RowId)
    returns (steps: seq<Step>)
    requires Consistent(s, hash) && c !in s.txns && hash(t) !in s.locks
    requires (forall k :: k in s.locks ==> s.locks[k] != c) && id !in s.committed && forall d :: d in s.txns ==> id !in s.txns[d].writes
    ensures Run(s, hash, steps)
    ensures IsCreated(s.committed, End(s, hash, steps).committed, t, design, id) && OnlyEnds(s, End(s, hash, steps), c)
  {
    var n := LatestOf(s, hash, t);
    steps := CreateAfter(s, hash, c, t, design, id, n);
    CreatedTable(s.committed, t, design, id, n);
  }

  lemma CreateAfter(s: State, hash: TemplateType -> int, c: ClientId, t: TemplateType, design: Design, id: RowId, n: int)
    returns (steps: seq<Step>)
    requires c !in s.txns && hash(t) !in s.locks && IsLatest(OfType(s.committed, t), n)
    requires (forall k :: k in s.locks ==> s.locks[k] != c) && id !in s.committed && forall d :: d in s.txns ==> id !in s.txns[d].writes
    ensures Run(s, hash, steps) && OnlyEnds(s, End(s, hash, steps), c)
    ensures End(s, hash, steps).committed ==
            s.committed + Deactivations(OfType(s.committed, t))[id := Version(t, n + 1, design, true)]
  {
    var x := CreateReachesLock(s, hash, c, t, design);
    var first := [Begin(c, Create(t, design)), Lock(c)];
    var locked := s.(txns := s.txns[c := x], locks := s.locks[hash(t) := c]);
    CountedAndSaved(locked, hash, c, n, id);
    var last := [Count(c, n)] + [Deactivate(c), Save(c, id), Commit(c)];
    RunsTogether(s, hash, first, last);
    steps := first + last;
    OnlyItEnds(s, locked, End(locked, hash, last), c, x, hash(t), Written(locked, x.(latest := n), id));
  }

  lemma CountedAndSaved(s: State, hash: TemplateType -> int, c: ClientId, n: int, id: RowId)
    requires c in s.txns && s.txns[c].op.Create? && s.txns[c].stage.Locked? && s.txns[c].writes == map[]
    requires IsLatest(OfType(s.committed, TypeOf(s.txns[c])), n)
    requires id !in s.committed && forall d :: d in s.txns ==> id !in s.txns[d].writes
    ensures var steps := [Count(c, n)] + [Deactivate(c), Save(c, id), Commit(c)];
            Run(s, hash, steps) && CommitsTo(s, End(s, hash, steps), c, Written(s, s.txns[c].(latest := n), id))
  {
    Counts(s, hash, c, n);
    var counted := Next(s, hash, Count(c, n));
    var last := [Deactivate(c), Save(c, id), Commit(c)];
    SaveAndCommit(counted, hash, c, id);
    RunsOn(s, hash, Count(c, n), last);
    CountingIsSilent(s, counted, End(counted, hash, last), c, n, id);
  }

  lemma CountingIsSilent(s: State, counted: State, end: State, c: ClientId, n: int, id: RowId)
    requires c in s.txns && counted == s.(txns := s.txns[c := s.txns[c].(stage := Counted, latest := n)])
    requires CommitsTo(counted, end, c, Written(counted, counted.txns[c], id))
    ensures CommitsTo(s, end, c, Written(s, s.txns[c].(latest := n), id))
  {
  }

  /** From the lock on: what the transaction commits, and nothing else of the state it started from. */
  lemma OnlyItEnds(s: State, held: State, end: State, c: ClientId, x: Txn, key: int, table: Table)
    requires c !in s.txns && key !in s.locks && forall k :: k in s.locks ==> s.locks[k] != c
    requires held == s.(txns := s.txns[c := x], locks := s.locks[key := c]) && CommitsTo(held, end, c, table)
    ensures OnlyEnds(s, end, c) && end.committed == table
  {
    var left := Unlocked(held, c);
    assert forall k :: k in held.locks <==> k in s.locks || k == key;
    assert forall k :: k in left <==> k in s.locks;
  }

  /** The statements of activate before the lock, and the lock. */
  lemma ActivateReachesLock(s: State, hash: TemplateType -> int, c: ClientId, id: RowId) returns (x: Txn)
    requires c !in s.txns && id in s.committed && hash(s.committed[id].templateType) !in s.locks
    ensures var steps := [Begin(c, Activate(id)), Find(c), Lock(c)];
            && Run(s, hash, steps)
            && End(s, hash, steps) == s.(txns := s.txns[c := x], locks := s.locks[hash(s.committed[id].templateType) := c])
    ensures x == Txn(Activate(id), Locked, Some(s.committed[id]), 0, 0, map[])
  {
    x := Txn(Activate(id), Locked, Some(s.committed[id]), 0, 0, map[]);
    var begun := Next(s, hash, Begin(c, Activate(id)));
    var found := Next(begun, hash, Find(c));
    assert found == s.(txns := s.txns[c := x.(stage := Found)]);
    assert Next(found, hash, Lock(c)).txns == s.txns[c := x];
    RunsThree(s, hash, Begin(c, Activate(id)), Find(c), Lock(c));
  }

  /** A stored version made the active one, when the lock of its type is free. */
  lemma ActivateAlone(s: State, hash: TemplateType -> int, c: ClientId, id: RowId) returns (steps: seq<Step>)
    requires c !in s.txns && id in s.committed && hash(s.committed[id].templateType) !in s.locks
    requires forall k :: k in s.locks ==> s.locks[k] != c
    ensures Run(s, hash, steps)
    ensures IsActivated(s.committed, End(s, hash, steps).committed, id) && OnlyEnds(s, End(s, hash, steps), c)
  {
    var x := ActivateReachesLock(s, hash, c, id);
    var first := [Begin(c, Activate(id)), Find(c), Lock(c)];
    var locked := End(s, hash, first);
    var last := [Deactivate(c), Save(c, id), Commit(c)];
    SaveAndCommit(locked, hash, c, id);
    RunsTogether(s, hash, first, last);
    steps := first + last;
    ActivatedTable(s.committed, id);
    OnlyItEnds(s, locked, End(locked, hash, last), c, x, hash(s.committed[id].templateType), Written(locked, x, id));
  }

  /** A version that is not there is not activated: the call ends without a lock and without a write. */
  lemma MissingVersionIsRefused(s: State, hash: TemplateType -> int, c: ClientId, id: RowId)
    requires c !in s.txns && id !in s.committed
    ensures var steps := [Begin(c, Activate(id)), Find(c)];
            && Run(s, hash, steps) && OnlyEnds(s, End(s, hash, steps), c)
            && End(s, hash, steps).committed == s.committed && End(s, hash, steps).chosen == s.chosen
  {
    var begun := Next(s, hash, Begin(c, Activate(id)));
    RunsOn(begun, hash, Find(c), []);
    RunsOn(s, hash, Begin(c, Activate(id)), [Find(c)]);
    assert [Find(c)] + [] == [Find(c)] && [Begin(c, Activate(id))] + [Find(c)] == [Begin(c, Activate(id)), Find(c)];
  }

  /** A rollback drops what was written and lets go of the lock, and nothing else. */
  lemma RollbackDropsAll(s: State, hash: TemplateType -> int, c: ClientId)
    requires Enabled(s, hash, Rollback(c))
    ensures c in s.txns
    ensures var t := Next(s, hash, Rollback(c));
            && t.committed == s.committed && t.chosen == s.chosen
            && t.txns[c].stage.Ended? && t.txns[c].writes == map[]
            && (forall d :: d in s.txns && d != c ==> d in t.txns && t.txns[d] == s.txns[d])
            && (forall k :: k in t.locks <==> k in s.locks && s.locks[k] != c) && forall k :: k in t.locks ==> t.locks[k] == s.locks[k]
  {
  }

  /** The statements of a transaction come in their order, each once. */
  lemma StatementsInOrder(s: State, hash: TemplateType -> int, c: ClientId, latest: int, id: RowId)
    requires c in s.txns
    ensures var x := s.txns[c];
            && (Enabled(s, hash, Find(c)) <==> x.op.Activate? && x.stage.Begun?)
            && (Enabled(s, hash, Lock(c)) <==>
                  hash(TypeOf(x)) !in s.locks && ((x.op.Create? && x.stage.Begun?) || (x.op.Activate? && x.stage.Found?)))
            && (Enabled(s, hash, Count(c, latest)) ==> x.op.Create? && x.stage.Locked?)
            && (Enabled(s, hash, Deactivate(c)) <==> (x.op.Create? && x.stage.Counted?) || (x.op.Activate? && x.stage.Locked?))
            && (Enabled(s, hash, Save(c, id)) ==> x.stage.Deactivated? && (x.op.Activate? ==> id == x.op.id))
            && (Enabled(s, hash, Commit(c)) <==> x.stage.Saved?)
            && (Enabled(s, hash, Rollback(c)) <==> !x.stage.Ended?)
  {
  }
}
