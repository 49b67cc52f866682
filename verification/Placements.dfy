/**
 Cost-centre placement history: CostCenterPlacementService.change closes the current row and opens a new one;
 as-of queries read the history back; the parent check looks 64 levels up.
 */
module Placements {
  import opened Options
  import opened Hierarchy

  datatype Placement = Placement(unit: Option<Id>, parent: Option<Id>, hasMovement: bool)

  datatype Mode = Auto | Manual

  /** A row of cost_center_placement, valid in [from, until). */
  datatype Row = Row(placement: Placement, mode: Mode, from: int, until: Option<int>)

  /** The cost centres as they are, and each one's rows in the order they were inserted. */
  datatype Db = Db(centers: map<Id, Placement>, history: map<Id, seq<Row>>)

  const MAX_DEPTH: nat := 64

  // ---- One history ----

  /** tstzrange(valid_from, valid_until, '[)') contains `at`. */
  predicate ValidAt(row: Row, at: int) {
    row.from <= at && (row.until.None? || row.until.value > at)
  }

  /** Row k ends where row k + 1 starts. */
  predicate Linked(rows: seq<Row>, k: int)
    requires 0 <= k < |rows| - 1
  {
    rows[k].until == Some(rows[k + 1].from) && rows[k].from <= rows[k + 1].from
  }

  /** Rows that follow each other without gap or overlap, the last one open. */
  ghost predicate Chained(rows: seq<Row>) {
    && rows != []
    && rows[|rows| - 1].until.None?
    && forall k :: 0 <= k < |rows| - 1 ==> Linked(rows, k)
  }

  /** UPDATE ... SET valid_until = GREATEST(now, valid_from) WHERE valid_until IS NULL. */
  function Closed(row: Row, now: int): Row {
    if row.until.None? then row.(until := Some(if now > row.from then now else row.from)) else row
  }

  function ClosedRows(rows: seq<Row>, now: int): seq<Row> {
    seq(|rows|, i requires 0 <= i < |rows| => Closed(rows[i], now))
  }

  /** Close the current row and open the next where it ends, or now if none was open. */
  function Replaced(rows: seq<Row>, to: Placement, mode: Mode, now: int): seq<Row> {
    var from := if rows != [] && rows[|rows| - 1].until.None? then Closed(rows[|rows| - 1], now).until.value else now;
    ClosedRows(rows, now) + [Row(to, mode, from, None)]
  }

  /** Whatever the clock says, replacing keeps the rows chained and changes no past row but the end of the last. */
  lemma ReplacedIsChained(rows: seq<Row>, to: Placement, mode: Mode, now: int)
    requires Chained(rows)
    ensures Chained(Replaced(rows, to, mode, now))
    ensures var after := Replaced(rows, to, mode, now);
            && |after| == |rows| + 1
            && (forall k :: 0 <= k < |rows| - 1 ==> after[k] == rows[k])
            && after[|rows| - 1] == rows[|rows| - 1].(until := Some(after[|rows|].from))
            && after[|rows|] == Row(to, mode, if now > rows[|rows| - 1].from then now else rows[|rows| - 1].from, None)
  {
    var after := Replaced(rows, to, mode, now);
    assert forall k :: 0 <= k <= |rows| - 1 ==> after[k].from == rows[k].from;
    forall k | 0 <= k < |rows| - 1
      ensures after[k] == rows[k] && Linked(after, k)
    {
      assert Linked(rows, k);
    }
  }

  lemma {:induction false} StartsAreOrdered(rows: seq<Row>, j: nat, k: nat)
    requires Chained(rows) && j <= k < |rows|
    ensures rows[j].from <= rows[k].from
    decreases k - j
  {
    if j < k {
      StartsAreOrdered(rows, j, k - 1);
      assert Linked(rows, k - 1);
    }
  }

  /** Two rows are never valid at once: the exclusion constraint cannot fire. */
  lemma AtMostOneValid(rows: seq<Row>, j: nat, k: nat, at: int)
    requires Chained(rows) && j < k < |rows|
    ensures !(ValidAt(rows[j], at) && ValidAt(rows[k], at))
  {
    StartsAreOrdered(rows, j + 1, k);
    assert Linked(rows, j);
  }

  /** From the first placement on, exactly one row is valid at every instant. */
  lemma {:induction false} ExactlyOneValid(rows: seq<Row>, at: int)
    requires Chained(rows)
    ensures (exists k :: 0 <= k < |rows| && ValidAt(rows[k], at)) <==> rows[0].from <= at
    ensures forall j, k :: 0 <= j < |rows| && 0 <= k < |rows| && ValidAt(rows[j], at) && ValidAt(rows[k], at) ==> j == k
  {
    forall j, k | 0 <= j < k < |rows|
      ensures !(ValidAt(rows[j], at) && ValidAt(rows[k], at))
    {
      AtMostOneValid(rows, j, k, at);
    }
    if rows[0].from <= at {
      // The last row that has started is the valid one.
      var k := |rows| - 1;
      while rows[k].from > at
        invariant 0 <= k < |rows|
        invariant k < |rows| - 1 ==> rows[k + 1].from > at
        decreases k
      {
        k := k - 1;
      }
      assert k < |rows| - 1 ==> Linked(rows, k);
      assert ValidAt(rows[k], at);
    } else {
      forall k | 0 <= k < |rows|
        ensures !ValidAt(rows[k], at)
      {
        StartsAreOrdered(rows, 0, k);
      }
    }
  }

  /** placementAt: the placement of the row valid at the instant. */
  function AsOf(rows: seq<Row>, at: int): Option<Placement> {
    if rows == [] then None
    else if ValidAt(rows[|rows| - 1], at) then Some(rows[|rows| - 1].placement)
    else AsOf(rows[..|rows| - 1], at)
  }

  lemma {:induction false} AsOfIsTheValidRow(rows: seq<Row>, at: int, k: nat)
    requires k < |rows| && ValidAt(rows[k], at)
    requires forall j :: 0 <= j < |rows| && ValidAt(rows[j], at) ==> j == k
    ensures AsOf(rows, at) == Some(rows[k].placement)
  {
    if k < |rows| - 1 {
      AsOfIsTheValidRow(rows[..|rows| - 1], at, k);
    }
  }

  lemma {:induction false} AsOfNothing(rows: seq<Row>, at: int)
    requires forall j :: 0 <= j < |rows| ==> !ValidAt(rows[j], at)
    ensures AsOf(rows, at) == None
  {
    if rows != [] {
      AsOfNothing(rows[..|rows| - 1], at);
    }
  }

  /** What replacing does to as-of answers: new from the start of the new row on, the same before it. */
  lemma ReplacedAsOf(rows: seq<Row>, to: Placement, mode: Mode, now: int, at: int)
    requires Chained(rows)
    ensures var after := Replaced(rows, to, mode, now);
            AsOf(after, at) == if at >= after[|rows|].from then Some(to) else AsOf(rows, at)
  {
    var after := Replaced(rows, to, mode, now);
    ReplacedIsChained(rows, to, mode, now);
    ExactlyOneValid(after, at);
    ExactlyOneValid(rows, at);
    if at >= after[|rows|].from {
      AsOfIsTheValidRow(after, at, |rows|);
    } else if k: nat :| k < |rows| && ValidAt(rows[k], at) {
      assert ValidAt(after[k], at);
      AsOfIsTheValidRow(after, at, k);
      AsOfIsTheValidRow(rows, at, k);
    } else {
      forall j | 0 <= j < |after|
        ensures !ValidAt(after[j], at)
      {
        if j < |rows| {
          assert !ValidAt(rows[j], at);
        }
      }
      AsOfNothing(after, at);
      AsOfNothing(rows, at);
    }
  }

  // ---- The parent check ----

  function ParentColumn(centers: map<Id, Placement>): Parents {
    map c | c in centers :: centers[c].parent
  }

  /** assertNoCycle: the centre is not among the new parent and its first 64 ancestors. */
  ghost predicate CheckPasses(p: Parents, center: Id, parent: Id) {
    parent != center && parent in p && forall k: nat :: k <= MAX_DEPTH ==> Up(p, parent, k) != Some(center)
  }

  datatype ParentFault = SelfParent | MissingParent | CycleFound

  /** The recursive query, level by level. */
  method AssertNoCycle(p: Parents, center: Id, parent: Id) returns (fault: Option<ParentFault>)
    ensures fault.None? <==> CheckPasses(p, center, parent)
    ensures fault == Some(SelfParent) <==> parent == center
    ensures fault == Some(MissingParent) <==> parent != center && parent !in p
  {
    if parent == center {
      return Some(SelfParent);
    }
    if parent !in p {
      return Some(MissingParent);
    }
    var current := Some(parent);
    var depth: nat := 0;
    while depth <= MAX_DEPTH && current.Some?
      invariant depth <= MAX_DEPTH + 1
      invariant current == Up(p, parent, depth)
      invariant forall k: nat :: k < depth ==> Up(p, parent, k) != Some(center)
    {
      if current.value == center {
        return Some(CycleFound);
      }
      current := ParentOf(p, current.value);
      depth := depth + 1;
    }
    forall k: nat | k <= MAX_DEPTH
      ensures Up(p, parent, k) != Some(center)
    {
      if k >= depth {
        UpSplits(p, parent, depth, k - depth);
      }
    }
    return None;
  }

  /** The centre is an ancestor of `parent` beyond the levels that the check looks at. */
  ghost predicate DeepAncestor(p: Parents, parent: Id, center: Id) {
    exists k: nat :: k > MAX_DEPTH && Up(p, parent, k) == Some(center)
  }

  /** A change that passes keeps the tree acyclic exactly when the centre is not more than 64 levels above its new parent. */
  lemma PassedCheckIsEnoughExactlyWhen(p: Parents, center: Id, parent: Id)
    requires Acyclic(p) && CheckPasses(p, center, parent)
    ensures Acyclic(p[center := Some(parent)]) <==> !DeepAncestor(p, parent, center)
  {
    AcyclicAfterChange(p, center, Some(parent));
    if n: nat :| Up(p, parent, n) == Some(center) {
      assert n > MAX_DEPTH;
    }
  }

  ghost predicate TooDeep(p: Parents, x: Id) {
    Up(p, x, MAX_DEPTH + 1).Some?
  }

  /** No chain of the table is more than 64 levels deep. */
  ghost predicate Shallow(p: Parents) {
    forall x :: !TooDeep(p, x)
  }

  /** In a shallow tree the check is exact. */
  lemma CheckIsExactWhenShallow(p: Parents, center: Id, parent: Id)
    requires Acyclic(p) && Shallow(p) && parent in p
    ensures CheckPasses(p, center, parent) <==> Acyclic(p[center := Some(parent)])
  {
    AcyclicAfterChange(p, center, Some(parent));
    assert !TooDeep(p, parent);
    forall k: nat | k > MAX_DEPTH
      ensures Up(p, parent, k).None?
    {
      UpSplits(p, parent, MAX_DEPTH + 1, k - MAX_DEPTH - 1);
    }
    assert Up(p, parent, 0) == Some(parent);
  }

  predicate OnLadder(c: Id) {
    0 <= c <= 65
  }

  /** 66 centres, each below the next. */
  function Ladder(): Parents {
    map c | 0 <= c <= 65 && OnLadder(c) :: if c < 65 then Some(c + 1) else None
  }

  lemma {:induction false} LadderUp(x: Id, n: nat)
    requires 0 <= x <= 65
    ensures Up(Ladder(), x, n) == if x + n <= 65 then Some(x + n) else None
  {
    if n > 0 {
      LadderUp(x, n - 1);
    }
  }

  /** The check lets the top of a 66-level chain be placed below its bottom, which closes a cycle. */
  lemma DeepCycleIsAccepted()
    ensures Acyclic(Ladder()) && CheckPasses(Ladder(), 65, 0) && !Acyclic(Ladder()[65 := Some(0)])
  {
    forall x: Id, n: nat | 0 < n
      ensures Up(Ladder(), x, n) != Some(x)
    {
      if 0 <= x <= 65 {
        LadderUp(x, n);
      } else {
        UpSplits(Ladder(), x, 1, n - 1);
        assert Up(Ladder(), x, 0) == Some(x);
      }
    }
    forall k: nat | k <= MAX_DEPTH
      ensures Up(Ladder(), 0, k) != Some(65)
    {
      LadderUp(0, k);
    }
    LadderUp(0, 65);
    ReachingParentClosesCycle(Ladder(), 65, 0);
  }

  // ---- The service ----

  datatype Patch = Patch(unit: Option<Option<Id>>, parent: Option<Option<Id>>, hasMovement: Option<bool>)

  function Patched(from: Placement, patch: Patch): Placement {
    Placement(
      if patch.unit.Some? then patch.unit.value else from.unit,
      if patch.parent.Some? then patch.parent.value else from.parent,
      if patch.hasMovement.Some? then patch.hasMovement.value else from.hasMovement)
  }

  /** mode of the row without end, AUTO if there is none. */
  function CurrentMode(rows: seq<Row>): Mode {
    if rows != [] && rows[|rows| - 1].until.None? then rows[|rows| - 1].mode else Auto
  }

  datatype Outcome =
    NoCenter | Unchanged | NoUnit | ArchivedUnit | BadParent(fault: ParentFault) | HasAssets | Placed

  /** When each answer is in place, looked at by itself. */
  ghost predicate Applies(db: Db, units: map<Id, bool>, assets: map<Id, nat>, c: Id, patch: Patch, mode: Option<Mode>, o: Outcome) {
    if c !in db.centers || c !in db.history then o.NoCenter?
    else
      var from, to := db.centers[c], Patched(db.centers[c], patch);
      match o
      case NoCenter => false
      case Unchanged => from == to && (mode.None? || mode.value == CurrentMode(db.history[c]))
      case NoUnit => to.unit != from.unit && to.unit.Some? && to.unit.value !in units
      case ArchivedUnit => to.unit != from.unit && to.unit.Some? && to.unit.value in units && !units[to.unit.value]
      case BadParent(SelfParent) => to.parent != from.parent && to.parent == Some(c)
      case BadParent(MissingParent) => to.parent != from.parent && to.parent.Some? && to.parent.value !in db.centers
      case BadParent(CycleFound) => to.parent != from.parent && to.parent.Some? && IsNear(ParentColumn(db.centers), to.parent.value, c)
      case HasAssets => from.hasMovement && !to.hasMovement && c in assets && assets[c] > 0
      case Placed => true
  }

  /** The centre is the new parent or one of its first 64 ancestors. */
  ghost predicate IsNear(p: Parents, parent: Id, center: Id) {
    exists k: nat :: k <= MAX_DEPTH && Up(p, parent, k) == Some(center)
  }

  /** The order of the answers: an earlier one wins. */
  function Position(o: Outcome): nat {
    match o
    case NoCenter => 0
    case Unchanged => 1
    case NoUnit => 2
    case ArchivedUnit => 3
    case BadParent(SelfParent) => 4
    case BadParent(MissingParent) => 5
    case BadParent(CycleFound) => 6
    case HasAssets => 7
    case Placed => 8
  }

  /** The answer to a change request: the first that applies. */
  ghost predicate IsVerdict(db: Db, units: map<Id, bool>, assets: map<Id, nat>, c: Id, patch: Patch, mode: Option<Mode>, o: Outcome) {
    && Applies(db, units, assets, c, patch, mode, o)
    && forall q :: Position(q) < Position(o) ==> !Applies(db, units, assets, c, patch, mode, q)
  }

  /** There is one answer to every request. */
  lemma VerdictIsUnique(db: Db, units: map<Id, bool>, assets: map<Id, nat>, c: Id, patch: Patch, mode: Option<Mode>, a: Outcome, b: Outcome)
    requires IsVerdict(db, units, assets, c, patch, mode, a) && IsVerdict(db, units, assets, c, patch, mode, b)
    ensures a == b
  {
    assert !(Position(a) < Position(b)) && !(Position(b) < Position(a));
  }

  /** A change the service places is a possible event of a checked run, to a unit in use. */
  lemma PlacedIsChecked(db: Db, units: map<Id, bool>, assets: map<Id, nat>, c: Id, patch: Patch, mode: Option<Mode>, row: Mode, now: int)
    requires Consistent(db) && IsVerdict(db, units, assets, c, patch, mode, Placed)
    ensures c in db.centers
    ensures var e := ChangeAt(c, Patched(db.centers[c], patch), row, now); Possible(db, e) && Checked(db, e)
    ensures var to := Patched(db.centers[c], patch);
            to.unit.Some? && to.unit != db.centers[c].unit ==> to.unit.value in units && units[to.unit.value]
  {
    var to := Patched(db.centers[c], patch);
    assert !Applies(db, units, assets, c, patch, mode, NoUnit) && !Applies(db, units, assets, c, patch, mode, ArchivedUnit);
    if to.parent.Some? && to.parent != db.centers[c].parent {
      assert !Applies(db, units, assets, c, patch, mode, BadParent(SelfParent));
      assert !Applies(db, units, assets, c, patch, mode, BadParent(MissingParent));
      assert !Applies(db, units, assets, c, patch, mode, BadParent(CycleFound));
      assert CheckPasses(ParentColumn(db.centers), c, to.parent.value);
    }
  }

  /** Every centre has a chained history whose last row is how the centre is now. */
  ghost predicate Consistent(db: Db) {
    && db.history.Keys == db.centers.Keys
    && forall c :: c in db.centers ==>
         Chained(db.history[c]) && db.history[c][|db.history[c]| - 1].placement == db.centers[c]
  }

  function Created(db: Db, c: Id, placement: Placement, mode: Mode, at: int): Db {
    Db(db.centers[c := placement], db.history[c := [Row(placement, mode, at, None)]])
  }

  function Relocated(db: Db, c: Id, to: Placement, mode: Mode, now: int): Db {
    Db(db.centers[c := to], db.history[c := Replaced(if c in db.history then db.history[c] else [], to, mode, now)])
  }

  // ---- What a partial change means ----

  const NO_PATCH := Patch(None, None, None)

  /** A request that asks for nothing is answered with nothing to change. */
  lemma EmptyPatchIsUnchanged(db: Db, units: map<Id, bool>, assets: map<Id, nat>, c: Id)
    requires Consistent(db) && c in db.centers
    ensures IsVerdict(db, units, assets, c, NO_PATCH, None, Unchanged)
  {
    assert forall q :: Position(q) < Position(Unchanged) ==> q == NoCenter;
  }

  /** Without an open row the mode in force is automatic, and a change opens its row at its own instant. */
  lemma WithoutOpenRow(rows: seq<Row>, to: Placement, mode: Mode, now: int)
    requires rows == [] || rows[|rows| - 1].until.Some?
    requires forall k :: 0 <= k < |rows| ==> rows[k].until.Some?
    ensures CurrentMode(rows) == Auto && Replaced(rows, to, mode, now) == rows + [Row(to, mode, now, None)]
  {
    assert ClosedRows(rows, now) == rows;
  }

  /** Two patches about different fields give the same placement in either order. */
  lemma DisjointPatchesCommute(from: Placement, p: Patch, q: Patch)
    requires !(p.unit.Some? && q.unit.Some?) && !(p.parent.Some? && q.parent.Some?)
    requires !(p.hasMovement.Some? && q.hasMovement.Some?)
    ensures Patched(Patched(from, p), q) == Patched(Patched(from, q), p)
    ensures Patched(Patched(from, p), p) == Patched(from, p)
  {
  }

  class PlacementService {
    var db: Db
    /** organizational_unit.is_active by unit, and assets not written off by centre. */
    var units: map<Id, bool>
    var assets: map<Id, nat>

    constructor (db: Db, units: map<Id, bool>, assets: map<Id, nat>)
      ensures this.db == db && this.units == units && this.assets == assets
    {
      this.db, this.units, this.assets := db, units, assets;
    }

    /** A new centre and its first row (open, or the deferred trigger when the application opened none). */
    method Create(c: Id, placement: Placement, mode: Mode, createdAt: int)
      requires Consistent(db) && c !in db.centers
      modifies `db
      ensures Consistent(db) && db == Created(old(db), c, placement, mode, createdAt)
    {
      db := Created(db, c, placement, mode, createdAt);
    }

    /** The tests of a change request, in the order the service makes them. */
    method Judge(c: Id, patch: Patch, mode: Option<Mode>) returns (outcome: Outcome)
      requires db.history.Keys == db.centers.Keys
      ensures IsVerdict(db, units, assets, c, patch, mode, outcome)
    {
      if c !in db.centers {
        return NoCenter;
      }
      var from := db.centers[c];
      var to := Patched(from, patch);
      var fromMode := CurrentMode(db.history[c]);
      var toMode := if mode.Some? then mode.value else fromMode;
      if from == to && fromMode == toMode {
        return Unchanged;
      }
      if to.unit.Some? && to.unit != from.unit {
        if to.unit.value !in units {
          return NoUnit;
        }
        if !units[to.unit.value] {
          return ArchivedUnit;
        }
      }
      if to.parent.Some? && to.parent != from.parent {
        var fault := AssertNoCycle(ParentColumn(db.centers), c, to.parent.value);
        if fault.Some? {
          return BadParent(fault.value);
        }
      }
      if !to.hasMovement && from.hasMovement && c in assets && assets[c] > 0 {
        return HasAssets;
      }
      return Placed;
    }

    method Change(c: Id, patch: Patch, mode: Option<Mode>, now: int) returns (outcome: Outcome)
      requires Consistent(db)
      modifies `db
      ensures Consistent(db)
      ensures IsVerdict(old(db), units, assets, c, patch, mode, outcome)
      ensures db == if outcome.Placed?
                    then Relocated(old(db), c, Patched(old(db).centers[c], patch),
                                   if mode.Some? then mode.value else CurrentMode(old(db).history[c]), now)
                    else old(db)
      ensures outcome.Placed? ==>
                && c in old(db).centers && c in db.centers
                && db.centers[c].unit == (if patch.unit.Some? then patch.unit.value else old(db).centers[c].unit)
                && db.centers[c].parent == (if patch.parent.Some? then patch.parent.value else old(db).centers[c].parent)
                && (db.centers[c].hasMovement <==>
                      if patch.hasMovement.Some? then patch.hasMovement.value else old(db).centers[c].hasMovement)
                && db.centers == old(db).centers[c := db.centers[c]]
                && db.history == old(db).history[c := db.history[c]]
                && var before, after := old(db).history[c], db.history[c];
                   && |after| == |before| + 1 && after[..|before| - 1] == before[..|before| - 1]
                   && after[|before| - 1] == before[|before| - 1].(until := Some(after[|before|].from))
                   && after[|before|].placement == db.centers[c] && after[|before|].until.None?
                   && after[|before|].mode == (if mode.Some? then mode.value else before[|before| - 1].mode)
                   && after[|before|].from == (if now > before[|before| - 1].from then now else before[|before| - 1].from)
    {
      outcome := Judge(c, patch, mode);
      if outcome.Placed? {
        var to := Patched(db.centers[c], patch);
        var toMode := if mode.Some? then mode.value else CurrentMode(db.history[c]);
        RelocatedIsConsistent(db, c, to, toMode, now);
        ReplacedIsChained(db.history[c], to, toMode, now);
        db := Relocated(db, c, to, toMode, now);
      }
    }
  }

  lemma RelocatedIsConsistent(db: Db, c: Id, to: Placement, mode: Mode, now: int)
    requires Consistent(db) && c in db.centers
    ensures Consistent(Relocated(db, c, to, mode, now))
  {
    ReplacedIsChained(db.history[c], to, mode, now);
  }

  // ---- Time travel over whole runs ----

  datatype Event =
    | CreateAt(c: Id, placement: Placement, mode: Mode, at: int)
    | ChangeAt(c: Id, placement: Placement, mode: Mode, at: int)

  predicate Possible(db: Db, e: Event) {
    if e.CreateAt? then e.c !in db.centers else e.c in db.centers
  }

  function Applied(db: Db, e: Event): Db {
    if e.CreateAt? then Created(db, e.c, e.placement, e.mode, e.at) else Relocated(db, e.c, e.placement, e.mode, e.at)
  }

  const EMPTY_DB := Db(map[], map[])

  /** The state after the first `n` events. */
  function After(events: seq<Event>, n: nat): Db
    requires n <= |events|
  {
    if n == 0 then EMPTY_DB else Applied(After(events, n - 1), events[n - 1])
  }

  predicate PossibleAt(events: seq<Event>, n: nat)
    requires n < |events|
  {
    Possible(After(events, n), events[n])
  }

  /** A run in commit order on a clock that does not go back. */
  ghost predicate Run(events: seq<Event>) {
    && (forall n :: 0 <= n < |events| ==> PossibleAt(events, n))
    && (forall m, n :: 0 <= m <= n < |events| ==> events[m].at <= events[n].at)
  }

  /** The placements of all centres as the history says they were at an instant. */
  function SnapshotAt(db: Db, at: int): map<Id, Placement> {
    map c | c in db.history && AsOf(db.history[c], at).Some? :: AsOf(db.history[c], at).value
  }

  /** Rows start no later than the last event. */
  ghost predicate StartedBy(db: Db, last: int) {
    forall c, k :: c in db.history && 0 <= k < |db.history[c]| ==> db.history[c][k].from <= last
  }

  /** One centre after one event. */
  lemma CenterAfterEvent(db: Db, e: Event, at: int, c: Id)
    requires Consistent(db) && Possible(db, e) && StartedBy(db, e.at) && c in Applied(db, e).history
    ensures var rows := Applied(db, e).history[c];
            && Chained(rows) && rows[|rows| - 1].placement == Applied(db, e).centers[c]
            && (forall k :: 0 <= k < |rows| ==> rows[k].from <= e.at)
            && AsOf(rows, at) ==
               if c == e.c && at >= e.at then Some(e.placement)
               else if c in db.history then AsOf(db.history[c], at)
               else None
  {
    if c == e.c {
      if e.CreateAt? {
        var rows := [Row(e.placement, e.mode, e.at, None)];
        assert rows[..0] == [];
      } else {
        ReplacedIsChained(db.history[c], e.placement, e.mode, e.at);
        ReplacedAsOf(db.history[c], e.placement, e.mode, e.at, at);
      }
    }
  }

  lemma EventKeepsConsistent(db: Db, e: Event)
    requires Consistent(db) && Possible(db, e) && StartedBy(db, e.at)
    ensures Consistent(Applied(db, e)) && StartedBy(Applied(db, e), e.at)
  {
    var after := Applied(db, e);
    forall c | c in after.history
      ensures Chained(after.history[c]) && after.history[c][|after.history[c]| - 1].placement == after.centers[c]
      ensures forall k :: 0 <= k < |after.history[c]| ==> after.history[c][k].from <= e.at
    {
      CenterAfterEvent(db, e, e.at, c);
    }
  }

  /** Snapshots follow from the answers for each centre. */
  lemma SnapshotByCenter(db: Db, after: Db, c: Id, now: Option<Placement>, at: int)
    requires after.history.Keys == db.history.Keys + {c}
    requires forall d :: d in after.history ==>
               AsOf(after.history[d], at) ==
               if d == c && now.Some? then now else if d in db.history then AsOf(db.history[d], at) else None
    ensures SnapshotAt(after, at) == if now.Some? then SnapshotAt(db, at)[c := now.value] else SnapshotAt(db, at)
  {
    var left := SnapshotAt(after, at);
    var right := if now.Some? then SnapshotAt(db, at)[c := now.value] else SnapshotAt(db, at);
    forall d
      ensures d in left <==> d in right
      ensures d in left ==> left[d] == right[d]
    {
    }
  }

  lemma AppliedSnapshot(db: Db, e: Event, at: int)
    requires Consistent(db) && Possible(db, e) && StartedBy(db, e.at)
    ensures at < e.at ==> SnapshotAt(Applied(db, e), at) == SnapshotAt(db, at)
    ensures at >= e.at ==> SnapshotAt(Applied(db, e), at) == SnapshotAt(db, at)[e.c := e.placement]
  {
    var after := Applied(db, e);
    forall c | c in after.history
      ensures AsOf(after.history[c], at) ==
              if c == e.c && at >= e.at then Some(e.placement)
              else if c in db.history then AsOf(db.history[c], at)
              else None
    {
      CenterAfterEvent(db, e, at, c);
    }
    SnapshotByCenter(db, after, e.c, if at >= e.at then Some(e.placement) else None, at);
  }

  /** The state is consistent, every row has started by `last`, and from then on the history gives the live state. */
  ghost predicate UpToDate(db: Db, last: int) {
    Consistent(db) && StartedBy(db, last) && forall at :: at >= last ==> SnapshotAt(db, at) == db.centers
  }

  lemma EventKeepsUpToDate(db: Db, e: Event, last: int)
    requires UpToDate(db, last) && Possible(db, e) && last <= e.at
    ensures UpToDate(Applied(db, e), e.at)
  {
    assert StartedBy(db, e.at);
    EventKeepsConsistent(db, e);
    forall at | at >= e.at
      ensures SnapshotAt(Applied(db, e), at) == Applied(db, e).centers
    {
      AppliedSnapshot(db, e, at);
    }
  }

  /** The time of the n-th event, or of the first before any. */
  function TimeOf(events: seq<Event>, n: nat): int
    requires n <= |events| && events != []
  {
    if n == 0 then events[0].at else events[n - 1].at
  }

  lemma {:induction false} RunIsUpToDate(events: seq<Event>, n: nat)
    requires Run(events) && n <= |events| && events != []
    ensures UpToDate(After(events, n), TimeOf(events, n))
  {
    if n == 0 {
      assert forall at :: SnapshotAt(EMPTY_DB, at) == map[];
    } else {
      RunIsUpToDate(events, n - 1);
      assert PossibleAt(events, n - 1);
      EventKeepsUpToDate(After(events, n - 1), events[n - 1], TimeOf(events, n - 1));
    }
  }

  /** Later events never change what the history says about an earlier instant. */
  lemma {:induction false} PastIsFixed(events: seq<Event>, m: nat, n: nat, at: int)
    requires Run(events) && m <= n <= |events|
    requires forall k :: m <= k < n ==> at < events[k].at
    ensures SnapshotAt(After(events, n), at) == SnapshotAt(After(events, m), at)
    decreases n - m
  {
    if m < n {
      PastIsFixed(events, m, n - 1, at);
      RunIsUpToDate(events, n - 1);
      assert PossibleAt(events, n - 1);
      PastStep(After(events, n - 1), events[n - 1], TimeOf(events, n - 1), at);
    }
  }

  lemma PastStep(db: Db, e: Event, last: int, at: int)
    requires UpToDate(db, last) && Possible(db, e) && last <= e.at && at < e.at
    ensures SnapshotAt(Applied(db, e), at) == SnapshotAt(db, at)
  {
    assert StartedBy(db, e.at);
    AppliedSnapshot(db, e, at);
  }

  /** At every instant the history answers with the state the system was in: after the last event up to then. */
  lemma HistoryReplays(events: seq<Event>, m: nat, at: int)
    requires Run(events) && m <= |events|
    requires m > 0 ==> events[m - 1].at <= at
    requires m < |events| ==> at < events[m].at
    ensures SnapshotAt(After(events, |events|), at) == After(events, m).centers
  {
    if events == [] {
      assert SnapshotAt(EMPTY_DB, at) == map[];
    } else {
      RunIsUpToDate(events, m);
      PastIsFixed(events, m, |events|, at);
    }
  }

  lemma {:induction false} EventsUpTo(events: seq<Event>, at: int) returns (m: nat)
    requires Run(events)
    ensures m <= |events| && (m > 0 ==> events[m - 1].at <= at) && (m < |events| ==> at < events[m].at)
  {
    m := |events|;
    while m > 0 && events[m - 1].at > at
      invariant m <= |events| && (m < |events| ==> at < events[m].at)
    {
      m := m - 1;
    }
  }

  /** The tree at every past instant is acyclic if each live state was. */
  lemma PastTreesAreAcyclic(events: seq<Event>, at: int)
    requires Run(events)
    requires forall n :: 0 <= n <= |events| ==> Acyclic(ParentColumn(After(events, n).centers))
    ensures Acyclic(ParentColumn(SnapshotAt(After(events, |events|), at)))
  {
    var m := EventsUpTo(events, at);
    HistoryReplays(events, m, at);
  }

  // ---- Runs of changes that the service checked ----

  /** Foreign keys of the new placement, and assertNoCycle when its parent changes. */
  ghost predicate Checked(db: Db, e: Event) {
    var parent := e.placement.parent;
    || parent.None?
    || (e.CreateAt? && parent.value in db.centers)
    || (e.ChangeAt? && e.c in db.centers && (parent == db.centers[e.c].parent
                                             || CheckPasses(ParentColumn(db.centers), e.c, parent.value)))
  }

  /** A new centre under no parent or one that exists is a step of a checked run. */
  lemma CreatedIsChecked(db: Db, c: Id, placement: Placement, mode: Mode, at: int)
    requires c !in db.centers && (placement.parent.Some? ==> placement.parent.value in db.centers)
    ensures Possible(db, CreateAt(c, placement, mode, at)) && Checked(db, CreateAt(c, placement, mode, at))
  {
  }

  ghost predicate CheckedAt(events: seq<Event>, n: nat)
    requires n < |events|
  {
    Checked(After(events, n), events[n]) && Shallow(ParentColumn(After(events, n).centers))
  }

  ghost predicate ParentsExist(p: Parents) {
    forall x :: x in p && p[x].Some? ==> p[x].value in p
  }

  lemma {:induction false} ChainStaysInside(p: Parents, x: Id, n: nat)
    requires ParentsExist(p) && x in p && Up(p, x, n).Some?
    ensures Up(p, x, n).value in p
  {
    if n > 0 {
      ChainStaysInside(p, x, n - 1);
    }
  }

  lemma CheckedChangeKeepsTree(db: Db, e: Event)
    requires Possible(db, e) && Checked(db, e)
    requires var p := ParentColumn(db.centers); Acyclic(p) && ParentsExist(p) && Shallow(p)
    ensures var p := ParentColumn(Applied(db, e).centers); Acyclic(p) && ParentsExist(p)
  {
    var p, parent := ParentColumn(db.centers), e.placement.parent;
    assert ParentColumn(Applied(db, e).centers) == p[e.c := parent];
    if parent.None? {
      AcyclicAfterChange(p, e.c, parent);
    } else if e.CreateAt? {
      forall n: nat
        ensures Up(p, parent.value, n) != Some(e.c)
      {
        if Up(p, parent.value, n).Some? {
          ChainStaysInside(p, parent.value, n);
        }
      }
      AcyclicAfterChange(p, e.c, parent);
    } else if parent == db.centers[e.c].parent {
      assert p[e.c := parent] == p;
    } else {
      CheckIsExactWhenShallow(p, e.c, parent.value);
    }
  }

  lemma {:induction false} CheckedRunIsAcyclic(events: seq<Event>, n: nat)
    requires Run(events) && n <= |events| && forall k :: 0 <= k < n ==> CheckedAt(events, k)
    ensures Acyclic(ParentColumn(After(events, n).centers)) && ParentsExist(ParentColumn(After(events, n).centers))
  {
    if n == 0 {
      forall x: Id, m: nat | 0 < m
        ensures Up(map[], x, m) != Some(x)
      {
        UpSplits(map[], x, 1, m - 1);
        assert Up(map[], x, 0) == Some(x);
      }
      assert ParentColumn(EMPTY_DB.centers) == map[];
    } else {
      CheckedRunIsAcyclic(events, n - 1);
      assert PossibleAt(events, n - 1) && CheckedAt(events, n - 1);
      CheckedChangeKeepsTree(After(events, n - 1), events[n - 1]);
    }
  }

  /** What the service checks is enough while trees have at most 64 levels: the tree is acyclic at every past instant. */
  lemma CheckedRunsKeepPastTrees(events: seq<Event>, at: int)
    requires Run(events) && forall n :: 0 <= n < |events| ==> CheckedAt(events, n)
    ensures Acyclic(ParentColumn(SnapshotAt(After(events, |events|), at)))
  {
    forall n | 0 <= n <= |events|
      ensures Acyclic(ParentColumn(After(events, n).centers))
    {
      CheckedRunIsAcyclic(events, n);
    }
    PastTreesAreAcyclic(events, at);
  }
}
