/**
 Parent columns (role.parent_role_id, organizational_unit.parent_id, asset_category.parent_id) and the
 no-cycle triggers that guard them. A table is reduced to its parent column, a finite map from row id
 to nullable parent id.
 */
module Hierarchy {
  import opened Options

  /** UUIDs, as integers. */
  type Id = int

  type Parents = map<Id, Option<Id>>

  /** `SELECT parent_id FROM t WHERE id = x`: a missing row reads as NULL. */
  function ParentOf(p: Parents, x: Id): Option<Id> {
    if x in p then p[x] else None
  }

  /** The n-th ancestor of `x`; the 0-th is `x` itself. */
  function Up(p: Parents, x: Id, n: nat): Option<Id> {
    if n == 0 then Some(x)
    else
      match Up(p, x, n - 1)
      case None => None
      case Some(y) => ParentOf(p, y)
  }

  ghost predicate Acyclic(p: Parents) {
    forall x: Id, n: nat :: 0 < n ==> Up(p, x, n) != Some(x)
  }

  /** `target` is `x` or one of its ancestors. */
  ghost predicate Reaches(p: Parents, x: Id, target: Id) {
    exists n: nat :: Up(p, x, n) == Some(target)
  }

  // ---- Walking up ----

  lemma {:induction false} UpSplits(p: Parents, x: Id, m: nat, n: nat)
    ensures Up(p, x, m).None? ==> Up(p, x, m + n).None?
    ensures Up(p, x, m).Some? ==> Up(p, x, m + n) == Up(p, Up(p, x, m).value, n)
  {
    if n > 0 {
      UpSplits(p, x, m, n - 1);
    }
  }

  /** Two columns that differ only at `id` give the same walk up to the first visit of `id`. */
  lemma {:induction false} WalkBeforeChange(p: Parents, q: Parents, id: Id, x: Id, n: nat)
    requires forall y :: y != id ==> ParentOf(p, y) == ParentOf(q, y)
    requires forall k: nat :: k < n ==> Up(p, x, k) != Some(id)
    ensures Up(q, x, n) == Up(p, x, n)
  {
    if n > 0 {
      WalkBeforeChange(p, q, id, x, n - 1);
    }
  }

  /** The first visit of `target` on a walk that meets it. */
  lemma {:induction false} FirstVisit(p: Parents, x: Id, target: Id, n: nat) returns (m: nat)
    requires Up(p, x, n) == Some(target)
    ensures m <= n && Up(p, x, m) == Some(target)
    ensures forall k: nat :: k < m ==> Up(p, x, k) != Some(target)
  {
    m := 0;
    while Up(p, x, m) != Some(target)
      invariant m <= n
      invariant forall k: nat :: k < m ==> Up(p, x, k) != Some(target)
      decreases n - m
    {
      m := m + 1;
    }
  }

  // ---- What a parent change does to the graph ----

  /** Setting a parent whose chain meets the changed row closes a cycle. */
  lemma ReachingParentClosesCycle(p: Parents, id: Id, parent: Id)
    requires Reaches(p, parent, id)
    ensures !Acyclic(p[id := Some(parent)])
  {
    var q := p[id := Some(parent)];
    var n: nat :| Up(p, parent, n) == Some(id);
    var m := FirstVisit(p, parent, id, n);
    WalkBeforeChange(p, q, id, parent, m);
    UpSplits(q, id, 1, m);
    assert Up(q, id, 1) == Some(parent) by { assert Up(q, id, 0) == Some(id); }
    assert Up(q, id, 1 + m) == Some(id);
  }

  /** Any other parent change keeps an acyclic column acyclic. */
  lemma OtherParentKeepsAcyclic(p: Parents, id: Id, parent: Option<Id>)
    requires Acyclic(p)
    requires parent.Some? ==> !Reaches(p, parent.value, id)
    ensures Acyclic(p[id := parent])
  {
    var q := p[id := parent];
    forall x: Id, n: nat | 0 < n
      ensures Up(q, x, n) != Some(x)
    {
      if Up(q, x, n) == Some(x) {
        if k: nat :| k < n && Up(q, x, k) == Some(id) {
          // Rotate the cycle so that it starts at the changed row.
          UpSplits(q, x, k, n - k);
          UpSplits(q, x, n, k);
          UpSplits(q, id, n - k, k);
          assert Up(q, id, n) == Some(id);
          NoReturnToChangedRow(p, id, parent, n);
        } else {
          WalkBeforeChange(q, p, id, x, n);
        }
      }
    }
  }

  lemma NoReturnToChangedRow(p: Parents, id: Id, parent: Option<Id>, n: nat)
    requires parent.Some? ==> !Reaches(p, parent.value, id)
    requires 0 < n
    ensures Up(p[id := parent], id, n) != Some(id)
  {
    var q := p[id := parent];
    UpSplits(q, id, 1, n - 1);
    assert Up(q, id, 1) == parent by { assert Up(q, id, 0) == Some(id); }
    if parent.Some? && Up(q, parent.value, n - 1) == Some(id) {
      var m := FirstVisit(q, parent.value, id, n - 1);
      WalkBeforeChange(q, p, id, parent.value, m);
      assert Up(p, parent.value, m) == Some(id);
    }
  }

  /** The exact condition under which a parent change is harmless. */
  lemma AcyclicAfterChange(p: Parents, id: Id, parent: Option<Id>)
    requires Acyclic(p)
    ensures Acyclic(p[id := parent]) <==> (parent.None? || !Reaches(p, parent.value, id))
  {
    if parent.Some? && Reaches(p, parent.value, id) {
      ReachingParentClosesCycle(p, id, parent.value);
    } else {
      OtherParentKeepsAcyclic(p, id, parent);
    }
  }

  /** Along one walk in an acyclic column no row is met twice. */
  lemma WalkIsInjective(p: Parents, x: Id, i: nat, j: nat)
    requires Acyclic(p)
    requires i < j && Up(p, x, i).Some?
    ensures Up(p, x, i) != Up(p, x, j)
  {
    UpSplits(p, x, i, j - i);
  }

  // ---- The triggers ----

  /**
   fn_check_role_hierarchy_no_cycle: runs before the write, so the table still holds the old parent of
   `id` during the walk. Accepts exactly the changes after which the column is acyclic.
   */
  method CheckRoleHierarchyNoCycle(p: Parents, id: Id, parent: Option<Id>) returns (accepted: bool)
    requires Acyclic(p)
    ensures accepted <==> Acyclic(p[id := parent])
  {
    AcyclicAfterChange(p, id, parent);
    if parent.None? {
      return true;
    }
    accepted := WalkAvoids(p, parent.value, id);
  }

  /**
   fn_check_org_unit_no_cycle and fn_check_asset_category_no_cycle: the same walk behind an explicit test
   for a row that is its own parent.
   */
  method CheckTreeNoCycle(p: Parents, id: Id, parent: Option<Id>) returns (accepted: bool)
    requires Acyclic(p)
    ensures accepted <==> Acyclic(p[id := parent])
  {
    AcyclicAfterChange(p, id, parent);
    if parent.None? {
      return true;
    }
    if parent.value == id {
      assert Up(p, id, 0) == Some(id);
      return false;
    }
    accepted := WalkAvoids(p, parent.value, id);
  }

  ghost predicate MetWithin(p: Parents, x: Id, n: nat, y: Id) {
    exists k: nat :: k < n && Up(p, x, k) == Some(y)
  }

  /** The rows met in the first `n` steps of a walk. */
  lemma {:induction false} RowsMet(p: Parents, x: Id, n: nat) returns (met: set<Id>)
    requires Acyclic(p) && Up(p, x, n).Some?
    ensures |met| == n && met <= p.Keys
    ensures forall y :: y in met ==> MetWithin(p, x, n, y)
  {
    if n == 0 {
      met := {};
    } else {
      var before := RowsMet(p, x, n - 1);
      var y := Up(p, x, n - 1).value;
      if y in before {
        var k: nat :| k < n - 1 && Up(p, x, k) == Some(y);
        WalkIsInjective(p, x, k, n - 1);
      }
      met := before + {y};
    }
  }

  /** A chain in an acyclic table is no longer than the table. */
  lemma WalkIsShort(p: Parents, x: Id, n: nat)
    requires Acyclic(p) && Up(p, x, n).Some?
    ensures n <= |p|
  {
    var met := RowsMet(p, x, n);
    assert p.Keys == met + (p.Keys - met);
  }

  /** The WHILE loop shared by the triggers; it ends because an acyclic chain is no longer than the table. */
  method WalkAvoids(p: Parents, start: Id, id: Id) returns (avoids: bool)
    requires Acyclic(p)
    ensures avoids <==> !Reaches(p, start, id)
  {
    var current := Some(start);
    ghost var n: nat := 0;
    while current.Some?
      invariant current == Up(p, start, n)
      invariant forall k: nat :: k < n ==> Up(p, start, k) != Some(id)
      decreases |p| + 1 - n
    {
      WalkIsShort(p, start, n);
      if current.value == id {
        return false;
      }
      current := ParentOf(p, current.value);
      n := n + 1;
    }
    forall k: nat
      ensures Up(p, start, k) != Some(id)
    {
      if k >= n {
        UpSplits(p, start, n, k - n);
      }
    }
    return true;
  }

  // ---- Whole runs ----

  datatype Change = SetParent(id: Id, parent: Option<Id>) | RemoveRow(id: Id)

  /** The trigger lets the change through. */
  ghost predicate Accepted(p: Parents, c: Change) {
    c.SetParent? && c.parent.Some? ==> !Reaches(p, c.parent.value, c.id)
  }

  function Changed(p: Parents, c: Change): Parents {
    match c
    case SetParent(id, parent) => p[id := parent]
    case RemoveRow(id) => p - {id}
  }

  ghost predicate AcceptedRun(p: Parents, run: seq<Change>)
    decreases run
  {
    run == [] || (Accepted(p, run[0]) && AcceptedRun(Changed(p, run[0]), run[1..]))
  }

  function AfterRun(p: Parents, run: seq<Change>): Parents
    decreases run
  {
    if run == [] then p else AfterRun(Changed(p, run[0]), run[1..])
  }

  /** No sequence of accepted inserts, reparentings and deletes ever closes a cycle. */
  lemma {:induction false} RunsStayAcyclic(p: Parents, run: seq<Change>)
    requires Acyclic(p)
    requires AcceptedRun(p, run)
    ensures Acyclic(AfterRun(p, run))
    decreases run
  {
    if run != [] {
      match run[0] {
        case SetParent(id, parent) =>
          OtherParentKeepsAcyclic(p, id, parent);
        case RemoveRow(id) =>
          RemovalKeepsAcyclic(p, id);
      }
      RunsStayAcyclic(Changed(p, run[0]), run[1..]);
    }
  }

  lemma RemovalKeepsAcyclic(p: Parents, id: Id)
    requires Acyclic(p)
    ensures Acyclic(p - {id})
  {
    OtherParentKeepsAcyclic(p, id, None);
    var q := p[id := None];
    forall x: Id, n: nat | 0 < n
      ensures Up(p - {id}, x, n) != Some(x)
    {
      SameColumnSameWalk(q, p - {id}, x, n);
    }
  }

  lemma {:induction false} SameColumnSameWalk(p: Parents, q: Parents, x: Id, n: nat)
    requires forall y :: ParentOf(p, y) == ParentOf(q, y)
    ensures Up(p, x, n) == Up(q, x, n)
  {
    if n > 0 {
      SameColumnSameWalk(p, q, x, n - 1);
    }
  }
}
