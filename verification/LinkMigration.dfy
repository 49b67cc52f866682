/** Migration 1767225840000 over email_template: a converted copy becomes the active version, and back. */
module LinkMigration {
  import opened Options
  import opened RichText
  import opened LinkTokens
  import opened LinkConversion

  type RowId = int

  datatype Row = Row(
    templateType: string, version: int, subject: string, blocks: seq<Block>, active: bool,
    createdBy: Option<int>, activatedBy: Option<int>, hasBody: bool)

  type Table = map<RowId, Row>

  type Variables = map<string, Links>

  function Conversion(v: Variables, row: Row): Option<seq<Block>> {
    ConvertLinkVariables(v, row.templateType, row.blocks)
  }

  /** uq_email_template_active: at most one active row per type. */
  ghost predicate OneActivePerType(rows: Table) {
    forall i, j ::
      (i in rows && j in rows && rows[i].active && rows[j].active && rows[i].templateType == rows[j].templateType) ==> i == j
  }

  /** A result list of a query: each id once. */
  ghost predicate Distinct(ids: seq<RowId>) {
    forall a, b :: 0 <= a < b < |ids| ==> ids[a] != ids[b]
  }

  // ---- up ----

  /** max(version) + 1 over the rows of the type. */
  ghost predicate IsNextVersion(rows: Table, templateType: string, n: int) {
    && (forall i :: i in rows && rows[i].templateType == templateType ==> rows[i].version < n)
    && (exists i :: i in rows && rows[i].templateType == templateType && rows[i].version == n - 1)
  }

  method NextVersion(rows: Table, seed: RowId) returns (n: int)
    requires seed in rows
    ensures IsNextVersion(rows, rows[seed].templateType, n)
  {
    n := rows[seed].version + 1;
    var pending := rows.Keys;
    while pending != {}
      invariant pending <= rows.Keys
      invariant forall i :: i in rows.Keys - pending && rows[i].templateType == rows[seed].templateType ==> rows[i].version < n
      invariant exists i :: i in rows && rows[i].templateType == rows[seed].templateType && rows[i].version == n - 1
    {
      var i := Pick(pending);
      if rows[i].templateType == rows[seed].templateType && rows[i].version >= n {
        n := rows[i].version + 1;
      }
      pending := pending - {i};
    }
  }

  function Copy(source: Row, blocks: seq<Block>, version: int): Row {
    Row(source.templateType, version, source.subject, blocks, true, None, None, false)
  }

  /** The table after the first `n` active rows were handled; `drawn` are the ids of the inserted copies. */
  ghost predicate UpDone(v: Variables, before: Table, after: Table, ids: seq<RowId>, drawn: seq<RowId>, n: nat)
    requires n <= |ids| == |drawn| && forall k :: 0 <= k < |ids| ==> ids[k] in before
  {
    && OthersKept(before, after, ids[..n])
    && (forall k :: 0 <= k < n ==> Handled(v, before, after, ids[k], drawn[k]))
    && OnlyCopiesAdded(before, after, drawn[..n])
  }

  ghost predicate OthersKept(before: Table, after: Table, handled: seq<RowId>) {
    && (forall i :: i in before ==> i in after)
    && (forall i :: i in before && i !in handled ==> after[i] == before[i])
  }

  ghost predicate OnlyCopiesAdded(before: Table, after: Table, copies: seq<RowId>) {
    forall i :: i in after && i !in before ==> i in copies
  }

  /** One active row: left alone without a conversion, else replaced by its converted copy. */
  ghost predicate Handled(v: Variables, before: Table, after: Table, id: RowId, copy: RowId)
    requires id in before
  {
    var converted := Conversion(v, before[id]);
    && id in after
    && (converted.None? ==> after[id] == before[id] && copy !in after)
    && (converted.Some? ==>
          && after[id] == before[id].(active := false)
          && copy in after
          && after[copy] == Copy(before[id], converted.value, after[copy].version)
          && IsNextVersion(before, before[id].templateType, after[copy].version))
  }

  /** The active rows, as up and the unique index see them, and unused ids for the copies. */
  ghost predicate UpInput(rows: Table, ids: seq<RowId>, drawn: seq<RowId>) {
    && OneActivePerType(rows)
    && |ids| == |drawn| && Distinct(ids) && Distinct(drawn)
    && (forall k :: 0 <= k < |ids| ==> ids[k] in rows && rows[ids[k]].active)
    && (forall i :: i in rows && rows[i].active ==> i in ids)
    && (forall d :: d in drawn ==> d !in rows)
  }

  // ---- down ----

  predicate Created(row: Row) {
    row.createdBy.None? && row.activatedBy.None? && !row.hasBody
  }

  /** `other` could be the row that `row` was converted from. */
  predicate IsCandidate(v: Variables, rows: Table, id: RowId, other: RowId)
    requires id in rows && other in rows
  {
    && rows[other].templateType == rows[id].templateType
    && other != id
    && rows[other].subject == rows[id].subject
    && Conversion(v, rows[other]) == Some(rows[id].blocks)
  }

  /** rows.find(...): the first candidate in query order, from position `k`. */
  function FindSource(v: Variables, rows: Table, ordered: seq<RowId>, id: RowId, k: nat): (s: Option<RowId>)
    requires id in rows && (forall i :: i in ordered ==> i in rows) && k <= |ordered|
    ensures s.Some? ==> s.value in rows && s.value in ordered && IsCandidate(v, rows, id, s.value)
    ensures s.None? ==> forall j :: k <= j < |ordered| ==> !IsCandidate(v, rows, id, ordered[j])
    decreases |ordered| - k
  {
    if k == |ordered| then None
    else if IsCandidate(v, rows, id, ordered[k]) then Some(ordered[k])
    else FindSource(v, rows, ordered, id, k + 1)
  }

  /** ORDER BY template_type, version DESC, as far as one type is concerned. */
  ghost predicate DescendingVersions(rows: Table, ordered: seq<RowId>) {
    && Distinct(ordered)
    && (forall i :: i in ordered <==> i in rows)
    && (forall a, b :: 0 <= a < b < |ordered| && rows[ordered[a]].templateType == rows[ordered[b]].templateType ==>
          rows[ordered[a]].version >= rows[ordered[b]].version)
  }

  /** One turn of down's loop on the current rows; the source was looked up in the rows read at the start. */
  function DownStep(v: Variables, read: Table, ordered: seq<RowId>, rows: Table, id: RowId): Table
    requires id in read && forall i :: i in ordered ==> i in read
  {
    if !Created(read[id]) then rows
    else
      var source := FindSource(v, read, ordered, id, 0);
      if source.None? then rows
      else
        var rest := rows - {id};
        if read[id].active && source.value in rest then rest[source.value := rest[source.value].(active := true)] else rest
  }

  function DownTo(v: Variables, read: Table, ordered: seq<RowId>, n: nat): Table
    requires n <= |ordered| && forall i :: i in ordered ==> i in read
  {
    if n == 0 then read else DownStep(v, read, ordered, DownTo(v, read, ordered, n - 1), ordered[n - 1])
  }

  class TemplateTable {
    var rows: Table

    constructor (rows: Table)
      ensures this.rows == rows
    {
      this.rows := rows;
    }

    /** up: after every statement at most one row of each type is active. */
    method Up(v: Variables, ids: seq<RowId>, drawn: seq<RowId>)
      requires UpInput(rows, ids, drawn)
      modifies this
      ensures UpDone(v, old(rows), rows, ids, drawn, |ids|)
      ensures OneActivePerType(rows)
    {
      for n := 0 to |ids|
        invariant UpDone(v, old(rows), rows, ids, drawn, n)
        invariant OneActivePerType(rows)
      {
        var id, copy := ids[n], drawn[n];
        assert id in old(rows) && id !in ids[..n] && copy !in old(rows);
        assert copy !in rows;
        ghost var before := rows;
        var row := rows[id];
        var blocks := Conversion(v, row);
        if blocks.Some? {
          rows := rows[id := row.(active := false)];
          assert OneActivePerType(rows);
          SameVersions(v, old(rows), before, rows, ids, drawn, n);
          var version := NextVersion(rows, id);
          rows := rows[copy := Copy(row, blocks.value, version)];
          NoOtherActive(before, rows, id, copy);
          assert OneActivePerType(rows);
        }
        assert Handled(v, old(rows), rows, id, copy);
        HandledStays(v, old(rows), before, rows, ids, drawn, n);
      }
    }

    /** down, with `ordered` the query result it starts from: after every statement at most one row of each type is active. */
    method Down(v: Variables, ordered: seq<RowId>)
      requires OneActivePerType(rows) && Distinct(ordered) && forall i :: i in ordered ==> i in rows
      modifies this
      ensures rows == DownTo(v, old(rows), ordered, |ordered|)
      ensures OneActivePerType(rows)
    {
      var read := rows;
      for n := 0 to |ordered|
        invariant rows == DownTo(v, read, ordered, n)
        invariant OneActivePerType(rows)
      {
        var id := ordered[n];
        DownKeepsUnmet(v, read, ordered, n);
        if Created(read[id]) {
          var source := FindSource(v, read, ordered, id, 0);
          if source.Some? {
            rows := rows - {id};
            assert OneActivePerType(rows);
            if read[id].active && source.value in rows {
              rows := rows[source.value := rows[source.value].(active := true)];
              assert OneActivePerType(rows);
            }
          }
        }
      }
    }
  }

  // ---- Lemmas for down's loop ----

  /** No row changes its type, and the rows not met yet are there, active if they were when read. */
  ghost predicate UnmetKept(read: Table, rows: Table, unmet: seq<RowId>) {
    && (forall i :: i in rows ==> i in read && rows[i].templateType == read[i].templateType)
    && (forall i :: i in unmet && i in read ==> i in rows && (read[i].active ==> rows[i].active))
  }

  lemma {:induction false} DownKeepsUnmet(v: Variables, read: Table, ordered: seq<RowId>, n: nat)
    requires n <= |ordered| && Distinct(ordered) && forall i :: i in ordered ==> i in read
    ensures UnmetKept(read, DownTo(v, read, ordered, n), ordered[n..])
  {
    if n > 0 {
      DownKeepsUnmet(v, read, ordered, n - 1);
      assert forall i :: i in ordered[n..] ==> i in ordered[n - 1..] && i != ordered[n - 1];
    }
  }

  /** The unique index never stops down, from any table that meets it. */
  lemma {:induction false} DownKeepsOneActive(v: Variables, read: Table, ordered: seq<RowId>, n: nat)
    requires OneActivePerType(read) && n <= |ordered| && Distinct(ordered) && forall i :: i in ordered ==> i in read
    ensures OneActivePerType(DownTo(v, read, ordered, n))
  {
    if n > 0 {
      DownKeepsOneActive(v, read, ordered, n - 1);
      DownKeepsUnmet(v, read, ordered, n - 1);
      assert ordered[n - 1] in ordered[n - 1..];
    }
  }

  // ---- Lemmas for up ----

  /** Before the copy of row n is inserted its type has the versions it had at the start. */
  lemma SameVersions(v: Variables, start: Table, before: Table, now: Table, ids: seq<RowId>, drawn: seq<RowId>, n: nat)
    requires UpInput(start, ids, drawn) && n < |ids| && UpDone(v, start, before, ids, drawn, n)
    requires ids[n] in before && now == before[ids[n] := before[ids[n]].(active := false)]
    ensures forall k :: IsNextVersion(now, start[ids[n]].templateType, k) ==> IsNextVersion(start, start[ids[n]].templateType, k)
    ensures before[ids[n]] == start[ids[n]]
  {
    var t := start[ids[n]].templateType;
    forall k | 0 <= k < n
      ensures start[ids[k]].templateType != t && Handled(v, start, before, ids[k], drawn[k])
    {
    }
    forall i | i in now && now[i].templateType == t
      ensures i in start && start[i].templateType == t && start[i].version == now[i].version
    {
    }
    forall i | i in start && start[i].templateType == t
      ensures i in now && now[i].templateType == t && now[i].version == start[i].version
    {
    }
  }

  /** Replacing the active row of a type by a copy keeps one active row per type. */
  lemma NoOtherActive(before: Table, now: Table, id: RowId, copy: RowId)
    requires OneActivePerType(before) && id in before && before[id].active && copy !in before
    requires copy in now && now[copy].templateType == before[id].templateType
    requires now == before[id := before[id].(active := false)][copy := now[copy]]
    ensures OneActivePerType(now)
  {
  }

  lemma HandledStays(v: Variables, start: Table, before: Table, now: Table, ids: seq<RowId>, drawn: seq<RowId>, n: nat)
    requires UpInput(start, ids, drawn) && n < |ids| && UpDone(v, start, before, ids, drawn, n)
    requires forall i :: i in before && i != ids[n] ==> i in now && now[i] == before[i]
    requires forall i :: i in now && i !in before ==> i == drawn[n]
    requires Handled(v, start, now, ids[n], drawn[n])
    ensures UpDone(v, start, now, ids, drawn, n + 1)
  {
    assert ids[..n + 1] == ids[..n] + [ids[n]] && drawn[..n + 1] == drawn[..n] + [drawn[n]];
    OthersStay(start, before, now, ids[..n], ids[n]);
    CopiesStay(start, before, now, drawn[..n], drawn[n]);
    forall k | 0 <= k < n
      ensures Handled(v, start, now, ids[k], drawn[k])
    {
      EarlierStaysHandled(v, start, before, now, ids, drawn, n, k);
    }
  }

  lemma EarlierStaysHandled(v: Variables, start: Table, before: Table, now: Table, ids: seq<RowId>, drawn: seq<RowId>,
                            n: nat, k: nat)
    requires UpInput(start, ids, drawn) && k < n < |ids| && UpDone(v, start, before, ids, drawn, n)
    requires forall i :: i in before && i != ids[n] ==> i in now && now[i] == before[i]
    requires forall i :: i in now && i !in before ==> i == drawn[n]
    ensures Handled(v, start, now, ids[k], drawn[k])
  {
    assert Handled(v, start, before, ids[k], drawn[k]);
    StaysHandled(v, start, before, now, ids[k], drawn[k]);
  }

  lemma OthersStay(start: Table, before: Table, now: Table, handled: seq<RowId>, id: RowId)
    requires OthersKept(start, before, handled) && id in now
    requires forall i :: i in before && i != id ==> i in now && now[i] == before[i]
    ensures OthersKept(start, now, handled + [id])
  {
  }

  lemma CopiesStay(start: Table, before: Table, now: Table, copies: seq<RowId>, copy: RowId)
    requires OnlyCopiesAdded(start, before, copies)
    requires forall i :: i in now && i !in before ==> i == copy
    ensures OnlyCopiesAdded(start, now, copies + [copy])
  {
  }

  lemma StaysHandled(v: Variables, start: Table, before: Table, now: Table, id: RowId, copy: RowId)
    requires id in start && Handled(v, start, before, id, copy)
    requires id in now && now[id] == before[id]
    requires copy in before ==> copy in now && now[copy] == before[copy]
    requires copy in now ==> copy in before
    ensures Handled(v, start, now, id, copy)
  {
  }

  // ---- Down after up ----

  /** The setting of the round trip: no version looks like a copy before, `after` is what up left, `ordered` is down's query. */
  ghost predicate UpThenRead(v: Variables, before: Table, after: Table, ids: seq<RowId>, drawn: seq<RowId>, ordered: seq<RowId>) {
    && UpInput(before, ids, drawn)
    && (forall i :: i in before ==> !Created(before[i]))
    && UpDone(v, before, after, ids, drawn, |ids|)
    && DescendingVersions(after, ordered)
  }

  lemma HandledAll(v: Variables, before: Table, after: Table, ids: seq<RowId>, drawn: seq<RowId>, k: nat)
    requires UpInput(before, ids, drawn) && UpDone(v, before, after, ids, drawn, |ids|) && k < |ids|
    ensures Handled(v, before, after, ids[k], drawn[k])
  {
  }

  /** Up changes nothing of an old row but its active mark. */
  lemma OldRowsKept(v: Variables, before: Table, after: Table, ids: seq<RowId>, drawn: seq<RowId>, i: RowId)
    requires UpInput(before, ids, drawn) && UpDone(v, before, after, ids, drawn, |ids|) && i in before
    ensures i in after && after[i] == before[i].(active := after[i].active)
    ensures after[i].active <==> before[i].active && Conversion(v, before[i]).None?
  {
    assert ids[..|ids|] == ids;
    if i in ids {
      var k :| 0 <= k < |ids| && ids[k] == i;
      HandledAll(v, before, after, ids, drawn, k);
    }
  }

  lemma NewRowIsCopy(v: Variables, before: Table, after: Table, ids: seq<RowId>, drawn: seq<RowId>, i: RowId) returns (k: nat)
    requires UpInput(before, ids, drawn) && UpDone(v, before, after, ids, drawn, |ids|) && i in after && i !in before
    ensures k < |ids| && drawn[k] == i && Conversion(v, before[ids[k]]).Some?
    ensures after[i] == Copy(before[ids[k]], Conversion(v, before[ids[k]]).value, after[i].version)
  {
    assert drawn[..|ids|] == drawn;
    k :| 0 <= k < |drawn| && drawn[k] == i;
    HandledAll(v, before, after, ids, drawn, k);
  }

  /** Every copy finds a source, and the source is an old row. */
  lemma CopyHasSource(v: Variables, before: Table, after: Table, ids: seq<RowId>, drawn: seq<RowId>, ordered: seq<RowId>, i: RowId)
    requires UpThenRead(v, before, after, ids, drawn, ordered) && i in after && i !in before
    ensures FindSource(v, after, ordered, i, 0).Some? && FindSource(v, after, ordered, i, 0).value in before
  {
    var k := NewRowIsCopy(v, before, after, ids, drawn, i);
    var a := ids[k];
    OldRowsKept(v, before, after, ids, drawn, a);
    assert IsCandidate(v, after, i, a);
    assert a in ordered;
    var s := FindSource(v, after, ordered, i, 0).value;
    if s !in before {
      var l := NewRowIsCopy(v, before, after, ids, drawn, s);
    }
  }

  /** Old row `i` is the source of a copy among the first `n` rows of the query. */
  ghost predicate IsSourceBefore(v: Variables, before: Table, after: Table, ordered: seq<RowId>, n: nat, i: RowId)
    requires n <= |ordered| && forall x :: x in ordered ==> x in after
  {
    exists j :: 0 <= j < n && ordered[j] !in before && FindSource(v, after, ordered, ordered[j], 0) == Some(i)
  }

  /** What down needs to know of a row it meets: old rows are not created rows, copies are and have an old source. */
  ghost predicate KnownRow(v: Variables, before: Table, after: Table, ordered: seq<RowId>, id: RowId)
    requires id in after && forall x :: x in ordered ==> x in after
  {
    if id in before then !Created(after[id])
    else
      && Created(after[id]) && after[id].active
      && FindSource(v, after, ordered, id, 0).Some? && FindSource(v, after, ordered, id, 0).value in before
  }

  lemma RowsAreKnown(v: Variables, before: Table, after: Table, ids: seq<RowId>, drawn: seq<RowId>, ordered: seq<RowId>, id: RowId)
    requires UpThenRead(v, before, after, ids, drawn, ordered) && id in after
    ensures KnownRow(v, before, after, ordered, id)
  {
    if id in before {
      OldRowsKept(v, before, after, ids, drawn, id);
    } else {
      var k := NewRowIsCopy(v, before, after, ids, drawn, id);
      CopyHasSource(v, before, after, ids, drawn, ordered, id);
    }
  }

  /** One turn of down: an old row is skipped, a copy is deleted and its source activated. */
  lemma DownStepIs(v: Variables, before: Table, after: Table, ordered: seq<RowId>, rows: Table, id: RowId)
    requires id in after && (forall x :: x in ordered ==> x in after) && KnownRow(v, before, after, ordered, id)
    requires forall i :: i in before ==> i in rows
    ensures DownStep(v, after, ordered, rows, id) ==
            if id in before then rows
            else
              var s := FindSource(v, after, ordered, id, 0).value;
              (rows - {id})[s := rows[s].(active := true)]
  {
  }

  lemma SourceOfLonger(v: Variables, before: Table, after: Table, ordered: seq<RowId>, n: nat, i: RowId)
    requires n < |ordered| && forall x :: x in ordered ==> x in after
    ensures IsSourceBefore(v, before, after, ordered, n + 1, i) <==>
            IsSourceBefore(v, before, after, ordered, n, i)
            || (ordered[n] !in before && FindSource(v, after, ordered, ordered[n], 0) == Some(i))
  {
  }

  /** What is left after `n` turns: the old rows and the copies not yet met, with the met sources active. */
  ghost predicate AfterTurns(v: Variables, before: Table, after: Table, ordered: seq<RowId>, n: nat, rows: Table)
    requires n <= |ordered| && forall x :: x in ordered ==> x in after
  {
    && (forall i :: i in rows <==> i in after && (i in before || i !in ordered[..n]))
    && (forall i :: i in rows ==>
          rows[i] == after[i].(active := after[i].active || IsSourceBefore(v, before, after, ordered, n, i)))
  }

  lemma NextTurn(v: Variables, before: Table, after: Table, ordered: seq<RowId>, n: nat, rows: Table)
    requires n < |ordered| && (forall x :: x in ordered ==> x in after) && (forall i :: i in before ==> i in after)
    requires AfterTurns(v, before, after, ordered, n, rows) && KnownRow(v, before, after, ordered, ordered[n])
    ensures AfterTurns(v, before, after, ordered, n + 1, DownStep(v, after, ordered, rows, ordered[n]))
  {
    var next := DownStep(v, after, ordered, rows, ordered[n]);
    assert ordered[..n + 1] == ordered[..n] + [ordered[n]];
    DownStepIs(v, before, after, ordered, rows, ordered[n]);
    forall i | i in next
      ensures next[i] == after[i].(active := after[i].active || IsSourceBefore(v, before, after, ordered, n + 1, i))
    {
      SourceOfLonger(v, before, after, ordered, n, i);
    }
  }

  lemma DownToIs(v: Variables, before: Table, after: Table, ids: seq<RowId>, drawn: seq<RowId>, ordered: seq<RowId>, n: nat)
    requires UpThenRead(v, before, after, ids, drawn, ordered) && n <= |ordered|
    ensures AfterTurns(v, before, after, ordered, n, DownTo(v, after, ordered, n))
  {
    forall x | x in ordered
      ensures KnownRow(v, before, after, ordered, x)
    {
      RowsAreKnown(v, before, after, ids, drawn, ordered, x);
    }
    forall i | i in before
      ensures i in after
    {
      OldRowsKept(v, before, after, ids, drawn, i);
    }
    var rows := TurnsAre(v, before, after, ordered, n);
  }

  lemma {:induction false} TurnsAre(v: Variables, before: Table, after: Table, ordered: seq<RowId>, n: nat) returns (rows: Table)
    requires n <= |ordered| && forall x :: x in ordered ==> x in after
    requires forall x :: x in ordered ==> KnownRow(v, before, after, ordered, x)
    requires forall i :: i in before ==> i in after
    ensures rows == DownTo(v, after, ordered, n)
    ensures AfterTurns(v, before, after, ordered, n, rows)
  {
    if n == 0 {
      rows := after;
    } else {
      var earlier := TurnsAre(v, before, after, ordered, n - 1);
      NextTurn(v, before, after, ordered, n - 1, earlier);
      rows := DownStep(v, after, ordered, earlier, ordered[n - 1]);
    }
  }

  /** The row that is active for type of ids[k] once down has run. */
  ghost function Reactivated(v: Variables, before: Table, after: Table, ids: seq<RowId>, drawn: seq<RowId>, ordered: seq<RowId>, k: nat): RowId
    requires UpThenRead(v, before, after, ids, drawn, ordered) && k < |ids|
  {
    HandledAll(v, before, after, ids, drawn, k);
    if Conversion(v, before[ids[k]]).None? then ids[k]
    else
      CopyHasSource(v, before, after, ids, drawn, ordered, drawn[k]);
      FindSource(v, after, ordered, drawn[k], 0).value
  }

  /** Two versions that a reader cannot tell apart once converted. */
  ghost predicate Twins(v: Variables, rows: Table, i: RowId, j: RowId)
    requires i in rows && j in rows
  {
    && rows[i].templateType == rows[j].templateType
    && rows[i].subject == rows[j].subject
    && Conversion(v, rows[i]) == Conversion(v, rows[j])
  }

  /** The reactivated row has the type, the subject and the conversion of the row that was active. */
  lemma ReactivatedIsTwin(v: Variables, before: Table, after: Table, ids: seq<RowId>, drawn: seq<RowId>, ordered: seq<RowId>, k: nat)
    requires UpThenRead(v, before, after, ids, drawn, ordered) && k < |ids|
    ensures var s := Reactivated(v, before, after, ids, drawn, ordered, k);
            s in before && Twins(v, before, s, ids[k])
  {
    HandledAll(v, before, after, ids, drawn, k);
    if Conversion(v, before[ids[k]]).Some? {
      CopyHasSource(v, before, after, ids, drawn, ordered, drawn[k]);
      OldRowsKept(v, before, after, ids, drawn, Reactivated(v, before, after, ids, drawn, ordered, k));
    }
  }

  lemma ActiveAfterDown(v: Variables, before: Table, after: Table, ids: seq<RowId>, drawn: seq<RowId>, ordered: seq<RowId>, i: RowId)
    requires UpThenRead(v, before, after, ids, drawn, ordered) && i in before
    ensures i in DownTo(v, after, ordered, |ordered|)
    ensures DownTo(v, after, ordered, |ordered|)[i].active <==>
            exists k :: 0 <= k < |ids| && i == Reactivated(v, before, after, ids, drawn, ordered, k)
  {
    DownToIs(v, before, after, ids, drawn, ordered, |ordered|);
    OldRowsKept(v, before, after, ids, drawn, i);
    if after[i].active || IsSourceBefore(v, before, after, ordered, |ordered|, i) {
      ActiveIsReactivated(v, before, after, ids, drawn, ordered, i);
    }
    if k :| 0 <= k < |ids| && i == Reactivated(v, before, after, ids, drawn, ordered, k) {
      ReactivatedIsActive(v, before, after, ids, drawn, ordered, k);
    }
  }

  lemma ActiveIsReactivated(v: Variables, before: Table, after: Table, ids: seq<RowId>, drawn: seq<RowId>, ordered: seq<RowId>, i: RowId)
    requires UpThenRead(v, before, after, ids, drawn, ordered) && i in before && i in after
    requires after[i].active || IsSourceBefore(v, before, after, ordered, |ordered|, i)
    ensures exists k :: 0 <= k < |ids| && i == Reactivated(v, before, after, ids, drawn, ordered, k)
  {
    if after[i].active {
      OldRowsKept(v, before, after, ids, drawn, i);
      var k :| 0 <= k < |ids| && ids[k] == i;
      assert i == Reactivated(v, before, after, ids, drawn, ordered, k);
    } else {
      var j :| 0 <= j < |ordered| && ordered[j] !in before && FindSource(v, after, ordered, ordered[j], 0) == Some(i);
      var k := NewRowIsCopy(v, before, after, ids, drawn, ordered[j]);
      assert i == Reactivated(v, before, after, ids, drawn, ordered, k);
    }
  }

  lemma ReactivatedIsActive(v: Variables, before: Table, after: Table, ids: seq<RowId>, drawn: seq<RowId>, ordered: seq<RowId>, k: nat)
    requires UpThenRead(v, before, after, ids, drawn, ordered) && k < |ids|
    ensures var i := Reactivated(v, before, after, ids, drawn, ordered, k);
            i in after && (after[i].active || IsSourceBefore(v, before, after, ordered, |ordered|, i))
  {
    HandledAll(v, before, after, ids, drawn, k);
    if Conversion(v, before[ids[k]]).Some? {
      assert drawn[k] in ordered;
      var j :| 0 <= j < |ordered| && ordered[j] == drawn[k];
      CopyHasSource(v, before, after, ids, drawn, ordered, drawn[k]);
      assert IsSourceBefore(v, before, after, ordered, |ordered|, Reactivated(v, before, after, ids, drawn, ordered, k));
    }
  }

  /**
   Down after up: the old rows are back with nothing changed but active marks, at most one row per type is
   active, and each type that had an active row has an active twin of it.
   */
  lemma DownUndoesUp(v: Variables, before: Table, after: Table, ids: seq<RowId>, drawn: seq<RowId>, ordered: seq<RowId>)
    requires UpThenRead(v, before, after, ids, drawn, ordered)
    ensures var end := DownTo(v, after, ordered, |ordered|);
            && end.Keys == before.Keys
            && (forall i :: i in before ==> end[i] == before[i].(active := end[i].active))
            && OneActivePerType(end)
            && (forall a :: a in before && before[a].active ==>
                  exists s :: s in before && end[s].active && Twins(v, before, s, a))
  {
    var end := DownTo(v, after, ordered, |ordered|);
    DownToIs(v, before, after, ids, drawn, ordered, |ordered|);
    assert ordered[..|ordered|] == ordered;
    forall i | i in before
      ensures i in end && end[i] == before[i].(active := end[i].active)
    {
      OldRowsKept(v, before, after, ids, drawn, i);
    }
    forall i
      ensures i in end <==> i in before
    {
    }
    assert end.Keys == before.Keys;
    forall i, j | i in end && j in end && end[i].active && end[j].active && end[i].templateType == end[j].templateType
      ensures i == j
    {
      ActiveAfterDown(v, before, after, ids, drawn, ordered, i);
      ActiveAfterDown(v, before, after, ids, drawn, ordered, j);
      var k :| 0 <= k < |ids| && i == Reactivated(v, before, after, ids, drawn, ordered, k);
      var l :| 0 <= l < |ids| && j == Reactivated(v, before, after, ids, drawn, ordered, l);
      ReactivatedIsTwin(v, before, after, ids, drawn, ordered, k);
      ReactivatedIsTwin(v, before, after, ids, drawn, ordered, l);
      assert ids[k] == ids[l];
    }
    forall a | a in before && before[a].active
      ensures exists s :: s in before && end[s].active && Twins(v, before, s, a)
    {
      var k :| 0 <= k < |ids| && ids[k] == a;
      ReactivatedIsTwin(v, before, after, ids, drawn, ordered, k);
      ActiveAfterDown(v, before, after, ids, drawn, ordered, Reactivated(v, before, after, ids, drawn, ordered, k));
    }
  }

  // ---- When the table is exactly the old one ----

  /** UNIQUE (template_type, version). */
  ghost predicate UniqueVersions(rows: Table) {
    forall i, j ::
      (i in rows && j in rows && rows[i].templateType == rows[j].templateType && rows[i].version == rows[j].version) ==> i == j
  }

  /** `s` is the first candidate from position `k` on. */
  lemma {:induction false} FindSourceIsFirst(v: Variables, rows: Table, ordered: seq<RowId>, id: RowId, k: nat) returns (j: nat)
    requires id in rows && (forall i :: i in ordered ==> i in rows) && k <= |ordered|
    requires FindSource(v, rows, ordered, id, k).Some?
    ensures k <= j < |ordered| && ordered[j] == FindSource(v, rows, ordered, id, k).value
    ensures forall l :: k <= l < j ==> !IsCandidate(v, rows, id, ordered[l])
    decreases |ordered| - k
  {
    if IsCandidate(v, rows, id, ordered[k]) {
      j := k;
    } else {
      j := FindSourceIsFirst(v, rows, ordered, id, k + 1);
    }
  }

  /** In the order of the query the source is a newest candidate. */
  lemma SourceIsNewest(v: Variables, rows: Table, ordered: seq<RowId>, id: RowId, s: RowId)
    requires id in rows && DescendingVersions(rows, ordered) && s in rows && IsCandidate(v, rows, id, s)
    ensures FindSource(v, rows, ordered, id, 0).Some?
    ensures rows[s].version <= rows[FindSource(v, rows, ordered, id, 0).value].version
  {
    assert s in ordered;
    var l :| 0 <= l < |ordered| && ordered[l] == s;
    var j := FindSourceIsFirst(v, rows, ordered, id, 0);
    assert j <= l;
  }

  /** Another old version with the subject and conversion of a converted row is a candidate for its copy. */
  lemma TwinIsCandidate(v: Variables, before: Table, after: Table, ids: seq<RowId>, drawn: seq<RowId>, k: nat, s: RowId)
    requires UpInput(before, ids, drawn) && UpDone(v, before, after, ids, drawn, |ids|) && k < |ids|
    requires Conversion(v, before[ids[k]]).Some? && s in before && Twins(v, before, s, ids[k])
    ensures s in after && after[s].version == before[s].version && drawn[k] in after && drawn[k] !in before
    ensures IsCandidate(v, after, drawn[k], s)
  {
    HandledAll(v, before, after, ids, drawn, k);
    OldRowsKept(v, before, after, ids, drawn, s);
  }

  /** Of the versions with the subject and conversion of the converted row, the newest is reactivated. */
  lemma NewestTwinIsReactivated(v: Variables, before: Table, after: Table, ids: seq<RowId>, drawn: seq<RowId>, ordered: seq<RowId>,
                                k: nat, s: RowId)
    requires UpThenRead(v, before, after, ids, drawn, ordered) && k < |ids|
    requires Conversion(v, before[ids[k]]).Some? && s in before && Twins(v, before, s, ids[k])
    ensures Reactivated(v, before, after, ids, drawn, ordered, k) in before
    ensures before[s].version <= before[Reactivated(v, before, after, ids, drawn, ordered, k)].version
  {
    TwinIsCandidate(v, before, after, ids, drawn, k, s);
    SourceIsNewest(v, after, ordered, drawn[k], s);
    CopyHasSource(v, before, after, ids, drawn, ordered, drawn[k]);
    OldRowsKept(v, before, after, ids, drawn, Reactivated(v, before, after, ids, drawn, ordered, k));
  }

  /** No version newer than a converted active row has its subject and conversion. */
  ghost predicate NoNewerTwin(v: Variables, rows: Table) {
    forall a, s ::
      (a in rows && s in rows && rows[a].active && Conversion(v, rows[a]).Some? && Twins(v, rows, s, a)) ==>
        rows[s].version <= rows[a].version
  }

  /** Down after up gives back exactly the old table if and only if no newer twin of a converted active row exists. */
  lemma DownIsExactExactlyWhen(v: Variables, before: Table, after: Table, ids: seq<RowId>, drawn: seq<RowId>, ordered: seq<RowId>)
    requires UpThenRead(v, before, after, ids, drawn, ordered) && UniqueVersions(before)
    ensures DownTo(v, after, ordered, |ordered|) == before <==> NoNewerTwin(v, before)
  {
    var end := DownTo(v, after, ordered, |ordered|);
    if NoNewerTwin(v, before) {
      forall k | 0 <= k < |ids|
        ensures Reactivated(v, before, after, ids, drawn, ordered, k) == ids[k]
      {
        OwnRowIsReactivated(v, before, after, ids, drawn, ordered, k);
      }
      DownIsExact(v, before, after, ids, drawn, ordered);
    }
    if end == before {
      forall a, s | a in before && s in before && before[a].active && Conversion(v, before[a]).Some? && Twins(v, before, s, a)
        ensures before[s].version <= before[a].version
      {
        var k :| 0 <= k < |ids| && ids[k] == a;
        NewestTwinIsReactivated(v, before, after, ids, drawn, ordered, k, s);
        var r := Reactivated(v, before, after, ids, drawn, ordered, k);
        ReactivatedIsTwin(v, before, after, ids, drawn, ordered, k);
        ActiveAfterDown(v, before, after, ids, drawn, ordered, r);
        assert r == a;
      }
    }
  }

  lemma OwnRowIsReactivated(v: Variables, before: Table, after: Table, ids: seq<RowId>, drawn: seq<RowId>, ordered: seq<RowId>, k: nat)
    requires UpThenRead(v, before, after, ids, drawn, ordered) && UniqueVersions(before) && NoNewerTwin(v, before) && k < |ids|
    ensures Reactivated(v, before, after, ids, drawn, ordered, k) == ids[k]
  {
    if Conversion(v, before[ids[k]]).Some? {
      NewestTwinIsReactivated(v, before, after, ids, drawn, ordered, k, ids[k]);
      ReactivatedIsTwin(v, before, after, ids, drawn, ordered, k);
    }
  }

  lemma DownIsExact(v: Variables, before: Table, after: Table, ids: seq<RowId>, drawn: seq<RowId>, ordered: seq<RowId>)
    requires UpThenRead(v, before, after, ids, drawn, ordered)
    requires forall k :: 0 <= k < |ids| ==> Reactivated(v, before, after, ids, drawn, ordered, k) == ids[k]
    ensures DownTo(v, after, ordered, |ordered|) == before
  {
    var end := DownTo(v, after, ordered, |ordered|);
    DownUndoesUp(v, before, after, ids, drawn, ordered);
    forall i | i in before
      ensures end[i] == before[i]
    {
      ActiveAfterDown(v, before, after, ids, drawn, ordered, i);
      if before[i].active {
        var k :| 0 <= k < |ids| && ids[k] == i;
        assert i == Reactivated(v, before, after, ids, drawn, ordered, k);
      }
    }
  }

  // ---- A table that does not come back ----

  /** Two versions of the same design, the older one active. */
  function TwoVersions(templateType: string, subject: string, blocks: seq<Block>): Table {
    map[1 := Row(templateType, 1, subject, blocks, true, Some(7), Some(7), false),
        2 := Row(templateType, 2, subject, blocks, false, Some(7), Some(7), false)]
  }

  lemma TwoVersionsFit(v: Variables, templateType: string, subject: string, blocks: seq<Block>, copy: RowId)
    requires ConvertLinkVariables(v, templateType, blocks).Some?
    ensures var before := TwoVersions(templateType, subject, blocks);
            && (copy !in before ==> UpInput(before, [1], [copy]))
            && (forall i :: i in before ==> !Created(before[i]))
            && UniqueVersions(before) && !NoNewerTwin(v, before)
  {
    assert Twins(v, TwoVersions(templateType, subject, blocks), 2, 1);
  }

  /** Whatever id the copy draws, down after up leaves the newer of the two active. */
  lemma TwoVersionsComeBackChanged(v: Variables, templateType: string, subject: string, blocks: seq<Block>,
                                   after: Table, copy: RowId, ordered: seq<RowId>)
    requires ConvertLinkVariables(v, templateType, blocks).Some?
    requires copy !in TwoVersions(templateType, subject, blocks)
    requires UpDone(v, TwoVersions(templateType, subject, blocks), after, [1], [copy], 1)
    requires DescendingVersions(after, ordered)
    ensures UpThenRead(v, TwoVersions(templateType, subject, blocks), after, [1], [copy], ordered)
    ensures DownTo(v, after, ordered, |ordered|) != TwoVersions(templateType, subject, blocks)
  {
    var before := TwoVersions(templateType, subject, blocks);
    TwoVersionsFit(v, templateType, subject, blocks, copy);
    DownIsExactExactlyWhen(v, before, after, [1], [copy], ordered);
  }

  /** Such a design exists: an invitation whose text is its link variable. */
  lemma InvitationsComeBackChanged(after: Table, copy: RowId, ordered: seq<RowId>)
    requires var before := TwoVersions("USER_INVITATION", "Invitación", OneParagraph("{{" + "auth.loginUrl" + "}}"));
             copy !in before && UpDone(LINK_VARIABLES, before, after, [1], [copy], 1) && DescendingVersions(after, ordered)
    ensures DownTo(LINK_VARIABLES, after, ordered, |ordered|)
            != TwoVersions("USER_INVITATION", "Invitación", OneParagraph("{{" + "auth.loginUrl" + "}}"))
  {
    LinkVariablesAreQuiet();
    var name := "auth.loginUrl";
    TokenIsConverted(LINK_VARIABLES, "USER_INVITATION", name);
    TwoVersionsComeBackChanged(LINK_VARIABLES, "USER_INVITATION", "Invitación", OneParagraph("{{" + name + "}}"),
                               after, copy, ordered);
  }

  // ---- What down leaves of any table ----

  /** The row was made by the migration and its source can be told. */
  ghost predicate IsUndone(v: Variables, read: Table, ordered: seq<RowId>, id: RowId)
    requires forall i :: i in ordered ==> i in read
  {
    && id in read && read[id].createdBy.None? && read[id].activatedBy.None? && !read[id].hasBody
    && exists s :: s in ordered && IsCandidate(v, read, id, s)
  }

  lemma SourceExactlyWhen(v: Variables, read: Table, ordered: seq<RowId>, id: RowId)
    requires id in read && forall i :: i in ordered ==> i in read
    ensures FindSource(v, read, ordered, id, 0).Some? <==> exists s :: s in ordered && IsCandidate(v, read, id, s)
  {
    if s :| s in ordered && IsCandidate(v, read, id, s) {
      var j :| 0 <= j < |ordered| && ordered[j] == s;
    }
  }

  /**
   From any table, down deletes exactly the rows made by the migration whose source can be told, active or not, and
   changes nothing of the others but that a row may become active.
   */
  lemma {:induction false} DownDeletesExactly(v: Variables, read: Table, ordered: seq<RowId>, n: nat, id: RowId)
    requires n <= |ordered| && Distinct(ordered) && forall i :: i in ordered ==> i in read
    ensures var rows := DownTo(v, read, ordered, n);
            && (id in rows <==> id in read && !(id in ordered[..n] && IsUndone(v, read, ordered, id)))
            && (id in rows ==> rows[id] == read[id].(active := rows[id].active) && (read[id].active ==> rows[id].active))
  {
    if n > 0 {
      DownDeletesExactly(v, read, ordered, n - 1, id);
      SourceExactlyWhen(v, read, ordered, ordered[n - 1]);
      assert ordered[..n] == ordered[..n - 1] + [ordered[n - 1]];
    }
  }

  /** A row becomes active only as the source of an active copy that is deleted. */
  lemma {:induction false} DownActivatesOnlySources(v: Variables, read: Table, ordered: seq<RowId>, n: nat, id: RowId)
    requires n <= |ordered| && Distinct(ordered) && forall i :: i in ordered ==> i in read
    requires id in DownTo(v, read, ordered, n) && id in read && DownTo(v, read, ordered, n)[id].active && !read[id].active
    ensures exists c :: c in ordered[..n] && read[c].active && IsUndone(v, read, ordered, c) && IsCandidate(v, read, c, id)
  {
    DownDeletesExactly(v, read, ordered, n - 1, id);
    assert ordered[..n] == ordered[..n - 1] + [ordered[n - 1]];
    var before := DownTo(v, read, ordered, n - 1);
    if id in before && before[id].active {
      DownActivatesOnlySources(v, read, ordered, n - 1, id);
      var c :| c in ordered[..n - 1] && read[c].active && IsUndone(v, read, ordered, c) && IsCandidate(v, read, c, id);
      assert c in ordered[..n];
    } else {
      var c := ordered[n - 1];
      SourceExactlyWhen(v, read, ordered, c);
      assert FindSource(v, read, ordered, c, 0) == Some(id);
      assert c in ordered[..n] && IsUndone(v, read, ordered, c) && IsCandidate(v, read, c, id);
    }
  }
}
