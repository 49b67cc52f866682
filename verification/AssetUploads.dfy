/**
 EmailAssetUploadsService.upload run by any number of clients at once: look up by digest, store the object
 under a fresh key, insert or lose on the unique digest, delete the duplicate object on losing.
 */
module AssetUploads {
  import opened Options

  type AssetId = int
  type Digest = int
  type ClientId = int

  datatype Mime = Png | Jpeg

  /** emailAssetKey: images/email/<id>.<extension>. */
  datatype Key = Key(id: AssetId, mime: Mime)

  datatype Row = Row(key: Key, digest: Digest)

  /** Where one call to upload stands between two awaits. */
  datatype Progress =
    | Looking(digest: Digest, mime: Mime)
    | Putting(digest: Digest, key: Key)
    | Inserting(digest: Digest, key: Key)
    | Deleting(digest: Digest, key: Key)
    | ReadingWinner(digest: Digest)
    | ReadingOwn(digest: Digest, id: AssetId)
    | Returned(digest: Digest, id: AssetId)
    | Failed

  /** `issued` are the UUIDs drawn so far; `clean` says that no step has failed yet. */
  datatype State = State(
    rows: map<AssetId, Row>, objects: map<Key, Digest>, clients: map<ClientId, Progress>,
    issued: set<AssetId>, clean: bool)

  datatype Step =
    | Start(c: ClientId, digest: Digest, mime: Mime)
    | LookUp(c: ClientId, drawn: AssetId)
    | Put(c: ClientId)
    | PutFails(c: ClientId, stored: bool)
    | Insert(c: ClientId)
    | InsertFails(c: ClientId, committed: bool)
    | Delete(c: ClientId)
    | DeleteFails(c: ClientId, removed: bool)   // only logged: the call goes on
    | Read(c: ClientId)
    | Crash(c: ClientId)

  // ---- Queries ----

  ghost predicate Stored(s: State, digest: Digest, id: AssetId) {
    id in s.rows && s.rows[id].digest == digest
  }

  ghost predicate HasDigest(s: State, digest: Digest) {
    exists id :: Stored(s, digest, id)
  }

  /** findOneBy({ sha256 }). */
  ghost function FindByDigest(s: State, digest: Digest): (id: AssetId)
    requires HasDigest(s, digest)
    ensures Stored(s, digest, id)
  {
    var id :| Stored(s, digest, id);
    id
  }

  ghost predicate Enabled(s: State, step: Step) {
    match step
    case Start(c, _, _) => c !in s.clients
    case LookUp(c, drawn) => c in s.clients && s.clients[c].Looking? && drawn !in s.issued
    case Put(c) => c in s.clients && s.clients[c].Putting?
    case PutFails(c, _) => c in s.clients && s.clients[c].Putting?
    case Insert(c) => c in s.clients && s.clients[c].Inserting?
    case InsertFails(c, committed) =>
      c in s.clients && s.clients[c].Inserting? && (committed ==> !HasDigest(s, s.clients[c].digest))
    case Delete(c) => c in s.clients && s.clients[c].Deleting?
    case DeleteFails(c, _) => c in s.clients && s.clients[c].Deleting?
    case Read(c) => c in s.clients && (s.clients[c].ReadingWinner? || s.clients[c].ReadingOwn?)
    case Crash(c) => c in s.clients && !s.clients[c].Returned?
  }

  function Goes(s: State, c: ClientId, to: Progress): State {
    s.(clients := s.clients[c := to])
  }

  ghost function Next(s: State, step: Step): State
    requires Enabled(s, step)
  {
    match step
    case Start(c, digest, mime) => Goes(s, c, Looking(digest, mime))
    case LookUp(c, drawn) =>
      var me := s.clients[c];
      if HasDigest(s, me.digest) then
        Goes(s, c, Returned(me.digest, FindByDigest(s, me.digest)))
      else
        Goes(s, c, Putting(me.digest, Key(drawn, me.mime))).(issued := s.issued + {drawn})
    case Put(c) =>
      var me := s.clients[c];
      Goes(s, c, Inserting(me.digest, me.key)).(objects := s.objects[me.key := me.digest])
    case PutFails(c, stored) =>
      var me := s.clients[c];
      Goes(s, c, Failed).(objects := if stored then s.objects[me.key := me.digest] else s.objects, clean := false)
    case Insert(c) =>
      var me := s.clients[c];
      if HasDigest(s, me.digest) then
        Goes(s, c, Deleting(me.digest, me.key))
      else
        Goes(s, c, ReadingOwn(me.digest, me.key.id)).(rows := s.rows[me.key.id := Row(me.key, me.digest)])
    case InsertFails(c, committed) =>
      var me := s.clients[c];
      Goes(s, c, Failed).(
        rows := if committed then s.rows[me.key.id := Row(me.key, me.digest)] else s.rows, clean := false)
    case Delete(c) =>
      var me := s.clients[c];
      Goes(s, c, ReadingWinner(me.digest)).(objects := s.objects - {me.key})
    case DeleteFails(c, removed) =>
      var me := s.clients[c];
      Goes(s, c, ReadingWinner(me.digest)).(objects := if removed then s.objects - {me.key} else s.objects, clean := false)
    case Read(c) =>
      var me := s.clients[c];
      if me.ReadingOwn? then
        Goes(s, c, if me.id in s.rows then Returned(me.digest, me.id) else Failed)
      else if HasDigest(s, me.digest) then
        Goes(s, c, Returned(me.digest, FindByDigest(s, me.digest)))
      else
        Goes(s, c, Failed)
    case Crash(c) => Goes(s, c, Failed).(clean := false)
  }

  // ---- What holds in every state ----

  /** At most one row per digest. */
  ghost predicate OneRowPerDigest(s: State) {
    forall i, j :: i in s.rows && j in s.rows && s.rows[i].digest == s.rows[j].digest ==> i == j
  }

  /** Every row's key has a stored object with the row's content. */
  ghost predicate RowsHaveObjects(s: State) {
    forall i :: i in s.rows ==>
      s.rows[i].key.id == i && s.rows[i].key in s.objects && s.objects[s.rows[i].key] == s.rows[i].digest
  }

  predicate HoldsKey(p: Progress) {
    p.Putting? || p.Inserting? || p.Deleting?
  }

  /** Rows, objects and keys in flight carry drawn ids; a key in flight is not a row's. */
  ghost predicate KeysAreDrawn(s: State) {
    && (forall i :: i in s.rows ==> i in s.issued)
    && (forall k :: k in s.objects ==> k.id in s.issued)
    && (forall c :: c in s.clients && HoldsKey(s.clients[c]) ==>
          s.clients[c].key.id in s.issued && s.clients[c].key.id !in s.rows)
  }

  /** No two clients handle the same id. */
  ghost predicate KeysAreExclusive(s: State) {
    forall c, d ::
      (c in s.clients && d in s.clients && HoldsKey(s.clients[c]) && HoldsKey(s.clients[d])
       && s.clients[c].key.id == s.clients[d].key.id) ==> c == d
  }

  /** Between put and insert the client's object is there. */
  ghost predicate InsertersHaveObjects(s: State) {
    forall c :: c in s.clients && s.clients[c].Inserting? ==>
      s.clients[c].key in s.objects && s.objects[s.clients[c].key] == s.clients[c].digest
  }

  ghost predicate KeysAreOwned(s: State) {
    KeysAreDrawn(s) && KeysAreExclusive(s) && InsertersHaveObjects(s)
  }

  /** What a client relies on when it reads back, and what it has returned. */
  ghost predicate ReadsSucceed(s: State) {
    forall c :: c in s.clients ==>
      && (s.clients[c].Deleting? || s.clients[c].ReadingWinner? ==> HasDigest(s, s.clients[c].digest))
      && (s.clients[c].ReadingOwn? || s.clients[c].Returned? ==> Stored(s, s.clients[c].digest, s.clients[c].id))
  }

  ghost predicate InFlight(s: State, k: Key) {
    exists c :: c in s.clients && (s.clients[c].Inserting? || s.clients[c].Deleting?) && s.clients[c].key == k
  }

  ghost predicate Referenced(s: State, k: Key) {
    k.id in s.rows && s.rows[k.id].key == k
  }

  /** While nothing has failed, an object is referenced by a row or still handled by its client. */
  ghost predicate NoOrphans(s: State) {
    s.clean ==>
      && (forall k :: k in s.objects ==> Referenced(s, k) || InFlight(s, k))
      && (forall c :: c in s.clients ==> !s.clients[c].Failed?)
  }

  ghost predicate Consistent(s: State) {
    OneRowPerDigest(s) && RowsHaveObjects(s) && KeysAreOwned(s) && ReadsSucceed(s) && NoOrphans(s)
  }

  const NO_UPLOADS := State(map[], map[], map[], {}, true)

  // ---- Every step keeps it ----

  lemma DigestStays(s: State, t: State, digest: Digest)
    requires HasDigest(s, digest)
    requires forall i :: i in s.rows ==> i in t.rows && t.rows[i] == s.rows[i]
    ensures HasDigest(t, digest)
  {
    assert Stored(t, digest, FindByDigest(s, digest));
  }

  lemma RowsNeverChange(s: State, step: Step)
    requires Consistent(s) && Enabled(s, step)
    ensures forall i :: i in s.rows ==> i in Next(s, step).rows && Next(s, step).rows[i] == s.rows[i]
  {
  }

  lemma StepKeepsOneRowPerDigest(s: State, step: Step)
    requires OneRowPerDigest(s) && Enabled(s, step)
    ensures OneRowPerDigest(Next(s, step))
  {
    assert forall i :: i in s.rows ==> Stored(s, s.rows[i].digest, i);
  }

  lemma StepKeepsRowObjects(s: State, step: Step)
    requires Consistent(s) && Enabled(s, step)
    ensures RowsHaveObjects(Next(s, step))
  {
  }

  lemma StepKeepsKeysDrawn(s: State, step: Step)
    requires Consistent(s) && Enabled(s, step)
    ensures KeysAreDrawn(Next(s, step))
  {
  }

  lemma StepKeepsKeysExclusive(s: State, step: Step)
    requires Consistent(s) && Enabled(s, step)
    ensures KeysAreExclusive(Next(s, step))
  {
  }

  lemma StepKeepsInserters(s: State, step: Step)
    requires Consistent(s) && Enabled(s, step)
    ensures InsertersHaveObjects(Next(s, step))
  {
  }

  lemma StepKeepsReads(s: State, step: Step)
    requires Consistent(s) && Enabled(s, step)
    ensures ReadsSucceed(Next(s, step))
  {
    var t := Next(s, step);
    RowsNeverChange(s, step);
    forall digest | HasDigest(s, digest)
      ensures HasDigest(t, digest)
    {
      DigestStays(s, t, digest);
    }
  }

  lemma StepKeepsNoOrphans(s: State, step: Step)
    requires Consistent(s) && Enabled(s, step)
    ensures NoOrphans(Next(s, step))
  {
    var t := Next(s, step);
    if t.clean {
      forall k | k in t.objects
        ensures Referenced(t, k) || InFlight(t, k)
      {
        if k in s.objects && !Referenced(s, k) {
          var d :| d in s.clients && (s.clients[d].Inserting? || s.clients[d].Deleting?) && s.clients[d].key == k;
          assert d in t.clients;
        } else if k !in s.objects {
          assert step.Put? && t.clients[step.c].key == k;
        }
      }
    }
  }

  lemma StepKeepsConsistent(s: State, step: Step)
    requires Consistent(s) && Enabled(s, step)
    ensures Consistent(Next(s, step))
  {
    StepKeepsOneRowPerDigest(s, step);
    StepKeepsRowObjects(s, step);
    StepKeepsKeysDrawn(s, step);
    StepKeepsKeysExclusive(s, step);
    StepKeepsInserters(s, step);
    StepKeepsReads(s, step);
    StepKeepsNoOrphans(s, step);
  }

  // ---- Whole runs ----

  ghost predicate Run(s: State, steps: seq<Step>)
    decreases steps
  {
    steps == [] || (Enabled(s, steps[0]) && Run(Next(s, steps[0]), steps[1..]))
  }

  ghost function End(s: State, steps: seq<Step>): State
    requires Run(s, steps)
    decreases steps
  {
    if steps == [] then s else End(Next(s, steps[0]), steps[1..])
  }

  lemma {:induction false} EveryRunIsConsistent(s: State, steps: seq<Step>)
    requires Consistent(s) && Run(s, steps)
    ensures Consistent(End(s, steps))
    decreases steps
  {
    if steps != [] {
      StepKeepsConsistent(s, steps[0]);
      EveryRunIsConsistent(Next(s, steps[0]), steps[1..]);
    }
  }

  /** A delete, successful or not, never takes away the object of a row. */
  lemma LoserSparesReferencedObjects(steps: seq<Step>, c: ClientId, removed: bool)
    requires Run(NO_UPLOADS, steps)
    requires Enabled(End(NO_UPLOADS, steps), Delete(c))
    ensures var s := End(NO_UPLOADS, steps);
            forall k :: k in s.objects && Referenced(s, k) ==>
              k in Next(s, Delete(c)).objects && k in Next(s, DeleteFails(c, removed)).objects
  {
    EveryRunIsConsistent(NO_UPLOADS, steps);
  }

  /** All finished uploads of one content return the same asset, which is stored with that content. */
  lemma SameContentSameAsset(steps: seq<Step>, c: ClientId, d: ClientId)
    requires Run(NO_UPLOADS, steps)
    requires var s := End(NO_UPLOADS, steps);
             c in s.clients && d in s.clients && s.clients[c].Returned? && s.clients[d].Returned?
    ensures var s := End(NO_UPLOADS, steps);
            && (s.clients[c].digest == s.clients[d].digest <==> s.clients[c].id == s.clients[d].id)
            && s.clients[c].id in s.rows
            && s.rows[s.clients[c].id].key in s.objects
            && s.objects[s.rows[s.clients[c].id].key] == s.clients[c].digest
  {
    EveryRunIsConsistent(NO_UPLOADS, steps);
  }

  /** The read back never misses: findOneByOrFail always finds its row. */
  lemma ReadBackFindsRow(steps: seq<Step>, c: ClientId)
    requires Run(NO_UPLOADS, steps) && Enabled(End(NO_UPLOADS, steps), Read(c))
    ensures Next(End(NO_UPLOADS, steps), Read(c)).clients[c].Returned?
  {
    EveryRunIsConsistent(NO_UPLOADS, steps);
  }

  /** Once every upload has returned and nothing failed, the objects are exactly those the rows refer to. */
  lemma NoObjectLeftBehind(steps: seq<Step>)
    requires Run(NO_UPLOADS, steps)
    requires End(NO_UPLOADS, steps).clean
    requires forall c :: c in End(NO_UPLOADS, steps).clients ==> End(NO_UPLOADS, steps).clients[c].Returned?
    ensures forall k :: k in End(NO_UPLOADS, steps).objects <==> Referenced(End(NO_UPLOADS, steps), k)
  {
    EveryRunIsConsistent(NO_UPLOADS, steps);
  }

  // ---- Progress ----

  /** Every upload that neither returned nor failed has a next step of its own, whatever the others do. */
  lemma NobodyIsStuck(s: State, c: ClientId, drawn: AssetId)
    requires c in s.clients && !s.clients[c].Returned? && !s.clients[c].Failed? && drawn !in s.issued
    ensures match s.clients[c]
            case Looking(_, _) => Enabled(s, LookUp(c, drawn))
            case Putting(_, _) => Enabled(s, Put(c))
            case Inserting(_, _) => Enabled(s, Insert(c))
            case Deleting(_, _) => Enabled(s, Delete(c))
            case ReadingWinner(_) => Enabled(s, Read(c))
            case ReadingOwn(_, _) => Enabled(s, Read(c))
            case _ => false
  {
  }

  /** How far an upload is from its end. */
  function StepsLeft(p: Progress): nat {
    match p
    case Looking(_, _) => 5
    case Putting(_, _) => 4
    case Inserting(_, _) => 3
    case Deleting(_, _) => 2
    case ReadingWinner(_) => 1
    case ReadingOwn(_, _) => 1
    case Returned(_, _) => 0
    case Failed => 0
  }

  /** An upload takes at most five steps, and no step moves another one. */
  lemma EveryStepGoesOn(s: State, step: Step, c: ClientId)
    requires Enabled(s, step) && c in s.clients && !(step.Crash? && s.clients[c].Failed?)
    ensures c in Next(s, step).clients
    ensures if step.c == c then StepsLeft(Next(s, step).clients[c]) < StepsLeft(s.clients[c])
            else Next(s, step).clients[c] == s.clients[c]
  {
  }

  /** A failed call may have had its effect or not; a crash has none. */
  lemma FailuresWrite(s: State, step: Step)
    requires Enabled(s, step) && (step.PutFails? || step.InsertFails? || step.DeleteFails? || step.Crash?)
    ensures var t, me := Next(s, step), s.clients[step.c];
            && !t.clean && t.issued == s.issued
            && (!step.InsertFails? ==> t.rows == s.rows)
            && (step.PutFails? ==> (me.key in t.objects <==> step.stored || me.key in s.objects))
            && (step.DeleteFails? ==> (me.key in t.objects <==> !step.removed && me.key in s.objects))
            && (step.InsertFails? || step.Crash? ==> t.objects == s.objects)
            && (step.InsertFails? ==> (HasDigest(t, me.digest) <==> step.committed || HasDigest(s, me.digest)))
            && (!step.DeleteFails? ==> t.clients[step.c].Failed?)
  {
    if step.InsertFails? && step.committed {
      assert Stored(Next(s, step), s.clients[step.c].digest, s.clients[step.c].key.id);
    } else {
      assert forall d, id :: Stored(Next(s, step), d, id) <==> Stored(s, d, id);
    }
  }
}
