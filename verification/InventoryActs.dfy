/**
 Migration 1767226000000: the single act of a physical inventory is split into one act per cost centre, under
 the CHECK and UNIQUE constraints of physical_inventory_act, and merged back by the reverse migration.
 */
module InventoryActs {
  import opened Options

  type Id = int

  /** The columns of physical_inventory that stay. `closed` is status IN ('CLOSED', 'RECONCILED'). */
  datatype Base = Base(centerScope: bool, scopeId: Option<Id>, closed: bool)

  /** The act columns that move. */
  datatype Columns = Columns(
    request: Option<Id>, document: Option<Id>,
    blockedCode: Option<string>, blockedMessage: Option<string>, blockedAt: Option<int>,
    signer: Option<Id>, signerAt: Option<int>, signerBy: Option<Id>,
    attendedBy: Option<Id>, attendedName: Option<string>)

  const NO_COLUMNS := Columns(None, None, None, None, None, None, None, None, None, None)

  datatype Item = Item(
    inventory: Id, voided: bool, surplus: bool, asset: Option<Id>, resolved: Option<Id>, expectedCenter: Option<Id>)

  datatype Act = Act(inventory: Id, center: Option<Id>, columns: Columns)

  /** What a document or a document request says it belongs to. */
  datatype Link = Link(format: string, entityType: string, entityId: Id)

  type ActTable = map<Id, Act>

  const ACT_ENTITY := "PHYSICAL_INVENTORY_ACT"
  const LEGACY_ENTITY := "PHYSICAL_INVENTORY"
  const ACT_FORMAT := "OCI-21-37"

  /** The tables before the split; `centers` is asset.current_cost_center_id. */
  datatype Source = Source(bases: map<Id, Base>, columns: map<Id, Columns>, items: map<Id, Item>, centers: map<Id, Option<Id>>)

  // ---- Constraints ----

  function TrimLeft(t: string): string {
    if t != "" && t[0] == ' ' then TrimLeft(t[1..]) else t
  }

  function TrimRight(t: string): string {
    if t != "" && t[|t| - 1] == ' ' then TrimRight(t[..|t| - 1]) else t
  }

  predicate SignerCheck(c: Columns) {
    c.signer.None? || (c.signerAt.Some? && c.signerBy.Some?)
  }

  predicate AttendedCheck(c: Columns) {
    && (c.attendedBy.None? || c.attendedName.None?)
    && (c.attendedName.None? || 3 <= |TrimRight(TrimLeft(c.attendedName.value))| <= 200)
  }

  predicate BlockedCheck(c: Columns) {
    c.blockedCode.None? == c.blockedAt.None? && (c.blockedCode.None? || c.request.None?)
  }

  predicate LegacyCheck(a: Act) {
    a.center.Some? || a.columns.request.Some?
  }

  /** UNIQUE NULLS NOT DISTINCT (inventory_id, cost_center_id). */
  ghost predicate UniqueCenters(acts: ActTable) {
    forall a, b :: a in acts && b in acts && acts[a].inventory == acts[b].inventory && acts[a].center == acts[b].center ==> a == b
  }

  ghost predicate ActConstraints(acts: ActTable) {
    && UniqueCenters(acts)
    && forall a :: a in acts ==>
         SignerCheck(acts[a].columns) && AttendedCheck(acts[a].columns) && BlockedCheck(acts[a].columns) && LegacyCheck(acts[a])
  }

  /** The CHECKs physical_inventory had. */
  ghost predicate OldConstraints(s: Source) {
    s.columns.Keys == s.bases.Keys && forall i :: i in s.columns ==> SignerCheck(s.columns[i]) && AttendedCheck(s.columns[i])
  }

  // ---- up: which acts ----

  function CenterOfAsset(s: Source, asset: Option<Id>): Option<Id> {
    if asset.Some? && asset.value in s.centers then s.centers[asset.value] else None
  }

  function ItemCenter(s: Source, item: Item): Option<Id>
    requires item.inventory in s.bases
  {
    var base := s.bases[item.inventory];
    if base.centerScope then base.scopeId
    else if item.surplus then
      if CenterOfAsset(s, item.asset).Some? then CenterOfAsset(s, item.asset) else CenterOfAsset(s, item.resolved)
    else item.expectedCenter
  }

  /** ITEM_CENTERS. */
  function ItemCenters(s: Source): set<(Id, Option<Id>)> {
    set k | k in s.items && !s.items[k].voided && s.items[k].inventory in s.bases && s.bases[s.items[k].inventory].closed
      :: (s.items[k].inventory, ItemCenter(s, s.items[k]))
  }

  function ScopeCenters(s: Source): set<(Id, Option<Id>)> {
    set i | i in s.bases && s.bases[i].centerScope && s.bases[i].scopeId.Some? && s.bases[i].closed :: (i, s.bases[i].scopeId)
  }

  /** Inventories whose act stays whole: any other scope, with a request. */
  predicate KeepsWholeAct(s: Source, i: Id) {
    i in s.bases && i in s.columns && !s.bases[i].centerScope && s.columns[i].request.Some?
  }

  function WholeActKeys(s: Source): set<(Id, Option<Id>)> {
    set i | i in s.bases && KeepsWholeAct(s, i) :: (i, None)
  }

  function CenterActKeys(s: Source): set<(Id, Option<Id>)> {
    set k | k in ItemCenters(s) + ScopeCenters(s) && k.1.Some? && k.0 in s.bases && k.0 in s.columns
            && s.bases[k.0].closed && !KeepsWholeAct(s, k.0)
  }

  function WholeAct(s: Source, i: Id): Act
    requires i in s.columns
  {
    Act(i, None, s.columns[i].(blockedCode := None, blockedMessage := None, blockedAt := None))
  }

  function CenterAct(s: Source, i: Id, center: Option<Id>, now: int): Act
    requires i in s.bases && i in s.columns
  {
    var c, scoped := s.columns[i], s.bases[i].centerScope;
    Act(i, center, Columns(
      if scoped then c.request else None,
      if scoped then c.document else None,
      if c.request.None? then c.blockedCode else None,
      if c.request.None? then c.blockedMessage else None,
      if c.request.None? && c.blockedCode.Some? then (if c.blockedAt.Some? then c.blockedAt else Some(now)) else None,
      if scoped then c.signer else None,
      if scoped then c.signerAt else None,
      if scoped then c.signerBy else None,
      c.attendedBy, c.attendedName))
  }

  /** The acts after both INSERTs; `drawn` gives each inserted row its fresh id. */
  function Split(s: Source, drawn: map<Id, (Id, Option<Id>)>, now: int): ActTable {
    (map a | a in drawn && drawn[a] in WholeActKeys(s) :: WholeAct(s, drawn[a].0))
    + (map a | a in drawn && drawn[a] in CenterActKeys(s) :: CenterAct(s, drawn[a].0, drawn[a].1, now))
  }

  /** One fresh id for each row of the two SELECTs. */
  ghost predicate Draws(s: Source, drawn: map<Id, (Id, Option<Id>)>) {
    && (forall a :: a in drawn ==> drawn[a] in WholeActKeys(s) + CenterActKeys(s))
    && (forall k :: k in WholeActKeys(s) + CenterActKeys(s) ==> HasId(drawn, k))
    && (forall a, b :: a in drawn && b in drawn && drawn[a] == drawn[b] ==> a == b)
  }

  ghost predicate HasId(drawn: map<Id, (Id, Option<Id>)>, k: (Id, Option<Id>)) {
    exists a :: a in drawn && drawn[a] == k
  }

  /** Whatever the tables, ids can be drawn for the rows of the two SELECTs. */
  lemma IdsCanBeDrawn(s: Source) returns (drawn: map<Id, (Id, Option<Id>)>)
    ensures Draws(s, drawn)
  {
    drawn := OneIdEach(WholeActKeys(s) + CenterActKeys(s));
  }

  lemma {:induction false} OneIdEach(keys: set<(Id, Option<Id>)>) returns (drawn: map<Id, (Id, Option<Id>)>)
    ensures forall a :: a in drawn ==> drawn[a] in keys && 0 <= a < |keys|
    ensures forall k :: k in keys ==> HasId(drawn, k)
    ensures forall a, b :: a in drawn && b in drawn && drawn[a] == drawn[b] ==> a == b
    decreases |keys|
  {
    if keys == {} {
      drawn := map[];
    } else {
      var k := Element(keys);
      var rest := OneIdEach(keys - {k});
      drawn := rest[|keys| - 1 := k];
      forall key | key in keys
        ensures HasId(drawn, key)
      {
        if key != k {
          assert HasId(rest, key);
          var a :| a in rest && rest[a] == key;
          assert a in drawn && drawn[a] == key;
        } else {
          assert |keys| - 1 in drawn && drawn[|keys| - 1] == key;
        }
      }
    }
  }

  /** An act is the row its id was drawn for. */
  lemma ActOfId(s: Source, drawn: map<Id, (Id, Option<Id>)>, now: int, a: Id)
    requires OldConstraints(s) && a in Split(s, drawn, now)
    ensures a in drawn && (Split(s, drawn, now)[a].inventory, Split(s, drawn, now)[a].center) == drawn[a]
    ensures drawn[a].0 in s.bases && drawn[a].0 in s.columns
    ensures if drawn[a] in CenterActKeys(s) then Split(s, drawn, now)[a] == CenterAct(s, drawn[a].0, drawn[a].1, now) && drawn[a].1.Some?
            else Split(s, drawn, now)[a] == WholeAct(s, drawn[a].0) && KeepsWholeAct(s, drawn[a].0)
  {
  }

  /** For any tables that meet the old CHECKs the split meets every constraint of the new table. */
  lemma SplitMeetsConstraints(s: Source, drawn: map<Id, (Id, Option<Id>)>, now: int)
    requires OldConstraints(s) && Draws(s, drawn)
    ensures ActConstraints(Split(s, drawn, now))
  {
    var acts := Split(s, drawn, now);
    forall a | a in acts
      ensures SignerCheck(acts[a].columns) && AttendedCheck(acts[a].columns) && BlockedCheck(acts[a].columns) && LegacyCheck(acts[a])
    {
      ActOfId(s, drawn, now, a);
      assert SignerCheck(s.columns[drawn[a].0]) && AttendedCheck(s.columns[drawn[a].0]);
    }
    forall a, b | a in acts && b in acts && acts[a].inventory == acts[b].inventory && acts[a].center == acts[b].center
      ensures a == b
    {
      ActOfId(s, drawn, now, a);
      ActOfId(s, drawn, now, b);
    }
  }

  // ---- Which acts there are, and what they hold ----

  /** The centre an item is answered for when its inventory is not scoped by centre. */
  predicate AnswersFor(s: Source, item: Item, c: Id) {
    if !item.surplus then item.expectedCenter == Some(c)
    else
      || IsIn(s, item.asset, c)
      || ((item.asset.None? || item.asset.value !in s.centers || s.centers[item.asset.value].None?) && IsIn(s, item.resolved, c))
  }

  predicate IsIn(s: Source, asset: Option<Id>, c: Id) {
    asset.Some? && asset.value in s.centers && s.centers[asset.value] == Some(c)
  }

  /** An item in force of the inventory that is answered for by the centre. */
  predicate CountsFor(s: Source, k: Id, i: Id, c: Id) {
    k in s.items && s.items[k].inventory == i && !s.items[k].voided && AnswersFor(s, s.items[k], c)
  }

  /**
   A closed inventory that does not keep its whole act has an act for a centre exactly when the centre is its scope,
   or, unscoped, when one of its items in force is answered for there.
   */
  lemma CenterActExactlyWhen(s: Source, drawn: map<Id, (Id, Option<Id>)>, now: int, i: Id, c: Id)
    requires OldConstraints(s) && Draws(s, drawn) && i in s.bases && s.bases[i].closed
    requires s.bases[i].centerScope || s.columns[i].request.None?
    ensures (exists a :: a in Split(s, drawn, now) && Split(s, drawn, now)[a].inventory == i && Split(s, drawn, now)[a].center == Some(c))
            <==> if s.bases[i].centerScope then s.bases[i].scopeId == Some(c) else exists k :: CountsFor(s, k, i, c)
  {
    CenterKeyExactlyWhen(s, i, c);
    if (i, Some(c)) in CenterActKeys(s) {
      assert HasId(drawn, (i, Some(c)));
      var a :| a in drawn && drawn[a] == (i, Some(c));
      assert a in Split(s, drawn, now) && Split(s, drawn, now)[a].inventory == i && Split(s, drawn, now)[a].center == Some(c);
    }
    if a :| a in Split(s, drawn, now) && Split(s, drawn, now)[a].inventory == i && Split(s, drawn, now)[a].center == Some(c) {
      ActOfId(s, drawn, now, a);
    }
  }

  lemma CenterKeyExactlyWhen(s: Source, i: Id, c: Id)
    requires OldConstraints(s) && i in s.bases && s.bases[i].closed && (s.bases[i].centerScope || s.columns[i].request.None?)
    ensures (i, Some(c)) in CenterActKeys(s) <==>
            if s.bases[i].centerScope then s.bases[i].scopeId == Some(c) else exists k :: CountsFor(s, k, i, c)
  {
    if s.bases[i].centerScope {
      if s.bases[i].scopeId == Some(c) {
        assert (i, s.bases[i].scopeId) in ScopeCenters(s);
      }
    } else {
      if k :| CountsFor(s, k, i, c) {
        assert (s.items[k].inventory, ItemCenter(s, s.items[k])) in ItemCenters(s);
      }
      if (i, Some(c)) in ItemCenters(s) {
        var k :| k in s.items && !s.items[k].voided && s.items[k].inventory == i && ItemCenter(s, s.items[k]) == Some(c);
        assert CountsFor(s, k, i, c);
      }
    }
  }

  /** An open inventory has an act only when, not scoped by centre, it keeps a request; then one without a centre. */
  lemma WholeActExactlyWhen(s: Source, drawn: map<Id, (Id, Option<Id>)>, now: int, i: Id)
    requires OldConstraints(s) && Draws(s, drawn) && i in s.bases
    ensures (exists a :: a in Split(s, drawn, now) && Split(s, drawn, now)[a].inventory == i && Split(s, drawn, now)[a].center.None?)
            <==> !s.bases[i].centerScope && s.columns[i].request.Some?
    ensures !s.bases[i].closed || (!s.bases[i].centerScope && s.columns[i].request.Some?) ==>
              forall a :: a in Split(s, drawn, now) && Split(s, drawn, now)[a].inventory == i ==> Split(s, drawn, now)[a].center.None?
  {
    if !s.bases[i].centerScope && s.columns[i].request.Some? {
      assert KeepsWholeAct(s, i) && (i, None) in WholeActKeys(s);
      assert HasId(drawn, (i, None));
      var a :| a in drawn && drawn[a] == (i, None);
      assert a in Split(s, drawn, now) && Split(s, drawn, now)[a].inventory == i && Split(s, drawn, now)[a].center.None?;
    }
    forall a | a in Split(s, drawn, now) && Split(s, drawn, now)[a].inventory == i
      ensures Split(s, drawn, now)[a].center.None? ==> KeepsWholeAct(s, i)
      ensures KeepsWholeAct(s, i) || !s.bases[i].closed ==> Split(s, drawn, now)[a].center.None?
    {
      ActOfId(s, drawn, now, a);
    }
  }

  /**
   What an act takes over. Attendees always; request, document and signer, unless the inventory was divided among
   centres; and, where no request was made, what blocked it, dated now if it had no date.
   */
  lemma ActHolds(s: Source, drawn: map<Id, (Id, Option<Id>)>, now: int, a: Id)
    requires OldConstraints(s) && Draws(s, drawn) && a in Split(s, drawn, now)
    ensures var act := Split(s, drawn, now)[a];
            && act.inventory in s.bases && act.inventory in s.columns
            && var b, c, to := s.bases[act.inventory], s.columns[act.inventory], act.columns;
               && to.attendedBy == c.attendedBy && to.attendedName == c.attendedName
               && (act.center.None? || b.centerScope ==>
                     to.request == c.request && to.document == c.document
                     && to.signer == c.signer && to.signerAt == c.signerAt && to.signerBy == c.signerBy)
               && (act.center.Some? && !b.centerScope ==>
                     to.request.None? && to.document.None? && to.signer.None? && to.signerAt.None? && to.signerBy.None?)
               && (c.request.Some? ==> to.blockedCode.None? && to.blockedMessage.None? && to.blockedAt.None?)
               && (c.request.None? ==>
                     to.blockedCode == c.blockedCode && to.blockedMessage == c.blockedMessage
                     && to.blockedAt == if c.blockedCode.None? then None else if c.blockedAt.Some? then c.blockedAt else Some(now))
  {
    ActOfId(s, drawn, now, a);
  }

  /** `name` is `core` between blanks, and `core` neither starts nor ends with one. */
  predicate IsTrimmed(name: string, lead: nat, core: string) {
    && lead + |core| <= |name| && name[lead..lead + |core|] == core
    && (forall k :: 0 <= k < lead ==> name[k] == ' ') && (forall k :: lead + |core| <= k < |name| ==> name[k] == ' ')
    && (core != "" ==> core[0] != ' ' && core[|core| - 1] != ' ')
  }

  lemma {:induction false} TrimLeftFinds(t: string) returns (lead: nat)
    ensures lead <= |t| && TrimLeft(t) == t[lead..] && forall k :: 0 <= k < lead ==> t[k] == ' '
    ensures TrimLeft(t) != "" ==> TrimLeft(t)[0] != ' '
  {
    lead := 0;
    if t != "" && t[0] == ' ' {
      var more := TrimLeftFinds(t[1..]);
      lead := more + 1;
      assert forall k :: 1 <= k < lead ==> t[k] == t[1..][k - 1];
    }
  }

  lemma {:induction false} TrimRightFinds(t: string) returns (end: nat)
    ensures end <= |t| && TrimRight(t) == t[..end] && forall k :: end <= k < |t| ==> t[k] == ' '
    ensures TrimRight(t) != "" ==> TrimRight(t)[|TrimRight(t)| - 1] != ' '
  {
    end := |t|;
    if t != "" && t[|t| - 1] == ' ' {
      end := TrimRightFinds(t[..|t| - 1]);
      assert t[..|t| - 1][..end] == t[..end];
    }
  }

  lemma TrimFinds(name: string) returns (lead: nat)
    ensures IsTrimmed(name, lead, TrimRight(TrimLeft(name)))
  {
    lead := TrimLeftFinds(name);
    var end := TrimRightFinds(name[lead..]);
    assert forall k :: lead <= k < |name| ==> name[k] == name[lead..][k - lead];
  }

  /** A name has one core. */
  lemma OneCore(name: string, i: nat, a: string, j: nat, b: string)
    requires IsTrimmed(name, i, a) && IsTrimmed(name, j, b)
    ensures a == b
  {
    if a != "" && b != "" {
      assert name[i] == a[0] && name[j] == b[0];
      assert name[i + |a| - 1] == a[|a| - 1] && name[j + |b| - 1] == b[|b| - 1];
      assert i == j && |a| == |b|;
    }
  }

  /** The CHECKs in words of the columns. */
  lemma ChecksExactlyWhen(c: Columns, center: Option<Id>)
    ensures SignerCheck(c) <==> (c.signer.Some? ==> c.signerAt.Some? && c.signerBy.Some?)
    ensures AttendedCheck(c) <==>
            && !(c.attendedBy.Some? && c.attendedName.Some?)
            && (c.attendedName.Some? ==>
                  exists lead: nat, core :: IsTrimmed(c.attendedName.value, lead, core) && 3 <= |core| <= 200)
    ensures BlockedCheck(c) <==> (c.blockedCode.Some? <==> c.blockedAt.Some?) && !(c.blockedCode.Some? && c.request.Some?)
    ensures LegacyCheck(Act(0, center, c)) <==> !(center.None? && c.request.None?)
  {
    if c.attendedName.Some? {
      var name := c.attendedName.value;
      var at := TrimFinds(name);
      if lead: nat, core :| IsTrimmed(name, lead, core) && 3 <= |core| <= 200 {
        OneCore(name, lead, core, at, TrimRight(TrimLeft(name)));
      }
    }
  }

  /** The CHECKs of the acts made, column by column. */
  lemma ActRowsAreValid(s: Source, drawn: map<Id, (Id, Option<Id>)>, now: int, a: Id) returns (lead: nat, core: string)
    requires OldConstraints(s) && Draws(s, drawn) && a in Split(s, drawn, now)
    ensures var act := Split(s, drawn, now)[a]; var c := act.columns;
            && (c.signer.Some? ==> c.signerAt.Some? && c.signerBy.Some?)
            && !(c.attendedBy.Some? && c.attendedName.Some?)
            && (c.attendedName.Some? ==> IsTrimmed(c.attendedName.value, lead, core) && 3 <= |core| <= 200)
            && (c.blockedCode.Some? <==> c.blockedAt.Some?) && !(c.blockedCode.Some? && c.request.Some?)
            && (act.center.Some? || c.request.Some?)
            && forall b :: (b in Split(s, drawn, now) && Split(s, drawn, now)[b].inventory == act.inventory
                            && Split(s, drawn, now)[b].center == act.center) ==> b == a
  {
    SplitMeetsConstraints(s, drawn, now);
    var c := Split(s, drawn, now)[a].columns;
    lead, core := 0, "";
    if c.attendedName.Some? {
      core := TrimRight(TrimLeft(c.attendedName.value));
      lead := TrimFinds(c.attendedName.value);
    }
  }

  /** The CHECKs are needed of the old rows too: a row that breaks one of them would stop the split. */
  lemma OldRowsAreValid(s: Source, i: Id) returns (lead: nat, core: string)
    requires OldConstraints(s) && i in s.bases
    ensures i in s.columns
    ensures var c := s.columns[i];
            && (c.signer.Some? ==> c.signerAt.Some? && c.signerBy.Some?)
            && !(c.attendedBy.Some? && c.attendedName.Some?)
            && (c.attendedName.Some? ==> IsTrimmed(c.attendedName.value, lead, core) && 3 <= |core| <= 200)
  {
    var c := s.columns[i];
    lead, core := 0, "";
    assert SignerCheck(c) && AttendedCheck(c);
    if c.attendedName.Some? {
      core := TrimRight(TrimLeft(c.attendedName.value));
      lead := TrimFinds(c.attendedName.value);
    }
  }

  // ---- Where each request lands ----

  /** The guard of the two INSERTs, seen from one inventory. */
  predicate Lands(b: Base) {
    !b.centerScope || (b.closed && b.scopeId.Some?)
  }

  ghost predicate CarriesRequest(acts: ActTable, a: Id, i: Id) {
    a in acts && acts[a].inventory == i && acts[a].columns.request.Some?
  }

  /** A scoped inventory has an act for its own centre and no other. */
  lemma ScopedActIsOne(s: Source, drawn: map<Id, (Id, Option<Id>)>, now: int, i: Id, a: Id)
    requires OldConstraints(s) && Draws(s, drawn) && i in s.bases && s.bases[i].centerScope
    requires a in Split(s, drawn, now) && Split(s, drawn, now)[a].inventory == i
    ensures s.bases[i].closed && s.bases[i].scopeId.Some?
    ensures Split(s, drawn, now)[a] == CenterAct(s, i, s.bases[i].scopeId, now)
  {
  }

  /** An inventory that keeps its whole act has no other. */
  lemma WholeActIsOne(s: Source, drawn: map<Id, (Id, Option<Id>)>, now: int, i: Id, a: Id)
    requires OldConstraints(s) && Draws(s, drawn) && KeepsWholeAct(s, i)
    requires a in Split(s, drawn, now) && Split(s, drawn, now)[a].inventory == i
    ensures Split(s, drawn, now)[a] == WholeAct(s, i)
  {
  }

  /** At most one act of an inventory carries a request, and it is the inventory's. */
  lemma RequestsAreNotDuplicated(s: Source, drawn: map<Id, (Id, Option<Id>)>, now: int, i: Id, a: Id, b: Id)
    requires OldConstraints(s) && Draws(s, drawn)
    requires CarriesRequest(Split(s, drawn, now), a, i) && CarriesRequest(Split(s, drawn, now), b, i)
    ensures a == b && i in s.columns && Split(s, drawn, now)[a].columns.request == s.columns[i].request
  {
    SplitMeetsConstraints(s, drawn, now);
    if s.bases[i].centerScope {
      ScopedActIsOne(s, drawn, now, i, a);
      ScopedActIsOne(s, drawn, now, i, b);
    } else {
      WholeActIsOne(s, drawn, now, i, a);
      WholeActIsOne(s, drawn, now, i, b);
    }
  }

  /** A request lands in an act exactly when its inventory meets the guard. */
  lemma RequestLandsExactlyWhen(s: Source, drawn: map<Id, (Id, Option<Id>)>, now: int, i: Id)
    requires OldConstraints(s) && Draws(s, drawn) && i in s.bases && s.columns[i].request.Some?
    ensures (exists a :: CarriesRequest(Split(s, drawn, now), a, i)) <==> Lands(s.bases[i])
  {
    var acts := Split(s, drawn, now);
    if Lands(s.bases[i]) {
      var key := if s.bases[i].centerScope then (i, s.bases[i].scopeId) else (i, None);
      if s.bases[i].centerScope {
        assert key in ScopeCenters(s);
        assert key in CenterActKeys(s);
      } else {
        assert key in WholeActKeys(s);
      }
      assert HasId(drawn, key);
      var a :| a in drawn && drawn[a] == key;
      assert CarriesRequest(acts, a, i);
    } else if a :| CarriesRequest(acts, a, i) {
      ScopedActIsOne(s, drawn, now, i, a);
    }
  }

  /** A closed inventory scoped by centre without naming one: its request is in no act. */
  lemma RequestWithoutCenterIsDropped(now: int) returns (s: Source)
    ensures s.bases == map[1 := Base(true, None, true)] && s.columns == map[1 := NO_COLUMNS.(request := Some(9))]
    ensures OldConstraints(s) && Draws(s, map[]) && !exists a :: CarriesRequest(Split(s, map[], now), a, 1)
  {
    s := Source(map[1 := Base(true, None, true)], map[1 := NO_COLUMNS.(request := Some(9))], map[], map[]);
    RequestLandsExactlyWhen(s, map[], now, 1);
  }

  // ---- Documents and requests follow their act ----

  /** An act of this format still names the inventory, and the inventory's act `a` carries a request. */
  predicate Moves(acts: ActTable, link: Link, a: Id) {
    && link.entityType == LEGACY_ENTITY && link.format == ACT_FORMAT
    && a in acts && acts[a].inventory == link.entityId && acts[a].columns.request.Some?
  }

  /** UPDATE ... FROM physical_inventory_act: any matching act serves; after the split there is at most one. */
  ghost predicate PointedAtActs(acts: ActTable, before: map<Id, Link>, after: map<Id, Link>) {
    && after.Keys == before.Keys
    && forall d :: d in before ==>
         if exists a :: Moves(acts, before[d], a)
         then exists a :: Moves(acts, before[d], a) && after[d] == before[d].(entityType := ACT_ENTITY, entityId := a)
         else after[d] == before[d]
  }

  /** A document or request moves exactly when it is of the act's format, names an inventory, and that has an act with a request. */
  lemma LinkMovesExactlyWhen(acts: ActTable, before: map<Id, Link>, after: map<Id, Link>, d: Id)
    requires PointedAtActs(acts, before, after) && d in before
    ensures d in after && after[d].format == before[d].format
    ensures after[d] != before[d] ==> after[d].entityType == "PHYSICAL_INVENTORY_ACT"
    ensures (after[d].entityType == "PHYSICAL_INVENTORY_ACT" && before[d].entityType == "PHYSICAL_INVENTORY") <==>
            && before[d].entityType == "PHYSICAL_INVENTORY" && before[d].format == "OCI-21-37"
            && exists a :: a in acts && acts[a].inventory == before[d].entityId && acts[a].columns.request.Some?
    ensures after[d] != before[d] ==>
              && after[d].entityId in acts && acts[after[d].entityId].inventory == before[d].entityId
              && acts[after[d].entityId].columns.request.Some?
  {
    if exists a :: Moves(acts, before[d], a) {
      var a :| Moves(acts, before[d], a) && after[d] == before[d].(entityType := ACT_ENTITY, entityId := a);
    } else if a :| a in acts && acts[a].inventory == before[d].entityId && acts[a].columns.request.Some? {
      assert !Moves(acts, before[d], a);
    }
  }

  function PointedBack(acts: ActTable, links: map<Id, Link>): map<Id, Link> {
    map d | d in links ::
      if links[d].entityType == ACT_ENTITY && links[d].entityId in acts
      then links[d].(entityType := LEGACY_ENTITY, entityId := acts[links[d].entityId].inventory)
      else links[d]
  }

  /** The reverse migration points every document and request back where it was. */
  lemma LinksRoundTrip(acts: ActTable, before: map<Id, Link>, after: map<Id, Link>)
    requires PointedAtActs(acts, before, after)
    requires forall d :: d in before && before[d].entityType == ACT_ENTITY ==> before[d].entityId !in acts
    ensures PointedBack(acts, after) == before
  {
    var back := PointedBack(acts, after);
    forall d | d in before
      ensures back[d] == before[d]
    {
      if exists a :: Moves(acts, before[d], a) {
        var a :| Moves(acts, before[d], a) && after[d] == before[d].(entityType := ACT_ENTITY, entityId := a);
      }
    }
    assert back.Keys == before.Keys;
  }

  // ---- down: which act gives its columns back ----

  /** DISTINCT ON (inventory_id) ORDER BY (request IS NULL), centre code NULLS FIRST, id: `rank` is the order of the last two keys. */
  ghost predicate IsFirstAct(acts: ActTable, rank: Id -> int, i: Id, a: Id) {
    && a in acts && acts[a].inventory == i
    && forall b :: b in acts && acts[b].inventory == i ==> !Precedes(acts[b], rank(b), acts[a], rank(a))
  }

  predicate Precedes(x: Act, rankX: int, y: Act, rankY: int) {
    || (x.columns.request.Some? && y.columns.request.None?)
    || (x.columns.request.None? == y.columns.request.None? && rankX < rankY)
  }

  /** The first act has a request if any does, and among those like it the least rank. */
  lemma FirstActExactlyWhen(acts: ActTable, rank: Id -> int, i: Id, a: Id)
    ensures IsFirstAct(acts, rank, i, a) <==>
            && a in acts && acts[a].inventory == i
            && (acts[a].columns.request.None? ==> forall b :: b in acts && acts[b].inventory == i ==> acts[b].columns.request.None?)
            && forall b :: b in acts && acts[b].inventory == i && acts[b].columns.request.Some? == acts[a].columns.request.Some? ==>
                 rank(a) <= rank(b)
  {
  }

  function MergedColumns(base: Base, act: Act): Columns {
    if base.centerScope then act.columns else act.columns.(signer := None, signerAt := None, signerBy := None)
  }

  ghost predicate Merged(bases: map<Id, Base>, acts: ActTable, rank: Id -> int, columns: map<Id, Columns>) {
    && columns.Keys == bases.Keys
    && forall i :: i in bases ==>
         if exists a :: a in acts && acts[a].inventory == i
         then exists a :: IsFirstAct(acts, rank, i, a) && columns[i] == MergedColumns(bases[i], acts[a])
         else columns[i] == NO_COLUMNS
  }

  /** What one inventory gets back. */
  lemma MergedInventory(s: Source, drawn: map<Id, (Id, Option<Id>)>, now: int, rank: Id -> int, columns: map<Id, Columns>, i: Id)
    requires OldConstraints(s) && Draws(s, drawn) && i in s.bases
    requires Merged(s.bases, Split(s, drawn, now), rank, columns)
    ensures columns[i].request == if Lands(s.bases[i]) then s.columns[i].request else None
    ensures Lands(s.bases[i]) && s.columns[i].request.Some? ==>
              && columns[i].document == s.columns[i].document
              && columns[i].attendedBy == s.columns[i].attendedBy && columns[i].attendedName == s.columns[i].attendedName
              && (s.bases[i].centerScope ==>
                    columns[i].signer == s.columns[i].signer && columns[i].signerAt == s.columns[i].signerAt
                    && columns[i].signerBy == s.columns[i].signerBy)
  {
    var acts := Split(s, drawn, now);
    if s.columns[i].request.Some? {
      RequestLandsExactlyWhen(s, drawn, now, i);
    }
    if exists a :: a in acts && acts[a].inventory == i {
      var a :| IsFirstAct(acts, rank, i, a) && columns[i] == MergedColumns(s.bases[i], acts[a]);
      if s.bases[i].centerScope {
        ScopedActIsOne(s, drawn, now, i, a);
      } else if KeepsWholeAct(s, i) {
        WholeActIsOne(s, drawn, now, i, a);
      }
    }
  }

  /** The round trip gives back every request id exactly when every inventory that holds one meets the guard. */
  lemma RequestsRecoveredExactlyWhen(s: Source, drawn: map<Id, (Id, Option<Id>)>, now: int, rank: Id -> int, columns: map<Id, Columns>)
    requires OldConstraints(s) && Draws(s, drawn)
    requires Merged(s.bases, Split(s, drawn, now), rank, columns)
    ensures (forall i :: i in s.bases ==> columns[i].request == s.columns[i].request)
            <==> (forall i :: i in s.bases && s.columns[i].request.Some? ==> Lands(s.bases[i]))
  {
    forall i | i in s.bases
      ensures columns[i].request == if Lands(s.bases[i]) then s.columns[i].request else None
    {
      MergedInventory(s, drawn, now, rank, columns, i);
    }
  }

  // ---- When all columns come back ----

  /** The split gives the inventory an act at all. */
  ghost predicate HasAct(s: Source, i: Id)
    requires i in s.bases && i in s.columns
  {
    if s.bases[i].centerScope then s.bases[i].closed && s.bases[i].scopeId.Some?
    else s.columns[i].request.Some? || exists k :: k in ItemCenters(s) && k.0 == i && k.1.Some?
  }

  /** Beside a request no block is kept; without one a block is kept if its time is. */
  predicate BlockSurvives(c: Columns) {
    if c.request.Some? then c.blockedCode.None? && c.blockedMessage.None? && c.blockedAt.None?
    else c.blockedCode.Some? == c.blockedAt.Some?
  }

  /** What an inventory must look like for the round trip to give all its act columns back. */
  ghost predicate Survives(s: Source, i: Id)
    requires i in s.bases && i in s.columns
  {
    var c := s.columns[i];
    if !HasAct(s, i) then c == NO_COLUMNS
    else
      && BlockSurvives(c)
      && (!s.bases[i].centerScope ==>
            && c.signer.None? && c.signerAt.None? && c.signerBy.None?
            && (c.request.None? ==> c.document.None?))
  }

  lemma HasActExactlyWhen(s: Source, drawn: map<Id, (Id, Option<Id>)>, now: int, i: Id)
    requires OldConstraints(s) && Draws(s, drawn) && i in s.bases
    ensures HasAct(s, i) <==> exists a :: a in Split(s, drawn, now) && Split(s, drawn, now)[a].inventory == i
  {
    if HasAct(s, i) {
      var key :=
        if s.bases[i].centerScope then (i, s.bases[i].scopeId)
        else if s.columns[i].request.Some? then (i, None)
        else var k :| k in ItemCenters(s) && k.0 == i && k.1.Some?; k;
      assert s.bases[i].centerScope ==> key in ScopeCenters(s);
      assert key in WholeActKeys(s) + CenterActKeys(s);
      assert HasId(drawn, key);
      var a :| a in drawn && drawn[a] == key;
      assert a in Split(s, drawn, now) && Split(s, drawn, now)[a].inventory == i;
    }
    if a :| a in Split(s, drawn, now) && Split(s, drawn, now)[a].inventory == i {
      ActOfId(s, drawn, now, a);
      if s.bases[i].centerScope {
        ScopedActIsOne(s, drawn, now, i, a);
      }
    }
  }

  /** Every act of an inventory holds the same columns. */
  lemma ActColumns(s: Source, drawn: map<Id, (Id, Option<Id>)>, now: int, i: Id, a: Id)
    requires OldConstraints(s) && Draws(s, drawn) && i in s.bases
    requires a in Split(s, drawn, now) && Split(s, drawn, now)[a].inventory == i
    ensures Split(s, drawn, now)[a].columns ==
            if KeepsWholeAct(s, i) then WholeAct(s, i).columns else CenterAct(s, i, None, now).columns
  {
    ActOfId(s, drawn, now, a);
    if KeepsWholeAct(s, i) {
      WholeActIsOne(s, drawn, now, i, a);
    }
  }

  lemma KeptColumns(s: Source, i: Id, now: int)
    requires OldConstraints(s) && i in s.bases && HasAct(s, i)
    ensures var act := if KeepsWholeAct(s, i) then WholeAct(s, i) else CenterAct(s, i, None, now);
            MergedColumns(s.bases[i], act) == s.columns[i] <==> Survives(s, i)
  {
  }

  /** One inventory gets all its act columns back exactly when it looked like that before. */
  lemma ColumnsRecoveredExactlyWhen(s: Source, drawn: map<Id, (Id, Option<Id>)>, now: int, rank: Id -> int,
                                    columns: map<Id, Columns>, i: Id)
    requires OldConstraints(s) && Draws(s, drawn) && i in s.bases
    requires Merged(s.bases, Split(s, drawn, now), rank, columns)
    ensures columns[i] == s.columns[i] <==> Survives(s, i)
  {
    HasActExactlyWhen(s, drawn, now, i);
    if HasAct(s, i) {
      var acts := Split(s, drawn, now);
      var a :| IsFirstAct(acts, rank, i, a) && columns[i] == MergedColumns(s.bases[i], acts[a]);
      ActColumns(s, drawn, now, i, a);
      KeptColumns(s, i, now);
    }
  }

  /** The reverse migration rebuilds the act columns exactly when every inventory looked like that. */
  lemma TableRecoveredExactlyWhen(s: Source, drawn: map<Id, (Id, Option<Id>)>, now: int, rank: Id -> int, columns: map<Id, Columns>)
    requires OldConstraints(s) && Draws(s, drawn)
    requires Merged(s.bases, Split(s, drawn, now), rank, columns)
    ensures columns == s.columns <==> forall i :: i in s.bases ==> Survives(s, i)
  {
    forall i | i in s.bases
      ensures columns[i] == s.columns[i] <==> Survives(s, i)
    {
      ColumnsRecoveredExactlyWhen(s, drawn, now, rank, columns, i);
    }
    assert columns.Keys == s.columns.Keys;
    if forall i :: i in s.bases ==> Survives(s, i) {
      assert forall i :: i in s.columns ==> columns[i] == s.columns[i];
    }
  }

  const SIGNED := Source(
    map[1 := Base(false, None, true)],
    map[1 := NO_COLUMNS.(request := Some(9), signer := Some(3), signerAt := Some(7), signerBy := Some(4))], map[], map[])

  const SIGNED_IDS: map<Id, (Id, Option<Id>)> := map[5 := (1, None)]

  lemma SignedActIsWhole(now: int)
    ensures OldConstraints(SIGNED) && Draws(SIGNED, SIGNED_IDS)
    ensures Split(SIGNED, SIGNED_IDS, now) == map[5 := WholeAct(SIGNED, 1)]
  {
    assert KeepsWholeAct(SIGNED, 1);
    assert HasId(SIGNED_IDS, (1, None)) by {
      assert 5 in SIGNED_IDS && SIGNED_IDS[5] == (1, None);
    }
    assert ItemCenters(SIGNED) == {} && ScopeCenters(SIGNED) == {};
  }

  /** The signer of an inventory of another scope stays in its act and is not merged back with the request. */
  lemma SignerOfWholeActIsLost(now: int, rank: Id -> int) returns (columns: map<Id, Columns>)
    ensures OldConstraints(SIGNED) && Draws(SIGNED, SIGNED_IDS)
    ensures Merged(SIGNED.bases, Split(SIGNED, SIGNED_IDS, now), rank, columns)
    ensures columns == map[1 := NO_COLUMNS.(request := Some(9))] != SIGNED.columns
  {
    SignedActIsWhole(now);
    columns := map[1 := NO_COLUMNS.(request := Some(9))];
    assert IsFirstAct(Split(SIGNED, SIGNED_IDS, now), rank, 1, 5);
    assert columns[1] == MergedColumns(SIGNED.bases[1], WholeAct(SIGNED, 1));
    assert columns[1].signer != SIGNED.columns[1].signer;
  }

  // ---- The migration ----

  class InventoryStore {
    var bases: map<Id, Base>
    var columns: map<Id, Columns>   // the act columns of physical_inventory; empty once dropped
    var items: map<Id, Item>
    var centers: map<Id, Option<Id>>
    var acts: ActTable
    var documents: map<Id, Link>
    var requests: map<Id, Link>
    var classified: set<Id>   // assets with a price-zero reason, a table of the same migration

    ghost function Tables(): Source
      reads this
    {
      Source(bases, columns, items, centers)
    }

    constructor (s: Source, documents: map<Id, Link>, requests: map<Id, Link>)
      ensures Tables() == s && acts == map[] && this.documents == documents && this.requests == requests
    {
      bases, columns, items, centers := s.bases, s.columns, s.items, s.centers;
      acts := map[];
      this.documents, this.requests := documents, requests;
      classified := {};
    }

    method Up(drawn: map<Id, (Id, Option<Id>)>, now: int)
      requires OldConstraints(Tables()) && Draws(Tables(), drawn) && acts == map[]
      modifies this
      ensures bases == old(bases) && items == old(items) && centers == old(centers) && columns == map[]
      ensures acts == Split(old(Tables()), drawn, now) && ActConstraints(acts)
      ensures PointedAtActs(acts, old(documents), documents) && PointedAtActs(acts, old(requests), requests)
      ensures classified == {}
    {
      var s := Source(bases, columns, items, centers);
      acts := InsertActs(s, drawn, now);
      documents := PointAtActs(acts, documents);
      requests := PointAtActs(acts, requests);
      columns, classified := map[], {};
    }

    /** The reverse migration; refused while an inventory has several acts with a request or an asset is classified. */
    method Down(rank: Id -> int) returns (done: bool)
      modifies this
      ensures done <==> old(classified) == {}
                        && forall i, a, b :: CarriesRequest(old(acts), a, i) && CarriesRequest(old(acts), b, i) ==> a == b
      ensures done ==>
                && bases == old(bases) && items == old(items) && centers == old(centers) && acts == map[]
                && Merged(bases, old(acts), rank, columns)
                && documents == PointedBack(old(acts), old(documents)) && requests == PointedBack(old(acts), old(requests))
      ensures !done ==> unchanged(this)
    {
      if exists a, b :: a in acts && b in acts && a != b && acts[a].inventory == acts[b].inventory
                        && acts[a].columns.request.Some? && acts[b].columns.request.Some? {
        ghost var a, b :| a in acts && b in acts && a != b && acts[a].inventory == acts[b].inventory
                          && acts[a].columns.request.Some? && acts[b].columns.request.Some?;
        assert CarriesRequest(acts, a, acts[a].inventory) && CarriesRequest(acts, b, acts[a].inventory);
        return false;
      }
      if classified != {} {
        return false;
      }
      columns := MergeActs(bases, acts, rank);
      documents := PointedBack(acts, documents);
      requests := PointedBack(acts, requests);
      acts := map[];
      return true;
    }
  }

  /** The two INSERTs, one after the other. */
  method InsertActs(s: Source, drawn: map<Id, (Id, Option<Id>)>, now: int) returns (acts: ActTable)
    requires OldConstraints(s) && Draws(s, drawn)
    ensures acts == Split(s, drawn, now) && ActConstraints(acts)
  {
    acts := map a | a in drawn && drawn[a] in WholeActKeys(s) :: WholeAct(s, drawn[a].0);
    acts := acts + map a | a in drawn && drawn[a] in CenterActKeys(s) :: CenterAct(s, drawn[a].0, drawn[a].1, now);
    SplitMeetsConstraints(s, drawn, now);
  }

  method PointAtActs(acts: ActTable, before: map<Id, Link>) returns (after: map<Id, Link>)
    ensures PointedAtActs(acts, before, after)
  {
    after := before;
    var pending := before.Keys;
    while pending != {}
      invariant pending <= before.Keys
      invariant after.Keys == before.Keys
      invariant forall d :: d in pending ==> after[d] == before[d]
      invariant forall d :: d in before.Keys - pending ==>
                  if exists a :: Moves(acts, before[d], a)
                  then exists a :: Moves(acts, before[d], a) && after[d] == before[d].(entityType := ACT_ENTITY, entityId := a)
                  else after[d] == before[d]
    {
      var d := Pick(pending);
      if exists a :: a in acts && Moves(acts, before[d], a) {
        var a :| a in acts && Moves(acts, before[d], a);
        after := after[d := before[d].(entityType := ACT_ENTITY, entityId := a)];
      }
      pending := pending - {d};
    }
  }

  method MergeActs(bases: map<Id, Base>, acts: ActTable, rank: Id -> int) returns (columns: map<Id, Columns>)
    ensures Merged(bases, acts, rank, columns)
  {
    columns := map i | i in bases :: NO_COLUMNS;
    var pending := bases.Keys;
    while pending != {}
      invariant pending <= bases.Keys
      invariant columns.Keys == bases.Keys
      invariant forall i :: i in bases.Keys - pending ==>
                  if exists a :: a in acts && acts[a].inventory == i
                  then exists a :: IsFirstAct(acts, rank, i, a) && columns[i] == MergedColumns(bases[i], acts[a])
                  else columns[i] == NO_COLUMNS
      invariant forall i :: i in pending ==> columns[i] == NO_COLUMNS
    {
      var i := Pick(pending);
      var mine := set a | a in acts && acts[a].inventory == i;
      if mine != {} {
        var a := FirstAct(acts, rank, i, mine);
        columns := columns[i := MergedColumns(bases[i], acts[a])];
      } else {
        assert forall a :: a in acts ==> a in mine || acts[a].inventory != i;
      }
      pending := pending - {i};
    }
  }

  method FirstAct(acts: ActTable, rank: Id -> int, i: Id, mine: set<Id>) returns (first: Id)
    requires mine != {} && forall a :: a in mine <==> a in acts && acts[a].inventory == i
    ensures IsFirstAct(acts, rank, i, first)
  {
    first := Pick(mine);
    var pending := mine - {first};
    while pending != {}
      invariant pending <= mine && first in mine
      invariant forall b :: b in mine - pending ==> !Precedes(acts[b], rank(b), acts[first], rank(first))
    {
      var a := Pick(pending);
      if Precedes(acts[a], rank(a), acts[first], rank(first)) {
        first := a;
      }
      pending := pending - {a};
    }
  }

  /** Up and then down, run on the store: the guard decides whether a request survives, and every link is back. */
  method UpThenDown(store: InventoryStore, drawn: map<Id, (Id, Option<Id>)>, now: int, rank: Id -> int)
    requires OldConstraints(store.Tables()) && Draws(store.Tables(), drawn) && store.acts == map[]
    requires forall d :: d in store.documents && store.documents[d].entityType == ACT_ENTITY ==> store.documents[d].entityId !in drawn
    requires forall d :: d in store.requests && store.requests[d].entityType == ACT_ENTITY ==> store.requests[d].entityId !in drawn
    modifies store
    ensures store.bases == old(store.bases) && store.columns.Keys == old(store.columns.Keys)
    ensures forall i :: i in old(store.bases) ==>
              store.columns[i].request == if Lands(old(store.bases)[i]) then old(store.columns)[i].request else None
    ensures store.columns == old(store.columns) <==> forall i :: i in old(store.bases) ==> Survives(old(store.Tables()), i)
    ensures store.documents == old(store.documents) && store.requests == old(store.requests)
  {
    ghost var s := store.Tables();
    store.Up(drawn, now);
    ghost var acts := store.acts;
    LinksRoundTrip(acts, old(store.documents), store.documents);
    LinksRoundTrip(acts, old(store.requests), store.requests);
    forall i, a, b | CarriesRequest(acts, a, i) && CarriesRequest(acts, b, i)
      ensures a == b
    {
      RequestsAreNotDuplicated(s, drawn, now, i, a, b);
    }
    var done := store.Down(rank);
    forall i | i in s.bases
      ensures store.columns[i].request == if Lands(s.bases[i]) then s.columns[i].request else None
    {
      MergedInventory(s, drawn, now, rank, store.columns, i);
    }
    TableRecoveredExactlyWhen(s, drawn, now, rank, store.columns);
  }
}
