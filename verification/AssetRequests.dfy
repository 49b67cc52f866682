/** One asset request with its items: src/modules/asset-requests and the CHECKs on asset_request. */
module AssetRequests {
  import opened Options
  import opened Hierarchy

  datatype Status =
    | Requested | Accepted | ClosedByOwner | Returned | LoanScheduled | DocumentGenerated
    | ClosedLoanRejected | ClosedLoanCancelled | Cancelled | Expired

  datatype Kind = Temporary | Permanent

  predicate MayMove(from: Status, to: Status) {
    match from
    case Requested => to in {Accepted, ClosedByOwner, Cancelled}
    case Accepted => to in {LoanScheduled, DocumentGenerated, Returned, Expired}
    case Returned => to in {Requested, Accepted, Cancelled, Expired}
    case LoanScheduled => to in {DocumentGenerated, ClosedLoanRejected, ClosedLoanCancelled}
    case _ => false
  }

  /** HOLDING_STATUSES. */
  predicate Holds(status: Status) {
    status.Accepted? || status.Returned?
  }

  const EXPIRY_DAYS := 14
  const DAY := 86400

  /** Dates are days, instants are seconds. Items map each asset to its `open` flag: (request_id, asset_id) is unique. */
  datatype Request = Request(
    status: Status, kind: Kind, requester: Id, requesting: Id, owner: Id, start: Option<int>, until: Option<int>,
    acceptedBy: Option<Id>, acceptedAt: Option<int>, expiresAt: Option<int>, loan: Option<Id>, transfer: Option<Id>,
    items: map<Id, bool>)

  /** The dates a temporary request must carry. */
  predicate DatesPass(kind: Kind, start: Option<int>, until: Option<int>) {
    kind.Permanent? || (start.Some? && until.Some? && until.value >= start.value)
  }

  /** The CHECK constraints on asset_request. */
  predicate Checks(r: Request) {
    && r.requesting != r.owner
    && DatesPass(r.kind, r.start, r.until)
    && (r.status in {Accepted, LoanScheduled, DocumentGenerated, ClosedLoanRejected, ClosedLoanCancelled, Expired} ==>
          r.acceptedBy.Some? && r.acceptedAt.Some?)
    && (r.status in {Accepted, Returned} ==> r.expiresAt.Some?)
    && (r.status in {LoanScheduled, ClosedLoanRejected, ClosedLoanCancelled} ==> HasOnlyLoan(r))
    && (r.status.DocumentGenerated? ==> HasOnlyLoan(r) || HasOnlyTransfer(r))
  }

  predicate HasOnlyLoan(r: Request) {
    r.kind.Temporary? && r.loan.Some? && r.transfer.None?
  }

  predicate HasOnlyTransfer(r: Request) {
    r.kind.Permanent? && r.transfer.Some? && r.loan.None?
  }

  /** What every stored request satisfies, the CHECKs and more. */
  predicate Sound(r: Request) {
    && Checks(r)
    && r.acceptedBy != Some(r.requester)
    && (r.kind.Permanent? ==> r.start.None? && r.until.None?)
    && (forall a :: a in r.items ==> r.items[a] == Holds(r.status))
    && (Holds(r.status) ==> r.items != map[] && r.acceptedBy.Some? && r.acceptedAt.Some?)
    && (r.status.Requested? ==> r.items == map[] && r.acceptedBy.None?)
    && (r.loan.Some? ==> r.status in {LoanScheduled, DocumentGenerated, ClosedLoanRejected, ClosedLoanCancelled})
    && (r.transfer.Some? ==> r.status.DocumentGenerated?)
  }

  function OpenItems(r: Request): set<Id> {
    set a | a in r.items && r.items[a]
  }

  function Freed(items: map<Id, bool>): map<Id, bool> {
    map a | a in items :: false
  }

  // ---- The steps on one request ----

  function New(kind: Kind, requester: Id, requesting: Id, owner: Id, start: Option<int>, until: Option<int>): Request {
    Request(Requested, kind, requester, requesting, owner,
            if kind.Temporary? then start else None, if kind.Temporary? then until else None,
            None, None, None, None, None, map[])
  }

  predicate CanCreate(kind: Kind, requesting: Id, owner: Id, start: Option<int>, until: Option<int>) {
    requesting != owner && DatesPass(kind, start, until)
  }

  function AcceptedWith(r: Request, assets: set<Id>, actor: Id, now: int): Request {
    r.(status := Accepted, acceptedBy := Some(actor), acceptedAt := Some(now),
       expiresAt := Some(now + EXPIRY_DAYS * DAY), items := r.items + map a | a in assets :: true)
  }

  /** The INSERT of the items fails on an asset the request already has. */
  predicate CanAccept(r: Request, assets: set<Id>, actor: Id) {
    actor != r.requester && MayMove(r.status, Accepted) && assets != {} && assets !! r.items.Keys
  }

  /** setStatus and closeByLoan. */
  function Closed(r: Request, status: Status): Request {
    r.(status := status, expiresAt := None, items := Freed(r.items))
  }

  function SentBack(r: Request, now: int): Request {
    r.(status := Returned, expiresAt := Some(now + EXPIRY_DAYS * DAY))
  }

  datatype Patch = Patch(kind: Option<Kind>, requesting: Option<Id>, owner: Option<Id>, start: Option<int>, until: Option<int>)

  function Or<T>(value: Option<T>, otherwise: T): T {
    if value.Some? then value.value else otherwise
  }

  /** The request as the patch asks for it, before its status is decided. */
  function Patched(r: Request, p: Patch): Request {
    var kind := Or(p.kind, r.kind);
    r.(kind := kind, requesting := Or(p.requesting, r.requesting), owner := Or(p.owner, r.owner),
       start := if kind.Permanent? then None else if p.start.Some? then p.start else r.start,
       until := if kind.Permanent? then None else if p.until.Some? then p.until else r.until)
  }

  function StatusAfterCorrection(r: Request, to: Request): Status {
    if to.kind != r.kind || to.requesting != r.requesting || to.owner != r.owner then Requested else Accepted
  }

  predicate CanCorrect(r: Request, p: Patch, actor: Id) {
    var to := Patched(r, p);
    actor == r.requester && r.status.Returned? && DatesPass(to.kind, to.start, to.until) && to.requesting != to.owner
  }

  function Corrected(r: Request, p: Patch, now: int): Request {
    var to := Patched(r, p);
    if StatusAfterCorrection(r, to).Requested? then
      to.(status := Requested, acceptedBy := None, acceptedAt := None, expiresAt := None, items := map[])
    else
      to.(status := Accepted, expiresAt := Some(now + EXPIRY_DAYS * DAY))
  }

  function Scheduled(r: Request, loan: Id): Request {
    r.(status := LoanScheduled, loan := Some(loan), transfer := None, expiresAt := None, items := Freed(r.items))
  }

  function Transferred(r: Request, transfer: Id): Request {
    r.(status := DocumentGenerated, loan := None, transfer := Some(transfer), expiresAt := None, items := Freed(r.items))
  }

  predicate CanGenerate(r: Request, kind: Kind) {
    && r.kind == kind
    && MayMove(r.status, if kind.Temporary? then LoanScheduled else DocumentGenerated)
    && OpenItems(r) != {}
    && r.acceptedBy.Some?
  }

  predicate CanExpire(r: Request, now: int) {
    Holds(r.status) && r.expiresAt.Some? && r.expiresAt.value <= now
  }

  function Lapsed(r: Request): Request {
    r.(status := Expired, items := Freed(r.items))
  }

  /** A request holds every asset it names while accepted or returned, and none otherwise. */
  lemma SoundOpenItems(r: Request)
    requires Sound(r)
    ensures OpenItems(r) == if Holds(r.status) then r.items.Keys else {}
    ensures Holds(r.status) <==> OpenItems(r) != {}
  {
    forall a
      ensures a in OpenItems(r) <==> Holds(r.status) && a in r.items.Keys
    {
    }
    if Holds(r.status) {
      var a := Element(r.items.Keys);
      assert a in OpenItems(r);
    }
  }

  /** A correction keeps the chosen assets exactly when it keeps kind and both centres. */
  lemma CorrectionKeepsAssetsExactlyWhen(r: Request, p: Patch, now: int)
    requires Sound(r) && r.status.Returned?
    ensures OpenItems(Corrected(r, p, now)) ==
            if Or(p.kind, r.kind) == r.kind && Or(p.requesting, r.requesting) == r.requesting
                 && Or(p.owner, r.owner) == r.owner
            then r.items.Keys else {}
    ensures OpenItems(r) == r.items.Keys && r.items.Keys != {}
  {
    var to := Corrected(r, p, now);
    forall a
      ensures a in OpenItems(r) <==> a in r.items.Keys
      ensures a in OpenItems(to) <==> to.status.Accepted? && a in r.items.Keys
    {
    }
    SoundOpenItems(r);
  }

  /** The table also lets an owner accept a returned request: the call then adds its assets to those already held. */
  lemma AcceptedAssetsAreTheNamedOnesExactlyWhen(r: Request, assets: set<Id>, actor: Id, now: int)
    requires Sound(r) && CanAccept(r, assets, actor)
    ensures OpenItems(AcceptedWith(r, assets, actor, now)) == r.items.Keys + assets
    ensures OpenItems(AcceptedWith(r, assets, actor, now)) == assets <==> r.status.Requested?
  {
    var to := AcceptedWith(r, assets, actor, now);
    forall a
      ensures a in OpenItems(to) <==> a in r.items.Keys + assets
    {
    }
    if r.status.Returned? {
      var a := Element(r.items.Keys);
      assert a in OpenItems(to) && a !in assets;
    }
  }

  /** An owner's second acceptance of a request sent back for correction, with no correction in between. */
  lemma ReturnedRequestCanBeAccepted() returns (r: Request, actor: Id, before: set<Id>, after: set<Id>)
    ensures Sound(r) && r.status.Returned? && before == OpenItems(r)
    ensures CanAccept(r, {2}, actor) && after == OpenItems(AcceptedWith(r, {2}, actor, 0))
    ensures before == {1} && after == {1, 2} && AcceptedWith(r, {2}, actor, 0).status.Accepted?
  {
    r := Request(Returned, Permanent, 10, 20, 30, None, None, Some(11), Some(0), Some(EXPIRY_DAYS * DAY), None, None,
                 map[1 := true]);
    actor := 11;
    before := OpenItems(r);
    assert {1} <= before;
    AcceptedAssetsAreTheNamedOnesExactlyWhen(r, {2}, actor, 0);
    after := OpenItems(AcceptedWith(r, {2}, actor, 0));
  }

  /** A correction to what the request already says only sends it back to Internal Control, with a new deadline. */
  lemma ResubmissionChangesNothingElse(r: Request, p: Patch, now: int)
    requires Sound(r) && r.status.Returned?
    requires p.kind in {None, Some(r.kind)} && p.requesting in {None, Some(r.requesting)} && p.owner in {None, Some(r.owner)}
    requires p.start in {None, r.start} && p.until in {None, r.until}
    ensures CanCorrect(r, p, r.requester)
    ensures Corrected(r, p, now) == r.(status := Accepted, expiresAt := Some(now + EXPIRY_DAYS * DAY))
  {
    assert p.kind.Some? ==> p.kind.value == r.kind;
    assert p.requesting.Some? ==> p.requesting.value == r.requesting;
    assert p.owner.Some? ==> p.owner.value == r.owner;
  }

  /** Every step a request may take keeps it sound. */
  lemma StepsKeepSound(r: Request, assets: set<Id>, actor: Id, p: Patch, now: int, document: Id)
    requires Sound(r)
    ensures CanAccept(r, assets, actor) ==> Sound(AcceptedWith(r, assets, actor, now))
    ensures MayMove(r.status, ClosedByOwner) ==> Sound(Closed(r, ClosedByOwner))
    ensures MayMove(r.status, Cancelled) ==> Sound(Closed(r, Cancelled))
    ensures MayMove(r.status, Returned) ==> Sound(SentBack(r, now))
    ensures CanCorrect(r, p, actor) ==> Sound(Corrected(r, p, now))
    ensures CanGenerate(r, Temporary) ==> Sound(Scheduled(r, document))
    ensures CanGenerate(r, Permanent) ==> Sound(Transferred(r, document))
    ensures CanExpire(r, now) ==> Sound(Lapsed(r))
    ensures r.status.LoanScheduled? ==> Sound(r.(status := DocumentGenerated))
    ensures r.status.LoanScheduled? ==> Sound(Closed(r, ClosedLoanRejected)) && Sound(Closed(r, ClosedLoanCancelled))
  {
    if assets != {} {
      var a := Element(assets);
      assert a in AcceptedWith(r, assets, actor, now).items;
    }
  }
}
