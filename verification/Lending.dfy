/**
 Asset requests, loans and assets as one state machine: the transactions of
 src/modules/asset-requests/services/asset-requests.service.ts and src/modules/loans/services/loans.service.ts,
 the listeners that tie them, and the other writers of an asset's status. Who may call what is left open
 except where the code compares two identities; the steps here include every permitted one.
 */
module Lending {
  import opened Options
  import opened Hierarchy
  import L = Loans
  import R = AssetRequests

  datatype State = State(assets: map<Id, L.Asset>, loans: map<Id, L.Loan>, requests: map<Id, R.Request>)

  /**
   What a transaction learns from outside comes with its event: `held` are the assets in open transfers, inventories
   or write-offs, `writingOff` those in open write-offs, and `ready` says that the target centre is active with a
   head and the contact exists (for a new loan), or that contact, signers and document pass (for a delivery).
   */
  datatype Event =
    | CreateRequest(request: Id, kind: R.Kind, actor: Id, requesting: Id, owner: Id, start: Option<int>, until: Option<int>)
    | AcceptRequest(request: Id, chosen: set<Id>, held: set<Id>, actor: Id, now: int)
    | CloseRequest(request: Id, actor: Id)
    | CorrectRequest(request: Id, patch: R.Patch, actor: Id, now: int)
    | CancelRequest(request: Id, actor: Id)
    | SendBack(request: Id, now: int)
    | ScheduleLoan(request: Id, loan: Id, writingOff: set<Id>, ready: bool)
    | GenerateTransfer(request: Id, transfer: Id)
    | ExpireRequest(request: Id, now: int)
    | AskLoan(loan: Id, chosen: set<Id>, source: Id, target: Id, actor: Id, due: int, writingOff: set<Id>, ready: bool)
    | ApproveLoan(loan: Id, actor: Id)
    | RejectLoan(loan: Id, actor: Id)
    | CancelLoan(loan: Id)
    | Deliver(loan: Id, today: int, now: int, ready: bool)
    | SignDelivery(loan: Id)
    | UndoDelivery(loan: Id)
    | StartReturn(loan: Id, recorded: map<Id, L.Return>, now: int)
    | ReceiveReturn(loan: Id)
    | MarkOverdue(loan: Id, today: int)
    | AskExtension(loan: Id, actor: Id, due: int, today: int)
    | Extend(loan: Id, actor: Id, today: int)
    | RefuseExtension(loan: Id, actor: Id)
    | EditAsset(asset: Id, value: L.Asset)
    | Reconcile(asset: Id)

  // ---- Where an asset is ----

  /** The asset is in an item of the loan that is not received while the loan is open. */
  predicate Engages(loan: L.Loan, a: Id) {
    L.IsOpen(loan.status) && a in loan.items && !loan.items[a].received
  }

  /** The asset was handed over under the loan and is neither received nor undone. */
  predicate HasOut(loan: L.Loan, a: Id) {
    L.IsOut(loan.status) && a in loan.items && !loan.items[a].received
  }

  predicate Outstanding(loans: map<Id, L.Loan>, a: Id) {
    exists l :: l in loans && HasOut(loans[l], a)
  }

  predicate Busy(loans: map<Id, L.Loan>, a: Id) {
    exists l :: l in loans && Engages(loans[l], a)
  }

  predicate Reserved(requests: map<Id, R.Request>, a: Id) {
    exists r :: r in requests && a in R.OpenItems(requests[r])
  }

  // ---- Steps ----

  /** createWithin: all assets of one source centre other than the target, loanable, in no open loan or write-off. */
  predicate CanLend(assets: map<Id, L.Asset>, loans: map<Id, L.Loan>, chosen: set<Id>, source: Id, target: Id,
                    writingOff: set<Id>, ready: bool) {
    && chosen != {} && chosen <= assets.Keys && source != target && ready
    && forall a :: a in chosen ==>
         assets[a].center == source && L.Loanable(assets[a].status) && !Busy(loans, a) && a !in writingOff
  }

  /** A loan made for a request is approved from the start, by whoever accepted the request. */
  function NewLoan(assets: map<Id, L.Asset>, chosen: set<Id>, source: Id, target: Id, requestedBy: Id, due: int,
                   start: Option<int>, approval: Option<(Id, Id)>): L.Loan
    requires chosen <= assets.Keys
  {
    L.Loan(if approval.Some? then L.Approved else L.Requested, source, target, requestedBy,
           if approval.Some? then Some(approval.value.0) else None,
           if approval.Some? then Some(approval.value.1) else None, start, due, None, None,
           map a | a in chosen :: L.Item(Some(assets[a].status), None, None, false))
  }

  /** assertEligible and the partial unique index on open items. */
  predicate Eligible(s: State, r: R.Request, chosen: set<Id>, held: set<Id>) {
    forall a :: a in chosen ==>
      && a in s.assets && s.assets[a].center == r.owner && L.Loanable(s.assets[a].status)
      && !Busy(s.loans, a) && !Reserved(s.requests, a) && a !in held
  }

  /** Every item's asset can leave: in the loan's source centre and loanable. */
  predicate CanHandOver(assets: map<Id, L.Asset>, loan: L.Loan) {
    && loan.items.Keys <= assets.Keys
    && forall a :: a in loan.items ==> assets[a].center == loan.source && L.Loanable(assets[a].status)
  }

  predicate CanDeliver(s: State, l: Id, today: int, ready: bool) {
    && ready && l in s.loans && L.MayMove(s.loans[l].status, L.PendingSignatures)
    && (s.loans[l].start.Some? ==> s.loans[l].start.value <= today)
    && today <= s.loans[l].due
    && s.loans[l].items != map[]
    && CanHandOver(s.assets, s.loans[l])
  }

  /** The guard of undoDelivery and receiveReturn. */
  predicate AllOnLoan(assets: map<Id, L.Asset>, chosen: set<Id>) {
    forall a :: a in chosen ==> a in assets && assets[a].status.OnLoan?
  }

  function WithStatuses(assets: map<Id, L.Asset>, statuses: map<Id, L.AssetStatus>): map<Id, L.Asset> {
    map a | a in assets :: if a in statuses then assets[a].(status := statuses[a]) else assets[a]
  }

  function OutStatuses(loan: L.Loan): map<Id, L.AssetStatus> {
    map a | a in loan.items :: L.OnLoan
  }

  function UndoneStatuses(loan: L.Loan): map<Id, L.AssetStatus> {
    map a | a in loan.items :: if loan.items[a].statusOnLoan.Some? then loan.items[a].statusOnLoan.value else L.InUse
  }

  function ReceivedStatuses(loan: L.Loan): map<Id, L.AssetStatus> {
    map a | a in loan.items && a in L.ToReceive(loan.items) :: L.StatusWhenReceived(loan.items[a])
  }

  /** The request a loan's listener acts on. */
  predicate Listens(requests: map<Id, R.Request>, l: Id, loan: L.Loan) {
    && loan.request.Some? && loan.request.value in requests
    && requests[loan.request.value].loan == Some(l)
    && requests[loan.request.value].status.LoanScheduled?
  }

  function AfterListener(requests: map<Id, R.Request>, l: Id, loan: L.Loan, status: R.Status): map<Id, R.Request> {
    if !Listens(requests, l, loan) then requests
    else
      var r := loan.request.value;
      requests[r := if status.DocumentGenerated? then requests[r].(status := status) else R.Closed(requests[r], status)]
  }

  predicate Allowed(s: State, e: Event) {
    match e
    case CreateRequest(r, kind, _, requesting, owner, start, until) =>
      r !in s.requests && R.CanCreate(kind, requesting, owner, start, until)
    case AcceptRequest(r, chosen, held, actor, _) =>
      r in s.requests && R.CanAccept(s.requests[r], chosen, actor) && Eligible(s, s.requests[r], chosen, held)
    case CloseRequest(r, actor) =>
      r in s.requests && actor != s.requests[r].requester && R.MayMove(s.requests[r].status, R.ClosedByOwner)
    case CorrectRequest(r, patch, actor, _) =>
      r in s.requests && R.CanCorrect(s.requests[r], patch, actor)
    case CancelRequest(r, actor) =>
      r in s.requests && actor == s.requests[r].requester && R.MayMove(s.requests[r].status, R.Cancelled)
    case SendBack(r, _) =>
      r in s.requests && R.MayMove(s.requests[r].status, R.Returned)
    case ScheduleLoan(r, l, writingOff, ready) =>
      && r in s.requests && l !in s.loans && R.CanGenerate(s.requests[r], R.Temporary)
      && CanLend(s.assets, s.loans, R.OpenItems(s.requests[r]), s.requests[r].owner, s.requests[r].requesting,
                 writingOff, ready)
      && s.requests[r].until.Some?
    case GenerateTransfer(r, t) =>
      && r in s.requests && R.CanGenerate(s.requests[r], R.Permanent)
      && forall q :: q in s.requests ==> s.requests[q].transfer != Some(t)
    case ExpireRequest(r, now) =>
      r in s.requests && R.CanExpire(s.requests[r], now)
    case AskLoan(l, chosen, source, target, _, _, writingOff, ready) =>
      l !in s.loans && CanLend(s.assets, s.loans, chosen, source, target, writingOff, ready)
    case ApproveLoan(l, actor) =>
      l in s.loans && s.loans[l].requestedBy != actor && L.MayMove(s.loans[l].status, L.Approved)
    case RejectLoan(l, actor) =>
      l in s.loans && s.loans[l].requestedBy != actor && L.MayMove(s.loans[l].status, L.Rejected)
    case CancelLoan(l) =>
      l in s.loans && s.loans[l].status.Approved?
    case Deliver(l, today, _, ready) => CanDeliver(s, l, today, ready)
    case SignDelivery(l) =>
      l in s.loans && s.loans[l].status.PendingSignatures?
    case UndoDelivery(l) =>
      l in s.loans && s.loans[l].status.PendingSignatures? && AllOnLoan(s.assets, s.loans[l].items.Keys)
    case StartReturn(l, recorded, now) =>
      l in s.loans && L.CanStartReturn(s.loans[l], recorded, now)
    case ReceiveReturn(l) =>
      && l in s.loans && s.loans[l].status.PendingReception?
      && L.ToReceive(s.loans[l].items) != {} && AllOnLoan(s.assets, L.ToReceive(s.loans[l].items))
    case MarkOverdue(l, today) =>
      l in s.loans && s.loans[l].status.Active? && s.loans[l].due < today
    case AskExtension(l, actor, due, today) =>
      l in s.loans && s.loans[l].requestedBy == actor && L.CanAskExtension(s.loans[l], due, today)
    case Extend(l, actor, _) =>
      l in s.loans && s.loans[l].requestedBy != actor && L.CanExtend(s.loans[l])
    case RefuseExtension(l, actor) =>
      l in s.loans && s.loans[l].requestedBy != actor && s.loans[l].extension.Some?
    case EditAsset(a, value) =>
      value.status.OnLoan? <==> a in s.assets && s.assets[a].status.OnLoan?
    case Reconcile(a) =>
      a in s.assets && !s.assets[a].status.Lost? && !s.assets[a].status.WrittenOff?
  }

  function WithRequest(s: State, r: Id, request: R.Request): State {
    s.(requests := s.requests[r := request])
  }

  function WithLoan(s: State, l: Id, loan: L.Loan): State {
    s.(loans := s.loans[l := loan])
  }

  function After(s: State, e: Event): State
    requires Allowed(s, e)
  {
    match e
    case CreateRequest(r, kind, actor, requesting, owner, start, until) =>
      WithRequest(s, r, R.New(kind, actor, requesting, owner, start, until))
    case AcceptRequest(r, chosen, _, actor, now) =>
      WithRequest(s, r, R.AcceptedWith(s.requests[r], chosen, actor, now))
    case CloseRequest(r, _) =>
      WithRequest(s, r, R.Closed(s.requests[r], R.ClosedByOwner))
    case CorrectRequest(r, patch, _, now) =>
      WithRequest(s, r, R.Corrected(s.requests[r], patch, now))
    case CancelRequest(r, _) =>
      WithRequest(s, r, R.Closed(s.requests[r], R.Cancelled))
    case SendBack(r, now) =>
      WithRequest(s, r, R.SentBack(s.requests[r], now))
    case ScheduleLoan(r, l, _, _) =>
      var q := s.requests[r];
      WithLoan(WithRequest(s, r, R.Scheduled(q, l)), l,
               NewLoan(s.assets, R.OpenItems(q), q.owner, q.requesting, q.requester, q.until.value, q.start,
                       Some((q.acceptedBy.value, r))))
    case GenerateTransfer(r, t) =>
      WithRequest(s, r, R.Transferred(s.requests[r], t))
    case ExpireRequest(r, _) =>
      WithRequest(s, r, R.Lapsed(s.requests[r]))
    case AskLoan(l, chosen, source, target, actor, due, _, _) =>
      WithLoan(s, l, NewLoan(s.assets, chosen, source, target, actor, due, None, None))
    case ApproveLoan(l, actor) =>
      WithLoan(s, l, L.ApprovedBy(s.loans[l], actor))
    case RejectLoan(l, _) =>
      s.(loans := s.loans[l := L.WithStatus(s.loans[l], L.Rejected)],
         requests := AfterListener(s.requests, l, s.loans[l], R.ClosedLoanRejected))
    case CancelLoan(l) =>
      s.(loans := s.loans[l := L.WithStatus(s.loans[l], L.Cancelled)],
         requests := AfterListener(s.requests, l, s.loans[l], R.ClosedLoanCancelled))
    case Deliver(l, _, now, _) =>
      State(WithStatuses(s.assets, OutStatuses(s.loans[l])),
            s.loans[l := L.Handed(s.loans[l], s.assets, now)],
            AfterListener(s.requests, l, s.loans[l], R.DocumentGenerated))
    case SignDelivery(l) =>
      WithLoan(s, l, L.WithStatus(s.loans[l], L.Active))
    case UndoDelivery(l) =>
      s.(assets := WithStatuses(s.assets, UndoneStatuses(s.loans[l])),
         loans := s.loans[l := L.WithStatus(s.loans[l], L.Cancelled)])
    case StartReturn(l, recorded, _) =>
      WithLoan(s, l, L.ReturnStarted(s.loans[l], recorded))
    case ReceiveReturn(l) =>
      s.(assets := WithStatuses(s.assets, ReceivedStatuses(s.loans[l])),
         loans := s.loans[l := L.ReturnReceived(s.loans[l])])
    case MarkOverdue(l, _) =>
      WithLoan(s, l, L.WithStatus(s.loans[l], L.Overdue))
    case AskExtension(l, _, due, _) =>
      WithLoan(s, l, s.loans[l].(extension := Some(due)))
    case Extend(l, _, today) =>
      WithLoan(s, l, L.Extended(s.loans[l], today))
    case RefuseExtension(l, _) =>
      WithLoan(s, l, s.loans[l].(extension := None))
    case EditAsset(a, value) =>
      s.(assets := s.assets[a := value])
    case Reconcile(a) =>
      s.(assets := s.assets[a := s.assets[a].(status := L.Lost)])
  }
}
