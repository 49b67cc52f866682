/**
 When each step may happen and what it writes, in the statuses and columns of the rows: the guards of
 loans.service.ts and asset-requests.service.ts put together, in every consistent state.
 */
module LendingGuards {
  import opened Options
  import opened Hierarchy
  import opened Lending
  import opened LendingRuns
  import L = Loans
  import R = AssetRequests

  // ---- Which assets ----

  /** In use or in storage: not on loan, in maintenance, lost or written off. */
  predicate IsUsable(s: State, a: Id) {
    a in s.assets && (s.assets[a].status == L.InUse || s.assets[a].status == L.InStorage)
  }

  /** No loan names the asset unless the asset came back or the loan ended. */
  predicate IsFree(s: State, a: Id) {
    forall l :: l in s.loans && a in s.loans[l].items && !s.loans[l].items[a].received ==>
      s.loans[l].status in {L.Rejected, L.Returned, L.ClosedWithLosses, L.Cancelled}
  }

  /** Of that centre, usable, and free. */
  predicate MayLeave(s: State, a: Id, center: Id) {
    IsUsable(s, a) && s.assets[a].center == center && IsFree(s, a)
  }

  predicate IsPromised(s: State, a: Id) {
    exists r :: r in s.requests && a in s.requests[r].items && s.requests[r].status in {R.Accepted, R.Returned}
  }

  lemma FreeIsNotBusy(s: State, a: Id)
    ensures IsFree(s, a) <==> !Busy(s.loans, a)
  {
  }

  lemma PromisedIsReserved(s: State, a: Id)
    requires AllSound(s)
    ensures IsPromised(s, a) <==> Reserved(s.requests, a)
  {
    if IsPromised(s, a) {
      var r :| r in s.requests && a in s.requests[r].items && s.requests[r].status in {R.Accepted, R.Returned};
      assert R.Sound(s.requests[r]) && a in R.OpenItems(s.requests[r]);
    }
    if r :| r in s.requests && a in R.OpenItems(s.requests[r]) {
      assert R.Sound(s.requests[r]);
      assert s.requests[r].status in {R.Accepted, R.Returned};
    }
  }

  // ---- Requests ----

  /** Dates are asked for a temporary request only, and do not go backwards. */
  predicate DatesAreRight(kind: R.Kind, start: Option<int>, until: Option<int>) {
    kind == R.Temporary ==> start.Some? && until.Some? && start.value <= until.value
  }

  /** The guard of each step on a request. */
  predicate RequestGuard(s: State, e: Event)
    requires !IsAboutLoan(e) || e.ScheduleLoan?
    requires !e.EditAsset? && !e.Reconcile?
  {
    if e.CreateRequest? then e.request !in s.requests && e.requesting != e.owner && DatesAreRight(e.kind, e.start, e.until)
    else
      && e.request in s.requests
      && var q := s.requests[e.request];
         match e
         case AcceptRequest(_, chosen, held, actor, _) =>
           && q.status in {R.Requested, R.Returned} && actor != q.requester && chosen != {}
           && forall a :: a in chosen ==> MayLeave(s, a, q.owner) && !IsPromised(s, a) && a !in held
         case CloseRequest(_, actor) => q.status == R.Requested && actor != q.requester
         case CorrectRequest(_, p, actor, _) =>
           && q.status == R.Returned && actor == q.requester
           && R.Or(p.requesting, q.requesting) != R.Or(p.owner, q.owner)
           && DatesAreRight(R.Or(p.kind, q.kind), if p.start.Some? then p.start else q.start,
                            if p.until.Some? then p.until else q.until)
         case CancelRequest(_, actor) => q.status in {R.Requested, R.Returned} && actor == q.requester
         case SendBack(_, _) => q.status == R.Accepted
         case ScheduleLoan(_, l, writingOff, ready) =>
           && q.status == R.Accepted && q.kind == R.Temporary && l !in s.loans && ready
           && forall a :: a in q.items ==> MayLeave(s, a, q.owner) && a !in writingOff
         case GenerateTransfer(_, t) =>
           q.status == R.Accepted && q.kind == R.Permanent && forall r :: r in s.requests ==> s.requests[r].transfer != Some(t)
         case ExpireRequest(_, now) =>
           q.status in {R.Accepted, R.Returned} && q.expiresAt.Some? && q.expiresAt.value <= now
         case _ => false
  }

  lemma EligibleExactlyWhen(s: State, q: R.Request, chosen: set<Id>, held: set<Id>)
    requires AllSound(s)
    ensures Eligible(s, q, chosen, held) <==> forall a :: a in chosen ==> MayLeave(s, a, q.owner) && !IsPromised(s, a) && a !in held
  {
    forall a | a in chosen
      ensures (IsFree(s, a) <==> !Busy(s.loans, a)) && (IsPromised(s, a) <==> Reserved(s.requests, a))
    {
      FreeIsNotBusy(s, a);
      PromisedIsReserved(s, a);
    }
  }

  lemma LendableExactlyWhen(s: State, chosen: set<Id>, source: Id, target: Id, writingOff: set<Id>, ready: bool)
    ensures CanLend(s.assets, s.loans, chosen, source, target, writingOff, ready) <==>
            chosen != {} && source != target && ready && forall a :: a in chosen ==> MayLeave(s, a, source) && a !in writingOff
  {
    forall a | a in chosen
      ensures IsFree(s, a) <==> !Busy(s.loans, a)
    {
      FreeIsNotBusy(s, a);
    }
    if forall a :: a in chosen ==> MayLeave(s, a, source) && a !in writingOff {
      assert forall a :: a in chosen ==> a in s.assets;
    }
  }

  /** An owner's named assets are none of those the request holds already: these are promised. */
  lemma NamedAgainIsPromised(s: State, r: Id, a: Id)
    requires AllSound(s) && r in s.requests && a in s.requests[r].items && s.requests[r].status in {R.Requested, R.Returned}
    ensures IsPromised(s, a)
  {
    assert R.Sound(s.requests[r]);
  }

  lemma AcceptAllowedExactlyWhen(s: State, e: Event)
    requires AllSound(s) && e.AcceptRequest?
    ensures Allowed(s, e) <==> RequestGuard(s, e)
  {
    if e.request in s.requests {
      var q := s.requests[e.request];
      EligibleExactlyWhen(s, q, e.chosen, e.held);
      if RequestGuard(s, e) {
        forall a | a in e.chosen
          ensures a !in q.items
        {
          if a in q.items {
            NamedAgainIsPromised(s, e.request, a);
          }
        }
      }
    }
  }

  lemma ScheduleAllowedExactlyWhen(s: State, e: Event)
    requires AllSound(s) && e.ScheduleLoan?
    ensures Allowed(s, e) <==> RequestGuard(s, e)
  {
    if e.request in s.requests {
      var q := s.requests[e.request];
      assert R.Sound(q);
      R.SoundOpenItems(q);
      LendableExactlyWhen(s, R.OpenItems(q), q.owner, q.requesting, e.writingOff, e.ready);
    }
  }

  /** A step on a request may happen exactly when its guard says so. */
  lemma RequestAllowedExactlyWhen(s: State, e: Event)
    requires AllSound(s) && (!IsAboutLoan(e) || e.ScheduleLoan?) && !e.EditAsset? && !e.Reconcile?
    ensures Allowed(s, e) <==> RequestGuard(s, e)
  {
    if e.AcceptRequest? {
      AcceptAllowedExactlyWhen(s, e);
    } else if e.ScheduleLoan? {
      ScheduleAllowedExactlyWhen(s, e);
    } else if e.request in s.requests {
      assert R.Sound(s.requests[e.request]);
      R.SoundOpenItems(s.requests[e.request]);
    }
  }

  // ---- Loans ----

  /** The guard of each step on a loan, but those that a request's step makes. */
  predicate LoanGuard(s: State, e: Event)
    requires IsAboutLoan(e) && !e.ScheduleLoan?
  {
    if e.AskLoan? then
      && e.loan !in s.loans && e.chosen != {} && e.source != e.target && e.ready
      && forall a :: a in e.chosen ==> MayLeave(s, a, e.source) && a !in e.writingOff
    else
      && e.loan in s.loans
      && var x := s.loans[e.loan];
         match e
         case ApproveLoan(_, actor) => x.status == L.Requested && actor != x.requestedBy
         case RejectLoan(_, actor) => x.status in {L.Requested, L.Approved} && actor != x.requestedBy
         case CancelLoan(_) => x.status == L.Approved
         case Deliver(_, today, _, ready) =>
           && x.status == L.Approved && ready && today <= x.due && (x.start.Some? ==> x.start.value <= today)
           && forall a :: a in x.items ==> IsUsable(s, a) && s.assets[a].center == x.source
         case SignDelivery(_) => x.status == L.PendingSignatures
         case UndoDelivery(_) =>
           x.status == L.PendingSignatures && forall a :: a in x.items ==> a in s.assets && s.assets[a].status == L.OnLoan
         case StartReturn(_, recorded, now) =>
           && x.status in {L.Active, L.Overdue, L.PartiallyReturned} && recorded != map[] && x.deliveredAt.Some?
           && forall a :: a in recorded ==>
                a in x.items && !x.items[a].received && x.deliveredAt.value <= recorded[a].at <= now
         case ReceiveReturn(_) =>
           && x.status == L.PendingReception
           && forall a :: a in x.items && x.items[a].condition.Some? && !x.items[a].received ==>
                a in s.assets && s.assets[a].status == L.OnLoan
         case MarkOverdue(_, today) => x.status == L.Active && x.due < today
         case AskExtension(_, actor, due, today) =>
           x.status in {L.Active, L.Overdue} && actor == x.requestedBy && x.due < due && today <= due
         case Extend(_, actor, _) => x.status in {L.Active, L.Overdue} && actor != x.requestedBy && x.extension.Some?
         case RefuseExtension(_, actor) => actor != x.requestedBy && x.extension.Some?
         case _ => false
  }

  lemma DeliverAllowedExactlyWhen(s: State, e: Event)
    requires AllShaped(s) && e.Deliver?
    ensures Allowed(s, e) <==> LoanGuard(s, e)
  {
    if e.loan in s.loans {
      assert L.Shaped(s.loans[e.loan]) && s.loans[e.loan].items.Keys <= s.assets.Keys;
    }
  }

  lemma ReturnAllowedExactlyWhen(s: State, e: Event)
    requires AllShaped(s) && (e.StartReturn? || e.ReceiveReturn?)
    ensures Allowed(s, e) <==> LoanGuard(s, e)
  {
    if e.loan in s.loans {
      assert L.Shaped(s.loans[e.loan]);
    }
  }

  lemma OtherLoanStepAllowedExactlyWhen(s: State, e: Event)
    requires IsAboutLoan(e) && !e.ScheduleLoan? && !e.AskLoan? && !e.Deliver? && !e.StartReturn? && !e.ReceiveReturn?
    requires e.loan in s.loans ==> !s.loans[e.loan].status.InTransit?
    ensures Allowed(s, e) <==> LoanGuard(s, e)
  {
  }

  /** A step on a loan may happen exactly when its guard says so. */
  lemma LoanAllowedExactlyWhen(s: State, e: Event)
    requires AllShaped(s) && IsAboutLoan(e) && !e.ScheduleLoan?
    ensures Allowed(s, e) <==> LoanGuard(s, e)
  {
    if e.AskLoan? {
      LendableExactlyWhen(s, e.chosen, e.source, e.target, e.writingOff, e.ready);
    } else if e.Deliver? {
      DeliverAllowedExactlyWhen(s, e);
    } else if e.StartReturn? || e.ReceiveReturn? {
      ReturnAllowedExactlyWhen(s, e);
    } else {
      assert e.loan in s.loans ==> L.Shaped(s.loans[e.loan]);
      OtherLoanStepAllowedExactlyWhen(s, e);
    }
  }

  // ---- Lent assets ----

  /** The step promises, lends or hands over the asset. */
  predicate Takes(s: State, e: Event, a: Id) {
    match e
    case AcceptRequest(_, chosen, _, _, _) => a in chosen
    case AskLoan(_, chosen, _, _, _, _, _, _) => a in chosen
    case ScheduleLoan(r, _, _, _) => r in s.requests && a in s.requests[r].items
    case Deliver(l, _, _, _) => l in s.loans && a in s.loans[l].items
    case _ => false
  }

  /** No step takes an asset that is on loan, in maintenance, lost or written off. */
  lemma UnusableAssetIsRefused(s: State, e: Event, a: Id)
    requires Consistent(s) && Takes(s, e, a)
    requires a !in s.assets || s.assets[a].status in {L.OnLoan, L.InMaintenance, L.Lost, L.WrittenOff}
    ensures !Allowed(s, e)
  {
    if e.AcceptRequest? || e.ScheduleLoan? {
      RequestAllowedExactlyWhen(s, e);
    } else {
      LoanAllowedExactlyWhen(s, e);
    }
    assert !IsUsable(s, a);
  }

  /** Every item of every loan ever made was in use or in storage when it was lent, and again when it was handed over. */
  lemma ItemsWereUsable(events: seq<Event>, l: Id, a: Id)
    requires Possible(EMPTY, events) && l in Reached(EMPTY, events).loans && a in Reached(EMPTY, events).loans[l].items
    ensures Reached(EMPTY, events).loans[l].items[a].statusOnLoan in {Some(L.InUse), Some(L.InStorage)}
  {
    EmptyIsConsistent();
    RunsStayConsistent(EMPTY, events);
    var loan := Reached(EMPTY, events).loans[l];
    assert L.Shaped(loan) && L.ItemFits(loan.status, loan.items[a]);
  }

  /** An asset in use or in storage, of the source, free and not being written off, can be lent alone. */
  lemma UsableAssetCanBeLent(s: State, l: Id, a: Id, source: Id, target: Id, actor: Id, due: int)
    requires Consistent(s) && l !in s.loans && source != target
    requires a in s.assets && s.assets[a].status in {L.InUse, L.InStorage} && s.assets[a].center == source && IsFree(s, a)
    ensures Allowed(s, AskLoan(l, {a}, source, target, actor, due, {}, true))
  {
    LoanAllowedExactlyWhen(s, AskLoan(l, {a}, source, target, actor, due, {}, true));
  }

  // ---- The transition tables ----

  const REQUEST_MOVES: set<(R.Status, R.Status)> := {
    (R.Requested, R.Accepted), (R.Requested, R.ClosedByOwner), (R.Requested, R.Cancelled),
    (R.Accepted, R.LoanScheduled), (R.Accepted, R.DocumentGenerated), (R.Accepted, R.Returned), (R.Accepted, R.Expired),
    (R.Returned, R.Requested), (R.Returned, R.Accepted), (R.Returned, R.Cancelled), (R.Returned, R.Expired),
    (R.LoanScheduled, R.DocumentGenerated), (R.LoanScheduled, R.ClosedLoanRejected), (R.LoanScheduled, R.ClosedLoanCancelled)}

  const LOAN_MOVES: set<(L.LoanStatus, L.LoanStatus)> := {
    (L.Requested, L.Approved), (L.Requested, L.Rejected),
    (L.Approved, L.PendingSignatures), (L.Approved, L.Rejected), (L.Approved, L.Cancelled),
    (L.PendingSignatures, L.Active), (L.PendingSignatures, L.Cancelled),
    (L.Active, L.PendingReception), (L.Active, L.Overdue), (L.Overdue, L.PendingReception), (L.Overdue, L.Active),
    (L.PendingReception, L.Returned), (L.PendingReception, L.PartiallyReturned), (L.PendingReception, L.ClosedWithLosses),
    (L.PartiallyReturned, L.PendingReception)}

  /** A step leaves a request's status alone or moves it along these pairs. */
  lemma RequestMovesAlong(s: State, e: Event, r: Id)
    requires Consistent(s) && Allowed(s, e) && r in s.requests
    ensures r in After(s, e).requests
    ensures var before, after := s.requests[r].status, After(s, e).requests[r].status;
            before == after || (before, after) in REQUEST_MOVES
  {
    RequestFollowsTable(s, e, r);
  }

  /** A step leaves a loan's status alone or moves it along these pairs: no loan is ever in transit. */
  lemma LoanMovesAlong(s: State, e: Event, l: Id)
    requires Consistent(s) && Allowed(s, e) && l in s.loans
    ensures l in After(s, e).loans
    ensures var before, after := s.loans[l].status, After(s, e).loans[l].status;
            before == after || (before, after) in LOAN_MOVES
  {
    assert L.Shaped(s.loans[l]);
    if Touches(e, l) {
      LoanFollowsTable(s, e, l);
      LoanAllowedExactlyWhen(s, e);
    } else {
      LoansStay(s, e, l);
    }
  }

  // ---- The CHECKs of asset_request ----

  /** What the columns of a request must be in each status. */
  predicate ColumnsFit(q: R.Request) {
    && q.requesting != q.owner && DatesAreRight(q.kind, q.start, q.until)
    && (q.status in {R.Accepted, R.LoanScheduled, R.DocumentGenerated, R.ClosedLoanRejected, R.ClosedLoanCancelled, R.Expired} ==>
          q.acceptedBy.Some? && q.acceptedAt.Some?)
    && (q.status in {R.Accepted, R.Returned} ==> q.expiresAt.Some?)
    && (q.status in {R.LoanScheduled, R.ClosedLoanRejected, R.ClosedLoanCancelled} ==>
          q.kind == R.Temporary && q.loan.Some? && q.transfer.None?)
    && (q.status == R.DocumentGenerated ==>
          (q.kind == R.Temporary && q.loan.Some? && q.transfer.None?) || (q.kind == R.Permanent && q.transfer.Some? && q.loan.None?))
  }

  lemma ChecksExactlyWhen(q: R.Request)
    ensures R.Checks(q) <==> ColumnsFit(q)
  {
  }

  /** The columns of every request fit its status in every state that runs reach. */
  lemma ColumnsFitInEveryRun(events: seq<Event>, r: Id)
    requires Possible(EMPTY, events) && r in Reached(EMPTY, events).requests
    ensures ColumnsFit(Reached(EMPTY, events).requests[r])
  {
    RequestInEveryRun(events, r);
    ChecksExactlyWhen(Reached(EMPTY, events).requests[r]);
  }

  // ---- The other writers of assets ----

  /** An edit never puts an asset on loan or takes it off; a reconciliation loses any asset that is not lost or written off yet. */
  lemma AssetWritesAllowedExactlyWhen(s: State, a: Id, value: L.Asset)
    ensures Allowed(s, EditAsset(a, value)) <==>
            (if a in s.assets then (value.status == L.OnLoan) == (s.assets[a].status == L.OnLoan) else value.status != L.OnLoan)
    ensures Allowed(s, Reconcile(a)) <==>
            a in s.assets && s.assets[a].status in {L.InUse, L.InStorage, L.OnLoan, L.InMaintenance}
  {
  }

  /** In every run a return is recorded under a date no earlier than the delivery. */
  lemma ReturnsAreDatedInEveryRun(events: seq<Event>, l: Id, a: Id)
    requires Possible(EMPTY, events) && l in Reached(EMPTY, events).loans && a in Reached(EMPTY, events).loans[l].items
    ensures var loan := Reached(EMPTY, events).loans[l]; var item := loan.items[a];
            (item.received ==> item.condition.Some?)
            && (item.condition.Some? ==>
                  item.returnedAt.Some? && loan.deliveredAt.Some? && loan.deliveredAt.value <= item.returnedAt.value)
  {
    EmptyIsConsistent();
    RunsStayConsistent(EMPTY, events);
    var loan := Reached(EMPTY, events).loans[l];
    assert L.Shaped(loan) && L.ItemFits(loan.status, loan.items[a]) && L.ReturnIsDated(loan, loan.items[a]);
  }
}
