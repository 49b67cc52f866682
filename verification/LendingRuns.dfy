/** What every step of lending keeps, and so every run. */
module LendingRuns {
  import opened Options
  import opened Hierarchy
  import opened Lending
  import L = Loans
  import R = AssetRequests

  /** No asset is held by two requests. */
  ghost predicate HeldOnce(requests: map<Id, R.Request>) {
    forall q, r, a :: q in requests && r in requests && a in R.OpenItems(requests[q]) && a in R.OpenItems(requests[r]) ==>
      q == r
  }

  /** No asset is in two open loans. */
  ghost predicate LentOnce(loans: map<Id, L.Loan>) {
    forall k, l, a :: k in loans && l in loans && Engages(loans[k], a) && Engages(loans[l], a) ==> k == l
  }

  /** The request statuses that go with a loan's status. */
  predicate Matches(loan: L.LoanStatus, request: R.Status) {
    match loan
    case Requested => false
    case InTransit => false
    case Approved => request == R.LoanScheduled
    case Rejected => request == R.ClosedLoanRejected
    case Cancelled => request == R.ClosedLoanCancelled || request == R.DocumentGenerated
    case _ => request == R.DocumentGenerated
  }

  predicate PointsBack(l: Id, loan: L.Loan, requests: map<Id, R.Request>) {
    loan.request.Some? ==>
      && loan.request.value in requests
      && requests[loan.request.value].loan == Some(l)
      && Matches(loan.status, requests[loan.request.value].status)
  }

  predicate PointsAhead(r: Id, request: R.Request, loans: map<Id, L.Loan>) {
    request.loan.Some? ==> request.loan.value in loans && loans[request.loan.value].request == Some(r)
  }

  ghost predicate Linked(s: State) {
    && (forall l :: l in s.loans ==> PointsBack(l, s.loans[l], s.requests))
    && forall r :: r in s.requests ==> PointsAhead(r, s.requests[r], s.loans)
  }

  ghost predicate AllSound(s: State) {
    forall r :: r in s.requests ==> R.Sound(s.requests[r])
  }

  ghost predicate AllShaped(s: State) {
    forall l :: l in s.loans ==> L.Shaped(s.loans[l]) && s.loans[l].items.Keys <= s.assets.Keys
  }

  /** An asset marked ON_LOAN is out under some loan. */
  ghost predicate OnLoanIsOut(s: State) {
    forall a :: a in s.assets && s.assets[a].status.OnLoan? ==> Outstanding(s.loans, a)
  }

  ghost predicate Consistent(s: State) {
    && AllSound(s) && AllShaped(s) && HeldOnce(s.requests) && LentOnce(s.loans) && Linked(s) && OnLoanIsOut(s)
  }

  // ---- One step ----

  lemma StepKeepsSound(s: State, e: Event)
    requires AllSound(s) && Allowed(s, e)
    ensures AllSound(After(s, e))
  {
    var t := After(s, e);
    forall r | r in t.requests
      ensures R.Sound(t.requests[r])
    {
      if r in s.requests {
        R.StepsKeepSound(s.requests[r],
                         if e.AcceptRequest? then e.chosen else {},
                         if e.AcceptRequest? || e.CorrectRequest? then e.actor else 0,
                         if e.CorrectRequest? then e.patch else R.Patch(None, None, None, None, None),
                         if e.AcceptRequest? || e.CorrectRequest? || e.SendBack? || e.ExpireRequest? then e.now else 0,
                         if e.ScheduleLoan? then e.loan else if e.GenerateTransfer? then e.transfer else 0);
      }
    }
  }

  predicate IsAboutLoan(e: Event) {
    || e.ScheduleLoan? || e.AskLoan? || e.ApproveLoan? || e.RejectLoan? || e.CancelLoan? || e.Deliver? || e.SignDelivery?
    || e.UndoDelivery? || e.StartReturn? || e.ReceiveReturn? || e.MarkOverdue?
    || e.AskExtension? || e.Extend? || e.RefuseExtension?
  }

  /** The loan a step changes, if any. */
  predicate Touches(e: Event, l: Id) {
    IsAboutLoan(e) && e.loan == l
  }

  /** A step about a loan changes that one. */
  lemma OneLoanMoves(s: State, e: Event)
    requires Allowed(s, e) && IsAboutLoan(e)
    ensures e.loan in After(s, e).loans && After(s, e).loans == s.loans[e.loan := After(s, e).loans[e.loan]]
  {
  }

  lemma NoLoanMoves(s: State, e: Event)
    requires Allowed(s, e) && !IsAboutLoan(e)
    ensures After(s, e).loans == s.loans
  {
  }

  lemma OtherLoansStay(s: State, e: Event, l: Id)
    requires Allowed(s, e) && l in After(s, e).loans && !Touches(e, l)
    ensures l in s.loans && After(s, e).loans[l] == s.loans[l]
  {
    if IsAboutLoan(e) {
      OneLoanMoves(s, e);
    } else {
      NoLoanMoves(s, e);
    }
  }

  lemma LoansStay(s: State, e: Event, l: Id)
    requires Allowed(s, e) && l in s.loans && !Touches(e, l)
    ensures l in After(s, e).loans && After(s, e).loans[l] == s.loans[l]
  {
    if IsAboutLoan(e) {
      OneLoanMoves(s, e);
    } else {
      NoLoanMoves(s, e);
    }
  }

  lemma NewLoanKeepsShaped(s: State, e: Event)
    requires AllSound(s) && Allowed(s, e) && (e.ScheduleLoan? || e.AskLoan?)
    ensures L.Shaped(After(s, e).loans[e.loan])
  {
    var chosen := if e.AskLoan? then e.chosen else R.OpenItems(s.requests[e.request]);
    assert e.ScheduleLoan? ==> R.Sound(s.requests[e.request]);
    NewLoanIsShaped(s, chosen, After(s, e).loans[e.loan]);
  }

  lemma TouchedIsShaped(s: State, e: Event, l: Id)
    requires Allowed(s, e) && l in s.loans && L.Shaped(s.loans[l]) && Touches(e, l)
    ensures L.Shaped(After(s, e).loans[l])
  {
    match e
    case ApproveLoan(_, actor) => L.ApprovedIsShaped(s.loans[l], actor);
    case RejectLoan(_, _) => L.MovedIsShaped(s.loans[l], L.Rejected);
    case CancelLoan(_) => L.MovedIsShaped(s.loans[l], L.Cancelled);
    case Deliver(_, _, now, _) => L.HandedIsShaped(s.loans[l], s.assets, now);
    case SignDelivery(_) => L.MovedIsShaped(s.loans[l], L.Active);
    case UndoDelivery(_) => L.MovedIsShaped(s.loans[l], L.Cancelled);
    case StartReturn(_, recorded, now) => L.StartedReturnIsShaped(s.loans[l], recorded, now);
    case ReceiveReturn(_) => L.ReceivedReturnIsShaped(s.loans[l]);
    case MarkOverdue(_, _) => L.MovedIsShaped(s.loans[l], L.Overdue);
    case AskExtension(_, _, due, _) => L.ExtensionIsShaped(s.loans[l], Some(due));
    case Extend(_, _, today) => L.ExtendedIsShaped(s.loans[l], today);
    case RefuseExtension(_, _) => L.ExtensionIsShaped(s.loans[l], None);
    case _ =>
  }

  lemma ItemsStayKnown(s: State, e: Event, l: Id)
    requires AllShaped(s) && Allowed(s, e) && l in After(s, e).loans
    ensures After(s, e).loans[l].items.Keys <= After(s, e).assets.Keys
  {
    if Touches(e, l) {
      TouchedItemsAreKnown(s, e, l);
    } else {
      OtherLoansStay(s, e, l);
      AssetsStayKnown(s, e);
    }
  }

  lemma AssetsStayKnown(s: State, e: Event)
    requires Allowed(s, e)
    ensures s.assets.Keys <= After(s, e).assets.Keys
  {
    if !MarksAssets(e) {
      AssetsAreLeft(s, e);
    }
  }

  /** The steps that write assets. */
  predicate MarksAssets(e: Event) {
    e.Deliver? || e.UndoDelivery? || e.ReceiveReturn? || e.EditAsset? || e.Reconcile?
  }

  lemma AssetsAreLeft(s: State, e: Event)
    requires Allowed(s, e) && !MarksAssets(e)
    ensures After(s, e).assets == s.assets
  {
  }

  lemma TouchedItemsAreKnown(s: State, e: Event, l: Id)
    requires AllShaped(s) && Allowed(s, e) && Touches(e, l)
    ensures l in After(s, e).loans && After(s, e).loans[l].items.Keys <= After(s, e).assets.Keys
  {
    AssetsStayKnown(s, e);
    OneLoanMoves(s, e);
    if !e.ScheduleLoan? && !e.AskLoan? {
      SameItems(s, e);
    }
  }

  lemma SameItems(s: State, e: Event)
    requires Allowed(s, e) && IsAboutLoan(e) && e.loan in s.loans
    ensures e.loan in After(s, e).loans && After(s, e).loans[e.loan].items.Keys == s.loans[e.loan].items.Keys
  {
  }

  lemma StepKeepsShaped(s: State, e: Event)
    requires AllShaped(s) && AllSound(s) && Allowed(s, e)
    ensures AllShaped(After(s, e))
  {
    forall l | l in After(s, e).loans
      ensures L.Shaped(After(s, e).loans[l]) && After(s, e).loans[l].items.Keys <= After(s, e).assets.Keys
    {
      ItemsStayKnown(s, e, l);
      if !Touches(e, l) {
        OtherLoansStay(s, e, l);
      } else if l in s.loans {
        TouchedIsShaped(s, e, l);
      } else {
        NewLoanKeepsShaped(s, e);
      }
    }
  }

  lemma NewLoanIsShaped(s: State, chosen: set<Id>, loan: L.Loan)
    requires chosen != {} && chosen <= s.assets.Keys && loan.status in {L.Requested, L.Approved}
    requires forall a :: a in chosen ==> L.Loanable(s.assets[a].status)
    requires loan.items == map a | a in chosen :: L.Item(Some(s.assets[a].status), None, None, false)
    requires loan.approvedBy != Some(loan.requestedBy) && (loan.status.Approved? ==> loan.approvedBy.Some?)
    requires loan.extension.None?
    ensures L.Shaped(loan)
  {
    var a := Element(chosen);
    assert a in loan.items;
  }

  /** The request a step is about, if any. */
  predicate Names(e: Event, r: Id) {
    && (e.CreateRequest? || e.AcceptRequest? || e.CloseRequest? || e.CorrectRequest? || e.CancelRequest? || e.SendBack?
        || e.ScheduleLoan? || e.GenerateTransfer? || e.ExpireRequest?)
    && e.request == r
  }

  /** The steps of a loan that its request listens to. */
  predicate IsHeard(e: Event) {
    e.RejectLoan? || e.CancelLoan? || e.Deliver?
  }

  lemma OtherRequestsStay(s: State, e: Event, r: Id)
    requires Allowed(s, e) && !Names(e, r) && !IsHeard(e)
    ensures r in After(s, e).requests <==> r in s.requests
    ensures r in s.requests ==> After(s, e).requests[r] == s.requests[r]
  {
  }

  /** A listening request is scheduled, so it holds nothing. */
  lemma HearingChangesNoHold(s: State, e: Event, r: Id)
    requires Allowed(s, e) && IsHeard(e)
    ensures r in After(s, e).requests <==> r in s.requests
    ensures r in s.requests ==> var after := After(s, e).requests[r];
              && (forall a :: a in R.OpenItems(after) ==> a in R.OpenItems(s.requests[r]))
              && (R.Holds(after.status) ==> after == s.requests[r])
  {
  }

  /** Only an acceptance reserves an asset, and only one that was free. */
  lemma HeldAfterStep(s: State, e: Event, r: Id, a: Id)
    requires AllSound(s) && Allowed(s, e) && r in After(s, e).requests && a in R.OpenItems(After(s, e).requests[r])
    ensures (r in s.requests && a in R.OpenItems(s.requests[r]))
            || (e.AcceptRequest? && r == e.request && a in e.chosen && !Reserved(s.requests, a))
  {
    if Names(e, r) {
      HeldByNamed(s, e, r, a);
    } else if IsHeard(e) {
      HearingChangesNoHold(s, e, r);
    } else {
      OtherRequestsStay(s, e, r);
    }
  }

  lemma HeldByNamed(s: State, e: Event, r: Id, a: Id)
    requires AllSound(s) && Allowed(s, e) && Names(e, r)
    requires r in After(s, e).requests && a in R.OpenItems(After(s, e).requests[r])
    ensures (r in s.requests && a in R.OpenItems(s.requests[r]))
            || (e.AcceptRequest? && a in e.chosen && !Reserved(s.requests, a))
  {
  }

  lemma StepKeepsHeldOnce(s: State, e: Event)
    requires AllSound(s) && HeldOnce(s.requests) && Allowed(s, e)
    ensures HeldOnce(After(s, e).requests)
  {
    var after := After(s, e).requests;
    forall q, r, a | q in after && r in after && a in R.OpenItems(after[q]) && a in R.OpenItems(after[r])
      ensures q == r
    {
      HeldAfterStep(s, e, q, a);
      HeldAfterStep(s, e, r, a);
    }
  }

  /** Only a new loan engages an asset, and only one in no open loan. */
  lemma EngagedAfterStep(s: State, e: Event, l: Id, a: Id)
    requires AllShaped(s) && Allowed(s, e) && l in After(s, e).loans && Engages(After(s, e).loans[l], a)
    ensures (l in s.loans && Engages(s.loans[l], a))
            || ((e.ScheduleLoan? || e.AskLoan?) && l == e.loan && !Busy(s.loans, a))
  {
    if !Touches(e, l) {
      OtherLoansStay(s, e, l);
    } else if !(e.ScheduleLoan? || e.AskLoan?) {
      OldLoanEngagesNothingNew(s, e, l, a);
    }
  }

  lemma OldLoanEngagesNothingNew(s: State, e: Event, l: Id, a: Id)
    requires AllShaped(s) && Allowed(s, e) && Touches(e, l) && !e.ScheduleLoan? && !e.AskLoan?
    requires Engages(After(s, e).loans[l], a)
    ensures l in s.loans && Engages(s.loans[l], a)
  {
  }

  lemma StepKeepsLentOnce(s: State, e: Event)
    requires AllShaped(s) && LentOnce(s.loans) && Allowed(s, e)
    ensures LentOnce(After(s, e).loans)
  {
    var after := After(s, e).loans;
    forall k, l, a | k in after && l in after && Engages(after[k], a) && Engages(after[l], a)
      ensures k == l
    {
      EngagedAfterStep(s, e, k, a);
      EngagedAfterStep(s, e, l, a);
    }
  }

  /** Links are set when a loan is scheduled and never change. */
  lemma LoanLinksStay(s: State, e: Event, l: Id)
    requires Allowed(s, e) && l in s.loans
    ensures l in After(s, e).loans && After(s, e).loans[l].request == s.loans[l].request
  {
    if !Touches(e, l) {
      LoansStay(s, e, l);
    }
  }

  /** What a request and its loan agreed on. */
  predicate SameTerms(a: R.Request, b: R.Request) {
    && a.owner == b.owner && a.requesting == b.requesting && a.requester == b.requester
    && a.acceptedBy == b.acceptedBy && a.start == b.start && a.loan == b.loan && a.items.Keys == b.items.Keys
  }

  lemma ListenerKeepsTerms(requests: map<Id, R.Request>, l: Id, loan: L.Loan, status: R.Status, r: Id)
    requires r in requests
    ensures r in AfterListener(requests, l, loan, status)
    ensures SameTerms(requests[r], AfterListener(requests, l, loan, status)[r])
  {
  }

  lemma RequestLinksStay(s: State, e: Event, r: Id)
    requires Allowed(s, e) && r in s.requests && R.Sound(s.requests[r]) && !(e.ScheduleLoan? && r == e.request)
    ensures r in After(s, e).requests && After(s, e).requests[r].loan == s.requests[r].loan
  {
    if e.RejectLoan? {
      ListenerKeepsTerms(s.requests, e.loan, s.loans[e.loan], R.ClosedLoanRejected, r);
    } else if e.CancelLoan? {
      ListenerKeepsTerms(s.requests, e.loan, s.loans[e.loan], R.ClosedLoanCancelled, r);
    } else if e.Deliver? {
      ListenerKeepsTerms(s.requests, e.loan, s.loans[e.loan], R.DocumentGenerated, r);
    } else {
      OtherStepKeepsLink(s, e, r);
    }
  }

  lemma OtherStepKeepsLink(s: State, e: Event, r: Id)
    requires Allowed(s, e) && r in s.requests && R.Sound(s.requests[r]) && !(e.ScheduleLoan? && r == e.request)
    requires !IsHeard(e)
    ensures r in After(s, e).requests && After(s, e).requests[r].loan == s.requests[r].loan
  {
    if !Names(e, r) {
      OtherRequestsStay(s, e, r);
    }
  }

  lemma StepPointsAhead(s: State, e: Event)
    requires AllSound(s) && Linked(s) && Allowed(s, e)
    ensures forall r :: r in After(s, e).requests ==> PointsAhead(r, After(s, e).requests[r], After(s, e).loans)
  {
    forall r | r in After(s, e).requests
      ensures PointsAhead(r, After(s, e).requests[r], After(s, e).loans)
    {
      if r in s.requests && !(e.ScheduleLoan? && r == e.request) {
        RequestLinksStay(s, e, r);
        assert PointsAhead(r, s.requests[r], s.loans);
        if s.requests[r].loan.Some? {
          LoanLinksStay(s, e, s.requests[r].loan.value);
        }
      } else {
        NewRequestPointsAhead(s, e, r);
      }
    }
  }

  /** A request just created has no loan; one just scheduled points at its new loan. */
  lemma NewRequestPointsAhead(s: State, e: Event, r: Id)
    requires Allowed(s, e) && r in After(s, e).requests
    requires r !in s.requests || (e.ScheduleLoan? && r == e.request)
    ensures PointsAhead(r, After(s, e).requests[r], After(s, e).loans)
  {
  }

  /** Once a request has its loan only that loan's rejection, cancellation or delivery changes it. */
  lemma OnlyItsLoanMovesIt(s: State, e: Event, r: Id)
    requires Allowed(s, e) && r in s.requests && R.Sound(s.requests[r]) && s.requests[r].loan.Some?
    ensures r in After(s, e).requests
    ensures !((e.RejectLoan? || e.CancelLoan? || e.Deliver?) && s.requests[r].loan == Some(e.loan)) ==>
              After(s, e).requests[r] == s.requests[r]
  {
    if Names(e, r) {
      LentRequestHasNoSteps(s, e, r);
    } else if IsHeard(e) {
      HearsItsLoanOnly(s, e, r);
    } else {
      OtherRequestsStay(s, e, r);
    }
  }

  lemma LentRequestHasNoSteps(s: State, e: Event, r: Id)
    requires r in s.requests && R.Sound(s.requests[r]) && s.requests[r].loan.Some? && Names(e, r)
    ensures !Allowed(s, e)
  {
  }

  lemma HearsItsLoanOnly(s: State, e: Event, r: Id)
    requires Allowed(s, e) && IsHeard(e) && r in s.requests
    ensures r in After(s, e).requests
    ensures s.requests[r].loan != Some(e.loan) ==> After(s, e).requests[r] == s.requests[r]
  {
  }

  /** The loan a step changes moves along the table, with its request when it listens. */
  lemma LoanMovesWithRequest(s: State, e: Event, l: Id)
    requires Allowed(s, e) && l in s.loans && s.loans[l].request.Some? && s.loans[l].status != L.Requested
    requires PointsBack(l, s.loans[l], s.requests)
    requires (e.RejectLoan? || e.CancelLoan? || e.Deliver?) && e.loan == l
    ensures PointsBack(l, After(s, e).loans[l], After(s, e).requests)
  {
  }

  /** Any other step leaves the loan where its request's status still matches. */
  lemma OtherLoanMoves(s: State, e: Event, l: Id, status: R.Status)
    requires Allowed(s, e) && l in s.loans && Matches(s.loans[l].status, status)
    requires !((e.RejectLoan? || e.CancelLoan? || e.Deliver?) && e.loan == l)
    ensures l in After(s, e).loans && After(s, e).loans[l].request == s.loans[l].request
    ensures Matches(After(s, e).loans[l].status, status)
  {
    if !Touches(e, l) {
      LoansStay(s, e, l);
    }
  }

  lemma StepKeepsMatch(s: State, e: Event, l: Id)
    requires AllSound(s) && Linked(s) && Allowed(s, e) && l in s.loans && s.loans[l].request.Some?
    ensures PointsBack(l, After(s, e).loans[l], After(s, e).requests)
  {
    assert PointsBack(l, s.loans[l], s.requests);
    var r := s.loans[l].request.value;
    assert R.Sound(s.requests[r]);
    if (e.RejectLoan? || e.CancelLoan? || e.Deliver?) && e.loan == l {
      LoanMovesWithRequest(s, e, l);
    } else {
      OnlyItsLoanMovesIt(s, e, r);
      OtherLoanMoves(s, e, l, s.requests[r].status);
    }
  }

  lemma StepKeepsLinked(s: State, e: Event)
    requires AllSound(s) && Linked(s) && Allowed(s, e)
    ensures Linked(After(s, e))
  {
    var t := After(s, e);
    StepPointsAhead(s, e);
    forall l | l in t.loans
      ensures PointsBack(l, t.loans[l], t.requests)
    {
      if l in s.loans && s.loans[l].request.Some? {
        StepKeepsMatch(s, e, l);
      }
    }
  }

  /** The step takes the asset in again: its delivery is undone or its return received. */
  predicate TakesIn(s: State, e: Event, a: Id) {
    && (e.UndoDelivery? || e.ReceiveReturn?) && e.loan in s.loans
    && a in s.loans[e.loan].items
    && (e.UndoDelivery? || a in L.ToReceive(s.loans[e.loan].items))
  }

  /** An item that is out stays out unless its own loan takes it in. */
  lemma OutItemStays(s: State, e: Event, l: Id, a: Id)
    requires Allowed(s, e) && l in s.loans && HasOut(s.loans[l], a)
    requires !(TakesIn(s, e, a) && e.loan == l)
    ensures l in After(s, e).loans && HasOut(After(s, e).loans[l], a)
  {
    if e.ReceiveReturn? && e.loan == l {
      assert !L.ReceivedItems(s.loans[l].items)[a].received;
    }
  }

  lemma TakenInIsNotOnLoan(s: State, e: Event, a: Id)
    requires AllShaped(s) && Allowed(s, e) && TakesIn(s, e, a)
    ensures a in After(s, e).assets && !After(s, e).assets[a].status.OnLoan?
  {
    assert L.ItemFits(s.loans[e.loan].status, s.loans[e.loan].items[a]);
  }

  /** Only a delivery turns ON_LOAN on. */
  lemma OnLoanWasOnLoan(s: State, e: Event, a: Id)
    requires Allowed(s, e) && a in After(s, e).assets && After(s, e).assets[a].status.OnLoan?
    requires AllShaped(s) && !(e.Deliver? && a in s.loans[e.loan].items)
    ensures a in s.assets && s.assets[a].status.OnLoan?
  {
    if e.UndoDelivery? && a in s.loans[e.loan].items {
      TakenInIsNotOnLoan(s, e, a);
    }
  }

  lemma StepKeepsOnLoanIsOut(s: State, e: Event)
    requires AllShaped(s) && OnLoanIsOut(s) && Allowed(s, e)
    ensures OnLoanIsOut(After(s, e))
  {
    var t := After(s, e);
    forall a | a in t.assets && t.assets[a].status.OnLoan?
      ensures Outstanding(t.loans, a)
    {
      if e.Deliver? && a in s.loans[e.loan].items {
        HandedOverIsOut(s, e, a);
        assert HasOut(t.loans[e.loan], a);
      } else {
        OnLoanWasOnLoan(s, e, a);
        var l :| l in s.loans && HasOut(s.loans[l], a);
        if TakesIn(s, e, a) {
          TakenInIsNotOnLoan(s, e, a);
        } else {
          OutItemStays(s, e, l, a);
          assert HasOut(t.loans[l], a);
        }
      }
    }
  }

  lemma HandedOverIsOut(s: State, e: Event, a: Id)
    requires AllShaped(s) && e.Deliver? && Allowed(s, e) && a in s.loans[e.loan].items
    ensures e.loan in After(s, e).loans && HasOut(After(s, e).loans[e.loan], a)
  {
    assert L.ItemFits(s.loans[e.loan].status, s.loans[e.loan].items[a]);
  }

  lemma StepKeepsConsistent(s: State, e: Event)
    requires Consistent(s) && Allowed(s, e)
    ensures Consistent(After(s, e))
  {
    StepKeepsSound(s, e);
    StepKeepsShaped(s, e);
    StepKeepsHeldOnce(s, e);
    StepKeepsLentOnce(s, e);
    StepKeepsLinked(s, e);
    StepKeepsOnLoanIsOut(s, e);
  }

  // ---- Runs ----

  const EMPTY := State(map[], map[], map[])

  predicate Possible(s: State, events: seq<Event>)
    decreases |events|
  {
    events == [] || (Allowed(s, events[0]) && Possible(After(s, events[0]), events[1..]))
  }

  function Reached(s: State, events: seq<Event>): State
    requires Possible(s, events)
    decreases |events|
  {
    if events == [] then s else Reached(After(s, events[0]), events[1..])
  }

  lemma EmptyIsConsistent()
    ensures Consistent(EMPTY)
  {
  }

  lemma {:induction false} RunsStayConsistent(s: State, events: seq<Event>)
    requires Consistent(s) && Possible(s, events)
    ensures Consistent(Reached(s, events))
    decreases |events|
  {
    if events != [] {
      StepKeepsConsistent(s, events[0]);
      RunsStayConsistent(After(s, events[0]), events[1..]);
    }
  }

  /** What a run means for one request. */
  lemma RequestInEveryRun(events: seq<Event>, r: Id)
    requires Possible(EMPTY, events) && r in Reached(EMPTY, events).requests
    ensures var s := Reached(EMPTY, events); var q := s.requests[r];
            && R.Checks(q) && q.acceptedBy != Some(q.requester)
            && (R.OpenItems(q) == if R.Holds(q.status) then q.items.Keys else {})
            && (R.Holds(q.status) <==> R.OpenItems(q) != {})
            && (q.status.LoanScheduled? <==>
                  q.loan.Some? && q.loan.value in s.loans && s.loans[q.loan.value].status.Approved?)
            && forall a, p :: a in R.OpenItems(q) && p in s.requests && a in R.OpenItems(s.requests[p]) ==> p == r
  {
    EmptyIsConsistent();
    RunsStayConsistent(EMPTY, events);
    var s := Reached(EMPTY, events);
    var q := s.requests[r];
    assert R.Sound(q) && PointsAhead(r, q, s.loans);
    R.SoundOpenItems(q);
    if q.loan.Some? {
      assert PointsBack(q.loan.value, s.loans[q.loan.value], s.requests);
    }
  }

  /** What a run means for one loan: its request, its items and the assets it shares with no other open loan. */
  lemma LoanInEveryRun(events: seq<Event>, l: Id)
    requires Possible(EMPTY, events) && l in Reached(EMPTY, events).loans
    ensures var s := Reached(EMPTY, events); var loan := s.loans[l];
            && (loan.request.Some? ==>
                  loan.request.value in s.requests
                  && (loan.status.Approved? <==> s.requests[loan.request.value].status.LoanScheduled?)
                  && (loan.status.Rejected? <==> s.requests[loan.request.value].status.ClosedLoanRejected?))
            && loan.approvedBy != Some(loan.requestedBy)
            && (L.IsOut(loan.status) ==> loan.approvedBy.Some?)
            && (forall a :: a in loan.items ==> L.ReturnIsDated(loan, loan.items[a]))
            && (loan.status in {L.Returned, L.PartiallyReturned, L.ClosedWithLosses} ==>
                  loan.status == L.StatusAfterReception(loan.items))
            && (forall a, m :: Engages(loan, a) && m in s.loans && Engages(s.loans[m], a) ==> m == l)
  {
    EmptyIsConsistent();
    RunsStayConsistent(EMPTY, events);
    var s := Reached(EMPTY, events);
    assert L.Shaped(s.loans[l]) && PointsBack(l, s.loans[l], s.requests);
  }

  // ---- A scheduled loan is the loan that was asked for ----

  /** The loan of a request lends the reserved assets, between its centres, from its start, as its owner approved. */
  predicate Fulfils(r: Id, request: R.Request, loans: map<Id, L.Loan>) {
    request.loan.Some? ==>
      && request.loan.value in loans
      && var loan := loans[request.loan.value];
         && loan.source == request.owner && loan.target == request.requesting
         && loan.requestedBy == request.requester && loan.approvedBy == request.acceptedBy
         && loan.start == request.start && loan.items.Keys == request.items.Keys
  }

  ghost predicate AllFulfil(s: State) {
    forall r :: r in s.requests ==> Fulfils(r, s.requests[r], s.loans)
  }

  lemma RequestKeepsTerms(s: State, e: Event, r: Id)
    requires Allowed(s, e) && r in s.requests && R.Sound(s.requests[r]) && s.requests[r].loan.Some?
    ensures r in After(s, e).requests && SameTerms(s.requests[r], After(s, e).requests[r])
  {
    if e.RejectLoan? {
      ListenerKeepsTerms(s.requests, e.loan, s.loans[e.loan], R.ClosedLoanRejected, r);
    } else if e.CancelLoan? {
      ListenerKeepsTerms(s.requests, e.loan, s.loans[e.loan], R.ClosedLoanCancelled, r);
    } else if e.Deliver? {
      ListenerKeepsTerms(s.requests, e.loan, s.loans[e.loan], R.DocumentGenerated, r);
    } else {
      OnlyItsLoanMovesIt(s, e, r);
    }
  }

  lemma LoanKeepsTerms(s: State, e: Event, l: Id)
    requires Allowed(s, e) && l in s.loans && !s.loans[l].status.Requested?
    ensures l in After(s, e).loans
    ensures var before, after := s.loans[l], After(s, e).loans[l];
            && after.source == before.source && after.target == before.target
            && after.requestedBy == before.requestedBy && after.approvedBy == before.approvedBy
            && after.start == before.start && after.items.Keys == before.items.Keys
  {
    if !Touches(e, l) {
      LoansStay(s, e, l);
    }
  }

  lemma ScheduledLoanFulfils(s: State, e: Event, r: Id)
    requires e.ScheduleLoan? && e.request == r && Allowed(s, e) && R.Sound(s.requests[r])
    ensures Fulfils(r, After(s, e).requests[r], After(s, e).loans)
  {
    R.SoundOpenItems(s.requests[r]);
  }

  lemma StepKeepsFulfilled(s: State, e: Event, r: Id)
    requires Consistent(s) && AllFulfil(s) && Allowed(s, e) && r in After(s, e).requests
    ensures Fulfils(r, After(s, e).requests[r], After(s, e).loans)
  {
    if e.ScheduleLoan? && e.request == r {
      assert R.Sound(s.requests[r]);
      ScheduledLoanFulfils(s, e, r);
    } else if r in s.requests {
      assert R.Sound(s.requests[r]) && PointsAhead(r, s.requests[r], s.loans) && Fulfils(r, s.requests[r], s.loans);
      RequestLinksStay(s, e, r);
      if s.requests[r].loan.Some? {
        var l := s.requests[r].loan.value;
        assert PointsBack(l, s.loans[l], s.requests);
        RequestKeepsTerms(s, e, r);
        LoanKeepsTerms(s, e, l);
      }
    } else {
      NewRequestPointsAhead(s, e, r);
      NewRequestHasNoLoan(s, e, r);
    }
  }

  lemma NewRequestHasNoLoan(s: State, e: Event, r: Id)
    requires Allowed(s, e) && r !in s.requests && r in After(s, e).requests
    ensures After(s, e).requests[r].loan.None?
  {
  }

  /** In every run, from scheduling on and through every partial return, the loan is the one the request asked for. */
  lemma {:induction false} RunsStayFulfilled(s: State, events: seq<Event>)
    requires Consistent(s) && AllFulfil(s) && Possible(s, events)
    ensures AllFulfil(Reached(s, events))
    decreases |events|
  {
    if events != [] {
      var t := After(s, events[0]);
      StepKeepsConsistent(s, events[0]);
      forall r | r in t.requests
        ensures Fulfils(r, t.requests[r], t.loans)
      {
        StepKeepsFulfilled(s, events[0], r);
      }
      RunsStayFulfilled(t, events[1..]);
    }
  }

  // ---- The deadline of a reservation ----

  /** The steps that give a request a deadline. */
  predicate SetsDeadline(e: Event, r: Id) {
    (e.AcceptRequest? || e.SendBack? || e.CorrectRequest?) && e.request == r
  }

  lemma DeadlineStays(s: State, e: Event, r: Id)
    requires Allowed(s, e) && r in s.requests && !SetsDeadline(e, r)
    ensures r in After(s, e).requests
    ensures R.Holds(After(s, e).requests[r].status) ==>
              R.Holds(s.requests[r].status) && After(s, e).requests[r].expiresAt == s.requests[r].expiresAt
  {
    if Names(e, r) {
      NamedKeepsDeadline(s, e, r);
    } else if IsHeard(e) {
      HearingChangesNoHold(s, e, r);
    } else {
      OtherRequestsStay(s, e, r);
    }
  }

  lemma NamedKeepsDeadline(s: State, e: Event, r: Id)
    requires Allowed(s, e) && r in s.requests && Names(e, r) && !SetsDeadline(e, r)
    ensures r in After(s, e).requests && !R.Holds(After(s, e).requests[r].status)
  {
  }

  lemma {:induction false} DeadlineStaysInRuns(s: State, events: seq<Event>, r: Id)
    requires Possible(s, events) && r in s.requests && forall i :: 0 <= i < |events| ==> !SetsDeadline(events[i], r)
    ensures r in Reached(s, events).requests
    ensures R.Holds(Reached(s, events).requests[r].status) ==>
              R.Holds(s.requests[r].status) && Reached(s, events).requests[r].expiresAt == s.requests[r].expiresAt
    decreases |events|
  {
    if events != [] {
      DeadlineStays(s, events[0], r);
      DeadlineStaysInRuns(After(s, events[0]), events[1..], r);
    }
  }

  /** A request that still holds its assets may expire exactly fourteen days after its last acceptance, return or correction. */
  lemma ExpiresAfterFourteenDays(s: State, e: Event, events: seq<Event>, r: Id, now: int)
    requires Consistent(s) && Allowed(s, e) && SetsDeadline(e, r) && Possible(After(s, e), events)
    requires forall i :: 0 <= i < |events| ==> !SetsDeadline(events[i], r)
    ensures var t := Reached(After(s, e), events);
            r in t.requests
            && (Allowed(t, ExpireRequest(r, now)) <==> R.Holds(t.requests[r].status) && now >= e.now + 14 * 86400)
  {
    DeadlineStaysInRuns(After(s, e), events, r);
    DeadlineIsSet(s, e, r);
  }

  lemma DeadlineIsSet(s: State, e: Event, r: Id)
    requires Allowed(s, e) && SetsDeadline(e, r)
    ensures var after := After(s, e).requests[r];
            R.Holds(after.status) ==> after.expiresAt == Some(e.now + 14 * 86400)
  {
  }

  // ---- Transition tables and final statuses ----

  lemma RequestFollowsTable(s: State, e: Event, r: Id)
    requires AllSound(s) && Allowed(s, e) && r in s.requests
    ensures r in After(s, e).requests
    ensures After(s, e).requests[r] == s.requests[r]
            || R.MayMove(s.requests[r].status, After(s, e).requests[r].status)
  {
    assert R.Sound(s.requests[r]);
  }

  /** A loan that keeps its status changes only by an extension asked for, approved or turned down. */
  lemma LoanFollowsTable(s: State, e: Event, l: Id)
    requires AllShaped(s) && Allowed(s, e) && l in s.loans
    ensures l in After(s, e).loans
    ensures var before, after := s.loans[l], After(s, e).loans[l];
            || after == before || L.MayMove(before.status, after.status)
            || (e.Extend? && L.CanExtend(before) && after == before.(due := before.extension.value, extension := None))
            || (e.AskExtension? && before.status in {L.Active, L.Overdue} && after == before.(extension := Some(e.due)))
            || (e.RefuseExtension? && before.extension.Some? && after == before.(extension := None))
  {
    if e.ReceiveReturn? && e.loan == l {
      L.ReceivedReturnIsShaped(s.loans[l]);
    }
  }

  predicate IsFinal(status: R.Status) {
    status !in {R.Requested, R.Accepted, R.Returned, R.LoanScheduled}
  }

  /** A closed request never changes again: its assets are released for good. */
  lemma {:induction false} ClosedRequestsAreFinal(s: State, events: seq<Event>, r: Id)
    requires Consistent(s) && Possible(s, events) && r in s.requests && IsFinal(s.requests[r].status)
    ensures r in Reached(s, events).requests && Reached(s, events).requests[r] == s.requests[r]
    ensures R.OpenItems(s.requests[r]) == {}
    decreases |events|
  {
    R.SoundOpenItems(s.requests[r]);
    if events != [] {
      RequestFollowsTable(s, events[0], r);
      StepKeepsConsistent(s, events[0]);
      ClosedRequestsAreFinal(After(s, events[0]), events[1..], r);
    }
  }

  /** Someone turns down the loan's extension. */
  predicate Refuses(e: Event, l: Id) {
    e.RefuseExtension? && e.loan == l
  }

  lemma ClosedLoanStays(s: State, e: Event, l: Id)
    requires AllShaped(s) && Allowed(s, e) && l in s.loans && !L.IsOpen(s.loans[l].status)
    ensures l in After(s, e).loans
    ensures After(s, e).loans[l] == if Refuses(e, l) then s.loans[l].(extension := None) else s.loans[l]
    ensures Refuses(e, l) ==> s.loans[l].extension.Some?
  {
    if Touches(e, l) {
      LoanFollowsTable(s, e, l);
    } else {
      LoansStay(s, e, l);
    }
  }

  /** A closed loan never changes again, but that an extension still pending can be turned down. */
  lemma {:induction false} ClosedLoansAreFinal(s: State, events: seq<Event>, l: Id)
    requires Consistent(s) && Possible(s, events) && l in s.loans && !L.IsOpen(s.loans[l].status)
    ensures l in Reached(s, events).loans
    ensures Reached(s, events).loans[l] == s.loans[l] <==> forall e :: e in events ==> !Refuses(e, l)
    ensures Reached(s, events).loans[l].(extension := None) == s.loans[l].(extension := None)
    ensures s.loans[l].extension.None? ==> Reached(s, events).loans[l] == s.loans[l]
    decreases |events|
  {
    if events != [] {
      var t := After(s, events[0]);
      ClosedLoanStays(s, events[0], l);
      StepKeepsConsistent(s, events[0]);
      ClosedLoansAreFinal(t, events[1..], l);
      assert forall e :: e in events <==> e == events[0] || e in events[1..];
    }
  }
}
