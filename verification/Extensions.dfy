/**
 Extensions of a loan (requestExtension, approveExtension and rejectExtension in
 src/modules/loans/services/loans.service.ts): what they do to its due date over whole runs.
 */
module Extensions {
  import opened Options
  import opened Hierarchy
  import opened Lending
  import opened LendingRuns
  import A = AssetsOnLoan
  import L = Loans

  predicate Extends(e: Event, l: Id) {
    e.Extend? && e.loan == l
  }

  /** `actor` asks for the due date `due`. */
  predicate AsksFor(e: Event, l: Id, actor: Id, due: int) {
    e.AskExtension? && e.loan == l && e.actor == actor && e.due == due
  }

  lemma SameRequester(s: State, e: Event, l: Id)
    requires Allowed(s, e) && l in s.loans
    ensures l in After(s, e).loans && After(s, e).loans[l].requestedBy == s.loans[l].requestedBy
  {
    if !Touches(e, l) {
      LoansStay(s, e, l);
    }
  }

  /** Only an approved extension changes a due date, to the date asked for. */
  lemma StepKeepsDue(s: State, e: Event, l: Id)
    requires Allowed(s, e) && l in s.loans
    ensures l in After(s, e).loans
    ensures Extends(e, l) ==> s.loans[l].extension == Some(After(s, e).loans[l].due)
    ensures !Extends(e, l) ==> After(s, e).loans[l].due == s.loans[l].due
  {
    if !Touches(e, l) {
      LoansStay(s, e, l);
    }
  }

  lemma StepKeepsExtension(s: State, e: Event, l: Id)
    requires Allowed(s, e) && l in s.loans
    ensures l in After(s, e).loans
    ensures var after := After(s, e).loans[l].extension;
            after.None? || after == s.loans[l].extension || AsksFor(e, l, s.loans[l].requestedBy, after.value)
  {
    if !Touches(e, l) {
      LoansStay(s, e, l);
    }
  }

  lemma StepMovesDueForward(s: State, e: Event, l: Id)
    requires Consistent(s) && Allowed(s, e) && l in s.loans
    ensures l in After(s, e).loans
    ensures if Extends(e, l) then s.loans[l].due < After(s, e).loans[l].due else s.loans[l].due == After(s, e).loans[l].due
  {
    StepKeepsDue(s, e, l);
    assert L.Shaped(s.loans[l]);
  }

  /** Over every run a due date moves forward only, and moves exactly when an extension of its loan is approved. */
  lemma {:induction false} DueOnlyMovesForward(s: State, events: seq<Event>, l: Id)
    requires Consistent(s) && Possible(s, events) && l in s.loans
    ensures l in Reached(s, events).loans && s.loans[l].due <= Reached(s, events).loans[l].due
    ensures s.loans[l].due == Reached(s, events).loans[l].due <==> forall e :: e in events ==> !Extends(e, l)
    decreases |events|
  {
    if events != [] {
      StepMovesDueForward(s, events[0], l);
      StepKeepsConsistent(s, events[0]);
      DueOnlyMovesForward(After(s, events[0]), events[1..], l);
      assert forall e :: e in events <==> e == events[0] || e in events[1..];
    }
  }

  /** Over every run a due date is the first one, or one that the loan's requester asked for. */
  lemma {:induction false} DueWasAskedFor(s: State, events: seq<Event>, l: Id)
    requires Possible(s, events) && l in s.loans
    ensures l in Reached(s, events).loans
    ensures var loan, due := s.loans[l], Reached(s, events).loans[l].due;
            due == loan.due || loan.extension == Some(due)
            || exists e :: e in events && AsksFor(e, l, loan.requestedBy, due)
    decreases |events|
  {
    if events != [] {
      var t := After(s, events[0]);
      SameRequester(s, events[0], l);
      StepKeepsDue(s, events[0], l);
      StepKeepsExtension(s, events[0], l);
      DueWasAskedFor(t, events[1..], l);
      var due := Reached(t, events[1..]).loans[l].due;
      if t.loans[l].extension == Some(due) && s.loans[l].extension != Some(due) {
        assert events[0] in events && AsksFor(events[0], l, s.loans[l].requestedBy, due);
      } else if e :| e in events[1..] && AsksFor(e, l, s.loans[l].requestedBy, due) {
        assert e in events;
      }
    }
  }

  // ---- A closed loan that still changes: nobody looked at its extension, and it can be turned down afterwards ----

  const LATER := AskExtension(5, 30, 200, 60)

  const REFUSAL := RefuseExtension(5, 31)

  /** The stages of AssetsOnLoan with a date asked for. */
  function Asked(asset: L.AssetStatus, loan: L.LoanStatus, item: L.Item): State {
    State(map[1 := L.Asset(asset, 10)],
          map[5 := L.Loan(loan, 10, 20, 30, Some(31), None, None, 100, Some(200), Some(1000), map[1 := item])], map[])
  }

  const OUT := L.Item(Some(L.InUse), None, None, false)

  const BACK := L.Item(Some(L.InUse), Some(L.Good), Some(1000), false)

  const IN := BACK.(received := true)

  lemma IsAskedToExtend()
    ensures var s := A.Stage(L.OnLoan, L.Active, None); Allowed(s, LATER) && After(s, LATER) == Asked(L.OnLoan, L.Active, OUT)
  {
  }

  lemma IsOfferedBack()
    ensures var s := Asked(L.OnLoan, L.Active, OUT);
            Allowed(s, A.OFFER) && After(s, A.OFFER) == Asked(L.OnLoan, L.PendingReception, BACK)
  {
    var s := Asked(L.OnLoan, L.Active, OUT);
    assert 1 in A.OFFER.recorded;
    assert After(s, A.OFFER).loans[5].items == map[1 := BACK];
  }

  lemma IsTakenIn()
    ensures var s := Asked(L.OnLoan, L.PendingReception, BACK);
            Allowed(s, ReceiveReturn(5)) && After(s, ReceiveReturn(5)) == Asked(L.InUse, L.Returned, IN)
  {
    var s := Asked(L.OnLoan, L.PendingReception, BACK);
    assert 1 in L.ToReceive(s.loans[5].items);
    assert After(s, ReceiveReturn(5)).loans[5].items == map[1 := IN];
    assert After(s, ReceiveReturn(5)).assets == map[1 := L.Asset(L.InUse, 10)];
  }

  lemma ReturnsOnceActive() returns (events: seq<Event>)
    ensures Possible(A.Stage(L.OnLoan, L.Active, None), events)
    ensures Reached(A.Stage(L.OnLoan, L.Active, None), events) == Asked(L.InUse, L.Returned, IN)
  {
    events := [];
    IsTakenIn();
    A.Precede(Asked(L.OnLoan, L.PendingReception, BACK), ReceiveReturn(5), Asked(L.InUse, L.Returned, IN), events);
    events := [ReceiveReturn(5)] + events;
    IsOfferedBack();
    A.Precede(Asked(L.OnLoan, L.Active, OUT), A.OFFER, Asked(L.OnLoan, L.PendingReception, BACK), events);
    events := [A.OFFER] + events;
    IsAskedToExtend();
    A.Precede(A.Stage(L.OnLoan, L.Active, None), LATER, Asked(L.OnLoan, L.Active, OUT), events);
    events := [LATER] + events;
  }

  /** A run from empty tables to a closed loan that a refusal of its extension still changes. */
  lemma ClosedLoanCanChange() returns (events: seq<Event>)
    ensures Possible(EMPTY, events)
    ensures var t := Reached(EMPTY, events);
            5 in t.loans && !L.IsOpen(t.loans[5].status) && Allowed(t, REFUSAL) && After(t, REFUSAL).loans[5] != t.loans[5]
  {
    events := ReturnsOnceActive();
    events := A.LentFirst(events);
  }
}
