/**
 Is an asset ON_LOAN exactly while it is out? Lending keeps it so; approving an inventory reconciliation
 (applyLost in src/modules/inventories/services/inventories.service.ts) marks a missing asset LOST without
 looking at loans, and that is the only step that breaks it, for good.
 */
module AssetsOnLoan {
  import opened Options
  import opened Hierarchy
  import opened Lending
  import opened LendingRuns
  import L = Loans

  ghost predicate Exact(s: State) {
    forall a :: a in s.assets ==> (s.assets[a].status.OnLoan? <==> Outstanding(s.loans, a))
  }

  /** Out under some loan but no longer marked so. */
  predicate Missing(s: State, a: Id) {
    a in s.assets && !s.assets[a].status.OnLoan? && Outstanding(s.loans, a)
  }

  predicate Strikes(s: State, e: Event) {
    e.Reconcile? && Outstanding(s.loans, e.asset)
  }

  lemma TakenInWasOnLoan(s: State, e: Event, a: Id)
    requires Allowed(s, e) && TakesIn(s, e, a)
    ensures a in s.assets && s.assets[a].status.OnLoan?
  {
  }

  /** An asset out under one loan is handed over by no other. */
  lemma OutIsNotDelivered(s: State, e: Event, l: Id, a: Id)
    requires AllShaped(s) && LentOnce(s.loans) && Allowed(s, e) && e.Deliver? && l in s.loans && HasOut(s.loans[l], a)
    ensures a !in s.loans[e.loan].items
  {
    if a in s.loans[e.loan].items {
      assert L.ItemFits(s.loans[e.loan].status, s.loans[e.loan].items[a]);
      assert Engages(s.loans[e.loan], a) && Engages(s.loans[l], a);
    }
  }

  /** A missing asset stays missing: its loan refuses to take it back, and no other loan can take it out. */
  lemma MissingStays(s: State, e: Event, a: Id)
    requires Consistent(s) && Allowed(s, e) && Missing(s, a)
    ensures Missing(After(s, e), a)
  {
    var t := After(s, e);
    var l :| l in s.loans && HasOut(s.loans[l], a);
    if TakesIn(s, e, a) {
      TakenInWasOnLoan(s, e, a);
    } else {
      OutItemStays(s, e, l, a);
      AssetsStayKnown(s, e);
      if e.Deliver? {
        OutIsNotDelivered(s, e, l, a);
      }
      if t.assets[a].status.OnLoan? {
        OnLoanWasOnLoan(s, e, a);
      }
      assert HasOut(t.loans[l], a);
    }
  }

  /** Whatever is out after a step was handed over by it, or was out before and not taken in. */
  lemma OutAfterStep(s: State, e: Event, l: Id, a: Id)
    requires AllShaped(s) && Allowed(s, e) && l in After(s, e).loans && HasOut(After(s, e).loans[l], a)
    ensures (e.Deliver? && l == e.loan && a in s.loans[l].items)
            || (l in s.loans && HasOut(s.loans[l], a) && !(TakesIn(s, e, a) && e.loan == l))
  {
    if !Touches(e, l) {
      OtherLoansStay(s, e, l);
    }
  }

  /** A step turns ON_LOAN off only by taking the asset in or by striking it. */
  lemma OnLoanStaysUnlessTakenIn(s: State, e: Event, a: Id)
    requires Allowed(s, e) && a in s.assets && s.assets[a].status.OnLoan? && !TakesIn(s, e, a)
    requires !(e.Reconcile? && e.asset == a)
    ensures a in After(s, e).assets && After(s, e).assets[a].status.OnLoan?
  {
    if !MarksAssets(e) {
      AssetsAreLeft(s, e);
    }
  }

  /** An asset out under one loan is taken in by no other. */
  lemma OnlyItsLoanTakesIn(s: State, e: Event, l: Id, a: Id)
    requires AllShaped(s) && LentOnce(s.loans) && l in s.loans && HasOut(s.loans[l], a)
    requires (e.UndoDelivery? ==> e.loan in s.loans && s.loans[e.loan].status.PendingSignatures?)
    requires (e.ReceiveReturn? ==> e.loan in s.loans && s.loans[e.loan].status.PendingReception?)
    requires TakesIn(s, e, a)
    ensures e.loan == l
  {
    assert L.ItemFits(s.loans[e.loan].status, s.loans[e.loan].items[a]);
    assert Engages(s.loans[e.loan], a) && Engages(s.loans[l], a);
  }

  lemma StepKeepsExactAt(s: State, e: Event, l: Id, a: Id)
    requires Consistent(s) && Exact(s) && Allowed(s, e) && !Strikes(s, e)
    requires l in After(s, e).loans && HasOut(After(s, e).loans[l], a)
    ensures a in After(s, e).assets && After(s, e).assets[a].status.OnLoan?
  {
    OutAfterStep(s, e, l, a);
    if e.Deliver? && l == e.loan {
      DeliveryRecords(s, e, a);
    } else {
      assert L.Shaped(s.loans[l]) && s.loans[l].items.Keys <= s.assets.Keys;
      if TakesIn(s, e, a) {
        OnlyItsLoanTakesIn(s, e, l, a);
      }
      OnLoanStaysUnlessTakenIn(s, e, a);
    }
  }

  /** One step: exactness survives unless a reconciliation strikes an asset that is out. */
  lemma StepIsExactExactlyWhen(s: State, e: Event)
    requires Consistent(s) && Exact(s) && Allowed(s, e)
    ensures Exact(After(s, e)) <==> !Strikes(s, e)
  {
    var t := After(s, e);
    StepKeepsConsistent(s, e);
    if Strikes(s, e) {
      assert Missing(t, e.asset);
    } else {
      forall a | a in t.assets
        ensures t.assets[a].status.OnLoan? <==> Outstanding(t.loans, a)
      {
        if Outstanding(t.loans, a) {
          var l :| l in t.loans && HasOut(t.loans[l], a);
          StepKeepsExactAt(s, e, l, a);
        }
      }
    }
  }

  predicate EverStrikes(s: State, events: seq<Event>)
    requires Possible(s, events)
    decreases |events|
  {
    events != [] && (Strikes(s, events[0]) || EverStrikes(After(s, events[0]), events[1..]))
  }

  lemma {:induction false} MissingStaysInRuns(s: State, events: seq<Event>, a: Id)
    requires Consistent(s) && Possible(s, events) && Missing(s, a)
    ensures Missing(Reached(s, events), a)
    decreases |events|
  {
    if events != [] {
      MissingStays(s, events[0], a);
      StepKeepsConsistent(s, events[0]);
      MissingStaysInRuns(After(s, events[0]), events[1..], a);
    }
  }

  /** Over every run: ON_LOAN says exactly which assets are out if and only if no reconciliation struck one. */
  lemma {:induction false} RunIsExactExactlyWhen(s: State, events: seq<Event>)
    requires Consistent(s) && Exact(s) && Possible(s, events)
    ensures Exact(Reached(s, events)) <==> !EverStrikes(s, events)
    decreases |events|
  {
    if events != [] {
      var t := After(s, events[0]);
      StepKeepsConsistent(s, events[0]);
      StepIsExactExactlyWhen(s, events[0]);
      if Strikes(s, events[0]) {
        assert Missing(t, events[0].asset);
        MissingStaysInRuns(t, events[1..], events[0].asset);
        assert Missing(Reached(t, events[1..]), events[0].asset);
      } else {
        RunIsExactExactlyWhen(t, events[1..]);
      }
    }
  }

  /** The loan of a missing asset is never closed and never receives it, whatever follows. */
  lemma {:induction false} StruckLoanNeverCloses(s: State, events: seq<Event>, l: Id, a: Id)
    requires Consistent(s) && Possible(s, events) && l in s.loans && HasOut(s.loans[l], a)
    requires a in s.assets && !s.assets[a].status.OnLoan?
    ensures var t := Reached(s, events);
            l in t.loans && L.IsOut(t.loans[l].status) && a in t.loans[l].items && !t.loans[l].items[a].received
    decreases |events|
  {
    if events != [] {
      assert Missing(s, a);
      OutItemStays(s, events[0], l, a);
      MissingStays(s, events[0], a);
      StepKeepsConsistent(s, events[0]);
      StruckLoanNeverCloses(After(s, events[0]), events[1..], l, a);
    }
  }

  // ---- What delivery takes, undo and reception give back ----

  predicate WasHanded(status: L.LoanStatus) {
    status != L.Requested && status != L.Approved
  }

  /** The statuses recorded at delivery stay as they are. */
  lemma {:induction false} RecordedStatusStays(s: State, events: seq<Event>, l: Id, a: Id)
    requires Consistent(s) && Possible(s, events) && l in s.loans && WasHanded(s.loans[l].status) && a in s.loans[l].items
    ensures var t := Reached(s, events);
            && l in t.loans && WasHanded(t.loans[l].status)
            && t.loans[l].items.Keys == s.loans[l].items.Keys
            && t.loans[l].items[a].statusOnLoan == s.loans[l].items[a].statusOnLoan
    decreases |events|
  {
    if events != [] {
      StepKeepsConsistent(s, events[0]);
      RecordedStatusStep(s, events[0], l, a);
      RecordedStatusStays(After(s, events[0]), events[1..], l, a);
    }
  }

  lemma HandedStays(s: State, e: Event, l: Id)
    requires Allowed(s, e) && l in s.loans && WasHanded(s.loans[l].status)
    ensures l in After(s, e).loans && WasHanded(After(s, e).loans[l].status)
    ensures After(s, e).loans[l].items.Keys == s.loans[l].items.Keys
  {
    if !Touches(e, l) {
      LoansStay(s, e, l);
    }
  }

  lemma RecordedStatusStep(s: State, e: Event, l: Id, a: Id)
    requires Allowed(s, e) && l in s.loans && WasHanded(s.loans[l].status) && a in s.loans[l].items
    ensures var t := After(s, e);
            && l in t.loans && WasHanded(t.loans[l].status)
            && t.loans[l].items.Keys == s.loans[l].items.Keys
            && t.loans[l].items[a].statusOnLoan == s.loans[l].items[a].statusOnLoan
  {
    HandedStays(s, e, l);
  }

  /** Undo and reception give the recorded status back. */
  lemma TakenInGetsItsStatus(t: State, l: Id, a: Id)
    requires AllShaped(t) && l in t.loans && a in t.loans[l].items
    ensures a in t.assets && t.loans[l].items[a].statusOnLoan.Some?
    ensures Allowed(t, UndoDelivery(l)) ==>
              After(t, UndoDelivery(l)).assets == WithStatuses(t.assets, UndoneStatuses(t.loans[l]))
    ensures WithStatuses(t.assets, UndoneStatuses(t.loans[l]))[a].status == t.loans[l].items[a].statusOnLoan.value
    ensures a in L.ToReceive(t.loans[l].items) ==>
              WithStatuses(t.assets, ReceivedStatuses(t.loans[l]))[a].status ==
              if t.loans[l].items[a].condition == Some(L.LostByBorrower) then L.Lost
              else t.loans[l].items[a].statusOnLoan.value
  {
    assert L.ItemFits(t.loans[l].status, t.loans[l].items[a]);
  }

  /** However long after, an asset comes back with the status it left with, or LOST when it was returned as lost. */
  lemma AssetsComeBackAsTheyLeft(s: State, e: Event, events: seq<Event>, a: Id)
    requires Consistent(s) && e.Deliver? && Allowed(s, e) && a in s.loans[e.loan].items
    requires Possible(After(s, e), events)
    ensures ComesBackAs(Reached(After(s, e), events), e.loan, a, s.assets[a].status)
  {
    DeliveryRecords(s, e, a);
    StepKeepsConsistent(s, e);
    LaterComesBack(After(s, e), e.loan, a, events);
  }

  /** Undone or received now, the asset takes this status, or LOST when it was returned as lost. */
  ghost predicate ComesBackAs(t: State, l: Id, a: Id, status: L.AssetStatus) {
    && l in t.loans && a in t.loans[l].items && a in t.assets
    && (Allowed(t, UndoDelivery(l)) ==> After(t, UndoDelivery(l)).assets[a].status == status)
    && (Allowed(t, ReceiveReturn(l)) && a in L.ToReceive(t.loans[l].items) ==>
          After(t, ReceiveReturn(l)).assets[a].status ==
          if t.loans[l].items[a].condition == Some(L.LostByBorrower) then L.Lost else status)
  }

  lemma ComesBackNow(t: State, l: Id, a: Id)
    requires AllShaped(t) && l in t.loans && a in t.loans[l].items
    ensures t.loans[l].items[a].statusOnLoan.Some?
    ensures ComesBackAs(t, l, a, t.loans[l].items[a].statusOnLoan.value)
  {
    TakenInGetsItsStatus(t, l, a);
  }

  lemma LaterComesBack(d: State, l: Id, a: Id, events: seq<Event>)
    requires Consistent(d) && Possible(d, events) && l in d.loans && WasHanded(d.loans[l].status) && a in d.loans[l].items
    ensures d.loans[l].items[a].statusOnLoan.Some?
    ensures ComesBackAs(Reached(d, events), l, a, d.loans[l].items[a].statusOnLoan.value)
  {
    assert L.ItemFits(d.loans[l].status, d.loans[l].items[a]);
    RunsStayConsistent(d, events);
    RecordedStatusStays(d, events, l, a);
    ComesBackNow(Reached(d, events), l, a);
  }

  lemma DeliveryRecords(s: State, e: Event, a: Id)
    requires e.Deliver? && Allowed(s, e) && a in s.loans[e.loan].items
    ensures var d, l := After(s, e), e.loan;
            && l in d.loans && d.loans[l].status.PendingSignatures? && d.loans[l].items.Keys == s.loans[l].items.Keys
            && a in s.assets && a in d.assets && d.assets[a].status.OnLoan?
            && d.loans[l].items[a].statusOnLoan == Some(s.assets[a].status)
  {
  }

  /** Undoing a delivery at once puts every asset back. */
  lemma UndoReversesDelivery(s: State, e: Event)
    requires Consistent(s) && e.Deliver? && Allowed(s, e)
    ensures Allowed(After(s, e), UndoDelivery(e.loan))
    ensures After(After(s, e), UndoDelivery(e.loan)).assets == s.assets
  {
    var d, l := After(s, e), e.loan;
    forall a | a in s.loans[l].items
      ensures a in d.assets && d.assets[a].status.OnLoan?
      ensures UndoneStatuses(d.loans[l])[a] == s.assets[a].status
    {
      DeliveryRecords(s, e, a);
    }
    var u := After(d, UndoDelivery(l)).assets;
    forall a
      ensures a in u <==> a in s.assets
      ensures a in u ==> u[a] == s.assets[a]
    {
    }
  }

  // ---- A run that strands an asset: lent, delivered, signed, missed by an inventory, then offered back ----

  function Stage(asset: L.AssetStatus, loan: L.LoanStatus, condition: Option<L.Condition>): State {
    State(map[1 := L.Asset(asset, 10)],
          map[5 := L.Loan(loan, 10, 20, 30, if loan.Requested? then None else Some(31), None, None, 100, None,
                       if loan.Requested? || loan.Approved? then None else Some(1000),
                       map[1 := L.Item(Some(L.InUse), condition, if condition.Some? then Some(1000) else None, false)])],
          map[])
  }

  const ASK := AskLoan(5, {1}, 10, 20, 30, 100, {}, true)

  const HAND_OVER := Deliver(5, 50, 1000, true)

  const OFFER := StartReturn(5, map[1 := L.Return(L.Good, 1000)], 2000)

  const ENTERED := State(map[1 := L.Asset(L.InUse, 10)], map[], map[])

  lemma Enters()
    ensures Allowed(EMPTY, EditAsset(1, L.Asset(L.InUse, 10)))
    ensures After(EMPTY, EditAsset(1, L.Asset(L.InUse, 10))) == ENTERED
  {
  }

  lemma IsAskedFor()
    ensures Allowed(ENTERED, ASK)
    ensures After(ENTERED, ASK) == Stage(L.InUse, L.Requested, None)
  {
    assert 1 in ENTERED.assets;
    assert NewLoan(ENTERED.assets, {1}, 10, 20, 30, 100, None, None) == Stage(L.InUse, L.Requested, None).loans[5] by {
      assert NewLoan(ENTERED.assets, {1}, 10, 20, 30, 100, None, None).items == map[1 := L.Item(Some(L.InUse), None, None, false)];
    }
  }

  lemma IsApprovedAndSigned()
    ensures Allowed(Stage(L.InUse, L.Requested, None), ApproveLoan(5, 31))
    ensures After(Stage(L.InUse, L.Requested, None), ApproveLoan(5, 31)) == Stage(L.InUse, L.Approved, None)
    ensures Allowed(Stage(L.OnLoan, L.PendingSignatures, None), SignDelivery(5))
    ensures After(Stage(L.OnLoan, L.PendingSignatures, None), SignDelivery(5)) == Stage(L.OnLoan, L.Active, None)
  {
  }

  lemma IsDelivered()
    ensures Allowed(Stage(L.InUse, L.Approved, None), HAND_OVER)
    ensures After(Stage(L.InUse, L.Approved, None), HAND_OVER) == Stage(L.OnLoan, L.PendingSignatures, None)
  {
    var s := Stage(L.InUse, L.Approved, None);
    assert 1 in s.loans[5].items;
    var t := After(s, HAND_OVER);
    assert t.assets == map[1 := L.Asset(L.OnLoan, 10)];
    assert t.loans[5].items == map[1 := L.Item(Some(L.InUse), None, None, false)];
  }

  lemma IsStruck()
    ensures HasOut(Stage(L.OnLoan, L.Active, None).loans[5], 1)
    ensures Strikes(Stage(L.OnLoan, L.Active, None), Reconcile(1))
    ensures Allowed(Stage(L.OnLoan, L.Active, None), Reconcile(1))
    ensures After(Stage(L.OnLoan, L.Active, None), Reconcile(1)) == Stage(L.Lost, L.Active, None)
  {
    assert HasOut(Stage(L.OnLoan, L.Active, None).loans[5], 1);
  }

  lemma IsOffered()
    ensures var s, e := Stage(L.Lost, L.Active, None), OFFER;
            Allowed(s, e) && After(s, e) == Stage(L.Lost, L.PendingReception, Some(L.Good))
    ensures !Allowed(Stage(L.Lost, L.PendingReception, Some(L.Good)), ReceiveReturn(5))
  {
    var s, e := Stage(L.Lost, L.Active, None), OFFER;
    assert 1 in e.recorded;
    assert After(s, e).loans[5].items == map[1 := L.Item(Some(L.InUse), Some(L.Good), Some(1000), false)];
    assert 1 in L.ToReceive(map[1 := L.Item(Some(L.InUse), Some(L.Good), Some(1000), false)]);
  }

  lemma Precede(s: State, e: Event, t: State, events: seq<Event>)
    requires Allowed(s, e) && After(s, e) == t && Possible(t, events)
    ensures Possible(s, [e] + events) && Reached(s, [e] + events) == Reached(t, events)
    ensures EverStrikes(s, [e] + events) <==> Strikes(s, e) || EverStrikes(t, events)
  {
    assert ([e] + events)[1..] == events;
  }

  lemma StrandsOnceSigned() returns (events: seq<Event>)
    ensures var s, t := Stage(L.OnLoan, L.Active, None), Stage(L.Lost, L.PendingReception, Some(L.Good));
            Possible(s, events) && EverStrikes(s, events) && Reached(s, events) == t
  {
    IsOffered();
    events := [];
    Precede(Stage(L.Lost, L.Active, None), OFFER,
            Stage(L.Lost, L.PendingReception, Some(L.Good)), events);
    events := [OFFER] + events;
    IsStruck();
    Precede(Stage(L.OnLoan, L.Active, None), Reconcile(1), Stage(L.Lost, L.Active, None), events);
    events := [Reconcile(1)] + events;
  }

  /** The loan is asked for, approved, delivered and signed: whatever follows can follow from empty tables. */
  lemma LentFirst(tail: seq<Event>) returns (events: seq<Event>)
    requires Possible(Stage(L.OnLoan, L.Active, None), tail)
    ensures Possible(EMPTY, events) && Reached(EMPTY, events) == Reached(Stage(L.OnLoan, L.Active, None), tail)
    ensures EverStrikes(Stage(L.OnLoan, L.Active, None), tail) ==> EverStrikes(EMPTY, events)
  {
    events := DeliveredFirst(tail);
    Precede(Stage(L.InUse, L.Requested, None), ApproveLoan(5, 31), Stage(L.InUse, L.Approved, None), events);
    events := [ApproveLoan(5, 31)] + events;
    IsAskedFor();
    Precede(ENTERED, ASK, Stage(L.InUse, L.Requested, None), events);
    events := [ASK] + events;
    Enters();
    Precede(EMPTY, EditAsset(1, L.Asset(L.InUse, 10)), ENTERED, events);
    events := [EditAsset(1, L.Asset(L.InUse, 10))] + events;
  }

  lemma DeliveredFirst(tail: seq<Event>) returns (events: seq<Event>)
    requires Possible(Stage(L.OnLoan, L.Active, None), tail)
    ensures Allowed(Stage(L.InUse, L.Requested, None), ApproveLoan(5, 31))
    ensures After(Stage(L.InUse, L.Requested, None), ApproveLoan(5, 31)) == Stage(L.InUse, L.Approved, None)
    ensures Possible(Stage(L.InUse, L.Approved, None), events)
    ensures Reached(Stage(L.InUse, L.Approved, None), events) == Reached(Stage(L.OnLoan, L.Active, None), tail)
    ensures EverStrikes(Stage(L.OnLoan, L.Active, None), tail) ==> EverStrikes(Stage(L.InUse, L.Approved, None), events)
  {
    IsApprovedAndSigned();
    Precede(Stage(L.OnLoan, L.PendingSignatures, None), SignDelivery(5), Stage(L.OnLoan, L.Active, None), tail);
    events := [SignDelivery(5)] + tail;
    IsDelivered();
    Precede(Stage(L.InUse, L.Approved, None), HAND_OVER, Stage(L.OnLoan, L.PendingSignatures, None), events);
    events := [HAND_OVER] + events;
  }

  lemma ReconciliationStrandsALoan() returns (events: seq<Event>)
    ensures Possible(EMPTY, events) && EverStrikes(EMPTY, events)
    ensures var t := Reached(EMPTY, events);
            5 in t.loans && HasOut(t.loans[5], 1) && 1 in t.assets && t.assets[1].status.Lost?
            && t.loans[5].status.PendingReception? && !Allowed(t, ReceiveReturn(5))
  {
    events := StrandsOnceSigned();
    events := LentFirst(events);
    IsOffered();
  }
}
