/**
 Requests reserve assets and loans engage them. Accepting a request looks at open loans, but createWithin in
 src/modules/loans/services/loans.service.ts never looks at reservations, so a direct loan can take a reserved asset.
 */
module Reservations {
  import opened Options
  import opened Hierarchy
  import opened Lending
  import opened LendingRuns
  import L = Loans
  import R = AssetRequests

  /** No asset is both reserved by a request and in an open loan. */
  ghost predicate Disjoint(s: State) {
    forall a :: !(Reserved(s.requests, a) && Busy(s.loans, a))
  }

  /** A direct loan of an asset that a request has reserved. */
  predicate TakesReserved(s: State, e: Event) {
    e.AskLoan? && exists a :: a in e.chosen && Reserved(s.requests, a)
  }

  lemma TakingMakesBoth(s: State, e: Event)
    requires Allowed(s, e) && TakesReserved(s, e)
    ensures !Disjoint(After(s, e))
  {
    var t := After(s, e);
    var a :| a in e.chosen && Reserved(s.requests, a);
    assert e.loan in t.loans && Engages(t.loans[e.loan], a);
    assert Reserved(t.requests, a) && Busy(t.loans, a);
  }

  /** A loan made for a request takes over its reservation. */
  lemma ScheduledIsReleased(s: State, e: Event, q: Id, a: Id)
    requires AllSound(s) && HeldOnce(s.requests) && Allowed(s, e) && e.ScheduleLoan?
    requires q in After(s, e).requests && a in R.OpenItems(After(s, e).requests[q])
    ensures a !in R.OpenItems(s.requests[e.request])
  {
    HeldAfterStep(s, e, q, a);
  }

  lemma NeverBoth(s: State, e: Event, q: Id, l: Id, a: Id)
    requires Consistent(s) && Disjoint(s) && Allowed(s, e) && !TakesReserved(s, e)
    requires q in After(s, e).requests && a in R.OpenItems(After(s, e).requests[q])
    ensures !(l in After(s, e).loans && Engages(After(s, e).loans[l], a))
  {
    HeldAfterStep(s, e, q, a);
    assert !(Reserved(s.requests, a) && Busy(s.loans, a));
    if l in After(s, e).loans && Engages(After(s, e).loans[l], a) {
      EngagedAfterStep(s, e, l, a);
      if e.ScheduleLoan? {
        ScheduledIsReleased(s, e, q, a);
        EngagedByNewLoan(s, e, l, a);
      } else if e.AskLoan? {
        EngagedByNewLoan(s, e, l, a);
      } else {
        BothBefore(s, e, l, a);
      }
    }
  }

  lemma EngagedByNewLoan(s: State, e: Event, l: Id, a: Id)
    requires Allowed(s, e) && (e.ScheduleLoan? || e.AskLoan?)
    requires l in After(s, e).loans && Engages(After(s, e).loans[l], a)
    ensures (l in s.loans && l != e.loan && Engages(s.loans[l], a))
            || (l == e.loan && a in if e.AskLoan? then e.chosen else R.OpenItems(s.requests[e.request]))
  {
  }

  lemma BothBefore(s: State, e: Event, l: Id, a: Id)
    requires Allowed(s, e) && l in s.loans && Engages(s.loans[l], a)
    ensures Busy(s.loans, a)
    ensures !(e.AcceptRequest? && a in e.chosen)
  {
  }

  /** One step: reservations and loans stay apart unless a direct loan takes a reserved asset. */
  lemma StepKeepsApartExactlyWhen(s: State, e: Event)
    requires Consistent(s) && Disjoint(s) && Allowed(s, e)
    ensures Disjoint(After(s, e)) <==> !TakesReserved(s, e)
  {
    if TakesReserved(s, e) {
      TakingMakesBoth(s, e);
    } else {
      var t := After(s, e);
      forall a
        ensures !(Reserved(t.requests, a) && Busy(t.loans, a))
      {
        if Reserved(t.requests, a) && Busy(t.loans, a) {
          var q :| q in t.requests && a in R.OpenItems(t.requests[q]);
          var l :| l in t.loans && Engages(t.loans[l], a);
          NeverBoth(s, e, q, l, a);
        }
      }
    }
  }

  predicate EverTakesReserved(s: State, events: seq<Event>)
    requires Possible(s, events)
    decreases |events|
  {
    events != [] && (TakesReserved(s, events[0]) || EverTakesReserved(After(s, events[0]), events[1..]))
  }

  ghost predicate AlwaysDisjoint(s: State, events: seq<Event>)
    requires Possible(s, events)
    decreases |events|
  {
    Disjoint(s) && (events != [] ==> AlwaysDisjoint(After(s, events[0]), events[1..]))
  }

  /** Over every run reservations and loans stay apart exactly when no direct loan took a reserved asset. */
  lemma {:induction false} RunStaysApartExactlyWhen(s: State, events: seq<Event>)
    requires Consistent(s) && Disjoint(s) && Possible(s, events)
    ensures AlwaysDisjoint(s, events) <==> !EverTakesReserved(s, events)
    decreases |events|
  {
    if events != [] {
      StepKeepsConsistent(s, events[0]);
      StepKeepsApartExactlyWhen(s, events[0]);
      if !TakesReserved(s, events[0]) {
        RunStaysApartExactlyWhen(After(s, events[0]), events[1..]);
      }
    }
  }

  // ---- A run from empty tables: an accepted request, then a direct loan of its asset ----

  const ENTERED := State(map[1 := L.Asset(L.InUse, 10)], map[], map[])

  const WANTED := R.New(R.Permanent, 30, 20, 10, None, None)

  const TAKING_RUN: seq<Event> :=
    [EditAsset(1, L.Asset(L.InUse, 10)), CreateRequest(7, R.Permanent, 30, 20, 10, None, None),
     AcceptRequest(7, {1}, {}, 31, 0), AskLoan(5, {1}, 10, 20, 32, 100, {}, true)]

  function Asked(): State {
    ENTERED.(requests := map[7 := WANTED])
  }

  function Held(): State {
    ENTERED.(requests := map[7 := R.AcceptedWith(WANTED, {1}, 31, 0)])
  }

  lemma Enters()
    ensures Allowed(EMPTY, TAKING_RUN[0]) && After(EMPTY, TAKING_RUN[0]) == ENTERED
  {
  }

  lemma IsAsked()
    ensures Allowed(ENTERED, TAKING_RUN[1]) && After(ENTERED, TAKING_RUN[1]) == Asked()
  {
  }

  lemma IsAccepted()
    ensures Allowed(Asked(), TAKING_RUN[2]) && After(Asked(), TAKING_RUN[2]) == Held()
  {
  }

  lemma Continue(s: State, events: seq<Event>)
    requires events != [] && Allowed(s, events[0]) && Possible(After(s, events[0]), events[1..])
    ensures Possible(s, events) && Reached(s, events) == Reached(After(s, events[0]), events[1..])
  {
  }

  lemma RequestIsAccepted()
    ensures Possible(EMPTY, TAKING_RUN[..3]) && Reached(EMPTY, TAKING_RUN[..3]) == Held()
  {
    var rest := [TAKING_RUN[2]];
    assert rest[1..] == [] && TAKING_RUN[1..3][1..] == rest && TAKING_RUN[..3][1..] == TAKING_RUN[1..3];
    IsAccepted();
    Continue(Asked(), rest);
    IsAsked();
    Continue(ENTERED, TAKING_RUN[1..3]);
    Enters();
    Continue(EMPTY, TAKING_RUN[..3]);
  }

  lemma DirectLoanTakesAReservedAsset()
    ensures Possible(EMPTY, TAKING_RUN[..3]) && Disjoint(Reached(EMPTY, TAKING_RUN[..3]))
    ensures var s := Reached(EMPTY, TAKING_RUN[..3]);
            Allowed(s, TAKING_RUN[3]) && TakesReserved(s, TAKING_RUN[3]) && !Disjoint(After(s, TAKING_RUN[3]))
  {
    RequestIsAccepted();
    assert 1 in R.OpenItems(Held().requests[7]);
    TakingMakesBoth(Held(), TAKING_RUN[3]);
  }
}
