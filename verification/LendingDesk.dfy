/**
 The lending transactions that walk over rows, as the services run them: each either commits the step of the
 state machine or leaves every table as it was.
 */
module LendingDesk {
  import opened Options
  import opened Hierarchy
  import opened Lending
  import opened LendingRuns
  import L = Loans
  import R = AssetRequests

  class Desk {
    var assets: map<Id, L.Asset>
    var loans: map<Id, L.Loan>
    var requests: map<Id, R.Request>

    ghost function Now(): State
      reads this
    {
      State(assets, loans, requests)
    }

    constructor ()
      ensures Now() == EMPTY
    {
      assets, loans, requests := map[], map[], map[];
    }

    /** The transaction's outcome: the step if it may happen, or a rollback. */
    twostate predicate Ran(e: Event, ok: bool)
      reads this
    {
      && (ok <==> Allowed(old(Now()), e))
      && Now() == if ok then After(old(Now()), e) else old(Now())
    }

    // ---- Requests ----

    method AcceptRequest(r: Id, chosen: set<Id>, held: set<Id>, actor: Id, now: int) returns (ok: bool)
      modifies this`requests
      ensures Ran(Event.AcceptRequest(r, chosen, held, actor, now), ok)
    {
      if r !in requests || actor == requests[r].requester || !R.MayMove(requests[r].status, R.Accepted) || chosen == {} {
        return false;
      }
      var request := requests[r];
      var left, items := chosen, request.items;
      while left != {}
        invariant left <= chosen && requests == old(requests)
        invariant chosen - left !! request.items.Keys
        invariant Eligible(Now(), request, chosen - left, held)
        invariant items == request.items + map a | a in chosen - left :: true
      {
        var a := Pick(left);
        if a in request.items || a !in assets || assets[a].center != request.owner || !L.Loanable(assets[a].status)
           || Busy(loans, a) || Reserved(requests, a) || a in held
        {
          return false;
        }
        items := items[a := true];
        left := left - {a};
      }
      assert chosen - left == chosen;
      requests := requests[r := request.(status := R.Accepted, acceptedBy := Some(actor), acceptedAt := Some(now),
                                         expiresAt := Some(now + R.EXPIRY_DAYS * R.DAY), items := items)];
      return true;
    }

    /** At most `limit` due requests, earliest deadline first, each in a transaction of its own. */
    method ExpireDue(limit: nat, now: int) returns (expired: nat, ghost events: seq<Event>)
      modifies this`requests
      ensures expired == |events| <= limit
      ensures forall i :: 0 <= i < |events| ==> events[i].ExpireRequest? && events[i].now == now
      ensures Possible(old(Now()), events) && Now() == Reached(old(Now()), events)
      ensures expired < limit ==> forall r :: r in requests ==> !R.CanExpire(requests[r], now)
    {
      expired, events := 0, [];
      while expired < limit
        invariant expired == |events| <= limit
        invariant forall i :: 0 <= i < |events| ==> events[i].ExpireRequest? && events[i].now == now
        invariant Possible(old(Now()), events) && Now() == Reached(old(Now()), events)
      {
        var due := set r | r in requests && R.CanExpire(requests[r], now);
        if due == {} {
          assert forall r :: r in requests ==> (R.CanExpire(requests[r], now) <==> r in due);
          return;
        }
        var r := Earliest(due);
        RunGoesOn(old(Now()), events, Event.ExpireRequest(r, now));
        events := events + [Event.ExpireRequest(r, now)];
        requests := requests[r := requests[r].(status := R.Expired, items := R.Freed(requests[r].items))];
        expired := expired + 1;
      }
    }

    method Earliest(due: set<Id>) returns (r: Id)
      requires due != {} && due <= requests.Keys && forall q :: q in due ==> requests[q].expiresAt.Some?
      ensures r in due
      ensures forall q :: q in due ==> requests[r].expiresAt.value <= requests[q].expiresAt.value
    {
      r := Pick(due);
      var left := due - {r};
      while left != {}
        invariant left <= due && r in due
        invariant forall q :: q in due - left ==> requests[r].expiresAt.value <= requests[q].expiresAt.value
      {
        var q := Pick(left);
        if requests[q].expiresAt.value < requests[r].expiresAt.value {
          r := q;
        }
        left := left - {q};
      }
    }

    /** TEMPORARY: closes the reservation and schedules the loan the owner already approved. */
    method Generate(r: Id, l: Id, writingOff: set<Id>, ready: bool) returns (ok: bool)
      requires l !in loans
      modifies this`requests, this`loans
      ensures Ran(Event.ScheduleLoan(r, l, writingOff, ready), ok)
    {
      if r !in requests || !R.CanGenerate(requests[r], R.Temporary) || requests[r].until.None? {
        return false;
      }
      var request := requests[r];
      var chosen := R.OpenItems(request);
      if exists a :: a in chosen && a in assets && assets[a].center != request.owner {
        return false;
      }
      var before := requests;
      requests := requests[r := request.(items := R.Freed(request.items))];
      var source;
      ok, source := CreateWithin(l, chosen, request.requesting, request.requester, request.until.value, request.start,
                                 Some((request.acceptedBy.value, r)), writingOff, ready);
      if !ok {
        assert !CanLend(assets, loans, chosen, request.owner, request.requesting, writingOff, ready);
        requests := before;
        return;
      }
      var a := Pick(chosen);
      assert source == assets[a].center == request.owner;
      requests := requests[r := requests[r].(status := R.LoanScheduled, loan := Some(l), transfer := None, expiresAt := None)];
    }

    // ---- Loans ----

    /** The shared creation: the source is the centre of any of the assets, and must be that of all. */
    method CreateWithin(l: Id, chosen: set<Id>, target: Id, requestedBy: Id, due: int, start: Option<int>,
                        approval: Option<(Id, Id)>, writingOff: set<Id>, ready: bool)
      returns (ok: bool, source: Id)
      requires l !in loans && chosen != {}
      modifies this`loans
      ensures ok <==> CanLend(assets, old(loans), chosen, source, target, writingOff, ready)
      ensures !ok ==> loans == old(loans) && forall c :: !CanLend(assets, old(loans), chosen, c, target, writingOff, ready)
      ensures ok ==> loans == old(loans)[l := NewLoan(assets, chosen, source, target, requestedBy, due, start, approval)]
    {
      source := 0;
      var first := Pick(chosen);
      if first !in assets {
        assert !(chosen <= assets.Keys);
        return false, source;
      }
      source := assets[first].center;
      if source == target || !ready {
        return false, source;
      }
      var left, items := chosen, map[];
      while left != {}
        invariant left <= chosen && chosen - left <= assets.Keys && loans == old(loans)
        invariant forall a :: a in chosen - left ==>
                    assets[a].center == source && L.Loanable(assets[a].status) && !Busy(loans, a) && a !in writingOff
        invariant items == map a | a in chosen - left :: L.Item(Some(assets[a].status), None, None, false)
      {
        var a := Pick(left);
        if a !in assets || assets[a].center != source || !L.Loanable(assets[a].status) || Busy(loans, a)
           || a in writingOff
        {
          assert forall c :: CanLend(assets, loans, chosen, c, target, writingOff, ready) ==> c == source;
          return false, source;
        }
        items := items[a := L.Item(Some(assets[a].status), None, None, false)];
        left := left - {a};
      }
      assert chosen - left == chosen;
      loans := loans[l := L.Loan(if approval.Some? then L.Approved else L.Requested, source, target, requestedBy,
                                 if approval.Some? then Some(approval.value.0) else None,
                                 if approval.Some? then Some(approval.value.1) else None, start, due, None, None, items)];
      return true, source;
    }

    /** The request's listener: a delivery generates its document, a rejection or cancellation closes it. */
    method NotifyRequest(l: Id, loan: L.Loan, status: R.Status)
      modifies this`requests
      ensures requests == AfterListener(old(requests), l, loan, status)
    {
      if loan.request.None? || loan.request.value !in requests {
        return;
      }
      var request := requests[loan.request.value];
      if request.loan != Some(l) || !request.status.LoanScheduled? {
        return;
      }
      if !status.DocumentGenerated? {
        request := request.(expiresAt := None, items := R.Freed(request.items));
      }
      requests := requests[loan.request.value := request.(status := status)];
    }

    /** Marks every asset of the loan ON_LOAN and notes the status it leaves with; a refused asset rolls all back. */
    method HandOver(loan: L.Loan) returns (ok: bool, items: map<Id, L.Item>)
      modifies this`assets
      ensures ok <==> CanHandOver(old(assets), loan)
      ensures assets == if ok then WithStatuses(old(assets), OutStatuses(loan)) else old(assets)
      ensures ok ==> forall now :: items == L.Handed(loan, old(assets), now).items
    {
      var before := assets;
      var left := loan.items.Keys;
      items := loan.items;
      ghost var done: set<Id> := {};
      while left != {}
        invariant left <= loan.items.Keys && done == loan.items.Keys - left && done <= before.Keys
        invariant forall a :: a in done ==> before[a].center == loan.source && L.Loanable(before[a].status)
        invariant assets == WithStatuses(before, map a | a in done :: L.OnLoan)
        invariant items == ItemsHanded(before, loan, done)
      {
        var a := Pick(left);
        if a !in assets || assets[a].center != loan.source || !L.Loanable(assets[a].status) {
          assets := before;
          return false, items;
        }
        HandOneMore(before, loan, done, a);
        items := items[a := items[a].(statusOnLoan := Some(assets[a].status))];
        assets := assets[a := assets[a].(status := L.OnLoan)];
        left, done := left - {a}, done + {a};
      }
      assert (map a | a in done :: L.OnLoan) == OutStatuses(loan);
      return true, items;
    }

    method Deliver(l: Id, today: int, now: int, ready: bool) returns (ok: bool)
      modifies this
      ensures Ran(Event.Deliver(l, today, now, ready), ok)
    {
      if l !in loans || !L.MayMove(loans[l].status, L.PendingSignatures) || loans[l].items == map[] {
        return false;
      }
      var loan := loans[l];
      if (loan.start.Some? && today < loan.start.value) || loan.due < today || !ready {
        return false;
      }
      var items;
      ok, items := HandOver(loan);
      if ok {
        loans := loans[l := loan.(status := L.PendingSignatures, deliveredAt := Some(now), items := items)];
        NotifyRequest(l, loan, R.DocumentGenerated);
      }
    }

    method UndoDelivery(l: Id) returns (ok: bool)
      modifies this`assets, this`loans
      ensures Ran(Event.UndoDelivery(l), ok)
    {
      if l !in loans || !loans[l].status.PendingSignatures? {
        return false;
      }
      var loan := loans[l];
      var before := assets;
      var statuses := UndoneStatuses(loan);
      var left := loan.items.Keys;
      while left != {}
        invariant left <= loan.items.Keys && loans == old(loans)
        invariant AllOnLoan(before, loan.items.Keys - left)
        invariant assets == WithStatuses(before, map a | a in loan.items.Keys - left :: statuses[a])
      {
        var a := Pick(left);
        if a !in assets || !assets[a].status.OnLoan? {
          assets := before;
          return false;
        }
        var item := loan.items[a];
        assets := assets[a := assets[a].(status := if item.statusOnLoan.Some? then item.statusOnLoan.value else L.InUse)];
        left := left - {a};
      }
      assert loan.items.Keys - left == loan.items.Keys;
      assert (map a | a in loan.items.Keys - left :: statuses[a]) == statuses;
      loans := loans[l := loan.(status := L.Cancelled)];
      return true;
    }

    method StartReturn(l: Id, returned: seq<Entry>, now: int) returns (ok: bool)
      requires returned != []
      modifies this`loans
      ensures ok ==> Distinct(returned) && Ran(Event.StartReturn(l, Returns(returned, now), now), true)
      ensures !ok ==> Now() == old(Now())
                      && (Distinct(returned) ==> Ran(Event.StartReturn(l, Returns(returned, now), now), false))
    {
      if l !in loans || !L.MayMove(loans[l].status, L.PendingReception) {
        return false;
      }
      var items;
      ok, items := RecordReturns(loans[l], returned, now);
      if ok {
        loans := loans[l := loans[l].(status := L.PendingReception, items := items)];
      }
    }

    method ReceiveReturn(l: Id) returns (ok: bool)
      modifies this`assets, this`loans
      ensures Ran(Event.ReceiveReturn(l), ok)
    {
      if l !in loans || !loans[l].status.PendingReception? {
        return false;
      }
      var loan := loans[l];
      var before := assets;
      var left, items, received := loan.items.Keys, loan.items, false;
      ghost var done: set<Id> := {};
      while left != {}
        invariant left <= loan.items.Keys && loans == old(loans)
        invariant done == L.ToReceive(loan.items) - left
        invariant AllOnLoan(before, done)
        invariant assets == WithStatuses(before, StatusesReceived(loan, done))
        invariant items == ItemsReceived(loan, done)
        invariant received <==> done != {}
      {
        var a := Pick(left);
        var item := loan.items[a];
        if item.condition.Some? && !item.received {
          assert a in L.ToReceive(loan.items);
          if a !in assets || !assets[a].status.OnLoan? {
            assets := before;
            return false;
          }
          ReceiveOneMore(before, loan, done, a);
          assets := assets[a := assets[a].(status := if item.condition.value.LostByBorrower? then L.Lost
                                                     else if item.statusOnLoan.Some? then item.statusOnLoan.value
                                                     else L.InUse)];
          items := items[a := item.(received := true)];
          done, received := done + {a}, true;
        }
        left := left - {a};
      }
      assert done == L.ToReceive(loan.items);
      if !received {
        return false;
      }
      assert StatusesReceived(loan, done) == ReceivedStatuses(loan);
      assert items == L.ReceivedItems(loan.items);
      loans := loans[l := loan.(status := L.StatusAfterReception(items), items := items)];
      return true;
    }
  }

  /** An entry of the list: the asset, its condition, and the date of the return when it is not now. */
  datatype Entry = Entry(asset: Id, condition: L.Condition, at: Option<int>)

  function At(entry: Entry, now: int): int {
    if entry.at.Some? then entry.at.value else now
  }

  /** The list is refused when it repeats an asset, names one not out, or dates a return before delivery or after now. */
  method RecordReturns(loan: L.Loan, returned: seq<Entry>, now: int) returns (ok: bool, items: map<Id, L.Item>)
    requires returned != []
    ensures ok <==> Distinct(returned)
                    && forall a :: a in Returns(returned, now) ==> L.MayReturn(loan, a, Returns(returned, now)[a].at, now)
    ensures ok ==> items == L.Recorded(loan.items, Returns(returned, now)) && Returns(returned, now) != map[]
  {
    var seen: map<Id, L.Return> := map[];
    items := loan.items;
    for i := 0 to |returned|
      invariant Distinct(returned[..i]) && seen == Returns(returned[..i], now)
      invariant forall a :: a in seen ==> L.MayReturn(loan, a, seen[a].at, now)
      invariant items == L.Recorded(loan.items, seen)
      invariant i > 0 ==> returned[i - 1].asset in seen
    {
      var a, at := returned[i].asset, At(returned[i], now);
      OneMore(returned, i, now);
      if a in seen || a !in loan.items || loan.items[a].received
         || at > now || (loan.deliveredAt.Some? && at < loan.deliveredAt.value)
      {
        RefusedForGood(loan, returned, i, now);
        return false, items;
      }
      seen := seen[a := L.Return(returned[i].condition, at)];
      items := items[a := items[a].(condition := Some(returned[i].condition), returnedAt := Some(at))];
    }
    assert returned[..|returned|] == returned;
    return true, items;
  }

  function StatusesReceived(loan: L.Loan, done: set<Id>): map<Id, L.AssetStatus>
    requires done <= loan.items.Keys
  {
    map a | a in done :: L.StatusWhenReceived(loan.items[a])
  }

  function ItemsReceived(loan: L.Loan, done: set<Id>): map<Id, L.Item> {
    map a | a in loan.items :: if a in done then loan.items[a].(received := true) else loan.items[a]
  }

  function ItemsHanded(before: map<Id, L.Asset>, loan: L.Loan, done: set<Id>): map<Id, L.Item>
    requires done <= before.Keys
  {
    map a | a in loan.items ::
      if a in done then loan.items[a].(statusOnLoan := Some(before[a].status)) else loan.items[a]
  }

  lemma HandOneMore(before: map<Id, L.Asset>, loan: L.Loan, done: set<Id>, a: Id)
    requires done <= before.Keys && a in loan.items && a in before && a !in done
    ensures WithStatuses(before, map b | b in done + {a} :: L.OnLoan) ==
            WithStatuses(before, map b | b in done :: L.OnLoan)[a := before[a].(status := L.OnLoan)]
    ensures ItemsHanded(before, loan, done + {a}) ==
            ItemsHanded(before, loan, done)[a := loan.items[a].(statusOnLoan := Some(before[a].status))]
  {
  }

  lemma ReceiveOneMore(before: map<Id, L.Asset>, loan: L.Loan, done: set<Id>, a: Id)
    requires done <= loan.items.Keys && a in loan.items && a in before && a !in done
    ensures WithStatuses(before, StatusesReceived(loan, done + {a})) ==
            WithStatuses(before, StatusesReceived(loan, done))[a := before[a].(status := L.StatusWhenReceived(loan.items[a]))]
    ensures ItemsReceived(loan, done + {a}) == ItemsReceived(loan, done)[a := loan.items[a].(received := true)]
  {
  }

  /** A run takes one more allowed step. */
  lemma {:induction false} RunGoesOn(s: State, events: seq<Event>, e: Event)
    requires Possible(s, events) && Allowed(Reached(s, events), e)
    ensures Possible(s, events + [e]) && Reached(s, events + [e]) == After(Reached(s, events), e)
    decreases |events|
  {
    if events == [] {
      assert ([e])[1..] == [];
      assert events + [e] == [e];
    } else {
      RunGoesOn(After(s, events[0]), events[1..], e);
      assert (events + [e])[1..] == events[1..] + [e];
    }
  }

  predicate Distinct(returned: seq<Entry>) {
    forall i, j :: 0 <= i < j < |returned| ==> returned[i].asset != returned[j].asset
  }

  function Returns(returned: seq<Entry>, now: int): map<Id, L.Return> {
    if returned == [] then map[]
    else
      var last := returned[|returned| - 1];
      Returns(returned[..|returned| - 1], now)[last.asset := L.Return(last.condition, At(last, now))]
  }

  lemma {:induction false} ReturnKeys(returned: seq<Entry>, now: int, a: Id)
    ensures a in Returns(returned, now) <==> exists i :: 0 <= i < |returned| && returned[i].asset == a
  {
    if returned != [] {
      var last := |returned| - 1;
      ReturnKeys(returned[..last], now, a);
      assert forall i :: 0 <= i < last ==> returned[..last][i] == returned[i];
      if returned[last].asset != a && a in Returns(returned[..last], now) {
        var i :| 0 <= i < last && returned[..last][i].asset == a;
        assert returned[i].asset == a;
      }
    }
  }

  lemma OneMore(returned: seq<Entry>, i: nat, now: int)
    requires i < |returned| && Distinct(returned[..i])
    ensures Returns(returned[..i + 1], now) ==
            Returns(returned[..i], now)[returned[i].asset := L.Return(returned[i].condition, At(returned[i], now))]
    ensures Distinct(returned[..i + 1]) <==> returned[i].asset !in Returns(returned[..i], now)
  {
    assert returned[..i + 1][..i] == returned[..i];
    ReturnKeys(returned[..i], now, returned[i].asset);
    if returned[i].asset in Returns(returned[..i], now) {
      var j :| 0 <= j < i && returned[..i][j].asset == returned[i].asset;
      assert returned[..i + 1][j].asset == returned[..i + 1][i].asset;
    } else {
      assert forall j :: 0 <= j < i ==> returned[..i][j] == returned[..i + 1][j];
    }
  }

  /** In a list without repeats each entry is what the map says of its asset. */
  lemma {:induction false} EntryIsReturn(returned: seq<Entry>, now: int, i: nat)
    requires i < |returned| && Distinct(returned)
    ensures returned[i].asset in Returns(returned, now)
    ensures Returns(returned, now)[returned[i].asset] == L.Return(returned[i].condition, At(returned[i], now))
  {
    var last := |returned| - 1;
    if i < last {
      EntryIsReturn(returned[..last], now, i);
      assert returned[i].asset != returned[last].asset;
    }
  }

  /** A list with an entry that repeats or may not return is refused whole. */
  lemma RefusedForGood(loan: L.Loan, returned: seq<Entry>, i: nat, now: int)
    requires i < |returned| && Distinct(returned[..i])
    requires returned[i].asset in Returns(returned[..i], now)
             || !L.MayReturn(loan, returned[i].asset, At(returned[i], now), now)
    ensures !(Distinct(returned)
              && forall a :: a in Returns(returned, now) ==> L.MayReturn(loan, a, Returns(returned, now)[a].at, now))
  {
    if Distinct(returned) {
      EntryIsReturn(returned, now, i);
      ReturnKeys(returned[..i], now, returned[i].asset);
    }
  }
}
