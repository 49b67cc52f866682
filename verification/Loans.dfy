/** A loan and its items: src/modules/loans (statuses, transitions, the steps on one loan). */
module Loans {
  import opened Options
  import opened Hierarchy

  datatype AssetStatus = InUse | InStorage | OnLoan | InMaintenance | Lost | WrittenOff

  /** The columns of an asset that lending reads and writes. */
  datatype Asset = Asset(status: AssetStatus, center: Id)

  predicate Loanable(status: AssetStatus) {
    status.InUse? || status.InStorage?
  }

  datatype LoanStatus =
    | Requested | Approved | Rejected | InTransit | PendingSignatures | Active | Overdue
    | PendingReception | Returned | PartiallyReturned | ClosedWithLosses | Cancelled

  predicate MayMove(from: LoanStatus, to: LoanStatus) {
    match from
    case Requested => to in {Approved, Rejected, Cancelled}
    case Approved => to in {PendingSignatures, InTransit, Rejected, Cancelled}
    case InTransit => to == Active
    case PendingSignatures => to in {Active, Cancelled}
    case Active => to in {PendingReception, Overdue}
    case Overdue => to in {PendingReception, Active}
    case PendingReception => to in {Returned, PartiallyReturned, ClosedWithLosses}
    case PartiallyReturned => to == PendingReception
    case Rejected | Returned | ClosedWithLosses | Cancelled => false
  }

  /** OPEN_LOAN_STATUSES. */
  predicate IsOpen(status: LoanStatus) {
    status !in {Rejected, Returned, ClosedWithLosses, Cancelled}
  }

  /** LOAN_OUT_STATUSES: delivered and neither undone nor closed. */
  predicate IsOut(status: LoanStatus) {
    status in {PendingSignatures, Active, Overdue, PendingReception, PartiallyReturned}
  }

  datatype Condition = Good | Damaged | LostByBorrower

  /** `returnedAt` is the date the return is recorded under, set with the condition. */
  datatype Item = Item(statusOnLoan: Option<AssetStatus>, condition: Option<Condition>, returnedAt: Option<int>,
                       received: bool)

  datatype Return = Return(condition: Condition, at: int)

  /** Items are keyed by asset: (loan_id, asset_id) is unique. */
  datatype Loan = Loan(status: LoanStatus, source: Id, target: Id, requestedBy: Id, approvedBy: Option<Id>,
                       request: Option<Id>, start: Option<int>, due: int, extension: Option<int>,
                       deliveredAt: Option<int>, items: map<Id, Item>)

  function StatusAfterReception(items: map<Id, Item>): LoanStatus {
    if exists a :: a in items && !items[a].received then PartiallyReturned
    else if exists a :: a in items && items[a].condition == Some(LostByBorrower) then ClosedWithLosses
    else Returned
  }

  /** The items a reception takes in: a return was recorded and they are still out. */
  function ToReceive(items: map<Id, Item>): set<Id> {
    set a | a in items && items[a].condition.Some? && !items[a].received
  }

  function ReceivedItems(items: map<Id, Item>): map<Id, Item> {
    map a | a in items :: if a in ToReceive(items) then items[a].(received := true) else items[a]
  }

  function Recorded(items: map<Id, Item>, recorded: map<Id, Return>): map<Id, Item> {
    map a | a in items ::
      if a in recorded then items[a].(condition := Some(recorded[a].condition), returnedAt := Some(recorded[a].at)) else items[a]
  }

  /** The status an asset takes when its item is received. */
  function StatusWhenReceived(item: Item): AssetStatus {
    if item.condition == Some(LostByBorrower) then Lost
    else if item.statusOnLoan.Some? then item.statusOnLoan.value
    else InUse
  }

  /** What the items of a loan look like in each status. */
  ghost predicate Shaped(loan: Loan) {
    && loan.items != map[]
    && !loan.status.InTransit?
    && loan.approvedBy != Some(loan.requestedBy)
    && (!loan.status.Requested? && !loan.status.Rejected? ==> loan.approvedBy.Some?)
    && (forall a :: a in loan.items ==> ItemFits(loan.status, loan.items[a]) && ReturnIsDated(loan, loan.items[a]))
    && (IsOut(loan.status) ==> loan.deliveredAt.Some?)
    && (loan.extension.Some? ==> loan.due < loan.extension.value)
    && (loan.status.PendingReception? ==> ToReceive(loan.items) != {})
    && (loan.status in {Returned, PartiallyReturned, ClosedWithLosses} ==>
          loan.status == StatusAfterReception(loan.items))
    && (loan.status.PartiallyReturned? ==> exists a :: a in loan.items && loan.items[a].received)
  }

  /** A recorded return is dated no earlier than the delivery. */
  predicate ReturnIsDated(loan: Loan, item: Item) {
    item.condition.Some? ==>
      item.returnedAt.Some? && loan.deliveredAt.Some? && loan.deliveredAt.value <= item.returnedAt.value
  }

  ghost predicate ItemFits(status: LoanStatus, item: Item) {
    && item.statusOnLoan.Some? && Loanable(item.statusOnLoan.value)
    && (item.received ==> item.condition.Some?)
    && (!status.PendingReception? ==> (item.condition.Some? ==> item.received))
    && (status in {Requested, Approved, Rejected, PendingSignatures, Active, Overdue, Cancelled} ==>
          !item.received)
  }

  /** A reception closes a loan exactly when every item is in, with losses exactly when some item was lost. */
  lemma ReceptionTellsTheItems(loan: Loan)
    requires Shaped(loan) && loan.status in {Returned, PartiallyReturned, ClosedWithLosses}
    ensures loan.status.PartiallyReturned? <==> exists a :: a in loan.items && !loan.items[a].received
    ensures loan.status.Returned? <==>
            forall a :: a in loan.items ==> loan.items[a].received && loan.items[a].condition in {Some(Good), Some(Damaged)}
    ensures loan.status.ClosedWithLosses? <==>
            && (forall a :: a in loan.items ==> loan.items[a].received)
            && exists a :: a in loan.items && loan.items[a].condition == Some(LostByBorrower)
  {
    forall a | a in loan.items
      ensures ItemFits(loan.status, loan.items[a])
      ensures loan.items[a].received ==> loan.items[a].condition in {Some(Good), Some(Damaged), Some(LostByBorrower)}
    {
      if loan.items[a].received {
        match loan.items[a].condition.value
        case Good =>
        case Damaged =>
        case LostByBorrower =>
      }
    }
  }

  // ---- The steps on one loan ----

  function ApprovedBy(loan: Loan, actor: Id): Loan {
    loan.(status := Approved, approvedBy := Some(actor))
  }

  function WithStatus(loan: Loan, status: LoanStatus): Loan {
    loan.(status := status)
  }

  // Extensions: a later date is asked for, and approved or turned down.

  predicate CanAskExtension(loan: Loan, due: int, today: int) {
    loan.status in {Active, Overdue} && loan.due < due && today <= due
  }

  predicate CanExtend(loan: Loan) {
    loan.status in {Active, Overdue} && loan.extension.Some?
  }

  /** The date asked for becomes the due date; a loan no longer overdue is active again. */
  function Extended(loan: Loan, today: int): Loan
    requires CanExtend(loan)
  {
    var due := loan.extension.value;
    loan.(due := due, extension := None, status := if loan.status.Overdue? && due >= today then Active else loan.status)
  }

  /** A returned asset is still out, and its date lies between the delivery and now. */
  predicate MayReturn(loan: Loan, a: Id, at: int, now: int) {
    && a in loan.items && !loan.items[a].received
    && at <= now && (loan.deliveredAt.Some? ==> loan.deliveredAt.value <= at)
  }

  predicate CanStartReturn(loan: Loan, recorded: map<Id, Return>, now: int) {
    && MayMove(loan.status, PendingReception)
    && recorded != map[]
    && forall a :: a in recorded ==> MayReturn(loan, a, recorded[a].at, now)
  }

  function ReturnStarted(loan: Loan, recorded: map<Id, Return>): Loan {
    loan.(status := PendingReception, items := Recorded(loan.items, recorded))
  }

  function ReturnReceived(loan: Loan): Loan {
    var items := ReceivedItems(loan.items);
    loan.(status := StatusAfterReception(items), items := items)
  }

  /** Delivery records the status each asset leaves with. */
  function Handed(loan: Loan, assets: map<Id, Asset>, now: int): Loan
    requires loan.items.Keys <= assets.Keys
  {
    loan.(status := PendingSignatures, deliveredAt := Some(now),
          items := map a | a in loan.items :: loan.items[a].(statusOnLoan := Some(assets[a].status)))
  }

  lemma StartedReturnIsShaped(loan: Loan, recorded: map<Id, Return>, now: int)
    requires Shaped(loan) && CanStartReturn(loan, recorded, now)
    ensures Shaped(ReturnStarted(loan, recorded))
  {
    var after := ReturnStarted(loan, recorded);
    var a := Element(recorded.Keys);
    assert MayReturn(loan, a, recorded[a].at, now);
    assert a in ToReceive(after.items);
    assert a in after.items;
    forall b | b in after.items
      ensures ItemFits(PendingReception, after.items[b]) && ReturnIsDated(after, after.items[b])
    {
      assert ItemFits(loan.status, loan.items[b]) && ReturnIsDated(loan, loan.items[b]);
      assert b in recorded ==> MayReturn(loan, b, recorded[b].at, now);
    }
  }

  lemma ReceivedReturnIsShaped(loan: Loan)
    requires Shaped(loan) && loan.status.PendingReception?
    ensures Shaped(ReturnReceived(loan)) && MayMove(loan.status, ReturnReceived(loan).status)
  {
    var after := ReturnReceived(loan);
    var a := Element(ToReceive(loan.items));
    assert a in after.items && after.items[a].received;
    forall b | b in after.items
      ensures ItemFits(after.status, after.items[b]) && ReturnIsDated(after, after.items[b])
    {
      assert ItemFits(loan.status, loan.items[b]) && ReturnIsDated(loan, loan.items[b]);
    }
  }

  lemma HandedIsShaped(loan: Loan, assets: map<Id, Asset>, now: int)
    requires Shaped(loan) && loan.status.Approved? && loan.items.Keys <= assets.Keys
    requires forall a :: a in loan.items ==> Loanable(assets[a].status)
    ensures Shaped(Handed(loan, assets, now))
  {
    var after := Handed(loan, assets, now);
    var a := Element(loan.items.Keys);
    assert a in after.items;
    forall b | b in after.items
      ensures ItemFits(PendingSignatures, after.items[b]) && ReturnIsDated(after, after.items[b])
    {
      assert ItemFits(loan.status, loan.items[b]);
    }
  }

  /** A loan that only changes status among those with nothing received keeps its shape. */
  lemma MovedIsShaped(loan: Loan, status: LoanStatus)
    requires Shaped(loan)
    requires loan.status in {Requested, Approved, PendingSignatures, Active, Overdue}
    requires status in {Rejected, PendingSignatures, Active, Overdue, Cancelled}
    requires loan.status.Requested? ==> status.Rejected?
    requires loan.status.Approved? ==> status.Rejected? || status.Cancelled?
    ensures Shaped(WithStatus(loan, status))
  {
    forall b | b in loan.items
      ensures ItemFits(status, loan.items[b]) && ReturnIsDated(WithStatus(loan, status), loan.items[b])
    {
      assert ItemFits(loan.status, loan.items[b]) && ReturnIsDated(loan, loan.items[b]);
    }
  }

  /** Asking for an extension or turning one down leaves the items alone. */
  lemma ExtensionIsShaped(loan: Loan, extension: Option<int>)
    requires Shaped(loan) && (extension.Some? ==> loan.due < extension.value)
    ensures Shaped(loan.(extension := extension))
  {
    var after := loan.(extension := extension);
    assert StatusAfterReception(after.items) == StatusAfterReception(loan.items);
    forall b | b in after.items
      ensures ItemFits(after.status, after.items[b]) && ReturnIsDated(after, after.items[b])
    {
      assert ItemFits(loan.status, loan.items[b]) && ReturnIsDated(loan, loan.items[b]);
    }
  }

  lemma ExtendedIsShaped(loan: Loan, today: int)
    requires Shaped(loan) && CanExtend(loan)
    ensures Shaped(Extended(loan, today))
  {
    var after := Extended(loan, today);
    forall b | b in after.items
      ensures ItemFits(after.status, after.items[b]) && ReturnIsDated(after, after.items[b])
    {
      assert ItemFits(loan.status, loan.items[b]) && ReturnIsDated(loan, loan.items[b]);
    }
  }

  lemma ApprovedIsShaped(loan: Loan, actor: Id)
    requires Shaped(loan) && loan.status.Requested? && actor != loan.requestedBy
    ensures Shaped(ApprovedBy(loan, actor))
  {
    forall b | b in loan.items
      ensures ItemFits(Approved, loan.items[b]) && ReturnIsDated(ApprovedBy(loan, actor), loan.items[b])
    {
      assert ItemFits(loan.status, loan.items[b]);
    }
  }
}
