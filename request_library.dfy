/** `App\Libraries\ExchangeRequest` as the source runs it: step by step on the
    store, each method proved to leave the store as its specification says. */
module RequestLibrary {
  import opened Results
  import opened ExchangeModel
  import opened Accounts
  import opened Ledger
  import Spec = RequestLibrarySpec

  /** Checks the funds, then `$user->$currency -= $amount`. */
  method ReserveSum(l: Store, u: UserId, op: Operation, currency: Currency, amount: real, rate: real)
    returns (res: Result<()>)
    requires u in l.users
    modifies l
    ensures Step(l.Snapshot(), res) == Spec.ReserveSum(old(l.Snapshot()), u, op, currency, amount, rate)
  {
    var c, a := currency, amount;
    if op == Purchase {
      a := Price(amount, rate);
      c := InvertCurrency(currency);
    }
    if !HasSum(l.users[u], c, a) {
      return Err(NotEnoughFunds);
    }
    l.SubtractSum(u, c, a);
    res := Ok(());
  }

  /** `ExchangeRequest::create`. */
  method Create(l: Store, userFrom: UserId, operation: string, currency: string, amount: real, rate: real)
    returns (res: Result<ReqId>)
    requires l.Valid() && userFrom in l.users
    modifies l
    ensures amount >= 0.0 ==> l.Valid()
    ensures Step(l.Snapshot(), res) == Spec.Create(old(l.Snapshot()), userFrom, operation, currency, amount, rate)
    ensures forall c :: Total(l.Snapshot(), c) == Total(old(l.Snapshot()), c)
  {
    ghost var s0 := l.Snapshot();
    if amount >= 0.0 {
      Spec.CreatePreservesInvariant(s0, userFrom, operation, currency, amount, rate);
    }
    Spec.CreateConserves(s0, userFrom, operation, currency, amount, rate);
    var op := ParseOperation(operation);
    if op.None? {
      return Err(InvalidOperation);
    }
    var c := ParseCurrency(currency);
    if c.None? {
      return Err(InvalidCurrency);
    }
    if rate <= 0.0 {
      return Err(InvalidRate);
    }
    var request := Request(userFrom, None, c.value, op.value, amount, rate);
    var reserved := ReserveSum(l, userFrom, op.value, c.value, amount, rate);
    if reserved.Err? {
      return Err(reserved.error);
    }
    var id := l.Save(request);
    res := Ok(id);
  }

  /** `ExchangeRequest::approve`. */
  method Approve(l: Store, id: ReqId, userTo: UserId) returns (res: Result<()>)
    requires l.Valid() && id in l.requests && userTo in l.users
    modifies l
    ensures l.Valid()
    ensures Step(l.Snapshot(), res) == Spec.Approve(old(l.Snapshot()), id, userTo)
    ensures old(l.requests[id]).userFrom != userTo ==>
      forall c :: Total(l.Snapshot(), c) == Total(old(l.Snapshot()), c)
  {
    ghost var s0 := l.Snapshot();
    Spec.ApprovePreservesInvariant(s0, id, userTo);
    var request := l.requests[id];
    if request.userFrom != userTo {
      Spec.ApproveConserves(s0, id, userTo);
    }
    // `isApproved` loads the proposer's row; `approve` later credits this copy.
    var proposer := l.users[request.userFrom];
    if IsApproved(request) {
      return Err(AlreadyApproved);
    }
    res := ReserveSum(l, userTo, InvertOperation(request.operation), request.currency, request.amount, request.rate);
    if res.Err? {
      return;
    }
    l.SaveUserTo(id, userTo);
    CreditParties(l, request, userTo, proposer);
  }

  /** The credits at the end of `approve`: the counterparty's on the stored
      row, the proposer's on the copy read when the approval started. */
  method CreditParties(l: Store, request: Request, userTo: UserId, proposer: Balances)
    requires userTo in l.users && request.userFrom in l.users
    modifies l
    ensures l.Snapshot() == Spec.CreditParties(old(l.Snapshot()), request, userTo, proposer)
  {
    var userFrom := request.userFrom;
    var copy := proposer;
    match request.operation
    case Purchase =>
      l.AddSum(userTo, InvertCurrency(request.currency), Price(request.amount, request.rate));
      copy := Accounts.AddSum(copy, request.currency, request.amount);
      l.SaveCopy(userFrom, request.currency, copy);
    case Sale =>
      copy := Accounts.AddSum(copy, InvertCurrency(request.currency), Price(request.amount, request.rate));
      l.SaveCopy(userFrom, InvertCurrency(request.currency), copy);
      l.AddSum(userTo, request.currency, request.amount);
  }

  /** `ExchangeRequest::delete`. */
  method Delete(l: Store, id: ReqId) returns (res: Result<()>)
    requires l.Valid() && id in l.requests
    modifies l
    ensures l.Valid()
    ensures Step(l.Snapshot(), res) == Spec.Delete(old(l.Snapshot()), id)
    ensures forall c :: Total(l.Snapshot(), c) == Total(old(l.Snapshot()), c)
  {
    ghost var s0 := l.Snapshot();
    Spec.DeletePreservesInvariant(s0, id);
    Spec.DeleteConserves(s0, id);
    var request := l.requests[id];
    if IsApproved(request) {
      return Err(CannotDeleteApproved);
    }
    res := ReserveSum(l, request.userFrom, request.operation, request.currency, -request.amount, request.rate);
    if res.Err? {
      return;
    }
    l.Delete(id);
  }
}
