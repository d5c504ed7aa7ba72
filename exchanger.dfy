/** `App\Libraries\Exchanger` as the source runs it: step by step on the store,
    each method proved to leave the store as its specification says. */
module Exchanger {
  import opened Results
  import opened ExchangeModel
  import opened Accounts
  import opened Ledger
  import Spec = ExchangerSpec

  /** `Exchanger::create`. */
  method Create(l: Store, user: UserId, operation: Operation, currency: Currency, amount: real, rate: real)
    returns (res: Result<ReqId>)
    requires l.Valid() && user in l.users
    modifies l
    ensures amount >= 0.0 && rate >= 0.0 ==> l.Valid()
    ensures Step(l.Snapshot(), res) == Spec.Create(old(l.Snapshot()), user, operation, currency, amount, rate)
    ensures forall c :: Total(l.Snapshot(), c) == Total(old(l.Snapshot()), c)
  {
    ghost var s0 := l.Snapshot();
    if amount >= 0.0 && rate >= 0.0 {
      Spec.CreatePreservesInvariant(s0, user, operation, currency, amount, rate);
    }
    Spec.CreateConserves(s0, user, operation, currency, amount, rate);
    if operation == Purchase {
      if !Spec.HasSum(l.users[user], InvertCurrency(currency), Price(amount, rate)) {
        return Err(NotEnoughFunds);
      }
    } else {
      if !Spec.HasSum(l.users[user], currency, amount) {
        return Err(NotEnoughFunds);
      }
    }
    var id := l.Save(Request(user, None, currency, operation, amount, rate));
    if operation == Purchase {
      l.SubtractSum(user, InvertCurrency(currency), Price(amount, rate));
    } else {
      l.SubtractSum(user, currency, amount);
    }
    res := Ok(id);
  }

  /** `Exchanger::purchaseRequest`. */
  method PurchaseRequest(l: Store, user: UserId, currency: Currency, amount: real, rate: real)
    returns (res: Result<ReqId>)
    requires l.Valid() && user in l.users
    modifies l
    ensures amount >= 0.0 && rate >= 0.0 ==> l.Valid()
    ensures Step(l.Snapshot(), res) == Spec.PurchaseRequest(old(l.Snapshot()), user, currency, amount, rate)
  {
    res := Create(l, user, Purchase, currency, amount, rate);
  }

  /** `Exchanger::saleRequest`. */
  method SaleRequest(l: Store, user: UserId, currency: Currency, amount: real, rate: real)
    returns (res: Result<ReqId>)
    requires l.Valid() && user in l.users
    modifies l
    ensures amount >= 0.0 && rate >= 0.0 ==> l.Valid()
    ensures Step(l.Snapshot(), res) == Spec.SaleRequest(old(l.Snapshot()), user, currency, amount, rate)
  {
    res := Create(l, user, Sale, currency, amount, rate);
  }

  /** `Exchanger::deleteRequest`. */
  method DeleteRequest(l: Store, id: ReqId) returns (res: Result<()>)
    requires l.Valid() && id in l.requests
    modifies l
    ensures l.Valid()
    ensures Step(l.Snapshot(), res) == Spec.DeleteRequest(old(l.Snapshot()), id)
    ensures forall c :: Total(l.Snapshot(), c) == Total(old(l.Snapshot()), c)
  {
    ghost var s0 := l.Snapshot();
    Spec.DeleteRequestPreservesInvariant(s0, id);
    Spec.DeleteRequestConserves(s0, id);
    var request := l.requests[id];
    if IsApproved(request) {
      return Err(CannotDeleteApproved);
    }
    if request.operation == Purchase {
      l.AddSum(request.userFrom, InvertCurrency(request.currency), Price(request.amount, request.rate));
    } else {
      l.AddSum(request.userFrom, request.currency, request.amount);
    }
    l.Delete(id);
    res := Ok(());
  }

  /** `Exchanger::approve`, with the counterparty saved before the funds check
      and no check that the request is still pending. */
  method Approve(l: Store, id: ReqId, userTo: UserId) returns (res: Result<()>)
    requires l.Valid() && id in l.requests && userTo in l.users
    modifies l
    ensures l.Valid()
    ensures Step(l.Snapshot(), res) == Spec.Approve(old(l.Snapshot()), id, userTo)
    ensures !IsApproved(old(l.requests[id])) && res.Ok? ==>
      forall c :: Total(l.Snapshot(), c) == Total(old(l.Snapshot()), c)
  {
    ghost var s0 := l.Snapshot();
    Spec.ApprovePreservesInvariant(s0, id, userTo);
    var request := l.requests[id];
    if Spec.IsOwnRequest(request, userTo) {
      return Err(OwnRequest);
    }
    l.SaveUserTo(id, userTo);
    var userFrom, currency, amount, rate := request.userFrom, request.currency, request.amount, request.rate;
    if request.operation == Purchase {
      if !Spec.HasSum(l.users[userTo], currency, amount) {
        return Err(NotEnoughFunds);
      }
      l.AddSum(userFrom, currency, amount);
      l.SubtractSum(userTo, currency, amount);
      l.AddSum(userTo, InvertCurrency(currency), Price(amount, rate));
    } else {
      if !Spec.HasSum(l.users[userTo], InvertCurrency(currency), Price(amount, rate)) {
        return Err(NotEnoughFunds);
      }
      l.AddSum(userFrom, InvertCurrency(currency), Price(amount, rate));
      l.SubtractSum(userTo, InvertCurrency(currency), Price(amount, rate));
      l.AddSum(userTo, currency, amount);
    }
    res := Ok(());
    if !IsApproved(request) {
      Spec.ApprovePendingConserves(s0, id, userTo);
    }
  }

  /** The corrected approval: every refusal comes before the first write. */
  method ApproveChecked(l: Store, id: ReqId, userTo: UserId) returns (res: Result<()>)
    requires l.Valid() && id in l.requests && userTo in l.users
    modifies l
    ensures l.Valid()
    ensures Step(l.Snapshot(), res) == Spec.ApproveChecked(old(l.Snapshot()), id, userTo)
    ensures forall c :: Total(l.Snapshot(), c) == Total(old(l.Snapshot()), c)
  {
    ghost var s0 := l.Snapshot();
    Spec.ApproveCheckedConserves(s0, id, userTo);
    var request := l.requests[id];
    var contribution := Contribution(request);
    if Spec.IsOwnRequest(request, userTo) {
      return Err(OwnRequest);
    }
    if IsApproved(request) {
      return Err(AlreadyApproved);
    }
    if !Spec.HasSum(l.users[userTo], contribution.currency, contribution.sum) {
      return Err(NotEnoughFunds);
    }
    res := Approve(l, id, userTo);
  }
}
