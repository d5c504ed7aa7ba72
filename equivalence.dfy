/** How the two implementations of the ledger relate: on the inputs both
    accept they compute the same state, and the corrected approval of the
    static facade is the library's approval with a self-trade check. */
module Equivalence {
  import opened Results
  import opened ExchangeModel
  import opened Accounts
  import opened Ledger
  import Library = RequestLibrarySpec
  import Exchanger = ExchangerSpec

  /** Given the names of a valid operation and currency and a positive rate, the
      library's validated `create` and the facade's unvalidated one agree. */
  lemma CreateAgree(s: State, user: UserId, operation: Operation, currency: Currency, amount: real, rate: real)
    requires user in s.users && rate > 0.0
    ensures Library.Create(s, user, OperationName(operation), CurrencyName(currency), amount, rate)
         == Exchanger.Create(s, user, operation, currency, amount, rate)
  {
    ParseNames(currency, operation);
  }

  /** Approving a pending request of somebody else: both implementations accept
      exactly when the counterparty can pay, and then reach the same state; when
      they refuse, the balances agree although the facade has recorded the
      counterparty. */
  lemma ApproveAgree(s: State, id: ReqId, userTo: UserId)
    requires id in s.requests && userTo in s.users && s.requests[id].userFrom in s.users
    requires !IsApproved(s.requests[id]) && s.requests[id].userFrom != userTo
    ensures var lib, exc := Library.Approve(s, id, userTo), Exchanger.Approve(s, id, userTo);
      && (lib.result.Ok? <==> exc.result.Ok?)
      && (lib.result.Ok? ==> lib == exc)
      && (lib.result.Err? ==> lib.result == exc.result && lib.state.users == exc.state.users)
  {
    var req := s.requests[id];
    var lib, exc := Library.Approve(s, id, userTo), Exchanger.Approve(s, id, userTo);
    if lib.result.Ok? {
      SettledBalancesUnique(s.users, lib.state.users, exc.state.users, req, userTo);
    }
  }

  /** The corrected approval is the library's approval plus the self-trade
      refusal: for any other counterparty the two coincide on every input. */
  lemma CheckedApproveMatchesLibrary(s: State, id: ReqId, userTo: UserId)
    requires id in s.requests && userTo in s.users && s.requests[id].userFrom in s.users
    requires s.requests[id].userFrom != userTo
    ensures Exchanger.ApproveChecked(s, id, userTo) == Library.Approve(s, id, userTo)
  {
    var req := s.requests[id];
    if !IsApproved(req) {
      ApproveAgree(s, id, userTo);
    }
  }

  /** On a solvent, well-formed ledger, the library's checked refund and the
      facade's unchecked one are the same operation. */
  lemma DeleteAgree(s: State, id: ReqId)
    requires Invariant(s) && id in s.requests
    ensures Library.Delete(s, id) == Exchanger.DeleteRequest(s, id)
  {
    if !IsApproved(s.requests[id]) {
      Library.DeleteNeverLacksFunds(s, id);
    }
  }

  /** The two `invertCurrency` helpers agree on the two currency names and
      disagree on every other string. */
  lemma InvertCurrencyNamesAgree(currency: string)
    ensures Library.InvertCurrencyName(currency) == Exchanger.InvertCurrencyName(currency)
        <==> ParseCurrency(currency).Some?
  {
  }
}
