/** The static facade `App\Libraries\Exchanger` as functions on the persisted
    state, with the properties it keeps and the two it loses. Unlike the
    instance-style library it checks and moves each sum itself, refuses a
    self-trade, and neither validates its arguments nor refuses an approved
    request. */
module ExchangerSpec {
  import opened Results
  import opened ExchangeModel
  import opened Accounts
  import opened Ledger

  /** `hasSum`: the balance less the amount must not be negative; otherwise
      `NotEnoughFundsException`. */
  function HasSum(b: Balances, c: Currency, a: real): (ok: bool)
    ensures ok <==> Accounts.HasSum(b, c, a)
  {
    !(b.Get(c) - a < 0.0)
  }

  /** `invertCurrency` on names: `stb` becomes `gnr`, any other string `stb`. */
  function InvertCurrencyName(currency: string): (r: string)
    ensures ParseCurrency(r).Some?
    ensures ParseCurrency(currency).Some? ==> r == CurrencyName(InvertCurrency(ParseCurrency(currency).value))
  {
    if currency == CURRENCY_STB then CURRENCY_GNR else CURRENCY_STB
  }

  /** `isOwnRequest`: the candidate counterparty is the proposer. */
  predicate IsOwnRequest(r: Request, u: UserId) {
    r.userFrom == u
  }

  /** `create`: checks the reservation, saves the request, and only then takes
      the reservation from the proposer. */
  function Create(s: State, user: UserId, operation: Operation, currency: Currency, amount: real, rate: real)
    : (r: Step<ReqId>)
    requires user in s.users
    ensures var leg := Reservation(operation, currency, amount, rate);
      && (r.result.Ok? <==> s.users[user].Get(leg.currency) >= leg.sum)
      && (r.result.Err? ==> r == Step(s, Err(NotEnoughFunds)))
      && (r.result.Ok? ==>
            && r.result.value == s.nextId
            && r.state == Debit(Insert(s, Request(user, None, currency, operation, amount, rate)),
                                user, leg.currency, leg.sum))
  {
    var (c, a) := match operation
      case Purchase => (InvertCurrency(currency), Price(amount, rate))
      case Sale => (currency, amount);
    if !HasSum(s.users[user], c, a) then Step(s, Err(NotEnoughFunds))
    else
      var saved := Insert(s, Request(user, None, currency, operation, amount, rate));
      Step(Debit(saved, user, c, a), Ok(s.nextId))
  }

  /** `purchaseRequest`: a purchase reserves `amount * rate` of the other currency. */
  function PurchaseRequest(s: State, user: UserId, currency: Currency, amount: real, rate: real): (r: Step<ReqId>)
    requires user in s.users
    ensures r.result.Ok? <==> s.users[user].Get(InvertCurrency(currency)) >= Price(amount, rate)
    ensures r.result.Err? ==> r == Step(s, Err(NotEnoughFunds))
    ensures r.result.Ok? ==>
      && r.result.value == s.nextId
      && r.state.nextId == s.nextId + 1
      && r.state.requests == s.requests[s.nextId := Request(user, None, currency, Purchase, amount, rate)]
      && r.state.users == Debit(s, user, InvertCurrency(currency), Price(amount, rate)).users
  {
    Create(s, user, Purchase, currency, amount, rate)
  }

  /** `saleRequest`: a sale reserves `amount` of the currency sold. */
  function SaleRequest(s: State, user: UserId, currency: Currency, amount: real, rate: real): (r: Step<ReqId>)
    requires user in s.users
    ensures r.result.Ok? <==> s.users[user].Get(currency) >= amount
    ensures r.result.Err? ==> r == Step(s, Err(NotEnoughFunds))
    ensures r.result.Ok? ==>
      && r.result.value == s.nextId
      && r.state.nextId == s.nextId + 1
      && r.state.requests == s.requests[s.nextId := Request(user, None, currency, Sale, amount, rate)]
      && r.state.users == Debit(s, user, currency, amount).users
  {
    Create(s, user, Sale, currency, amount, rate)
  }

  /** `deleteRequest`: refuses an approved request; otherwise credits the
      reservation back, unchecked, and deletes the record. */
  function DeleteRequest(s: State, id: ReqId): (r: Step<()>)
    requires id in s.requests && s.requests[id].userFrom in s.users
    ensures var req := s.requests[id];
      IsApproved(req) ==> r == Step(s, Err(CannotDeleteApproved))
    ensures var req := s.requests[id];
      !IsApproved(req) ==>
        r == Step(Remove(Credit(s, req.userFrom, Escrow(req).currency, Escrow(req).sum), id), Ok(()))
  {
    var req := s.requests[id];
    if IsApproved(req) then Step(s, Err(CannotDeleteApproved))
    else
      var (c, a) := match req.operation
        case Purchase => (InvertCurrency(req.currency), Price(req.amount, req.rate))
        case Sale => (req.currency, req.amount);
      Step(Remove(Credit(s, req.userFrom, c, a), id), Ok(()))
  }

  /** The transfers that close an approval, in the order of both branches of
      `approve`: the proposer is credited the counterparty's contribution, the
      counterparty is debited it and credited the reservation. */
  function Settle(s: State, req: Request, userTo: UserId): State
    requires req.userFrom in s.users && userTo in s.users
  {
    var k, e := Contribution(req), Escrow(req);
    var s1 := Credit(s, req.userFrom, k.currency, k.sum);
    var s2 := Debit(s1, userTo, k.currency, k.sum);
    Credit(s2, userTo, e.currency, e.sum)
  }

  /** Between two distinct users, the settlement moves exactly the two legs,
      and adds the reservation to the balances of its currency. */
  lemma SettlePays(s: State, req: Request, userTo: UserId)
    requires req.userFrom in s.users && userTo in s.users && req.userFrom != userTo
    ensures var r := Settle(s, req, userTo);
      && r.requests == s.requests && r.nextId == s.nextId
      && SettledBalances(s.users, r.users, req, userTo)
    ensures forall c ::
      Total(Settle(s, req, userTo), c) == Total(s, c) + (if c == Escrow(req).currency then Escrow(req).sum else 0.0)
  {
    var k, e := Contribution(req), Escrow(req);
    var s1 := Credit(s, req.userFrom, k.currency, k.sum);
    var s2 := Debit(s1, userTo, k.currency, k.sum);
    TotalCredit(s, req.userFrom, k.currency, k.sum);
    TotalDebit(s1, userTo, k.currency, k.sum);
    TotalCredit(s2, userTo, e.currency, e.sum);
  }

  /** `approve` as written: refuses a self-trade, records the counterparty and
      saves the request, and only then checks the counterparty's funds; it does
      not look at whether the request is already approved. */
  function Approve(s: State, id: ReqId, userTo: UserId): (r: Step<()>)
    requires id in s.requests && userTo in s.users && s.requests[id].userFrom in s.users
    ensures var req := s.requests[id];
      IsOwnRequest(req, userTo) ==> r == Step(s, Err(OwnRequest))
    ensures var req := s.requests[id];
      !IsOwnRequest(req, userTo) ==>
        (r.result.Ok? <==> s.users[userTo].Get(Contribution(req).currency) >= Contribution(req).sum)
    ensures var req := s.requests[id];
      !IsOwnRequest(req, userTo) && r.result.Err? ==>
        r == Step(SetUserTo(s, id, userTo), Err(NotEnoughFunds))
    ensures var req := s.requests[id];
      r.result.Ok? ==>
        && r.state.requests == s.requests[id := req.(userTo := Some(userTo))]
        && r.state.nextId == s.nextId
        && SettledBalances(s.users, r.state.users, req, userTo)
  {
    var req := s.requests[id];
    if IsOwnRequest(req, userTo) then Step(s, Err(OwnRequest))
    else
      var recorded := SetUserTo(s, id, userTo);
      var (c, a) := match req.operation
        case Purchase => (req.currency, req.amount)
        case Sale => (InvertCurrency(req.currency), Price(req.amount, req.rate));
      if !HasSum(recorded.users[userTo], c, a) then Step(recorded, Err(NotEnoughFunds))
      else
        SettlePays(recorded, req, userTo);
        Step(Settle(recorded, req, userTo), Ok(()))
  }

  /** `approve` as evidently intended: the self-trade and already-approved
      refusals and the funds check all come before anything is written. */
  function ApproveChecked(s: State, id: ReqId, userTo: UserId): (r: Step<()>)
    requires id in s.requests && userTo in s.users && s.requests[id].userFrom in s.users
    ensures var req := s.requests[id];
      r.result.Ok? <==>
        && !IsOwnRequest(req, userTo) && !IsApproved(req)
        && s.users[userTo].Get(Contribution(req).currency) >= Contribution(req).sum
    ensures var req := s.requests[id];
      IsOwnRequest(req, userTo) ==> r == Step(s, Err(OwnRequest))
    ensures var req := s.requests[id];
      !IsOwnRequest(req, userTo) && IsApproved(req) ==> r == Step(s, Err(AlreadyApproved))
    ensures var req := s.requests[id];
      && !IsOwnRequest(req, userTo) && !IsApproved(req)
      && s.users[userTo].Get(Contribution(req).currency) < Contribution(req).sum
      ==> r == Step(s, Err(NotEnoughFunds))
    ensures r.result.Err? ==> r.state == s
    ensures var req := s.requests[id];
      r.result.Ok? ==>
        && r.state.requests == s.requests[id := req.(userTo := Some(userTo))]
        && r.state.nextId == s.nextId
        && SettledBalances(s.users, r.state.users, req, userTo)
  {
    var req := s.requests[id];
    var k := Contribution(req);
    if IsOwnRequest(req, userTo) then Step(s, Err(OwnRequest))
    else if IsApproved(req) then Step(s, Err(AlreadyApproved))
    else if !HasSum(s.users[userTo], k.currency, k.sum) then Step(s, Err(NotEnoughFunds))
    else Approve(s, id, userTo)
  }

  // ---- conservation -------------------------------------------------------

  /** Opening a request moves the reservation from the proposer into escrow. */
  lemma CreateConserves(s: State, user: UserId, operation: Operation, currency: Currency,
                        amount: real, rate: real)
    requires WellFormed(s) && user in s.users
    ensures forall c :: Total(Create(s, user, operation, currency, amount, rate).state, c) == Total(s, c)
  {
    var r := Create(s, user, operation, currency, amount, rate);
    if r.result.Ok? {
      var req := Request(user, None, currency, operation, amount, rate);
      var s1 := Insert(s, req);
      TotalInsert(s, req);
      TotalDebit(s1, user, Escrow(req).currency, Escrow(req).sum);
    }
  }

  /** Deleting a pending request returns its escrow to the proposer. */
  lemma DeleteRequestConserves(s: State, id: ReqId)
    requires id in s.requests && s.requests[id].userFrom in s.users
    ensures forall c :: Total(DeleteRequest(s, id).state, c) == Total(s, c)
  {
    var req := s.requests[id];
    if !IsApproved(req) {
      var s1 := Credit(s, req.userFrom, Escrow(req).currency, Escrow(req).sum);
      TotalCredit(s, req.userFrom, Escrow(req).currency, Escrow(req).sum);
      TotalRemove(s1, id);
    }
  }

  /** A successful approval of a pending request releases its escrow to the
      counterparty and trades the two legs: nothing is created or lost. */
  lemma ApprovePendingConserves(s: State, id: ReqId, userTo: UserId)
    requires id in s.requests && userTo in s.users && s.requests[id].userFrom in s.users
    requires !IsApproved(s.requests[id]) && Approve(s, id, userTo).result.Ok?
    ensures forall c :: Total(Approve(s, id, userTo).state, c) == Total(s, c)
  {
    var req := s.requests[id];
    var recorded := SetUserTo(s, id, userTo);
    TotalSetUserTo(s, id, userTo);
    SettlePays(recorded, req, userTo);
  }

  /** The corrected approval conserves every currency on every path. */
  lemma ApproveCheckedConserves(s: State, id: ReqId, userTo: UserId)
    requires id in s.requests && userTo in s.users && s.requests[id].userFrom in s.users
    ensures forall c :: Total(ApproveChecked(s, id, userTo).state, c) == Total(s, c)
  {
    if ApproveChecked(s, id, userTo).result.Ok? {
      ApprovePendingConserves(s, id, userTo);
    }
  }

  // ---- the two defects of `approve` ---------------------------------------

  /** Approving an approved request again pays its reservation out a second time:
      the counterparty is credited an escrow that no longer exists. */
  lemma ReapprovalMintsPayout(s: State, id: ReqId, userTo: UserId)
    requires id in s.requests && userTo in s.users && s.requests[id].userFrom in s.users
    requires IsApproved(s.requests[id]) && Approve(s, id, userTo).result.Ok?
    ensures var e := Escrow(s.requests[id]);
      Total(Approve(s, id, userTo).state, e.currency) == Total(s, e.currency) + e.sum
  {
    var req := s.requests[id];
    var recorded := SetUserTo(s, id, userTo);
    TotalSetUserTo(s, id, userTo);
    SettlePays(recorded, req, userTo);
  }

  /** A refused approval of a pending request still records the counterparty:
      the request reads as approved, the reservation has left the escrow, and the
      proposer can no longer delete the request to get it back. It is paid out
      only if somebody approves the request again, through the missing
      already-approved check. */
  lemma FailedApproveStrandsReservation(s: State, id: ReqId, userTo: UserId)
    requires id in s.requests && userTo in s.users && s.requests[id].userFrom in s.users
    requires !IsApproved(s.requests[id]) && !IsOwnRequest(s.requests[id], userTo)
    requires Approve(s, id, userTo).result.Err?
    ensures var r := Approve(s, id, userTo);
      && r.result == Err(NotEnoughFunds)
      && IsApproved(r.state.requests[id])
      && r.state.users == s.users
      && DeleteRequest(r.state, id).result == Err(CannotDeleteApproved)
    ensures var e := Escrow(s.requests[id]);
      Total(Approve(s, id, userTo).state, e.currency) == Total(s, e.currency) - e.sum
  {
    TotalSetUserTo(s, id, userTo);
  }

  // ---- invariants -----------------------------------------------------------

  lemma CreatePreservesInvariant(s: State, user: UserId, operation: Operation, currency: Currency,
                                 amount: real, rate: real)
    requires Invariant(s) && user in s.users && amount >= 0.0 && rate >= 0.0
    ensures Invariant(Create(s, user, operation, currency, amount, rate).state)
  {
    var r := Create(s, user, operation, currency, amount, rate);
    if r.result.Ok? {
      var req := r.state.requests[s.nextId];
      assert HasSum(s.users[user], Escrow(req).currency, Escrow(req).sum);
      assert NonNegative(r.state.users[user]);
    }
  }

  lemma DeleteRequestPreservesInvariant(s: State, id: ReqId)
    requires Invariant(s) && id in s.requests
    ensures Invariant(DeleteRequest(s, id).state)
  {
    var req := s.requests[id];
    PriceNonNegative(req.amount, req.rate);
  }

  /** No path of `approve`, the faulty ones included, drives a balance below
      zero or leaves a dangling reference. */
  lemma ApprovePreservesInvariant(s: State, id: ReqId, userTo: UserId)
    requires Invariant(s) && id in s.requests && userTo in s.users
    ensures Invariant(Approve(s, id, userTo).state)
  {
    var req := s.requests[id];
    var r := Approve(s, id, userTo);
    if r.result.Ok? {
      PriceNonNegative(req.amount, req.rate);
      var k, e := Contribution(req), Escrow(req);
      assert k.sum >= 0.0 && e.sum >= 0.0;
      forall v | v in r.state.users
        ensures NonNegative(r.state.users[v])
      {
        assert NonNegative(s.users[v]);
        assert r.state.users[v].Get(STB) == s.users[v].Get(STB) + Gain(req, userTo, v, STB);
        assert r.state.users[v].Get(GNR) == s.users[v].Get(GNR) + Gain(req, userTo, v, GNR);
      }
    }
  }

  lemma ApproveCheckedPreservesInvariant(s: State, id: ReqId, userTo: UserId)
    requires Invariant(s) && id in s.requests && userTo in s.users
    ensures Invariant(ApproveChecked(s, id, userTo).state)
  {
    ApprovePreservesInvariant(s, id, userTo);
  }

  /** `create` then `deleteRequest` of the new request restores every balance
      and the request table; only the auto-increment counter has moved on. */
  lemma CreateThenDeleteRestores(s: State, user: UserId, operation: Operation, currency: Currency,
                                 amount: real, rate: real)
    requires WellFormed(s) && user in s.users
    ensures var created := Create(s, user, operation, currency, amount, rate);
      created.result.Ok? ==>
        DeleteRequest(created.state, created.result.value) == Step(State(s.users, s.requests, s.nextId + 1), Ok(()))
  {
    var created := Create(s, user, operation, currency, amount, rate);
    if created.result.Ok? {
      var id := created.result.value;
      var req := created.state.requests[id];
      SubtractUndoesAdd(s.users[user], Escrow(req).currency, Escrow(req).sum);
      assert s.users[user := s.users[user]] == s.users;
      assert s.requests[id := req] - {id} == s.requests;
    }
  }
}
