/** The exchange request entity: its enumerated fields, the request record,
    whether it is approved, and the pending / approved selections. */
module ExchangeModel {
  import opened Results

  type UserId = nat
  type ReqId = nat

  /** The two internal currencies. */
  datatype Currency = STB | GNR

  /** The two kinds of request: a purchase buys `amount` of `currency`,
      a sale sells it. */
  datatype Operation = Purchase | Sale

  const CURRENCY_STB: string := "stb"
  const CURRENCY_GNR: string := "gnr"
  const OPERATION_PURCHASE: string := "purchase"
  const OPERATION_SALE: string := "sale"

  function CurrencyName(c: Currency): string {
    match c
    case STB => CURRENCY_STB
    case GNR => CURRENCY_GNR
  }

  function OperationName(o: Operation): string {
    match o
    case Purchase => OPERATION_PURCHASE
    case Sale => OPERATION_SALE
  }

  /** Recognises exactly the two currency names. */
  function ParseCurrency(s: string): (r: Option<Currency>)
    ensures r.Some? <==> (s == CURRENCY_STB || s == CURRENCY_GNR)
    ensures r.Some? ==> CurrencyName(r.value) == s
  {
    if s == CURRENCY_STB then Some(STB)
    else if s == CURRENCY_GNR then Some(GNR)
    else None
  }

  /** Recognises exactly the two operation names. */
  function ParseOperation(s: string): (r: Option<Operation>)
    ensures r.Some? <==> (s == OPERATION_PURCHASE || s == OPERATION_SALE)
    ensures r.Some? ==> OperationName(r.value) == s
  {
    if s == OPERATION_PURCHASE then Some(Purchase)
    else if s == OPERATION_SALE then Some(Sale)
    else None
  }

  /** Names and parsing are inverse to each other. */
  lemma ParseNames(c: Currency, o: Operation)
    ensures ParseCurrency(CurrencyName(c)) == Some(c)
    ensures ParseOperation(OperationName(o)) == Some(o)
  {
  }

  /** The other currency. */
  function InvertCurrency(c: Currency): (r: Currency)
    ensures r != c
  {
    match c
    case STB => GNR
    case GNR => STB
  }

  /** The other operation. */
  function InvertOperation(o: Operation): (r: Operation)
    ensures r != o
  {
    match o
    case Purchase => Sale
    case Sale => Purchase
  }

  /** Both inversions are involutions (and, by their ensures, have no fixed point). */
  lemma InvertInvolutive(c: Currency, o: Operation)
    ensures InvertCurrency(InvertCurrency(c)) == c
    ensures InvertOperation(InvertOperation(o)) == o
  {
  }

  /** A persisted exchange request. `userTo` is the nullable `user_to` column;
      `userFrom` is the NOT NULL `user_from` column. */
  datatype Request = Request(
    userFrom: UserId,
    userTo: Option<UserId>,
    currency: Currency,
    operation: Operation,
    amount: real,
    rate: real)

  /** Approved means a counterparty has been recorded (the proposer is always set). */
  predicate IsApproved(r: Request) {
    r.userTo.Some?
  }

  /** A quantity of one currency. */
  datatype Leg = Leg(currency: Currency, sum: real)

  /** The quantity of the other currency that `amount` trades for at `rate`,
      the product `amount * rate` the source computes wherever it needs it. */
  function Price(amount: real, rate: real): real {
    amount * rate
  }

  /** A non-negative amount at a non-negative rate has a non-negative price. */
  lemma PriceNonNegative(amount: real, rate: real)
    requires amount >= 0.0 && rate >= 0.0
    ensures Price(amount, rate) >= 0.0
  {
  }

  /** What a proposer of `op` gives up when the request is opened: for a purchase,
      `amount * rate` of the other currency; for a sale, `amount` of `currency` itself. */
  function Reservation(op: Operation, currency: Currency, amount: real, rate: real): (l: Leg)
    ensures l.currency == currency <==> op == Sale
    ensures amount >= 0.0 && rate >= 0.0 ==> l.sum >= 0.0
  {
    match op
    case Purchase => Leg(InvertCurrency(currency), Price(amount, rate))
    case Sale => Leg(currency, amount)
  }

  /** Reserving a negated amount yields the negated sum in the same currency. */
  lemma ReservationNegated(op: Operation, currency: Currency, amount: real, rate: real)
    ensures Reservation(op, currency, -amount, rate)
         == Leg(Reservation(op, currency, amount, rate).currency, -Reservation(op, currency, amount, rate).sum)
  {
  }

  /** What the proposer of `r` has reserved: the currency sold, or for a
      purchase the currency paid with. */
  function Escrow(r: Request): (e: Leg)
    ensures e.currency == r.currency <==> r.operation == Sale
    ensures r.amount >= 0.0 && r.rate >= 0.0 ==> e.sum >= 0.0
  {
    Reservation(r.operation, r.currency, r.amount, r.rate)
  }

  /** What a counterparty has to give up to approve `r`: the reservation of the
      inverted operation. */
  function Contribution(r: Request): (k: Leg)
    ensures k.currency == InvertCurrency(Escrow(r).currency)
    ensures k.currency == r.currency <==> r.operation == Purchase
    ensures r.amount >= 0.0 && r.rate >= 0.0 ==> k.sum >= 0.0
  {
    Reservation(InvertOperation(r.operation), r.currency, r.amount, r.rate)
  }

  /** Purchase and sale are mirrors: the two legs of a request are in different
      currencies, one is `amount` of the request's currency and the other
      `amount * rate` of the other currency. */
  lemma LegsMirror(r: Request)
    ensures Contribution(r).currency == InvertCurrency(Escrow(r).currency)
    ensures {Escrow(r), Contribution(r)} ==
            {Leg(r.currency, r.amount), Leg(InvertCurrency(r.currency), Price(r.amount, r.rate))}
  {
    match r.operation
    case Purchase =>
      assert Escrow(r) == Leg(InvertCurrency(r.currency), Price(r.amount, r.rate));
      assert Contribution(r) == Leg(r.currency, r.amount);
    case Sale =>
      assert Escrow(r) == Leg(r.currency, r.amount);
      assert Contribution(r) == Leg(InvertCurrency(r.currency), Price(r.amount, r.rate));
  }

  /** The requests still waiting for a counterparty (`user_to` is null). */
  function Pending(m: map<ReqId, Request>): (p: map<ReqId, Request>)
    ensures forall id :: id in p <==> id in m && !IsApproved(m[id])
    ensures forall id :: id in p ==> p[id] == m[id]
  {
    map id | id in m && m[id].userTo.None? :: m[id]
  }

  /** The requests that have a counterparty (`user_to` is not null). */
  function Approved(m: map<ReqId, Request>): (a: map<ReqId, Request>)
    ensures forall id :: id in a <==> id in m && IsApproved(m[id])
    ensures forall id :: id in a ==> a[id] == m[id]
  {
    map id | id in m && m[id].userTo.Some? :: m[id]
  }

  /** Pending and approved split every set of requests in two. */
  lemma PendingApprovedPartition(m: map<ReqId, Request>)
    ensures Pending(m).Keys !! Approved(m).Keys
    ensures Pending(m) + Approved(m) == m
    ensures |Pending(m)| + |Approved(m)| == |m|
  {
    var p, a := Pending(m), Approved(m);
    assert p.Keys + a.Keys == m.Keys;
    assert |p.Keys + a.Keys| == |p.Keys| + |a.Keys|;
  }
}
