/** The persisted state the two implementations act on (the `users` and
    `exchange_requests` tables), the single-step changes they make to it, and the
    per-currency total that settlement has to conserve. */
module Ledger {
  import opened Results
  import opened ExchangeModel
  import opened Accounts

  /** Balances by user, requests by id, and the next auto-increment id. */
  datatype State = State(
    users: map<UserId, Balances>,
    requests: map<ReqId, Request>,
    nextId: ReqId)

  /** What an operation leaves behind: the new state, and its outcome. */
  datatype Step<+T> = Step(state: State, result: Result<T>)

  /** A stored request references existing users and carries the amounts the
      unsigned schema columns admit. */
  predicate RequestWellFormed(users: map<UserId, Balances>, r: Request) {
    && r.userFrom in users
    && (r.userTo.Some? ==> r.userTo.value in users)
    && r.amount >= 0.0
    && r.rate >= 0.0
  }

  ghost predicate WellFormed(s: State) {
    forall id :: id in s.requests ==> id < s.nextId && RequestWellFormed(s.users, s.requests[id])
  }

  /** No balance is negative. */
  ghost predicate Solvent(s: State) {
    forall u :: u in s.users ==> NonNegative(s.users[u])
  }

  ghost predicate Invariant(s: State) {
    WellFormed(s) && Solvent(s)
  }

  // ---- single-step changes ------------------------------------------------

  /** `$user->$currency += a`, saved. */
  function Credit(s: State, u: UserId, c: Currency, a: real): State
    requires u in s.users
  {
    s.(users := s.users[u := AddSum(s.users[u], c, a)])
  }

  /** `$user->$currency -= a`, saved. */
  function Debit(s: State, u: UserId, c: Currency, a: real): State
    requires u in s.users
  {
    s.(users := s.users[u := SubtractSum(s.users[u], c, a)])
  }

  /** Taking a negated sum is crediting it. */
  lemma DebitNegated(s: State, u: UserId, c: Currency, a: real)
    requires u in s.users
    ensures Debit(s, u, c, -a) == Credit(s, u, c, a)
  {
    BalancesExt(SubtractSum(s.users[u], c, -a), AddSum(s.users[u], c, a));
  }

  /** Saving `copy`, a copy of user `u`'s row read earlier, after the code has
      changed its column `c`: only that column is written, and it takes the
      copy's value whatever the stored row holds by then. */
  function WriteColumn(s: State, u: UserId, c: Currency, copy: Balances): State
    requires u in s.users
  {
    s.(users := s.users[u := SaveColumn(s.users[u], c, copy)])
  }

  /** Crediting an up-to-date copy of the row and writing it back is a plain credit. */
  lemma WriteFreshCopy(s: State, u: UserId, c: Currency, a: real)
    requires u in s.users
    ensures WriteColumn(s, u, c, AddSum(s.users[u], c, a)) == Credit(s, u, c, a)
  {
    BalancesExt(SaveColumn(s.users[u], c, AddSum(s.users[u], c, a)), AddSum(s.users[u], c, a));
  }

  /** Saving a new request under the next auto-increment id. */
  function Insert(s: State, r: Request): State {
    s.(requests := s.requests[s.nextId := r], nextId := s.nextId + 1)
  }

  /** Recording the counterparty of request `id` and saving it. */
  function SetUserTo(s: State, id: ReqId, u: UserId): State
    requires id in s.requests
  {
    s.(requests := s.requests[id := s.requests[id].(userTo := Some(u))])
  }

  /** Deleting request `id`. */
  function Remove(s: State, id: ReqId): State {
    s.(requests := s.requests - {id})
  }

  // ---- settlement -------------------------------------------------------

  /** How much user `v` gains in currency `c` when `to` settles `r`: the
      counterparty pays the contribution and receives what the proposer reserved,
      the proposer receives the contribution. */
  function Gain(r: Request, to: UserId, v: UserId, c: Currency): real {
    (if v == r.userFrom && c == Contribution(r).currency then Contribution(r).sum else 0.0)
    + (if v == to && c == Escrow(r).currency then Escrow(r).sum else 0.0)
    - (if v == to && c == Contribution(r).currency then Contribution(r).sum else 0.0)
  }

  /** `after` are the balances `before` once `to` has settled `r`; no other user
      and no other currency changes. */
  ghost predicate SettledBalances(before: map<UserId, Balances>, after: map<UserId, Balances>, r: Request, to: UserId) {
    && after.Keys == before.Keys
    && forall v, c :: v in before ==> after[v].Get(c) == before[v].Get(c) + Gain(r, to, v, c)
  }

  /** A settlement determines the new balances completely. */
  lemma SettledBalancesUnique(before: map<UserId, Balances>, a1: map<UserId, Balances>,
                              a2: map<UserId, Balances>, r: Request, to: UserId)
    requires SettledBalances(before, a1, r, to) && SettledBalances(before, a2, r, to)
    ensures a1 == a2
  {
    forall v | v in a1
      ensures a1[v] == a2[v]
    {
      BalancesExt(a1[v], a2[v]);
    }
  }

  // ---- per-currency totals ------------------------------------------------

  /** The sum of the values of a finite map. */
  ghost function Sum<K>(m: map<K, real>): real
    decreases |m|
  {
    if m == map[] then 0.0
    else
      var k :| k in m;
      assert |m - {k}| < |m| by { assert (m - {k}).Keys == m.Keys - {k}; }
      m[k] + Sum(m - {k})
  }

  /** Sum does not depend on which key it takes first. */
  lemma {:induction false} SumRemove<K>(m: map<K, real>, k: K)
    requires k in m
    ensures Sum(m) == m[k] + Sum(m - {k})
    decreases |m|
  {
    assert (m - {k}).Keys == m.Keys - {k};
    var j :| j in m && Sum(m) == m[j] + Sum(m - {j});
    if j != k {
      assert (m - {j}).Keys == m.Keys - {j};
      assert m - {j} - {k} == m - {k} - {j};
      SumRemove(m - {j}, k);
      SumRemove(m - {k}, j);
    }
  }

  /** Replacing one value changes the sum by the difference. */
  lemma {:induction false} SumUpdate<K>(m: map<K, real>, k: K, v: real)
    ensures Sum(m[k := v]) == Sum(m) - (if k in m then m[k] else 0.0) + v
  {
    SumRemove(m[k := v], k);
    assert m[k := v] - {k} == m - {k};
    if k in m {
      SumRemove(m, k);
    } else {
      assert m - {k} == m;
    }
  }

  /** Deleting one key lowers the sum by its value. */
  lemma {:induction false} SumDelete<K>(m: map<K, real>, k: K)
    ensures Sum(m - {k}) == Sum(m) - (if k in m then m[k] else 0.0)
  {
    if k in m {
      SumRemove(m, k);
    } else {
      assert m - {k} == m;
    }
  }

  /** Every user's balance in `c`. */
  function BalanceColumn(users: map<UserId, Balances>, c: Currency): map<UserId, real> {
    map u | u in users :: users[u].Get(c)
  }

  /** What a request holds in escrow in currency `c`: its reservation while it
      is pending, nothing once it is approved. */
  function Escrowed(r: Request, c: Currency): real {
    if !IsApproved(r) && Escrow(r).currency == c then Escrow(r).sum else 0.0
  }

  /** Every request's escrow in `c`. */
  function EscrowColumn(requests: map<ReqId, Request>, c: Currency): map<ReqId, real> {
    map id | id in requests :: Escrowed(requests[id], c)
  }

  /** Everything held in `c`: all balances plus all pending reservations. */
  ghost function Total(s: State, c: Currency): real {
    Sum(BalanceColumn(s.users, c)) + Sum(EscrowColumn(s.requests, c))
  }

  lemma TotalCredit(s: State, u: UserId, c: Currency, a: real)
    requires u in s.users
    ensures forall d :: Total(Credit(s, u, c, a), d) == Total(s, d) + (if c == d then a else 0.0)
  {
    var b := AddSum(s.users[u], c, a);
    forall d ensures Total(Credit(s, u, c, a), d) == Total(s, d) + (if c == d then a else 0.0) {
      assert BalanceColumn(s.users[u := b], d) == BalanceColumn(s.users, d)[u := b.Get(d)];
      SumUpdate(BalanceColumn(s.users, d), u, b.Get(d));
    }
  }

  lemma TotalDebit(s: State, u: UserId, c: Currency, a: real)
    requires u in s.users
    ensures forall d :: Total(Debit(s, u, c, a), d) == Total(s, d) - (if c == d then a else 0.0)
  {
    var b := SubtractSum(s.users[u], c, a);
    forall d ensures Total(Debit(s, u, c, a), d) == Total(s, d) - (if c == d then a else 0.0) {
      assert BalanceColumn(s.users[u := b], d) == BalanceColumn(s.users, d)[u := b.Get(d)];
      SumUpdate(BalanceColumn(s.users, d), u, b.Get(d));
    }
  }

  /** Writing back a copy changes the total of the written column by the
      difference between the copy and the stored value. */
  lemma TotalWriteColumn(s: State, u: UserId, c: Currency, copy: Balances)
    requires u in s.users
    ensures forall d :: Total(WriteColumn(s, u, c, copy), d)
                     == Total(s, d) + (if c == d then copy.Get(c) - s.users[u].Get(c) else 0.0)
  {
    var b := SaveColumn(s.users[u], c, copy);
    forall d ensures Total(WriteColumn(s, u, c, copy), d)
                  == Total(s, d) + (if c == d then copy.Get(c) - s.users[u].Get(c) else 0.0) {
      assert BalanceColumn(s.users[u := b], d) == BalanceColumn(s.users, d)[u := b.Get(d)];
      SumUpdate(BalanceColumn(s.users, d), u, b.Get(d));
    }
  }

  lemma TotalInsert(s: State, r: Request)
    requires s.nextId !in s.requests
    ensures forall d :: Total(Insert(s, r), d) == Total(s, d) + Escrowed(r, d)
  {
    forall d ensures Total(Insert(s, r), d) == Total(s, d) + Escrowed(r, d) {
      var col := EscrowColumn(s.requests, d);
      assert EscrowColumn(s.requests[s.nextId := r], d) == col[s.nextId := Escrowed(r, d)];
      SumUpdate(col, s.nextId, Escrowed(r, d));
    }
  }

  lemma TotalSetUserTo(s: State, id: ReqId, u: UserId)
    requires id in s.requests
    ensures forall d :: Total(SetUserTo(s, id, u), d) == Total(s, d) - Escrowed(s.requests[id], d)
  {
    var r := s.requests[id].(userTo := Some(u));
    forall d ensures Total(SetUserTo(s, id, u), d) == Total(s, d) - Escrowed(s.requests[id], d) {
      var col := EscrowColumn(s.requests, d);
      assert EscrowColumn(s.requests[id := r], d) == col[id := 0.0];
      SumUpdate(col, id, 0.0);
    }
  }

  lemma TotalRemove(s: State, id: ReqId)
    requires id in s.requests
    ensures forall d :: Total(Remove(s, id), d) == Total(s, d) - Escrowed(s.requests[id], d)
  {
    forall d ensures Total(Remove(s, id), d) == Total(s, d) - Escrowed(s.requests[id], d) {
      var col := EscrowColumn(s.requests, d);
      assert EscrowColumn(s.requests - {id}, d) == col - {id};
      SumDelete(col, id);
    }
  }

  // ---- the store, updated in place ---------------------------------------

  /** The two tables as mutable state: the implementations' methods change it
      one column or one row at a time, as the source's model objects do. */
  class Store {
    var users: map<UserId, Balances>
    var requests: map<ReqId, Request>
    var nextId: ReqId

    function Snapshot(): State
      reads this
    {
      State(users, requests, nextId)
    }

    ghost predicate Valid()
      reads this
    {
      Invariant(Snapshot())
    }

    /** A store holding the given accounts and no request; ids start at 1. */
    constructor (accounts: map<UserId, Balances>)
      requires forall u :: u in accounts ==> NonNegative(accounts[u])
      ensures Valid()
      ensures Snapshot() == State(accounts, map[], 1)
    {
      users := accounts;
      requests := map[];
      nextId := 1;
    }

    /** `User::addSum`: `$this->$currency += $amount`, then save. */
    method AddSum(u: UserId, c: Currency, a: real)
      requires u in users
      modifies this
      ensures Snapshot() == Credit(old(Snapshot()), u, c, a)
    {
      users := users[u := Accounts.AddSum(users[u], c, a)];
    }

    /** `User::subtractSum`: `$this->$currency -= $amount`, then save; no funds check. */
    method SubtractSum(u: UserId, c: Currency, a: real)
      requires u in users
      modifies this
      ensures Snapshot() == Debit(old(Snapshot()), u, c, a)
    {
      users := users[u := Accounts.SubtractSum(users[u], c, a)];
    }

    /** Saving a copy of user `u`'s row, read earlier, whose column `c` the
        code changed: only that column is written. */
    method SaveCopy(u: UserId, c: Currency, copy: Balances)
      requires u in users
      modifies this
      ensures Snapshot() == WriteColumn(old(Snapshot()), u, c, copy)
    {
      users := users[u := SaveColumn(users[u], c, copy)];
    }

    /** Saving a new request; returns the id it was given. */
    method Save(r: Request) returns (id: ReqId)
      modifies this
      ensures id == old(nextId)
      ensures Snapshot() == Insert(old(Snapshot()), r)
    {
      id := nextId;
      requests := requests[id := r];
      nextId := nextId + 1;
    }

    /** Writing `user_to` of request `id` and saving it. */
    method SaveUserTo(id: ReqId, u: UserId)
      requires id in requests
      modifies this
      ensures Snapshot() == SetUserTo(old(Snapshot()), id, u)
    {
      requests := requests[id := requests[id].(userTo := Some(u))];
    }

    /** Deleting request `id`. */
    method Delete(id: ReqId)
      modifies this
      ensures Snapshot() == Remove(old(Snapshot()), id)
    {
      requests := requests - {id};
    }
  }
}
