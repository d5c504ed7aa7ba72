/** An account holder: the two balances, the three balance primitives and the
    listings of the requests a user has proposed. */
module Accounts {
  import opened ExchangeModel

  /** The `stb` and `gnr` columns of a user. */
  datatype Balances = Balances(stb: real, gnr: real) {
    /** The balance held in currency `c` (the source reads it as `$user->$currency`). */
    function Get(c: Currency): real {
      match c
      case STB => stb
      case GNR => gnr
    }
  }

  predicate NonNegative(b: Balances) {
    b.stb >= 0.0 && b.gnr >= 0.0
  }

  /** Whether the user holds at least `a` of `c`. */
  function HasSum(b: Balances, c: Currency, a: real): (ok: bool)
    ensures ok <==> b.Get(c) >= a
  {
    match c
    case STB => b.stb >= a
    case GNR => b.gnr >= a
  }

  /** Adds `a` to the balance in `c`; the other balance is untouched. */
  function AddSum(b: Balances, c: Currency, a: real): (r: Balances)
    ensures forall d :: r.Get(d) == b.Get(d) + (if d == c then a else 0.0)
  {
    match c
    case STB => b.(stb := b.stb + a)
    case GNR => b.(gnr := b.gnr + a)
  }

  /** Takes `a` from the balance in `c` without any funds check of its own;
      the other balance is untouched. */
  function SubtractSum(b: Balances, c: Currency, a: real): (r: Balances)
    ensures forall d :: r.Get(d) == b.Get(d) - (if d == c then a else 0.0)
    ensures HasSum(b, c, a) && NonNegative(b) ==> NonNegative(r)
  {
    match c
    case STB => b.(stb := b.stb - a)
    case GNR => b.(gnr := b.gnr - a)
  }

  /** What saving `copy`, a copy of the row read earlier in which the code
      changed only column `c`, leaves in the stored row `stored`: Eloquent writes
      the changed column alone, so `c` takes the copy's value and the other
      column keeps the stored one. */
  function SaveColumn(stored: Balances, c: Currency, copy: Balances): (r: Balances)
    ensures forall d :: r.Get(d) == (if d == c then copy.Get(c) else stored.Get(d))
  {
    match c
    case STB => stored.(stb := copy.stb)
    case GNR => stored.(gnr := copy.gnr)
  }

  /** Two balances are equal as soon as they agree in both currencies. */
  lemma BalancesExt(b: Balances, b': Balances)
    requires forall d :: b.Get(d) == b'.Get(d)
    ensures b == b'
  {
    assert b.Get(STB) == b'.Get(STB) && b.Get(GNR) == b'.Get(GNR);
  }

  /** Subtracting what was just added restores the balances exactly. */
  lemma SubtractUndoesAdd(b: Balances, c: Currency, a: real)
    ensures SubtractSum(AddSum(b, c, a), c, a) == b
    ensures AddSum(SubtractSum(b, c, a), c, a) == b
  {
    BalancesExt(SubtractSum(AddSum(b, c, a), c, a), b);
    BalancesExt(AddSum(SubtractSum(b, c, a), c, a), b);
  }

  /** A credit of a non-negative sum keeps a balance non-negative. */
  lemma AddKeepsNonNegative(b: Balances, c: Currency, a: real)
    requires NonNegative(b) && a >= 0.0
    ensures NonNegative(AddSum(b, c, a))
  {
  }

  /** The requests proposed by `u` (the `user_from` relation). */
  function ExchangeRequests(m: map<ReqId, Request>, u: UserId): (r: map<ReqId, Request>)
    ensures forall id :: id in r <==> id in m && m[id].userFrom == u
    ensures forall id :: id in r ==> r[id] == m[id]
  {
    map id | id in m && m[id].userFrom == u :: m[id]
  }

  /** The requests proposed by `u` that are still pending. */
  function PendingExchangeRequests(m: map<ReqId, Request>, u: UserId): (r: map<ReqId, Request>)
    ensures forall id :: id in r <==> id in m && m[id].userFrom == u && !IsApproved(m[id])
    ensures forall id :: id in r ==> r[id] == m[id]
  {
    Pending(ExchangeRequests(m, u))
  }

  /** The requests proposed by `u` that have been approved. */
  function ApprovedExchangeRequests(m: map<ReqId, Request>, u: UserId): (r: map<ReqId, Request>)
    ensures forall id :: id in r <==> id in m && m[id].userFrom == u && IsApproved(m[id])
    ensures forall id :: id in r ==> r[id] == m[id]
  {
    Approved(ExchangeRequests(m, u))
  }

  /** A user's pending and approved requests are disjoint and together are all of them. */
  lemma UserRequestsPartition(m: map<ReqId, Request>, u: UserId)
    ensures PendingExchangeRequests(m, u).Keys !! ApprovedExchangeRequests(m, u).Keys
    ensures PendingExchangeRequests(m, u) + ApprovedExchangeRequests(m, u) == ExchangeRequests(m, u)
    ensures |PendingExchangeRequests(m, u)| + |ApprovedExchangeRequests(m, u)| == |ExchangeRequests(m, u)|
  {
    PendingApprovedPartition(ExchangeRequests(m, u));
  }
}
