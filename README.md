# Two-currency escrow ledger

This is a Dafny model of the exchange core of a small Laravel application. Users
hold balances in two currencies, `stb` and `gnr`. A user (the proposer) opens an
exchange request to buy (`purchase`) or sell (`sale`) an `amount` of one currency
at a `rate`. Opening a request reserves the proposer's side of the trade. When
another user (the counterparty) approves the request, each party is paid its
side. A pending request can be deleted, which refunds the reservation.

The repository implements the flow twice, and both are modelled:

- `App\Libraries\ExchangeRequest`, the instance-style library. It validates its
  arguments and routes every debit through `reserveSum`.
- `App\Libraries\Exchanger`, the static facade. It checks and moves each sum
  itself.

Both act on the `users` and `exchange_requests` tables, through `App\User` and
`App\ExchangeRequest`.

## How the model is built

- **Values.** `exchange_model.dfy` holds the request record, the two enums and
  their names, and the "legs" of a trade. A leg is a quantity of one currency.
  - The *escrow* is what the proposer reserved: for a purchase, `amount * rate`
    of the other currency; for a sale, `amount` of the currency itself.
  - The *contribution* is what a counterparty pays: the reservation of the
    inverted operation.
- **Accounts.** `accounts.dfy` holds a user's balances, the three `User`
  primitives, and the three request relations.
- **State.** `ledger.dfy` holds the persisted state: balances by user, requests
  by id, and the auto-increment counter. It also holds the single-step changes
  the code makes to that state, and `Store`, a class with those tables as
  fields that the imperative methods update in place.
- **Conservation.** `Total(s, c)` adds up a currency's balances plus the escrow
  of every pending request. Conservation means an operation keeps every
  `Total` unchanged.
- **Per implementation.** Each implementation has two modules:
  - a specification module of functions on the state (`request_library_spec.dfy`,
    `exchanger_spec.dfy`), with the lemmas about them;
  - an imperative module (`request_library.dfy`, `exchanger.dfy`) whose methods
    follow the source step by step on a `Store`. Each method is proved to reach
    exactly the state its specification function describes.
- **Cross-checks.** `equivalence.dfy` proves the two implementations agree where
  both accept the same input, and `scenarios.dfy` replays the repository's test
  scenarios.

Amounts and rates are Dafny `real`s.

## Model

| member | source | states |
|---|---|---|
| ExchangeModel.ParseCurrency | app/ExchangeRequest.php:12-14 | exactly the two currency names `stb` and `gnr` are recognised, each mapping back to its name |
| ExchangeModel.ParseOperation | app/ExchangeRequest.php:8-10 | exactly `purchase` and `sale` are recognised, each mapping back to its name |
| ExchangeModel.ParseNames | app/ExchangeRequest.php:8-14 | the name of every currency and operation parses back to it |
| ExchangeModel.InvertCurrency | app/Libraries/ExchangeRequest.php:174-179 | the other currency differs from the given one |
| ExchangeModel.InvertOperation | app/Libraries/ExchangeRequest.php:185-190 | the other operation differs from the given one |
| ExchangeModel.InvertInvolutive | app/Libraries/ExchangeRequest.php:174-190 | inverting a currency or an operation twice gives it back |
| ExchangeModel.PriceNonNegative | app/Libraries/ExchangeRequest.php:203-206 | the counter amount `amount * rate` is non-negative for non-negative amount and rate |
| ExchangeModel.ReservationNegated | app/Libraries/ExchangeRequest.php:140 | reserving a negated amount takes the negated sum of the same currency, which is how `delete` refunds |
| ExchangeModel.LegsMirror | app/Libraries/ExchangeRequest.php:118-124 | escrow and contribution are in opposite currencies and are together the two sides of the trade, `amount` of the request's currency and `amount * rate` of the other |
| ExchangeModel.IsApproved | app/ExchangeRequest.php:60-63 | a request is approved exactly when a counterparty is recorded; the proposer is always present, so `userFrom &&` adds nothing on a stored request |
| ExchangeModel.Reservation | app/Libraries/ExchangeRequest.php:203-206 | a sale reserves the currency sold and a purchase the other currency; the reserved sum is non-negative for a non-negative amount and rate |
| ExchangeModel.Escrow | app/Libraries/ExchangeRequest.php:68 | what the proposer has reserved is in the request's currency exactly for a sale, and is non-negative for a non-negative amount and rate |
| ExchangeModel.Contribution | app/Libraries/ExchangeRequest.php:101-107 | what the counterparty pays is in the currency opposite to the escrow, in the request's currency exactly for a purchase, and non-negative for a non-negative amount and rate |
| ExchangeModel.Pending | app/ExchangeRequest.php:44-47 | keeps exactly the requests with no counterparty, unchanged |
| ExchangeModel.Approved | app/ExchangeRequest.php:52-55 | keeps exactly the requests with a counterparty, unchanged |
| ExchangeModel.PendingApprovedPartition | app/ExchangeRequest.php:44-63 | pending and approved requests are disjoint, together make up all requests, and their counts add up |
| Accounts.HasSum | app/User.php:23-26 | true exactly when the balance in the currency is at least the amount |
| Accounts.AddSum | app/User.php:33-37 | the named balance grows by the amount and the other is unchanged |
| Accounts.SubtractSum | app/User.php:43-47 | the named balance shrinks by the amount and the other is unchanged; non-negative balances stay non-negative when `HasSum` held |
| Accounts.SubtractUndoesAdd | app/User.php:33-47 | subtracting what was added, or adding what was subtracted, restores the balances |
| Accounts.AddKeepsNonNegative | app/User.php:33-37 | adding a non-negative amount keeps balances non-negative |
| Accounts.ExchangeRequests | app/User.php:53-56 | exactly the requests whose proposer is the user, unchanged |
| Accounts.PendingExchangeRequests | app/User.php:61-64 | exactly the user's requests whose `user_to` is null, unchanged |
| Accounts.ApprovedExchangeRequests | app/User.php:69-72 | exactly the user's requests whose `user_to` is set, unchanged |
| Accounts.SaveColumn | app/Libraries/ExchangeRequest.php:120 | saving a copy of a row whose column `c` was changed writes that column from the copy and keeps the other stored column |
| Accounts.UserRequestsPartition | app/User.php:61-72 | a user's pending and approved requests are disjoint, make up all of that user's requests, and their counts add up |
| Ledger.Credit | app/User.php:33-37 | `addSum` on an up-to-date row: only that user's column `c` grows by the amount |
| Ledger.Debit | app/User.php:43-47 | `subtractSum` on an up-to-date row: only that user's column `c` shrinks by the amount |
| Ledger.WriteColumn | app/Libraries/ExchangeRequest.php:112-122 | saving a copy of a user's row read earlier: column `c` takes the copy's value whatever the row holds by then |
| Ledger.WriteFreshCopy | app/User.php:33-37 | writing back a credit made on an up-to-date copy is a plain credit |
| Ledger.Insert | app/Libraries/ExchangeRequest.php:70 | a new request is stored under the next id, which advances |
| Ledger.SetUserTo | app/Libraries/ExchangeRequest.php:109-110 | only the counterparty of request `id` is recorded |
| Ledger.Remove | app/Libraries/ExchangeRequest.php:142 | only request `id` is removed |
| Ledger.DebitNegated | app/Libraries/ExchangeRequest.php:211-212 | taking a negated sum from a balance is crediting the sum |
| Ledger.SettledBalancesUnique | app/Libraries/ExchangeRequest.php:118-124 | a settlement determines the new balances of every user |
| Ledger.TotalCredit | app/User.php:33-37 | crediting a balance raises that currency's total by the amount and leaves the other total unchanged |
| Ledger.TotalDebit | app/User.php:43-47 | debiting a balance lowers that currency's total by the amount and leaves the other total unchanged |
| Ledger.TotalWriteColumn | app/Libraries/ExchangeRequest.php:120-122 | writing back a copy changes the written currency's total by the copy's value less the stored one, and leaves the other total unchanged |
| Ledger.TotalInsert | app/Libraries/ExchangeRequest.php:70 | saving a request adds its escrow to the total |
| Ledger.TotalSetUserTo | app/Libraries/ExchangeRequest.php:109-110 | recording a counterparty takes the request's escrow out of the total |
| Ledger.TotalRemove | app/Libraries/ExchangeRequest.php:142 | deleting a request takes its escrow out of the total |
| Ledger.Store.constructor | tests/ExchangeRequestTest.php:13-16 | a store of non-negative accounts and no requests satisfies the invariant and starts its ids at 1 |
| Ledger.Store.AddSum | app/User.php:33-37 | the store's state becomes `Credit` of the old state |
| Ledger.Store.SubtractSum | app/User.php:43-47 | the store's state becomes `Debit` of the old state |
| Ledger.Store.SaveCopy | app/Libraries/ExchangeRequest.php:120-122 | the store's state becomes `WriteColumn` of the old state |
| Ledger.Store.Save | app/Libraries/ExchangeRequest.php:70 | the request is stored under the old counter, which is returned and advanced |
| Ledger.Store.SaveUserTo | app/Libraries/ExchangeRequest.php:109-110 | only the counterparty of the request changes |
| Ledger.Store.Delete | app/Libraries/ExchangeRequest.php:142 | only the request is removed |
| RequestLibrarySpec.InvertCurrencyName | app/Libraries/ExchangeRequest.php:174-179 | always yields a currency name; on a currency name, yields the other currency's name |
| RequestLibrarySpec.InvertOperationName | app/Libraries/ExchangeRequest.php:185-190 | always yields an operation name; on an operation name, yields the other operation's name |
| RequestLibrarySpec.ReserveSum | app/Libraries/ExchangeRequest.php:201-213 | succeeds exactly when the user holds the reservation leg; on success only that balance is debited by the leg; otherwise `NotEnoughFunds` and nothing changes |
| RequestLibrarySpec.Create | app/Libraries/ExchangeRequest.php:47-73 | invalid operation, currency and rate (`<= 0`) are refused in that order; valid arguments with too small a balance give `NotEnoughFunds`; each refusal leaves the state unchanged; success exactly when all three are valid and the proposer holds the escrow; on success the pending request is stored under the next id, which is returned and advanced, and only the proposer's escrow leg is debited |
| RequestLibrarySpec.Find | app/Libraries/ExchangeRequest.php:80-88 | returns the stored request exactly when the id exists, otherwise `NotFound` |
| RequestLibrarySpec.Approve | app/Libraries/ExchangeRequest.php:96-127 | an approved request is refused with `AlreadyApproved`; a pending one succeeds exactly when the counterparty holds the contribution, and is otherwise refused with `NotEnoughFunds`; a refusal changes nothing; success records the counterparty; for a counterparty other than the proposer it settles the balances (proposer gains the contribution, counterparty pays it and gains the escrow); for the proposer approving their own request through a separately loaded `User` object it credits both legs and loses the debit |
| RequestLibrarySpec.SelfSettled | app/Libraries/ExchangeRequest.php:98-122 | the proposer's balances after approving their own request through a separately loaded `User` object: both legs credited, nothing debited |
| RequestLibrarySpec.ApproveBalances | app/Libraries/ExchangeRequest.php:101-123 | after the debit and the closing credits, a distinct counterparty and proposer are settled, and a self-approving proposer ends with `SelfSettled` |
| RequestLibrarySpec.CreditParties | app/Libraries/ExchangeRequest.php:112-124 | the closing credits: the counterparty's on the stored row, the proposer's on the copy loaded by `isApproved` at line 98 |
| RequestLibrarySpec.CreditPartiesPays | app/Libraries/ExchangeRequest.php:118-124 | the proposer's contribution column becomes the copy's value plus the contribution, the counterparty gains the escrow, nothing else changes, and each total moves by exactly those writes |
| RequestLibrarySpec.Delete | app/Libraries/ExchangeRequest.php:129-145 | an approved request is refused with `CannotDeleteApproved`; a pending one is refunded through `reserveSum` with the negated amount, whose funds check passes exactly when the balance is at least the negated escrow and otherwise refuses with `NotEnoughFunds`; a refusal changes nothing; success credits the escrow back and removes the request |
| RequestLibrarySpec.CreateConserves | app/Libraries/ExchangeRequest.php:47-73 | `create` keeps every currency's total, on every outcome |
| RequestLibrarySpec.ApproveConserves | app/Libraries/ExchangeRequest.php:96-127 | `approve` by anybody other than the proposer keeps every currency's total, on every outcome |
| RequestLibrarySpec.DeleteConserves | app/Libraries/ExchangeRequest.php:129-145 | `delete` keeps every currency's total |
| RequestLibrarySpec.SelfApprovalMintsContribution | app/Libraries/ExchangeRequest.php:98-122 | a proposer approving their own request through a separately loaded `User` object raises the contribution currency's total by the contribution; the escrow currency's total is unchanged |
| RequestLibrarySpec.CreatePreservesInvariant | app/Libraries/ExchangeRequest.php:47-73 | `create` with a non-negative amount keeps references valid and balances non-negative |
| RequestLibrarySpec.ApprovePreservesInvariant | app/Libraries/ExchangeRequest.php:96-127 | `approve` keeps references valid and balances non-negative |
| RequestLibrarySpec.DeletePreservesInvariant | app/Libraries/ExchangeRequest.php:129-145 | `delete` keeps references valid and balances non-negative |
| RequestLibrarySpec.DeleteNeverLacksFunds | app/Libraries/ExchangeRequest.php:140 | on a valid ledger, deleting a pending request always succeeds: the inherited funds check cannot fail |
| RequestLibrarySpec.CreateThenDeleteRestores | app/Libraries/ExchangeRequest.php:47-145 | deleting a request just created restores every balance and the request table; only the id counter has advanced |
| RequestLibrary.ReserveSum | app/Libraries/ExchangeRequest.php:201-213 | the in-place reservation reaches exactly the state and outcome of `RequestLibrarySpec.ReserveSum` |
| RequestLibrary.Create | app/Libraries/ExchangeRequest.php:47-73 | reaches exactly `RequestLibrarySpec.Create`, conserves every total, and keeps the invariant for non-negative amounts |
| RequestLibrary.Approve | app/Libraries/ExchangeRequest.php:96-127 | keeping the proposer's row as loaded at line 98, the in-place steps reach exactly `RequestLibrarySpec.Approve`, keep the invariant, and conserve every total when the counterparty is not the proposer |
| RequestLibrary.CreditParties | app/Libraries/ExchangeRequest.php:112-124 | the counterparty's in-place credit and the proposer's credit on the earlier copy reach exactly `RequestLibrarySpec.CreditParties` |
| RequestLibrary.Delete | app/Libraries/ExchangeRequest.php:129-145 | reaches exactly `RequestLibrarySpec.Delete`, keeps the invariant and conserves every total |
| ExchangerSpec.HasSum | app/Libraries/Exchanger.php:161-167 | "balance minus amount is not negative" is the same test as `User::hasSum` |
| ExchangerSpec.InvertCurrencyName | app/Libraries/Exchanger.php:190-193 | always yields a currency name; on a currency name, yields the other currency's name |
| ExchangerSpec.IsOwnRequest | app/Libraries/Exchanger.php:200-203 | the candidate counterparty is the proposer |
| ExchangerSpec.Create | app/Libraries/Exchanger.php:22-45 | succeeds exactly when the proposer holds the escrow, otherwise `NotEnoughFunds` with nothing changed; on success the request is saved under the next id and the escrow is debited |
| ExchangerSpec.PurchaseRequest | app/Libraries/Exchanger.php:78-87 | succeeds exactly when the proposer holds `amount * rate` of the other currency; a refusal is `NotEnoughFunds` with nothing changed; success returns the next id, advances the counter, stores a pending purchase under it and debits that sum |
| ExchangerSpec.SaleRequest | app/Libraries/Exchanger.php:97-106 | succeeds exactly when the proposer holds `amount` of the currency; a refusal is `NotEnoughFunds` with nothing changed; success returns the next id, advances the counter, stores a pending sale under it and debits that sum |
| ExchangerSpec.DeleteRequest | app/Libraries/Exchanger.php:51-68 | an approved request is refused with `CannotDeleteApproved` and nothing changes; a pending one has its escrow credited back, unchecked, and is removed |
| ExchangerSpec.Settle | app/Libraries/Exchanger.php:130-140 | the three transfers of either branch: the proposer is credited the contribution, the counterparty debited it and credited the escrow |
| ExchangerSpec.SettlePays | app/Libraries/Exchanger.php:130-140 | between distinct users, the three transfers settle exactly the two legs and raise the escrow currency's balances by the escrow |
| ExchangerSpec.Approve | app/Libraries/Exchanger.php:115-143 | as written: a self-trade is refused with nothing changed; otherwise success exactly when the counterparty holds the contribution; a refusal still leaves the counterparty recorded; success records the counterparty and settles the balances |
| ExchangerSpec.ApproveChecked | app/Libraries/Exchanger.php:115-143 | corrected: a self-trade gives `OwnRequest`, then an approved request `AlreadyApproved`, then a counterparty who cannot pay `NotEnoughFunds`; every refusal changes nothing; success exactly when none applies, and it is the settlement of `Approve` |
| ExchangerSpec.CreateConserves | app/Libraries/Exchanger.php:22-45 | `create` keeps every currency's total |
| ExchangerSpec.DeleteRequestConserves | app/Libraries/Exchanger.php:51-68 | `deleteRequest` keeps every currency's total |
| ExchangerSpec.ApprovePendingConserves | app/Libraries/Exchanger.php:115-143 | a successful approval of a pending request keeps every currency's total |
| ExchangerSpec.ApproveCheckedConserves | app/Libraries/Exchanger.php:115-143 | the corrected approval keeps every currency's total on every path |
| ExchangerSpec.ReapprovalMintsPayout | app/Libraries/Exchanger.php:115-143 | re-approving an approved request raises the escrow currency's total by the escrow |
| ExchangerSpec.FailedApproveStrandsReservation | app/Libraries/Exchanger.php:121-136 | a refused approval of a pending request leaves it approved with the balances unchanged; it can no longer be deleted; and the escrow currency's total drops by the escrow |
| ExchangerSpec.CreatePreservesInvariant | app/Libraries/Exchanger.php:22-45 | `create` with a non-negative amount and rate keeps references valid and balances non-negative |
| ExchangerSpec.DeleteRequestPreservesInvariant | app/Libraries/Exchanger.php:51-68 | `deleteRequest` keeps references valid and balances non-negative |
| ExchangerSpec.ApprovePreservesInvariant | app/Libraries/Exchanger.php:115-143 | every path of `approve`, the faulty ones included, keeps references valid and balances non-negative |
| ExchangerSpec.ApproveCheckedPreservesInvariant | app/Libraries/Exchanger.php:115-143 | the corrected approval keeps references valid and balances non-negative |
| ExchangerSpec.CreateThenDeleteRestores | app/Libraries/Exchanger.php:22-68 | deleting a request just created restores every balance and the request table; only the id counter has advanced |
| Exchanger.Create | app/Libraries/Exchanger.php:22-45 | check, save, then debit in place reach exactly `ExchangerSpec.Create` and conserve every total |
| Exchanger.PurchaseRequest | app/Libraries/Exchanger.php:78-87 | reaches exactly `ExchangerSpec.PurchaseRequest` |
| Exchanger.SaleRequest | app/Libraries/Exchanger.php:97-106 | reaches exactly `ExchangerSpec.SaleRequest` |
| Exchanger.DeleteRequest | app/Libraries/Exchanger.php:51-68 | reaches exactly `ExchangerSpec.DeleteRequest`, keeps the invariant and conserves every total |
| Exchanger.Approve | app/Libraries/Exchanger.php:115-143 | the source's write-then-check sequence reaches exactly `ExchangerSpec.Approve`, keeps the invariant, and conserves totals when a pending request is approved |
| Exchanger.ApproveChecked | app/Libraries/Exchanger.php:115-143 | reaches exactly `ExchangerSpec.ApproveChecked` and conserves every total |
| Equivalence.CreateAgree | app/Libraries/Exchanger.php:22-45 | on valid names and a positive rate, the library's `create` and the facade's give the same state and outcome |
| Equivalence.ApproveAgree | app/Libraries/Exchanger.php:115-143 | on a pending request and a counterparty other than the proposer, both approvals accept exactly on the same inputs; on success they reach the same state; on refusal they give the same error and the same balances |
| Equivalence.CheckedApproveMatchesLibrary | app/Libraries/ExchangeRequest.php:96-127 | for any counterparty other than the proposer, the corrected facade approval equals the library's approval |
| Equivalence.DeleteAgree | app/Libraries/Exchanger.php:51-68 | on a valid ledger, the library's checked refund and the facade's unchecked one are the same operation |
| Equivalence.InvertCurrencyNamesAgree | app/Libraries/Exchanger.php:190-193 | the two `invertCurrency` helpers agree exactly on the two currency names |
| Scenarios.Fresh | tests/ExchangerTest.php:18 | two users with 100 of each currency form a valid ledger with no requests |
| Scenarios.LibraryPurchase | tests/ExchangeRequestTest.php:11-44 | purchase 10 stb at 0.5 leaves the proposer 95 gnr; approval gives balances (110, 95) and (90, 105) |
| Scenarios.LibrarySale | tests/ExchangeRequestTest.php:46-79 | sale of 10 stb at 0.5 leaves the proposer 90 stb; approval gives balances (90, 105) and (110, 95) |
| Scenarios.LibraryCannotCreate | tests/ExchangeRequestTest.php:81-103 | purchase 100 stb at 1.5 and sale of 110 stb are refused with `NotEnoughFunds` |
| Scenarios.LibraryCannotApprove | tests/ExchangeRequestTest.php:105-117 | approval of a sale of 100 stb at 1.5 is refused and the request stays pending |
| Scenarios.LibraryDeleteCreated | tests/ExchangeRequestTest.php:119-137 | deleting a fresh purchase restores 100 of each; a sale created next on the same ledger gets id 2, and deleting it restores 100 of each again |
| Scenarios.LibraryCannotDeleteApproved | tests/ExchangeRequestTest.php:139-155 | an approved request cannot be deleted |
| Scenarios.LibrarySelfApproval | app/Libraries/ExchangeRequest.php:96-127 | user 1 approving its own purchase of 10 stb at 0.5 through `User::find(1)` ends with (110, 100), and the corrected approval refuses with `OwnRequest` |
| Scenarios.ListingProposals | tests/ExchangeRequestTest.php:164-168 | the three proposals of user 1 are stored under ids 1 to 3 with the reserved balances |
| Scenarios.ListingApprovalAndCounterProposals | tests/ExchangeRequestTest.php:170-175 | user 2 approves request 1 and stores three requests of its own under ids 4 to 6 |
| Scenarios.ListingCounts | tests/ExchangeRequestTest.php:177-179 | user 1 then has three requests, two pending and one approved |
| Scenarios.ExchangerPurchase | tests/ExchangerTest.php:13-46 | the purchase scenario through the facade gives the same balances |
| Scenarios.ExchangerSale | tests/ExchangerTest.php:48-81 | the sale scenario through the facade gives the same balances |
| Scenarios.ExchangerCannotCreate | tests/ExchangerTest.php:83-93 | purchase 100 stb at 1.5 is refused with `NotEnoughFunds` |
| Scenarios.ExchangerOwnRequest | tests/ExchangerTest.php:110-123 | a proposer approving their own request is refused with `OwnRequest` |
| Scenarios.ExchangerDeletePurchase | tests/ExchangerTest.php:125-137 | deleting a fresh purchase restores 100 gnr |
| Scenarios.ExchangerDeleteSale | tests/ExchangerTest.php:139-142 | deleting a fresh sale restores 100 stb |
| Scenarios.ExchangerCannotDeleteApproved | tests/ExchangerTest.php:145-161 | an approved request cannot be deleted |
| Scenarios.ExchangerFailedApproveStrands | tests/ExchangerTest.php:95-108 | the refused approval of a sale of 100 stb records user 2 anyway; user 1 has 0 stb, user 2 still 100, and the request can no longer be deleted |
| Scenarios.ExchangerReapprovalPaysTwice | app/Libraries/Exchanger.php:115-143 | approving the 10 stb purchase twice leaves balances (120, 95) and (80, 110), and the corrected approval refuses the second time |

## Left out

- Persistence, Eloquent and the database are modelled as the two tables and an auto-increment counter. Queries, timestamps, transactions and the failure of `save()` are not modelled.
- Model objects passed in by the caller are taken to be up to date with their rows: a stale `User` object whose balances no longer match the database is not modelled. The one copy inside the core that can be stale when it is saved, the proposer's row that the library's `approve` loads at line 98 and credits at line 120 or 122, is modelled as a separate object, and only the changed column of each save is written.
- RequestLibrarySpec.Approve, RequestLibrarySpec.SelfApprovalMintsContribution: the model covers a self-approval whose `User` argument is loaded separately from the request (for instance `User::find(1)`). When the caller instead passes the request's cached proposer (`$request->userFrom`, which the `__get` at app/Libraries/ExchangeRequest.php:236-239 reads from the stored Eloquent request), line 98 hands back that same object, so the debit at line 101 and the credits at lines 119-120 act on one object and the self-approval ends at b + e, the escrow returned and both totals kept. That aliased case is not modelled, because the model keeps no object identity for users.
- RequestLibrarySpec.Delete, RequestLibrarySpec.Approve, ExchangerSpec.DeleteRequest, ExchangerSpec.Approve: a request object is taken to be a row that is still stored. In the source an object whose row was already deleted can be deleted again, and `isApproved()` is still false, so the escrow is credited a second time before `delete()` finds no row; a second, stale object of one request can likewise be approved again. Neither path is modelled.
- Floating point is modelled as exact `real` arithmetic. Rounding in `amount * rate` and in the `float` columns is not modelled.
- Concurrency is not modelled. Two approvals of one request interleaving are out of scope.
- Events, listeners, routes, controllers and factories are not part of this model.
- Exception messages are not modelled. Each exception class is an `Error` constructor.
- `__call`, `__get`, `model()` and the constructor of the library are not modelled. They only forward to the underlying record.
- The library's `isValidOperation` and `isValidCurrency` are `ParseOperation` and `ParseCurrency`.
- ExchangerSpec.Create: the facade never validates the currency, the rate or the amount. The model takes the currency as the `Currency` enum, which the `enum` schema column enforces. It does not model what happens to a string that is neither name.
- ExchangerSpec.Create: `create` is protected. Its only callers pass one of the two operations, so the operation is the `Operation` enum, and the source's silent "neither branch" path is not modelled.
- Amounts and rates: the `unsigned` schema columns are the only guard on negative values. The invariant lemmas assume them: a non-negative amount for both implementations, and a non-negative rate for the facade.
- ExchangerSpec.IsOwnRequest: the source compares with `===`, which is also false when the two ids have different PHP types. The model compares identities as numbers.
- `Exchanger::isApproved` and the model's `isApproved` both test that a counterparty is recorded, as `ExchangeModel.IsApproved` does. The proposer is always present.
- `Exchanger::subSum` and `Exchanger::addSum` are `Ledger.Store.SubtractSum` and `Ledger.Store.AddSum`. Each is the same single-column update as the `User` method.
- `Exchanger::pendingRequests`, `approvedRequests` and `allRequests` only return the `User` relations of the same meaning. Those relations are modelled once, as `Accounts.PendingExchangeRequests`, `Accounts.ApprovedExchangeRequests` and `Accounts.ExchangeRequests`.

## Findings

| source | as written | input that shows it | evidently intended | confidence | as-written member | corrected member |
|---|---|---|---|---|---|---|
| app/Libraries/Exchanger.php:115-143 | `approve` has no already-approved check, so re-approving an approved request settles it again and pays its reservation out a second time | purchase 10 stb at 0.5 by user 1, approved by user 2, then approved by user 2 again: balances go from (110, 95) and (90, 105) to (120, 95) and (80, 110), and 5 gnr are created | refuse an approved request, as the library does with `CannotApproveApprovedRequestException` | high (proved on the model; not executed) | ExchangerSpec.ReapprovalMintsPayout | ExchangerSpec.ApproveChecked |
| app/Libraries/ExchangeRequest.php:98-122 | there is no self-trade check, and `isApproved` at line 98 loads the proposer's row before `reserveSum` debits the caller's object at line 101; the proposer's credit at line 120 or 122 is made on that earlier copy, so saving it overwrites the debit and a self-approval through a separately loaded `User` pays both legs (passing the request's cached proposer object instead is a conserving refund, see "## Left out") | fresh ledger, `create(user 1, purchase, stb, 10, 0.5)` gives (100, 95); user 1 then approves request 1: line 101 writes stb 90, line 119 gnr 100, line 120 stb 110, ending at (110, 100) with 10 stb created | refuse a self-trade, as the facade does with `IsOwnExchangeRequestException` | high (proved on the model; not executed) | RequestLibrarySpec.SelfApprovalMintsContribution | ExchangerSpec.ApproveChecked |
| app/Libraries/Exchanger.php:121-136 | `approve` saves `user_to` before the funds check, so a refused approval leaves the request approved: the proposer can no longer recover the reservation through `deleteRequest`, and it is paid out only if somebody approves the request again (the re-approval defect above) | sale of 100 stb at 1.5 by user 1, approved by user 2 who has 100 gnr: `NotEnoughFunds`, yet request 1 has `user_to = 2`; user 1 has 0 stb, user 2 has 100, and `deleteRequest` is refused, so user 1 cannot get the 100 stb back | check funds before writing anything, as the library does | high (proved on the model; not executed) | ExchangerSpec.FailedApproveStrandsReservation | ExchangerSpec.ApproveChecked |
