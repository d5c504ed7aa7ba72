/** The repository's test scenarios on the model: two users who start with 100
    of each currency, proposer 1 and counterparty 2. */
module Scenarios {
  import opened Results
  import opened ExchangeModel
  import opened Accounts
  import opened Ledger
  import Library = RequestLibrarySpec
  import Exchanger = ExchangerSpec

  /** A fresh ledger of two users with 100 stb and 100 gnr each. */
  function Fresh(): (s: State)
    ensures Invariant(s)
    ensures s.users.Keys == {1, 2} && s.requests == map[] && s.nextId == 1
  {
    State(map[1 := Balances(100.0, 100.0), 2 := Balances(100.0, 100.0)], map[], 1)
  }

  // ---- the instance-style library ------------------------------------------

  /** Purchase of 10 stb at 0.5: the proposer reserves 5 gnr; on approval the
      proposer ends with 110 stb and 95 gnr, the counterparty with 90 and 105. */
  lemma LibraryPurchase()
    ensures var created := Library.Create(Fresh(), 1, "purchase", "stb", 10.0, 0.5);
      && created.result == Ok(1)
      && created.state.users[1] == Balances(100.0, 95.0)
      && var approved := Library.Approve(created.state, 1, 2);
         && approved.result == Ok(())
         && approved.state.requests[1].userTo == Some(2)
         && approved.state.users[1] == Balances(110.0, 95.0)
         && approved.state.users[2] == Balances(90.0, 105.0)
  {
    var created := Library.Create(Fresh(), 1, "purchase", "stb", 10.0, 0.5);
    assert created.state.users[1].Get(GNR) == 95.0;
    var approved := Library.Approve(created.state, 1, 2);
    assert approved.state.users[1].Get(STB) == 110.0;
    assert approved.state.users[2].Get(STB) == 90.0;
    assert approved.state.users[2].Get(GNR) == 105.0;
  }

  /** Sale of 10 stb at 0.5: the proposer reserves 10 stb; on approval the
      proposer ends with 90 stb and 105 gnr, the counterparty with 110 and 95. */
  lemma LibrarySale()
    ensures var created := Library.Create(Fresh(), 1, "sale", "stb", 10.0, 0.5);
      && created.result == Ok(1)
      && created.state.users[1] == Balances(90.0, 100.0)
      && var approved := Library.Approve(created.state, 1, 2);
         && approved.result == Ok(())
         && approved.state.users[1] == Balances(90.0, 105.0)
         && approved.state.users[2] == Balances(110.0, 95.0)
  {
    var created := Library.Create(Fresh(), 1, "sale", "stb", 10.0, 0.5);
    assert created.state.users[1].Get(STB) == 90.0;
    var approved := Library.Approve(created.state, 1, 2);
    assert approved.state.users[1].Get(GNR) == 105.0;
    assert approved.state.users[2].Get(STB) == 110.0;
    assert approved.state.users[2].Get(GNR) == 95.0;
  }

  /** Purchasing 100 stb at 1.5 needs 150 gnr, selling 110 stb needs 110 stb:
      both are refused and nothing changes. */
  lemma LibraryCannotCreate()
    ensures Library.Create(Fresh(), 1, "purchase", "stb", 100.0, 1.5) == Step(Fresh(), Err(NotEnoughFunds))
    ensures Library.Create(Fresh(), 1, "sale", "stb", 110.0, 1.5) == Step(Fresh(), Err(NotEnoughFunds))
  {
  }

  /** A sale of all 100 stb at 1.5 asks 150 gnr of the counterparty, who has 100:
      the library refuses and leaves the request pending. */
  lemma LibraryCannotApprove()
    ensures var created := Library.Create(Fresh(), 1, "sale", "stb", 100.0, 1.5);
      && created.result == Ok(1)
      && var approved := Library.Approve(created.state, 1, 2);
         && approved == Step(created.state, Err(NotEnoughFunds))
         && !IsApproved(approved.state.requests[1])
  {
  }

  /** Deleting a fresh purchase gives the reservation back; a sale created
      next on the same database gets id 2, and deleting it does the same. */
  lemma LibraryDeleteCreated()
    ensures var created := Library.Create(Fresh(), 1, "purchase", "stb", 10.0, 1.5);
      && created.result == Ok(1)
      && var deleted := Library.Delete(created.state, 1);
      && deleted.result == Ok(()) && deleted.state.users[1] == Balances(100.0, 100.0)
      && var again := Library.Create(deleted.state, 1, "sale", "stb", 10.0, 1.5);
      && again.result == Ok(2)
      && var redeleted := Library.Delete(again.state, 2);
         redeleted.result == Ok(()) && redeleted.state.users[1] == Balances(100.0, 100.0)
  {
    Library.CreateThenDeleteRestores(Fresh(), 1, "purchase", "stb", 10.0, 1.5);
    var mid := State(Fresh().users, Fresh().requests, Fresh().nextId + 1);
    Library.CreateThenDeleteRestores(mid, 1, "sale", "stb", 10.0, 1.5);
  }

  /** An approved request cannot be deleted. */
  lemma LibraryCannotDeleteApproved()
    ensures var created := Library.Create(Fresh(), 1, "purchase", "stb", 10.0, 0.5);
      && created.result == Ok(1)
      && var approved := Library.Approve(created.state, 1, 2);
         && approved.result == Ok(())
         && Library.Delete(approved.state, 1) == Step(approved.state, Err(CannotDeleteApproved))
  {
  }

  /** A proposer who approves their own purchase of 10 stb at 0.5, passing a
      separately loaded `User` such as `User::find(1)`, ends with
      110 stb and all 100 gnr: 10 stb are created, while the corrected approval
      refuses the self-trade. */
  lemma LibrarySelfApproval()
    ensures var created := Library.Create(Fresh(), 1, "purchase", "stb", 10.0, 0.5);
      && created.result == Ok(1)
      && created.state.users[1] == Balances(100.0, 95.0)
      && var approved := Library.Approve(created.state, 1, 1);
         && approved.result == Ok(())
         && approved.state.users[1] == Balances(110.0, 100.0)
         && Exchanger.ApproveChecked(created.state, 1, 1) == Step(created.state, Err(OwnRequest))
  {
    var created := Library.Create(Fresh(), 1, "purchase", "stb", 10.0, 0.5);
    assert created.state.users[1].Get(GNR) == 95.0;
    var approved := Library.Approve(created.state, 1, 1);
    assert approved.state.users[1].Get(STB) == 110.0;
    assert approved.state.users[1].Get(GNR) == 100.0;
  }

  /** The requests of the listing scenario: three by user 1, three by user 2. */
  const R1 := Request(1, None, STB, Purchase, 10.0, 1.2)
  const R2 := Request(1, None, GNR, Purchase, 10.0, 0.5)
  const R3 := Request(1, None, STB, Sale, 10.0, 0.7)
  const R4 := Request(2, None, STB, Purchase, 10.0, 1.2)
  const R5 := Request(2, None, GNR, Purchase, 10.0, 0.5)
  const R6 := Request(2, None, STB, Sale, 10.0, 0.7)

  /** User 1 proposes its three requests. */
  lemma ListingProposals()
    ensures var s1 := Library.Create(Fresh(), 1, "purchase", "stb", 10.0, 1.2);
      && s1 == Step(State(map[1 := Balances(100.0, 88.0), 2 := Balances(100.0, 100.0)], map[1 := R1], 2), Ok(1))
      && var s2 := Library.Create(s1.state, 1, "purchase", "gnr", 10.0, 0.5);
         && s2 == Step(State(map[1 := Balances(95.0, 88.0), 2 := Balances(100.0, 100.0)], map[1 := R1, 2 := R2], 3), Ok(2))
         && Library.Create(s2.state, 1, "sale", "stb", 10.0, 0.7)
            == Step(State(map[1 := Balances(85.0, 88.0), 2 := Balances(100.0, 100.0)], map[1 := R1, 2 := R2, 3 := R3], 4), Ok(3))
  {
    var s1 := Library.Create(Fresh(), 1, "purchase", "stb", 10.0, 1.2);
    assert s1.state.users[1] == Balances(100.0, 88.0);
    assert s1.state.users == map[1 := Balances(100.0, 88.0), 2 := Balances(100.0, 100.0)];
    var s2 := Library.Create(s1.state, 1, "purchase", "gnr", 10.0, 0.5);
    assert s2.state.users == map[1 := Balances(95.0, 88.0), 2 := Balances(100.0, 100.0)];
    var s3 := Library.Create(s2.state, 1, "sale", "stb", 10.0, 0.7);
    assert s3.state.users == map[1 := Balances(85.0, 88.0), 2 := Balances(100.0, 100.0)];
  }

  /** User 2 approves the first request, then proposes its own three. */
  lemma ListingApprovalAndCounterProposals()
    ensures var s3 := State(map[1 := Balances(85.0, 88.0), 2 := Balances(100.0, 100.0)], map[1 := R1, 2 := R2, 3 := R3], 4);
      var s4 := Library.Approve(s3, 1, 2);
      && s4.result == Ok(())
      && s4.state == State(map[1 := Balances(95.0, 88.0), 2 := Balances(90.0, 112.0)],
                           map[1 := R1.(userTo := Some(2)), 2 := R2, 3 := R3], 4)
      && var s5 := Library.Create(s4.state, 2, "purchase", "stb", 10.0, 1.2);
         && s5.state.users.Keys == {1, 2}
         && s5.state.requests == s4.state.requests[4 := R4]
         && var s6 := Library.Create(s5.state, 2, "purchase", "gnr", 10.0, 0.5);
            && s6.state.users.Keys == {1, 2}
            && s6.state.requests == s5.state.requests[5 := R5]
            && Library.Create(s6.state, 2, "sale", "stb", 10.0, 0.7).state.requests == s6.state.requests[6 := R6]
  {
    var s3 := State(map[1 := Balances(85.0, 88.0), 2 := Balances(100.0, 100.0)], map[1 := R1, 2 := R2, 3 := R3], 4);
    var s4 := Library.Approve(s3, 1, 2);
    assert s4.state.users[1] == Balances(95.0, 88.0);
    assert s4.state.users[2] == Balances(90.0, 112.0);
    assert s4.state.users == map[1 := Balances(95.0, 88.0), 2 := Balances(90.0, 112.0)];
    var s5 := Library.Create(s4.state, 2, "purchase", "stb", 10.0, 1.2);
    assert s5.state.users == map[1 := Balances(95.0, 88.0), 2 := Balances(90.0, 100.0)];
    var s6 := Library.Create(s5.state, 2, "purchase", "gnr", 10.0, 0.5);
    assert s6.state.users == map[1 := Balances(95.0, 88.0), 2 := Balances(85.0, 100.0)];
  }

  /** Of the six requests, user 1 has three, two pending and one approved. */
  lemma ListingCounts()
    ensures var m := map[1 := R1.(userTo := Some(2)), 2 := R2, 3 := R3, 4 := R4, 5 := R5, 6 := R6];
      && |ExchangeRequests(m, 1)| == 3
      && |PendingExchangeRequests(m, 1)| == 2
      && |ApprovedExchangeRequests(m, 1)| == 1
  {
    var m := map[1 := R1.(userTo := Some(2)), 2 := R2, 3 := R3, 4 := R4, 5 := R5, 6 := R6];
    assert ExchangeRequests(m, 1) == map[1 := R1.(userTo := Some(2)), 2 := R2, 3 := R3];
    assert ApprovedExchangeRequests(m, 1) == map[1 := R1.(userTo := Some(2))];
    UserRequestsPartition(m, 1);
  }

  // ---- the static facade ---------------------------------------------------

  /** The purchase scenario through the facade ends in the same balances. */
  lemma ExchangerPurchase()
    ensures var created := Exchanger.PurchaseRequest(Fresh(), 1, STB, 10.0, 0.5);
      && created.result == Ok(1)
      && created.state.users[1] == Balances(100.0, 95.0)
      && var approved := Exchanger.Approve(created.state, 1, 2);
         && approved.result == Ok(())
         && approved.state.users[1] == Balances(110.0, 95.0)
         && approved.state.users[2] == Balances(90.0, 105.0)
  {
    var created := Exchanger.PurchaseRequest(Fresh(), 1, STB, 10.0, 0.5);
    assert created.state.users[1].Get(GNR) == 95.0;
    var approved := Exchanger.Approve(created.state, 1, 2);
    assert approved.state.users[1].Get(STB) == 110.0;
    assert approved.state.users[2].Get(STB) == 90.0;
    assert approved.state.users[2].Get(GNR) == 105.0;
  }

  /** The sale scenario through the facade ends in the same balances. */
  lemma ExchangerSale()
    ensures var created := Exchanger.SaleRequest(Fresh(), 1, STB, 10.0, 0.5);
      && created.result == Ok(1)
      && created.state.users[1] == Balances(90.0, 100.0)
      && var approved := Exchanger.Approve(created.state, 1, 2);
         && approved.result == Ok(())
         && approved.state.users[1] == Balances(90.0, 105.0)
         && approved.state.users[2] == Balances(110.0, 95.0)
  {
    var created := Exchanger.SaleRequest(Fresh(), 1, STB, 10.0, 0.5);
    assert created.state.users[1].Get(STB) == 90.0;
    var approved := Exchanger.Approve(created.state, 1, 2);
    assert approved.state.users[1].Get(GNR) == 105.0;
    assert approved.state.users[2].Get(STB) == 110.0;
    assert approved.state.users[2].Get(GNR) == 95.0;
  }

  lemma ExchangerCannotCreate()
    ensures Exchanger.PurchaseRequest(Fresh(), 1, STB, 100.0, 1.5) == Step(Fresh(), Err(NotEnoughFunds))
  {
  }

  /** A proposer cannot approve their own request. */
  lemma ExchangerOwnRequest()
    ensures var created := Exchanger.SaleRequest(Fresh(), 1, STB, 10.0, 1.5);
      && created.result == Ok(1)
      && Exchanger.Approve(created.state, 1, 1) == Step(created.state, Err(OwnRequest))
  {
  }

  /** Deleting a fresh purchase gives the 15 gnr it reserved back. */
  lemma ExchangerDeletePurchase()
    ensures var created := Exchanger.PurchaseRequest(Fresh(), 1, STB, 10.0, 1.5);
      && created.result == Ok(1)
      && var deleted := Exchanger.DeleteRequest(created.state, 1);
         deleted.result == Ok(()) && deleted.state.users[1] == Balances(100.0, 100.0)
  {
    var created := Exchanger.PurchaseRequest(Fresh(), 1, STB, 10.0, 1.5);
    assert created.state.users[1] == Balances(100.0, 85.0);
  }

  /** Deleting a fresh sale gives the 10 stb it reserved back. */
  lemma ExchangerDeleteSale()
    ensures var created := Exchanger.SaleRequest(Fresh(), 1, STB, 10.0, 1.5);
      && created.result == Ok(1)
      && var deleted := Exchanger.DeleteRequest(created.state, 1);
         deleted.result == Ok(()) && deleted.state.users[1] == Balances(100.0, 100.0)
  {
    var created := Exchanger.SaleRequest(Fresh(), 1, STB, 10.0, 1.5);
    assert created.state.users[1] == Balances(90.0, 100.0);
  }

  lemma ExchangerCannotDeleteApproved()
    ensures var created := Exchanger.PurchaseRequest(Fresh(), 1, STB, 10.0, 1.5);
      && created.result == Ok(1)
      && var approved := Exchanger.Approve(created.state, 1, 2);
         && approved.result == Ok(())
         && Exchanger.DeleteRequest(approved.state, 1) == Step(approved.state, Err(CannotDeleteApproved))
  {
  }

  /** The refused approval of the sale of all 100 stb: the facade records user 2
      as counterparty anyway, user 1 is left with no stb, user 2 still has 100,
      and the request can no longer be deleted, so user 1 cannot recover the
      100 stb. */
  lemma ExchangerFailedApproveStrands()
    ensures var created := Exchanger.SaleRequest(Fresh(), 1, STB, 100.0, 1.5);
      && created.result == Ok(1)
      && var approved := Exchanger.Approve(created.state, 1, 2);
         && approved.result == Err(NotEnoughFunds)
         && approved.state.requests[1].userTo == Some(2)
         && approved.state.users[1] == Balances(0.0, 100.0)
         && approved.state.users[2] == Balances(100.0, 100.0)
         && Exchanger.DeleteRequest(approved.state, 1).result == Err(CannotDeleteApproved)
  {
    var created := Exchanger.SaleRequest(Fresh(), 1, STB, 100.0, 1.5);
    assert created.state.users[1].Get(STB) == 0.0;
  }

  /** Approving the purchase a second time pays out again: user 1 ends with 120
      stb, user 2 with 110 gnr, and 5 gnr more exist than before; the corrected
      approval refuses. */
  lemma ExchangerReapprovalPaysTwice()
    ensures var approved := Exchanger.Approve(Exchanger.PurchaseRequest(Fresh(), 1, STB, 10.0, 0.5).state, 1, 2);
      && approved.result == Ok(())
      && approved.state.users[1] == Balances(110.0, 95.0)
      && approved.state.users[2] == Balances(90.0, 105.0)
      && Exchanger.ApproveChecked(approved.state, 1, 2) == Step(approved.state, Err(AlreadyApproved))
      && var again := Exchanger.Approve(approved.state, 1, 2);
         && again.result == Ok(())
         && again.state.users[1] == Balances(120.0, 95.0)
         && again.state.users[2] == Balances(80.0, 110.0)
  {
    var created := Exchanger.PurchaseRequest(Fresh(), 1, STB, 10.0, 0.5);
    var approved := Exchanger.Approve(created.state, 1, 2);
    assert approved.state.users[1].Get(STB) == 110.0;
    assert approved.state.users[2].Get(STB) == 90.0;
    assert approved.state.users[2].Get(GNR) == 105.0;
    var again := Exchanger.Approve(approved.state, 1, 2);
    assert again.state.users[1].Get(STB) == 120.0;
    assert again.state.users[2].Get(STB) == 80.0;
    assert again.state.users[2].Get(GNR) == 110.0;
  }
}
