/**
 * Concrete requests on small ledgers, showing what the handlers do in the
 * corners their checks leave open, and one ordinary buy-then-sell session.
 */
module Quirks {
  import opened Tables
  import opened Ledger

  const Acme := Quote("Acme Corp", 5000)

  /** One user, id 1, with the given cash and rows. */
  function Alone(cash: int, rows: seq<Holding>): Db
  {
    Db(map[1 := Account("alice", "digest", cash)], rows, [], 2)
  }

  lemma UpperAcme()
    ensures Upper("acme") == "ACME"
  {
    var u := Upper("acme");
    assert u[0] == 'A' && u[1] == 'C' && u[2] == 'M' && u[3] == 'E';
  }

  /** Buy does not check the quantity's sign: buying -2 shares pays the buyer and leaves a negative position. */
  lemma NegativeBuyPaysTheBuyer()
    ensures var s := BuyStep(Alone(0, []), 1, "acme", "", -2, map["ACME" := Acme]);
      && s.result == Ok(())
      && s.after.users[1].cash == 10_000
      && s.after.belongings == [Holding(1, "ACME", "Acme Corp", -2)]
  {
    UpperAcme();
  }

  /** Sell compares the symbol as typed with the stored upper-case one: a lower-case sell gets no response. */
  lemma LowerCaseSellGetsNoResponse()
    ensures var db := Alone(0, [Holding(1, "ACME", "Acme Corp", 5)]);
      SellStep(db, 1, "acme", 1, map["ACME" := Acme]) == Step(Err(NoResponse), db)
  {
    var db := Alone(0, [Holding(1, "ACME", "Acme Corp", 5)]);
    assert RowsOf(db.belongings, 1) == [Holding(1, "ACME", "Acme Corp", 5)];
    assert "acme" != "ACME" by {
      assert "acme"[0] != "ACME"[0];
    }
  }

  /** The zero-row delete after a sell removes another user's empty row too. */
  lemma SellDeletesOtherUsersZeroRows()
    ensures var db := Db(map[1 := Account("alice", "a", 0), 2 := Account("bob", "b", 0)],
                         [Holding(1, "ACME", "Acme Corp", 5), Holding(2, "ACME", "Acme Corp", 0)], [], 3);
      SellStep(db, 1, "ACME", 1, map["ACME" := Acme]).after.belongings == [Holding(1, "ACME", "Acme Corp", 4)]
  {
    var t := [Holding(1, "ACME", "Acme Corp", 5), Holding(2, "ACME", "Acme Corp", 0)];
    assert RowsOf(t, 1) == [Holding(1, "ACME", "Acme Corp", 5)] by {
      assert t[1..][1..] == [];
    }
    var updated := [Holding(1, "ACME", "Acme Corp", 4), Holding(2, "ACME", "Acme Corp", 0)];
    assert SetShares(t, 1, "ACME", 4) == updated by {
      assert t[1..][1..] == [];
    }
    assert PruneZero(updated) == [Holding(1, "ACME", "Acme Corp", 4)] by {
      assert updated[1..][1..] == [];
    }
  }

  /** Selling a held symbol the quote service does not list cuts the position but credits nothing. */
  lemma UnlistedSellCutsThePosition()
    ensures var db := Alone(700, [Holding(1, "ZZZ", "Gone Inc", 5)]);
      SellStep(db, 1, "ZZZ", 2, map[]) == Step(Err(QuoteUnavailable), Alone(700, [Holding(1, "ZZZ", "Gone Inc", 3)]))
  {
  }

  /**
   * A session: 10000.00 dollars, buy 10 shares at 50.00, then sell 4 at
   * 60.00, leaves 9740.00 dollars, 6 shares and two trades.
   */
  lemma BuyThenSell()
    ensures var bought := BuyStep(Alone(DefaultCash, []), 1, "ACME", "", 10, map["ACME" := Acme]);
      var sold := SellStep(bought.after, 1, "ACME", 4, map["ACME" := Quote("Acme Corp", 6000)]);
      && bought.result == Ok(()) && bought.after.users[1].cash == 950_000
      && sold.result == Ok(()) && sold.after.users[1].cash == 974_000
      && sold.after.belongings == [Holding(1, "ACME", "Acme Corp", 6)]
      && sold.after.history == [Trade(1, "ACME", "Acme Corp", 5000, 10), Trade(1, "ACME", "Acme Corp", 6000, -4)]
  {
    assert Upper("ACME") == "ACME";
    var bought := BuyStep(Alone(DefaultCash, []), 1, "ACME", "", 10, map["ACME" := Acme]);
    assert bought.after.belongings == [Holding(1, "ACME", "Acme Corp", 10)];
  }
}
