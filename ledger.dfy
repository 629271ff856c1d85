/**
 * The ledger as one value (the three tables plus the next user id the
 * database would hand out), the invariant the handlers keep, and what each
 * state-changing request does to the ledger, defined as a function from the
 * ledger before to the outcome and the ledger after.  The class in
 * finance.dfy runs the same requests step by step and is proved to agree
 * with these functions; the properties of the requests are proved here.
 */
module Ledger {
  import opened Tables

  /**
   * Why a request fails.  All but two are the site's own apologies, answered
   * with HTTP 403.  NoResponse (a sell handler that returns nothing) and
   * QuoteUnavailable (a price read from a quote the service did not give)
   * are Python exceptions that the server answers with HTTP 500.
   */
  datatype Failure =
    | MissingSymbol
    | NotListed
    | InsufficientFunds
    | NotEnoughShares
    | NoResponse
    | QuoteUnavailable
    | MissingUsername
    | UsernameTaken
    | MissingPassword
    | PasswordMismatch
    | InvalidCredentials

  datatype Result<T> = Ok(value: T) | Err(error: Failure)

  /** The three tables, and the id the next registered user gets. */
  datatype Db = Db(users: map<UserId, Account>, belongings: seq<Holding>, history: seq<Trade>, nextId: UserId)

  /** Outcome of a state-changing request, and the ledger after it. */
  datatype Step = Step(result: Result<()>, after: Db)

  /**
   * Cash of a newly registered user, in cents: the default of the `cash`
   * column of the database schema (10000.00 dollars).
   */
  const DefaultCash: int := 1_000_000

  /**
   * What every request keeps: ids below the next id, one user per name, one
   * row per (user, symbol) in `belongings`.
   */
  ghost predicate WellFormed(db: Db)
  {
    IdsBelow(db.users, db.nextId) && NamesUnique(db.users) && KeysUnique(db.belongings)
  }

  /** Every user id is below the next id the database hands out. */
  ghost predicate IdsBelow(users: map<UserId, Account>, nextId: UserId)
  {
    forall id :: id in users ==> id < nextId
  }

  /** No two users share a username. */
  ghost predicate NamesUnique(users: map<UserId, Account>)
  {
    forall a, b :: a in users && b in users && users[a].username == users[b].username ==> a == b
  }

  /** Changing a user's cash keeps the users table well formed. */
  lemma SetCashKeepsUsers(users: map<UserId, Account>, nextId: UserId, uid: UserId, cash: int)
    requires IdsBelow(users, nextId) && NamesUnique(users) && uid in users
    ensures var users' := users[uid := users[uid].(cash := cash)];
      IdsBelow(users', nextId) && NamesUnique(users')
  {
  }

  /** `SELECT * FROM users WHERE username = name`, as the set of ids it returns. */
  function Named(users: map<UserId, Account>, name: string): set<UserId>
  {
    set id | id in users && users[id].username == name
  }

  /** What the summary page shows as the user's total: cash plus market value of the holdings. */
  function NetWorth(db: Db, uid: UserId, quotes: Quotes): int
    requires uid in db.users
  {
    db.users[uid].cash + Value(RowsOf(db.belongings, uid), quotes)
  }

  /** The symbol a buy order names: the typed one, else the one picked from the owned list, upper-cased. */
  function OrderSymbol(typed: string, owned: string): string
  {
    Upper(if typed != "" then typed else owned)
  }

  /**
   * Buying `quantity` shares: refused when no symbol is given, when the quote
   * service does not list it, or when the user's cash is below price times
   * quantity; otherwise the ledger becomes Bought.  The quantity is not
   * checked to be positive.
   */
  function BuyStep(db: Db, uid: UserId, typed: string, owned: string, quantity: int, quotes: Quotes): Step
    requires uid in db.users
  {
    var symbol := OrderSymbol(typed, owned);
    if symbol == "" then Step(Err(MissingSymbol), db)
    else if symbol !in quotes then Step(Err(NotListed), db)
    else if db.users[uid].cash < quotes[symbol].price * quantity then Step(Err(InsufficientFunds), db)
    else Step(Ok(()), Bought(db, uid, symbol, quotes[symbol], quantity))
  }

  /**
   * The ledger after an accepted buy at quote q: the cash is debited, the
   * position is raised (an existing row is updated, else a row is inserted)
   * and one trade is logged.
   */
  function Bought(db: Db, uid: UserId, symbol: string, q: Quote, quantity: int): Db
    requires uid in db.users
  {
    var account := db.users[uid];
    var belongings :=
      if Owns(db.belongings, uid, symbol) then AddShares(db.belongings, uid, symbol, quantity)
      else db.belongings + [Holding(uid, symbol, q.name, quantity)];
    db.(users := db.users[uid := account.(cash := account.cash - q.price * quantity)],
        belongings := belongings,
        history := db.history + [Trade(uid, symbol, q.name, q.price, quantity)])
  }

  /** A buy of a listed symbol the user can pay for is accepted and ends in Bought. */
  lemma BuyAccepts(db: Db, uid: UserId, typed: string, owned: string, quantity: int, quotes: Quotes)
    requires uid in db.users
    requires var symbol := OrderSymbol(typed, owned);
      symbol != "" && symbol in quotes && db.users[uid].cash >= quotes[symbol].price * quantity
    ensures var symbol := OrderSymbol(typed, owned);
      BuyStep(db, uid, typed, owned, quantity, quotes) == Step(Ok(()), Bought(db, uid, symbol, quotes[symbol], quantity))
  {
  }

  /** An accepted buy names a listed symbol the user can pay for, and ends in Bought. */
  lemma BuyAccepted(db: Db, uid: UserId, typed: string, owned: string, quantity: int, quotes: Quotes)
    requires uid in db.users
    requires BuyStep(db, uid, typed, owned, quantity, quotes).result.Ok?
    ensures var symbol := OrderSymbol(typed, owned);
      && symbol in quotes
      && db.users[uid].cash >= quotes[symbol].price * quantity
      && BuyStep(db, uid, typed, owned, quantity, quotes).after == Bought(db, uid, symbol, quotes[symbol], quantity)
  {
  }

  /** The condition of sell's first loop (enough = true) and of its second (enough = false). */
  predicate Fits(h: Holding, symbol: string, shares: int, enough: bool)
  {
    h.symbol == symbol && (shares <= h.shares) == enough
  }

  /** Index of the first row the loop stops at, or |rows| when it runs to the end. */
  function FirstFit(rows: seq<Holding>, symbol: string, shares: int, enough: bool): (k: nat)
    ensures k <= |rows|
    ensures k < |rows| ==> Fits(rows[k], symbol, shares, enough)
    ensures forall j :: 0 <= j < k ==> !Fits(rows[j], symbol, shares, enough)
  {
    if rows == [] then 0
    else if Fits(rows[0], symbol, shares, enough) then 0
    else 1 + FirstFit(rows[1..], symbol, shares, enough)
  }

  /** A loop that stops at k (or runs out at k == |rows|) has stopped where FirstFit says. */
  lemma FirstFitIs(rows: seq<Holding>, symbol: string, shares: int, enough: bool, k: nat)
    requires k <= |rows| && (k < |rows| ==> Fits(rows[k], symbol, shares, enough))
    requires forall j :: 0 <= j < k ==> !Fits(rows[j], symbol, shares, enough)
    ensures FirstFit(rows, symbol, shares, enough) == k
  {
    var f := FirstFit(rows, symbol, shares, enough);
    assert !(f < k);
    assert !(k < f);
  }

  /**
   * Selling `shares` shares of `symbol` (taken as typed, not upper-cased):
   * the handler walks the user's rows and stops at the first one with that
   * symbol and at least that many shares (SellAt says what happens then); if
   * there is none it walks them again for a row with that symbol and too few
   * shares, which is refused.  A symbol not held at all gets no response.
   */
  function SellStep(db: Db, uid: UserId, symbol: string, shares: int, quotes: Quotes): Step
    requires uid in db.users
  {
    var rows := RowsOf(db.belongings, uid);
    var k := FirstFit(rows, symbol, shares, true);
    if k < |rows| then SellAt(db, uid, symbol, shares, quotes, rows[k])
    else if FirstFit(rows, symbol, shares, false) < |rows| then Step(Err(NotEnoughShares), db)
    else Step(Err(NoResponse), db)
  }

  /**
   * Sell once its loop has stopped at `row`: the user's row for the symbol is
   * set to the row's shares minus the sale; then the price is read, cash is
   * credited, one trade with -shares is logged and every zero row of every
   * user is deleted.  When the quote service does not list the symbol the
   * price read fails after the row update has already run.
   */
  function SellAt(db: Db, uid: UserId, symbol: string, shares: int, quotes: Quotes, row: Holding): Step
    requires uid in db.users
  {
    var updated := SetShares(db.belongings, uid, symbol, row.shares - shares);
    if symbol !in quotes then Step(Err(QuoteUnavailable), db.(belongings := updated))
    else
      var q := quotes[symbol];
      var account := db.users[uid];
      Step(Ok(()), db.(users := db.users[uid := account.(cash := account.cash + q.price * shares)],
                       belongings := PruneZero(updated),
                       history := db.history + [Trade(uid, symbol, q.name, q.price, -shares)]))
  }

  /** An update that keeps every row's key keeps keys unique. */
  lemma KeysUniqueSameKeys(t: seq<Holding>, r: seq<Holding>)
    requires KeysUnique(t) && |r| == |t|
    requires forall i :: 0 <= i < |t| ==> SameKey(r[i], t[i])
    ensures KeysUnique(r)
  {
    forall i, j | 0 <= i < j < |r| ensures !SameKey(r[i], r[j]) {
      assert !SameKey(t[i], t[j]);
    }
  }

  /** A buy keeps the ledger well formed: an existing position is updated, a new one gets a new key. */
  lemma BuyKeepsWellFormed(db: Db, uid: UserId, typed: string, owned: string, quantity: int, quotes: Quotes)
    requires WellFormed(db) && uid in db.users
    ensures WellFormed(BuyStep(db, uid, typed, owned, quantity, quotes).after)
  {
    if BuyStep(db, uid, typed, owned, quantity, quotes).result.Ok? {
      var symbol := OrderSymbol(typed, owned);
      BuyAccepted(db, uid, typed, owned, quantity, quotes);
      BoughtKeepsWellFormed(db, uid, symbol, quotes[symbol], quantity);
    }
  }

  /** Bought keeps the ledger well formed, at any quote. */
  lemma BoughtKeepsWellFormed(db: Db, uid: UserId, symbol: string, q: Quote, quantity: int)
    requires WellFormed(db) && uid in db.users
    ensures WellFormed(Bought(db, uid, symbol, q, quantity))
  {
    var after := Bought(db, uid, symbol, q, quantity);
    if Owns(db.belongings, uid, symbol) {
      AddSharesAt(db.belongings, uid, symbol, quantity);
      KeysUniqueSameKeys(db.belongings, after.belongings);
    } else {
      KeysUniqueSnoc(db.belongings, Holding(uid, symbol, q.name, quantity));
    }
    SetCashKeepsUsers(db.users, db.nextId, uid, db.users[uid].cash - q.price * quantity);
  }

  /**
   * A successful buy raises the buyer's position in the symbol by exactly the
   * quantity, whether the row existed or was inserted, and leaves every other
   * position of every user as it was.
   */
  lemma BuyMovesOnlyThatPosition(db: Db, uid: UserId, typed: string, owned: string, quantity: int, quotes: Quotes,
                                 id: UserId, sym: string)
    requires WellFormed(db) && uid in db.users
    requires BuyStep(db, uid, typed, owned, quantity, quotes).result.Ok?
    ensures var symbol := OrderSymbol(typed, owned);
      Held(BuyStep(db, uid, typed, owned, quantity, quotes).after.belongings, id, sym)
      == Held(db.belongings, id, sym) + (if id == uid && sym == symbol then quantity else 0)
  {
    var symbol := OrderSymbol(typed, owned);
    BuyAccepted(db, uid, typed, owned, quantity, quotes);
    BoughtMovesOnlyThatPosition(db, uid, symbol, quotes[symbol], quantity, id, sym);
  }

  /** Bought moves only the (uid, symbol) position, by the quantity. */
  lemma BoughtMovesOnlyThatPosition(db: Db, uid: UserId, symbol: string, q: Quote, quantity: int, id: UserId, sym: string)
    requires KeysUnique(db.belongings) && uid in db.users
    ensures Held(Bought(db, uid, symbol, q, quantity).belongings, id, sym)
         == Held(db.belongings, id, sym) + (if id == uid && sym == symbol then quantity else 0)
  {
    if Owns(db.belongings, uid, symbol) {
      HeldAfterAdd(db.belongings, uid, symbol, quantity, id, sym);
    } else {
      HeldSnoc(db.belongings, Holding(uid, symbol, q.name, quantity), id, sym);
      if id == uid && sym == symbol {
        HeldAbsent(db.belongings, uid, symbol);
      }
    }
  }

  /** A key with no row holds nothing. */
  lemma {:induction false} HeldAbsent(t: seq<Holding>, uid: UserId, symbol: string)
    requires !Owns(t, uid, symbol)
    ensures Held(t, uid, symbol) == 0
  {
    if t != [] {
      assert t[0] in t;
      assert !Owns(t[1..], uid, symbol) by {
        forall h | h in t[1..] ensures !Matches(h, uid, symbol) {
          assert h in t;
        }
      }
      HeldAbsent(t[1..], uid, symbol);
    }
  }

  /**
   * At the prices the buy was made at, a successful buy moves value from cash
   * into the holdings and leaves the buyer's total as it was.
   */
  lemma BuyKeepsNetWorth(db: Db, uid: UserId, typed: string, owned: string, quantity: int, quotes: Quotes)
    requires WellFormed(db) && uid in db.users
    requires BuyStep(db, uid, typed, owned, quantity, quotes).result.Ok?
    ensures NetWorth(BuyStep(db, uid, typed, owned, quantity, quotes).after, uid, quotes) == NetWorth(db, uid, quotes)
  {
    var symbol := OrderSymbol(typed, owned);
    BuyAccepted(db, uid, typed, owned, quantity, quotes);
    BoughtKeepsNetWorth(db, uid, symbol, quantity, quotes);
  }

  /** Bought at the quoted price leaves the buyer's total as it was. */
  lemma BoughtKeepsNetWorth(db: Db, uid: UserId, symbol: string, quantity: int, quotes: Quotes)
    requires KeysUnique(db.belongings) && uid in db.users && symbol in quotes
    ensures NetWorth(Bought(db, uid, symbol, quotes[symbol], quantity), uid, quotes) == NetWorth(db, uid, quotes)
  {
    var q := quotes[symbol];
    var after := Bought(db, uid, symbol, q, quantity);
    var v0, v1 := Value(RowsOf(db.belongings, uid), quotes), Value(RowsOf(after.belongings, uid), quotes);
    assert PriceOf(quotes, symbol) == q.price;
    if Owns(db.belongings, uid, symbol) {
      AddSharesValue(db.belongings, uid, symbol, quantity, quotes);
    } else {
      ValueAfterInsert(db.belongings, Holding(uid, symbol, q.name, quantity), quotes);
    }
    assert v1 == v0 + quantity * PriceOf(quotes, symbol);
    assert quantity * PriceOf(quotes, symbol) == q.price * quantity;
  }

  /** When sell's first loop stops, it stops at a row of the user's for the symbol with enough shares. */
  lemma SellRow(db: Db, uid: UserId, symbol: string, shares: int, quotes: Quotes) returns (h: Holding)
    requires uid in db.users
    requires FirstFit(RowsOf(db.belongings, uid), symbol, shares, true) < |RowsOf(db.belongings, uid)|
    ensures h in db.belongings && Matches(h, uid, symbol) && shares <= h.shares
    ensures SellStep(db, uid, symbol, shares, quotes) == SellAt(db, uid, symbol, shares, quotes, h)
  {
    var rows := RowsOf(db.belongings, uid);
    h := rows[FirstFit(rows, symbol, shares, true)];
    RowsOfMembers(db.belongings, uid);
    assert h in rows;
  }

  /** A sell keeps the ledger well formed, on every path including the failing ones. */
  lemma SellKeepsWellFormed(db: Db, uid: UserId, symbol: string, shares: int, quotes: Quotes)
    requires WellFormed(db) && uid in db.users
    ensures WellFormed(SellStep(db, uid, symbol, shares, quotes).after)
  {
    var rows := RowsOf(db.belongings, uid);
    if FirstFit(rows, symbol, shares, true) < |rows| {
      var h := SellRow(db, uid, symbol, shares, quotes);
      SellAtKeepsWellFormed(db, uid, symbol, shares, quotes, h);
    }
  }

  /** SellAt keeps the ledger well formed, whatever row it is given. */
  lemma SellAtKeepsWellFormed(db: Db, uid: UserId, symbol: string, shares: int, quotes: Quotes, h: Holding)
    requires WellFormed(db) && uid in db.users
    ensures WellFormed(SellAt(db, uid, symbol, shares, quotes, h).after)
  {
    var updated := SetShares(db.belongings, uid, symbol, h.shares - shares);
    SetSharesAt(db.belongings, uid, symbol, h.shares - shares);
    KeysUniqueSameKeys(db.belongings, updated);
    PruneZeroKeysUnique(updated);
    if symbol in quotes {
      SetCashKeepsUsers(db.users, db.nextId, uid, db.users[uid].cash + quotes[symbol].price * shares);
    }
  }

  /**
   * A successful sell lowers the seller's position in the symbol by exactly
   * the shares sold and leaves every other position as it was: the zero rows
   * the sell deletes held nothing.
   */
  lemma SellMovesOnlyThatPosition(db: Db, uid: UserId, symbol: string, shares: int, quotes: Quotes,
                                  id: UserId, sym: string)
    requires WellFormed(db) && uid in db.users
    requires SellStep(db, uid, symbol, shares, quotes).result.Ok?
    ensures Held(SellStep(db, uid, symbol, shares, quotes).after.belongings, id, sym)
         == Held(db.belongings, id, sym) - (if id == uid && sym == symbol then shares else 0)
  {
    var h := SellRow(db, uid, symbol, shares, quotes);
    SellAtMovesOnlyThatPosition(db, uid, symbol, shares, quotes, h, id, sym);
  }

  /** SellAt on the user's row for the symbol, with the symbol listed, moves only that position. */
  lemma SellAtMovesOnlyThatPosition(db: Db, uid: UserId, symbol: string, shares: int, quotes: Quotes, h: Holding,
                                    id: UserId, sym: string)
    requires KeysUnique(db.belongings) && uid in db.users && h in db.belongings && Matches(h, uid, symbol)
    requires symbol in quotes
    ensures Held(SellAt(db, uid, symbol, shares, quotes, h).after.belongings, id, sym)
         == Held(db.belongings, id, sym) - (if id == uid && sym == symbol then shares else 0)
  {
    var n := -shares;
    HeldAfterSetPrune(db.belongings, h, uid, symbol, n, id, sym);
    assert h.shares + n == h.shares - shares;
  }

  /**
   * At the prices the sell was made at, a successful sell moves value from
   * the holdings into cash and leaves the seller's total as it was.
   */
  lemma SellKeepsNetWorth(db: Db, uid: UserId, symbol: string, shares: int, quotes: Quotes)
    requires WellFormed(db) && uid in db.users
    requires SellStep(db, uid, symbol, shares, quotes).result.Ok?
    ensures NetWorth(SellStep(db, uid, symbol, shares, quotes).after, uid, quotes) == NetWorth(db, uid, quotes)
  {
    var h := SellRow(db, uid, symbol, shares, quotes);
    SellAtKeepsNetWorth(db, uid, symbol, shares, quotes, h);
  }

  /** SellAt on the user's row for the symbol, with the symbol listed, leaves the seller's total as it was. */
  lemma SellAtKeepsNetWorth(db: Db, uid: UserId, symbol: string, shares: int, quotes: Quotes, h: Holding)
    requires KeysUnique(db.belongings) && uid in db.users && h in db.belongings && Matches(h, uid, symbol)
    requires symbol in quotes
    ensures NetWorth(SellAt(db, uid, symbol, shares, quotes, h).after, uid, quotes) == NetWorth(db, uid, quotes)
  {
    var n, price := -shares, quotes[symbol].price;
    ValueAfterSetPrune(db.belongings, h, uid, symbol, n, quotes);
    assert h.shares + n == h.shares - shares;
    assert PriceOf(quotes, symbol) == price;
    Negates(shares, n, price);
  }

  /** Selling a shares is a change of -a shares: its value is minus the proceeds. */
  lemma Negates(a: int, n: int, p: int)
    requires n == -a
    ensures n * p == -(p * a)
  {
  }

  /**
   * Selling more shares than the one row for the symbol holds is refused and
   * changes nothing.
   */
  lemma SellOverdraftChangesNothing(db: Db, uid: UserId, symbol: string, shares: int, quotes: Quotes, h: Holding)
    requires WellFormed(db) && uid in db.users
    requires h in db.belongings && Matches(h, uid, symbol) && shares > h.shares
    ensures SellStep(db, uid, symbol, shares, quotes) == Step(Err(NotEnoughShares), db)
  {
    var t := db.belongings;
    var rows := RowsOf(t, uid);
    forall g | g in t && Matches(g, uid, symbol) ensures g == h {
      var i :| 0 <= i < |t| && t[i] == g;
      var j :| 0 <= j < |t| && t[j] == h;
      assert SameKey(t[i], t[j]);
    }
    if FirstFit(rows, symbol, shares, true) < |rows| {
      var g := SellRow(db, uid, symbol, shares, quotes);
    }
    RowsOfMembers(t, uid);
    assert h in rows;
    var j :| 0 <= j < |rows| && rows[j] == h;
    assert Fits(rows[j], symbol, shares, false);
  }

  /**
   * Which refusal a buy answers with, in the order the handler checks: no
   * symbol, then a symbol the quote service does not list, then too little
   * cash.  Every refusal leaves the ledger untouched.
   */
  lemma BuyRefusals(db: Db, uid: UserId, typed: string, owned: string, quantity: int, quotes: Quotes)
    requires uid in db.users
    ensures var s := BuyStep(db, uid, typed, owned, quantity, quotes);
      var symbol := OrderSymbol(typed, owned);
      && (s.result.Err? ==> s.after == db)
      && (s.result == Err(MissingSymbol) <==> symbol == "")
      && (s.result == Err(NotListed) <==> symbol != "" && symbol !in quotes)
      && (s.result == Err(InsufficientFunds) <==>
            symbol != "" && symbol in quotes && db.users[uid].cash < quotes[symbol].price * quantity)
  {
  }

  /**
   * A successful buy debits exactly price times quantity from the buyer and
   * from no one else, logs exactly one trade carrying the user, symbol,
   * quote name, price and quantity, and leaves the buyer holding the symbol:
   * an existing row is updated in place, else exactly one row with the
   * quantity is appended.
   */
  lemma BuySuccess(db: Db, uid: UserId, typed: string, owned: string, quantity: int, quotes: Quotes)
    requires uid in db.users
    requires BuyStep(db, uid, typed, owned, quantity, quotes).result.Ok?
    ensures var s := BuyStep(db, uid, typed, owned, quantity, quotes);
      var symbol := OrderSymbol(typed, owned);
      && symbol in quotes
      && var q := quotes[symbol];
      && s.after.users.Keys == db.users.Keys
      && s.after.users[uid] == db.users[uid].(cash := db.users[uid].cash - q.price * quantity)
      && (forall id :: id in db.users && id != uid ==> s.after.users[id] == db.users[id])
      && s.after.history == db.history + [Trade(uid, symbol, q.name, q.price, quantity)]
      && s.after.nextId == db.nextId
      && Owns(s.after.belongings, uid, symbol)
      && (Owns(db.belongings, uid, symbol) ==>
            |s.after.belongings| == |db.belongings| &&
            forall i :: 0 <= i < |db.belongings| ==>
              s.after.belongings[i] == (if Matches(db.belongings[i], uid, symbol)
                                        then db.belongings[i].(shares := db.belongings[i].shares + quantity)
                                        else db.belongings[i]))
      && (!Owns(db.belongings, uid, symbol) ==>
            s.after.belongings == db.belongings + [Holding(uid, symbol, q.name, quantity)])
  {
    var symbol := OrderSymbol(typed, owned);
    BuyAccepted(db, uid, typed, owned, quantity, quotes);
    var t := db.belongings;
    var t' := Bought(db, uid, symbol, quotes[symbol], quantity).belongings;
    if Owns(t, uid, symbol) {
      var h :| h in t && Matches(h, uid, symbol);
      var i :| 0 <= i < |t| && t[i] == h;
      AddSharesAt(t, uid, symbol, quantity);
      assert t'[i] in t' && Matches(t'[i], uid, symbol);
    } else {
      assert t'[|t|] in t';
    }
  }

  /**
   * How a sell ends, by the state of the user's rows for the symbol: some row
   * with enough shares and a listed symbol succeeds, the same with an
   * unlisted symbol fails on the missing quote, only rows with too few
   * shares are refused, and no row at all gets no response.
   */
  lemma SellOutcomes(db: Db, uid: UserId, symbol: string, shares: int, quotes: Quotes)
    requires uid in db.users
    ensures var s := SellStep(db, uid, symbol, shares, quotes);
      var fits := exists h :: h in db.belongings && Matches(h, uid, symbol) && shares <= h.shares;
      && (s.result.Ok? <==> fits && symbol in quotes)
      && (s.result == Err(QuoteUnavailable) <==> fits && symbol !in quotes)
      && (s.result == Err(NotEnoughShares) <==> Owns(db.belongings, uid, symbol) && !fits)
      && (s.result == Err(NoResponse) <==> !Owns(db.belongings, uid, symbol))
  {
    var t := db.belongings;
    var rows := RowsOf(t, uid);
    var k := FirstFit(rows, symbol, shares, true);
    var fits := exists h :: h in t && Matches(h, uid, symbol) && shares <= h.shares;
    RowsOfMembers(t, uid);
    if k < |rows| {
      var h := SellRow(db, uid, symbol, shares, quotes);
    } else {
      assert !fits by {
        forall h | h in t && Matches(h, uid, symbol) ensures shares > h.shares {
          assert h in rows;
          var j :| 0 <= j < |rows| && rows[j] == h;
          assert !Fits(rows[j], symbol, shares, true);
        }
      }
      var k' := FirstFit(rows, symbol, shares, false);
      if k' < |rows| {
        assert rows[k'] in rows;
      } else {
        forall h | h in t ensures !Matches(h, uid, symbol) {
          if h.id == uid {
            assert h in rows;
            var j :| 0 <= j < |rows| && rows[j] == h;
            assert !Fits(rows[j], symbol, shares, false) && !Fits(rows[j], symbol, shares, true);
          }
        }
      }
    }
  }

  /** A refused sell, and a sell of a symbol not held, leave the ledger untouched. */
  lemma SellRefusalsChangeNothing(db: Db, uid: UserId, symbol: string, shares: int, quotes: Quotes)
    requires uid in db.users
    requires SellStep(db, uid, symbol, shares, quotes).result in {Err(NotEnoughShares), Err(NoResponse)}
    ensures SellStep(db, uid, symbol, shares, quotes).after == db
  {
  }

  /**
   * A successful sell credits exactly price times shares to the seller and to
   * no one else, logs exactly one trade with -shares, and leaves no row with
   * zero shares in the table, for any user.
   */
  lemma SellSuccess(db: Db, uid: UserId, symbol: string, shares: int, quotes: Quotes)
    requires uid in db.users
    requires SellStep(db, uid, symbol, shares, quotes).result.Ok?
    ensures var s := SellStep(db, uid, symbol, shares, quotes);
      && symbol in quotes
      && var q := quotes[symbol];
      && s.after.users.Keys == db.users.Keys
      && s.after.users[uid] == db.users[uid].(cash := db.users[uid].cash + q.price * shares)
      && (forall id :: id in db.users && id != uid ==> s.after.users[id] == db.users[id])
      && s.after.history == db.history + [Trade(uid, symbol, q.name, q.price, -shares)]
      && s.after.nextId == db.nextId
      && (forall h :: h in s.after.belongings ==> h.shares != 0)
  {
    var rows := RowsOf(db.belongings, uid);
    if FirstFit(rows, symbol, shares, true) < |rows| {
      var h := SellRow(db, uid, symbol, shares, quotes);
      PruneZeroMembers(SetShares(db.belongings, uid, symbol, h.shares - shares));
    }
  }

  /**
   * A sell of a held symbol the quote service does not list fails after the
   * row update has already run: cash and history are untouched but the
   * position has been cut by the shares "sold".
   */
  lemma SellWithoutQuoteWritesHalf(db: Db, uid: UserId, symbol: string, shares: int, quotes: Quotes)
    requires WellFormed(db) && uid in db.users
    requires SellStep(db, uid, symbol, shares, quotes).result == Err(QuoteUnavailable)
    ensures var s := SellStep(db, uid, symbol, shares, quotes);
      && s.after.users == db.users && s.after.history == db.history && s.after.nextId == db.nextId
      && Held(s.after.belongings, uid, symbol) == Held(db.belongings, uid, symbol) - shares
  {
    var rows := RowsOf(db.belongings, uid);
    if FirstFit(rows, symbol, shares, true) < |rows| {
      var h := SellRow(db, uid, symbol, shares, quotes);
      var n := -shares;
      HeldAfterSet(db.belongings, h, uid, symbol, n);
      assert h.shares + n == h.shares - shares;
    }
  }

  /**
   * Registering `name`: refused when the name is empty, when the select by
   * name returns exactly one user, when the password is empty, or when the
   * confirmation is empty or differs; otherwise a user with the name, the
   * digest of the password and the default cash is inserted under the next
   * id.  The digest is computed outside the model (it is salted).
   */
  function RegisterStep(db: Db, name: string, password: string, confirmation: string, digest: string): Step
  {
    if name == "" then Step(Err(MissingUsername), db)
    else if |Named(db.users, name)| == 1 then Step(Err(UsernameTaken), db)
    else if password == "" then Step(Err(MissingPassword), db)
    else if confirmation == "" || password != confirmation then Step(Err(PasswordMismatch), db)
    else Step(Ok(()), db.(users := db.users[db.nextId := Account(name, digest, DefaultCash)], nextId := db.nextId + 1))
  }

  /** With one user per name, the select by name returns at most one user. */
  lemma NamedAtMostOne(users: map<UserId, Account>, name: string)
    requires NamesUnique(users)
    ensures |Named(users, name)| <= 1
    ensures forall id :: id in users && users[id].username == name ==> Named(users, name) == {id}
  {
    var ids := Named(users, name);
    if id :| id in ids {
      assert ids == {id};
    }
    forall id | id in users && users[id].username == name ensures Named(users, name) == {id} {
      assert id in ids;
    }
  }

  /**
   * Which refusal a registration answers with, in the order the handler
   * checks; on a well-formed ledger the "taken" check fires exactly when
   * some user already has the name.  Every refusal leaves the ledger as it
   * was.
   */
  lemma RegisterRefusals(db: Db, name: string, password: string, confirmation: string, digest: string)
    requires WellFormed(db)
    ensures var s := RegisterStep(db, name, password, confirmation, digest);
      var taken := exists id :: id in db.users && db.users[id].username == name;
      && (s.result.Err? ==> s.after == db)
      && (s.result == Err(MissingUsername) <==> name == "")
      && (s.result == Err(UsernameTaken) <==> name != "" && taken)
      && (s.result == Err(MissingPassword) <==> name != "" && !taken && password == "")
      && (s.result == Err(PasswordMismatch) <==>
            name != "" && !taken && password != "" && (confirmation == "" || password != confirmation))
      && (s.result.Ok? <==> name != "" && !taken && password != "" && confirmation == password)
  {
    NamedAtMostOne(db.users, name);
    var ids := Named(db.users, name);
    if |ids| == 1 {
      var id :| id in ids;
    }
  }

  /**
   * A successful registration adds exactly one user, under a fresh id, with
   * the name, the digest and the default cash, and then that user is the one
   * user the name selects; nothing else in the ledger changes.
   */
  lemma RegisterSuccess(db: Db, name: string, password: string, confirmation: string, digest: string)
    requires WellFormed(db)
    requires RegisterStep(db, name, password, confirmation, digest).result.Ok?
    ensures var s := RegisterStep(db, name, password, confirmation, digest);
      && db.nextId !in db.users
      && s.after.users == db.users[db.nextId := Account(name, digest, DefaultCash)]
      && |s.after.users| == |db.users| + 1
      && Named(s.after.users, name) == {db.nextId}
      && s.after.belongings == db.belongings && s.after.history == db.history
      && s.after.nextId == db.nextId + 1
  {
    var users' := RegisterStep(db, name, password, confirmation, digest).after.users;
    NamedAtMostOne(db.users, name);
    assert Named(db.users, name) == {};
    forall id | id in users' && id != db.nextId ensures users'[id].username != name {
      assert id !in Named(db.users, name);
    }
  }

  /** A registration keeps the ledger well formed: the new id is above all others and the new name is unused. */
  lemma RegisterKeepsWellFormed(db: Db, name: string, password: string, confirmation: string, digest: string)
    requires WellFormed(db)
    ensures WellFormed(RegisterStep(db, name, password, confirmation, digest).after)
  {
    var s := RegisterStep(db, name, password, confirmation, digest);
    if s.result.Ok? {
      RegisterSuccess(db, name, password, confirmation, digest);
      var users' := s.after.users;
      forall a, b | a in users' && b in users' && users'[a].username == users'[b].username ensures a == b {
        if a == db.nextId || b == db.nextId {
          var other := if a == db.nextId then b else a;
          assert users'[other].username == name;
          assert other in Named(users', name);
        }
      }
    }
  }
}
