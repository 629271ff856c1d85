/**
 * The trading site's database as an object whose three tables the request
 * handlers update in place, statement by statement, with the handlers' own
 * loops.  Each state-changing handler is proved to leave the tables exactly
 * as the matching step function of module Ledger says, and to keep the
 * ledger well formed; the read-only handlers state their results directly.
 */
module Application {
  import opened Tables
  import opened Ledger

  /** What the summary page shows: the user's rows, cash, and the market value of the rows. */
  datatype Summary = Summary(rows: seq<Holding>, cash: int, stockCash: int)

  class Finance {
    var users: map<UserId, Account>
    var belongings: seq<Holding>
    var history: seq<Trade>
    var nextId: UserId

    /** The tables as one value. */
    function State(): Db
      reads this
    {
      Db(users, belongings, history, nextId)
    }

    ghost predicate Valid()
      reads this
    {
      WellFormed(State())
    }

    /** An empty database; SQLite hands out ids from 1. */
    constructor ()
      ensures Valid()
      ensures State() == Db(map[], [], [], 1)
    {
      users, belongings, history, nextId := map[], [], [], 1;
    }

    /**
     * `POST /buy` for the logged-in user `uid`: `typed` and `owned` are the
     * two symbol fields of the form, `quotes` what the quote service answers.
     */
    method Buy(uid: UserId, typed: string, owned: string, quantity: int, quotes: Quotes) returns (r: Result<()>)
      requires Valid() && uid in users
      modifies this
      ensures Valid()
      ensures Step(r, State()) == BuyStep(old(State()), uid, typed, owned, quantity, quotes)
    {
      ghost var before := State();
      BuyKeepsWellFormed(before, uid, typed, owned, quantity, quotes);
      var symbol := if typed != "" then typed else owned;
      symbol := Upper(symbol);
      if symbol == "" {
        return Err(MissingSymbol);
      }
      if symbol !in quotes {
        return Err(NotListed);
      }
      var stock := quotes[symbol];
      var account := users[uid];
      if account.cash < stock.price * quantity {
        return Err(InsufficientFunds);
      }
      BuyAccepts(before, uid, typed, owned, quantity, quotes);
      users := users[uid := account.(cash := account.cash - stock.price * quantity)];
      history := history + [Trade(uid, symbol, stock.name, stock.price, quantity)];
      RaiseHolding(uid, symbol, stock.name, quantity);
      return Ok(());
    }

    /**
     * The end of `POST /buy`: search the user's rows for the symbol; raise
     * the row found by `quantity`, or insert a row when there is none.
     */
    method RaiseHolding(uid: UserId, symbol: string, stock: string, quantity: int)
      modifies this
      ensures users == old(users) && history == old(history) && nextId == old(nextId)
      ensures belongings ==
        if Owns(old(belongings), uid, symbol) then AddShares(old(belongings), uid, symbol, quantity)
        else old(belongings) + [Holding(uid, symbol, stock, quantity)]
    {
      var lines := RowsOf(belongings, uid);
      RowsOfMembers(belongings, uid);
      var i := 0;
      while i < |lines|
        invariant 0 <= i <= |lines|
        invariant forall j :: 0 <= j < i ==> lines[j].symbol != symbol
      {
        if symbol == lines[i].symbol {
          assert lines[i] in lines && Matches(lines[i], uid, symbol);
          belongings := AddShares(belongings, uid, symbol, quantity);
          return;
        }
        i := i + 1;
      }
      assert !Owns(belongings, uid, symbol) by {
        forall h | h in belongings && h.id == uid ensures h.symbol != symbol {
          assert h in lines;
        }
      }
      belongings := belongings + [Holding(uid, symbol, stock, quantity)];
    }

    /** `POST /sell` for the logged-in user `uid`, with the symbol as typed. */
    method Sell(uid: UserId, symbol: string, shares: int, quotes: Quotes) returns (r: Result<()>)
      requires Valid() && uid in users
      modifies this
      ensures Valid()
      ensures Step(r, State()) == SellStep(old(State()), uid, symbol, shares, quotes)
    {
      ghost var before := State();
      SellKeepsWellFormed(before, uid, symbol, shares, quotes);
      var rows := RowsOf(belongings, uid);
      var i := 0;
      while i < |rows|
        invariant 0 <= i <= |rows|
        invariant State() == before
        invariant forall j :: 0 <= j < i ==> !Fits(rows[j], symbol, shares, true)
      {
        var row := rows[i];
        if symbol == row.symbol && shares <= row.shares {
          FirstFitIs(rows, symbol, shares, true, i);
          r := SellFrom(uid, symbol, shares, quotes, row);
          return;
        }
        i := i + 1;
      }
      FirstFitIs(rows, symbol, shares, true, |rows|);
      i := 0;
      while i < |rows|
        invariant 0 <= i <= |rows|
        invariant forall j :: 0 <= j < i ==> !Fits(rows[j], symbol, shares, false)
      {
        if symbol == rows[i].symbol && shares > rows[i].shares {
          FirstFitIs(rows, symbol, shares, false, i);
          return Err(NotEnoughShares);
        }
        i := i + 1;
      }
      FirstFitIs(rows, symbol, shares, false, |rows|);
      return Err(NoResponse);
    }

    /**
     * The body of sell's first loop once `row` matches: update the row,
     * read the price, credit the cash, log the trade, delete zero rows.
     */
    method SellFrom(uid: UserId, symbol: string, shares: int, quotes: Quotes, row: Holding) returns (r: Result<()>)
      requires uid in users
      modifies this
      ensures Step(r, State()) == SellAt(old(State()), uid, symbol, shares, quotes, row)
    {
      belongings := SetShares(belongings, uid, symbol, row.shares - shares);
      if symbol !in quotes {
        return Err(QuoteUnavailable);
      }
      var stock := quotes[symbol];
      var account := users[uid];
      users := users[uid := account.(cash := account.cash + stock.price * shares)];
      history := history + [Trade(uid, symbol, stock.name, stock.price, -shares)];
      belongings := PruneZero(belongings);
      return Ok(());
    }

    /**
     * `POST /register`; `digest` stands for the salted hash the handler
     * computes from the password.
     */
    method Register(name: string, password: string, confirmation: string, digest: string) returns (r: Result<()>)
      requires Valid()
      modifies this
      ensures Valid()
      ensures Step(r, State()) == RegisterStep(old(State()), name, password, confirmation, digest)
    {
      RegisterKeepsWellFormed(State(), name, password, confirmation, digest);
      if name == "" {
        return Err(MissingUsername);
      }
      var line := Named(users, name);
      if |line| == 1 {
        return Err(UsernameTaken);
      }
      if password == "" {
        return Err(MissingPassword);
      }
      if confirmation == "" || password != confirmation {
        return Err(PasswordMismatch);
      }
      users := users[nextId := Account(name, digest, DefaultCash)];
      nextId := nextId + 1;
      return Ok(());
    }

    /**
     * The credential check of `POST /login`: the id of the one user with the
     * name, when `matches` (the password-hash check) accepts the password
     * against that user's stored digest.
     */
    method Login(name: string, password: string, matches: (string, string) -> bool) returns (r: Result<UserId>)
      ensures r == Err(MissingUsername) <==> name == ""
      ensures r == Err(MissingPassword) <==> name != "" && password == ""
      ensures r.Ok? <==>
        name != "" && password != "" &&
        exists id :: Named(users, name) == {id} && matches(users[id].hash, password)
      ensures r.Ok? ==> (r.value in users && users[r.value].username == name &&
                         Named(users, name) == {r.value} && matches(users[r.value].hash, password))
      ensures r.Err? ==> r.error in {MissingUsername, MissingPassword, InvalidCredentials}
    {
      if name == "" {
        return Err(MissingUsername);
      }
      if password == "" {
        return Err(MissingPassword);
      }
      var rows := Named(users, name);
      if |rows| != 1 {
        return Err(InvalidCredentials);
      }
      var id :| id in rows;
      assert rows == {id} by {
        forall other | other in rows ensures other == id {
          assert |rows - {id}| == 0;
          assert other in rows - {id} || other == id;
        }
      }
      if !matches(users[id].hash, password) {
        return Err(InvalidCredentials);
      }
      return Ok(id);
    }

    /**
     * `GET /`: the logged-in user's rows, cash and the market value of the
     * rows, summed row by row; a row whose symbol the quote service does not
     * list makes the price read fail.
     */
    method Index(uid: UserId, quotes: Quotes) returns (r: Result<Summary>)
      requires uid in users
      ensures r.Ok? <==> Listed(RowsOf(belongings, uid), quotes)
      ensures r.Ok? ==> r.value == Summary(RowsOf(belongings, uid), users[uid].cash, Value(RowsOf(belongings, uid), quotes))
      ensures r.Err? ==> r.error == QuoteUnavailable
    {
      var rows := RowsOf(belongings, uid);
      var stockCash := 0;
      var i := 0;
      while i < |rows|
        invariant 0 <= i <= |rows|
        invariant forall j :: 0 <= j < i ==> rows[j].symbol in quotes
        invariant stockCash + Value(rows[i..], quotes) == Value(rows, quotes)
      {
        if rows[i].symbol !in quotes {
          assert rows[i] in rows;
          return Err(QuoteUnavailable);
        }
        assert rows[i..][1..] == rows[i + 1..];
        stockCash := stockCash + rows[i].shares * quotes[rows[i].symbol].price;
        i := i + 1;
      }
      var cash := users[uid].cash;
      return Ok(Summary(rows, cash, stockCash));
    }
  }
}
