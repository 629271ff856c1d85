# Finance: the ledger of a stock-trading web site

The site is a small Flask application backed by SQLite. Registered users get
play money and buy and sell stocks at prices from an external quote service.
The requests that change anything touch three tables:

- `users`: id, username, password digest and cash;
- `belongings`: one row per (user, symbol), with the company name and the share count;
- `history`: one row per trade, with a signed share count (negative for a sale).

This project models the handlers' bookkeeping on those tables and proves what
it does. Money is counted in integer cents and shares in integers.

- `tables.dfy` (module `Tables`) holds the rows and the quote. It writes each
  SQL statement the handlers run as a function from the table before to the
  table after: the select of a user's rows, the two `UPDATE belongings`
  statements, and the global `DELETE ... WHERE shares=0`. It also defines the
  share count of a position (`Held`) and the market value of rows (`Value`),
  and proves how each statement moves them.
- `ledger.dfy` (module `Ledger`) holds the ledger as one value (`Db`) and the
  invariant every request keeps (`WellFormed`: ids below the next id, one user
  per name, one row per (user, symbol)). Each state-changing request is a
  specification function from the ledger before to the outcome and the ledger
  after: `BuyStep`/`Bought`, `SellStep`/`SellAt` and `RegisterStep`. The
  lemmas in this module state the properties of those requests.
- `finance.dfy` (module `Application`) holds class `Finance`, whose fields are
  the three tables plus the next id. Its methods follow the handlers statement
  by statement, with the handlers' own search loops. Each state-changing method
  is proved to leave the fields exactly as the matching step function says,
  and to keep `WellFormed`. The read-only `Login` (credential check) and
  `Index` (valuation loop) state their results directly.
- `quirks.dfy` (module `Quirks`) holds concrete requests on small ledgers. They
  show the corners the handlers leave open, such as a negative buy, a
  lower-case sell, the global zero-row delete, and a sell whose quote read
  fails after the row update.

A failing request answers with a `Failure`. Most failures are the site's own
403 apologies. Two are Python exceptions that the server turns into an HTTP
500:

- `QuoteUnavailable`: a price is read from a quote the service did not give;
- `NoResponse`: the sell handler falls off its end and returns nothing.

The model keeps the source's behaviour rather than fixing it:

- buy and sell accept any quantity, negative included;
- sell compares the symbol as typed with the stored upper-case one;
- sell's delete of zero rows applies to every user;
- sell writes the new share count before it reads the price, so a sell of an
  unlisted symbol cuts the position and then fails;
- register refuses a name only when the select by name returns exactly one row.

## Model

| member | source | states |
|---|---|---|
| `Application.Finance.constructor` | application.py:37 | the database starts with no users, rows or trades, and hands out ids from 1 |
| `Application.Finance.Buy` | application.py:61-114 | the handler's statements, from the symbol choice to the insert, leave the tables exactly as `BuyStep` of the old tables, and the ledger stays well formed |
| `Application.Finance.RaiseHolding` | application.py:97-111 | the search of the user's rows raises the row for the symbol when there is one, else appends one row with the quantity; users and history untouched |
| `Application.Finance.Sell` | application.py:240-273 | the two search loops stop where `SellStep` says: the first row with the symbol and enough shares is sold from, else a row with too few shares gives the refusal, else no response; the tables end as `SellStep` says and stay well formed |
| `Application.Finance.SellFrom` | application.py:253-269 | the statements run once a row fits (row update, price read, cash credit, trade insert, zero-row delete) produce `SellAt`, including the partial write when the price read fails |
| `Application.Finance.Register` | application.py:199-232 | the checks and the insert leave the tables exactly as `RegisterStep` of the old tables, and the ledger stays well formed |
| `Application.Finance.Login` | application.py:140-156 | missing name, then missing password, are reported in that order; login succeeds iff the select by name returns exactly one user and the hash check accepts the password, and then returns that user's id; every other case is invalid credentials |
| `Application.Finance.Index` | application.py:46-57 | the loop's total equals the market value of all the user's rows, and it is returned with the rows and the user's cash; it fails on the quote read iff some row's symbol is unlisted |
| `Ledger.OrderSymbol` | application.py:66-70 | no contract; its body is the model: the typed symbol, else the one picked from the owned list, upper-cased |
| `Ledger.BuyStep` | application.py:66-111 | no contract; its body is the model of the buy handler: the three checks in the source's order, each refusal leaving the ledger as it was, else `Bought` |
| `Ledger.Bought` | application.py:89-111 | no contract; its body is the model of the writes of an accepted buy: the cash debit, the trade insert, then the update of the existing row or the insert of a new one |
| `Ledger.SellStep` | application.py:250-273 | no contract; its body is the model of the sell handler: the first loop's stop (via `FirstFit`) goes to `SellAt`, else the second loop's stop gives the refusal, else no response |
| `Ledger.SellAt` | application.py:256-268 | no contract; its body is the model of the writes once a row fits: the row update, then (symbol listed) the credit, the trade with -shares and the global zero-row delete, or (unlisted) the failed price read with the row update already done |
| `Ledger.RegisterStep` | application.py:210-229 | no contract; its body is the model of the register handler: the four checks in the source's order, then the insert under the next id with the default cash |
| `Ledger.Named` | application.py:214 | no contract; its body is the model of the select by username, as the set of ids it returns |
| `Ledger.NetWorth` | application.py:49-57 | no contract; its body is the total the summary page shows: the user's cash plus the market value of the user's rows |
| `Ledger.BuyAccepts` | application.py:75-90 | a buy of a nonempty, listed symbol that the cash covers is accepted and ends in `Bought` |
| `Ledger.BuyAccepted` | application.py:75-90 | conversely, an accepted buy names a listed symbol the cash covers and ends in `Bought` |
| `Ledger.BuyRefusals` | application.py:75-86 | each buy refusal (no symbol, unlisted, insufficient funds) fires exactly when the handler's checks, in their order, say; a refusal writes nothing |
| `Ledger.BuySuccess` | application.py:89-111 | an accepted buy debits exactly price times quantity from the buyer and from no other user, and logs exactly one trade with the user, symbol, name, price and quantity; an existing row keeps its place and is raised by the quantity while every other row stays as it was, else exactly one row is appended |
| `Ledger.BuyMovesOnlyThatPosition` | application.py:97-111 | an accepted buy raises the buyer's position in the symbol by the quantity and leaves every other (user, symbol) position unchanged |
| `Ledger.BoughtMovesOnlyThatPosition` | application.py:100-111 | the update-or-insert moves only the (user, symbol) position, by the quantity |
| `Ledger.BuyKeepsNetWorth` | application.py:89-111 | at the quoted prices, an accepted buy leaves cash plus market value unchanged |
| `Ledger.BoughtKeepsNetWorth` | application.py:89-111 | the debit and the row change of a buy cancel in the user's total |
| `Ledger.BuyKeepsWellFormed` | application.py:89-111 | a buy keeps one row per (user, symbol) and the users table well formed |
| `Ledger.BoughtKeepsWellFormed` | application.py:97-111 | the insert happens only for a key with no row, so keys stay unique |
| `Ledger.FirstFit` | application.py:251-253 | the loop's stopping index is within bounds and is the first row satisfying the loop's condition |
| `Ledger.FirstFitIs` | application.py:251-273 | a loop that stops at k, or runs out at the end, has stopped at `FirstFit` |
| `Ledger.SellRow` | application.py:250-253 | when the first loop stops, it stops at the user's row for the symbol with enough shares |
| `Ledger.SellOutcomes` | application.py:251-273 | a sell succeeds iff the user has a row with the exact symbol and enough shares and the symbol is listed; it fails on the quote read iff such a row exists but the symbol is unlisted; it is refused iff there are rows only with too few shares; it gets no response iff the user has no row for the symbol |
| `Ledger.SellSuccess` | application.py:256-268 | an accepted sell credits exactly price times shares to the seller and no other user, logs exactly one trade with -shares, and leaves no zero row for any user |
| `Ledger.SellMovesOnlyThatPosition` | application.py:256-268 | an accepted sell lowers the seller's position by exactly the shares sold and leaves every other position unchanged |
| `Ledger.SellAtMovesOnlyThatPosition` | application.py:256-268 | the row update and the delete move only that position, by -shares |
| `Ledger.SellKeepsNetWorth` | application.py:256-268 | at the quoted prices, an accepted sell leaves cash plus market value unchanged |
| `Ledger.SellAtKeepsNetWorth` | application.py:256-268 | the credit and the row change of a sell cancel in the user's total |
| `Ledger.SellKeepsWellFormed` | application.py:251-273 | every sell, failing ones included, keeps the ledger well formed |
| `Ledger.SellAtKeepsWellFormed` | application.py:256-268 | the update keeps keys, and the delete keeps keys unique |
| `Ledger.SellOverdraftChangesNothing` | application.py:271-273 | selling more shares than the user's row for the symbol holds is refused and changes nothing |
| `Ledger.SellRefusalsChangeNothing` | application.py:271-273 | a refused sell and a sell of a symbol not held leave the ledger untouched |
| `Ledger.SellWithoutQuoteWritesHalf` | application.py:256-261 | when the price read fails, cash and history are untouched but the position has already been cut by the shares |
| `Ledger.SetCashKeepsUsers` | application.py:89-90 | changing one user's cash keeps ids below the next id and names unique |
| `Ledger.KeysUniqueSameKeys` | application.py:103-104 | an update that changes only share counts keeps keys unique |
| `Ledger.HeldAbsent` | application.py:109-111 | a key with no row holds nothing, so an insert creates the position |
| `Ledger.NamedAtMostOne` | application.py:214-215 | with one user per name, the select by name returns at most one user |
| `Ledger.RegisterRefusals` | application.py:210-224 | each registration refusal fires exactly when the handler's checks, in their order, say; on a well-formed ledger "taken" means some user has the name; the registration succeeds iff all checks pass; a refusal writes nothing |
| `Ledger.RegisterSuccess` | application.py:226-229 | a successful registration adds exactly one user under a fresh id, with the name, the digest and the default cash; afterwards the name selects that user alone; nothing else changes |
| `Ledger.RegisterKeepsWellFormed` | application.py:199-232 | a registration keeps ids below the next id and names unique |
| `Tables.Value` | application.py:49-51 | no contract; its body is the model of the summed market value: shares times current price, row by row |
| `Tables.Held` | application.py:103-111 | no contract; its body is the size of a (user, symbol) position: the shares of the rows with that key |
| `Tables.RowsOf` | application.py:47-48 | the select returns no more rows than the table has |
| `Tables.RowsOfMembers` | application.py:250 | the select by user returns exactly that user's rows |
| `Tables.RowsOfConcat` | application.py:110-111 | selecting from a table with rows appended selects from both parts |
| `Tables.AddShares` | application.py:103-104 | the increment keeps the number of rows |
| `Tables.AddSharesAt` | application.py:103-104 | the increment changes exactly the rows with the user and symbol, each by the amount, in place |
| `Tables.AddSharesMiss` | application.py:103-104 | an increment that matches no row changes nothing |
| `Tables.AddSharesOtherUser` | application.py:103-104 | the increment leaves every other user's rows as they were |
| `Tables.AddSharesValue` | application.py:103-104 | on a held position, the increment raises the user's market value by the amount times the price |
| `Tables.AddSharesValueAtHead` | application.py:103-104 | the step of that proof where the first row is the one updated |
| `Tables.AddSharesValuePastHead` | application.py:103-104 | the step of that proof where the updated row comes later |
| `Tables.HeldAfterAdd` | application.py:103-104 | on a held position, the increment moves that position by the amount and no other |
| `Tables.SetShares` | application.py:256-257 | the assignment keeps the number of rows |
| `Tables.SetSharesAt` | application.py:256-257 | the assignment sets exactly the rows with the user and symbol, in place |
| `Tables.SetSharesAsAdd` | application.py:256-257 | with unique keys, assigning a row's shares plus n is adding n |
| `Tables.HeldAfterSet` | application.py:256-257 | the assignment moves that position by the change |
| `Tables.PruneZero` | application.py:268 | the delete removes rows only |
| `Tables.PruneZeroMembers` | application.py:268 | the delete keeps exactly the rows with nonzero shares |
| `Tables.PruneZeroKeysUnique` | application.py:268 | after the delete no zero row remains and keys stay unique |
| `Tables.PruneZeroValue` | application.py:268 | the delete leaves every user's market value unchanged |
| `Tables.HeldAfterPrune` | application.py:268 | the delete changes no position's size |
| `Tables.HeldAfterAddPrune` | application.py:256-268 | increment then delete move only that position |
| `Tables.ValueAfterAddPrune` | application.py:256-268 | increment then delete change the market value by the amount times the price |
| `Tables.HeldAfterSetPrune` | application.py:256-268 | the sell's assignment then delete move only that position, by the change |
| `Tables.ValueAfterSetPrune` | application.py:256-268 | the sell's assignment then delete change the market value by the change times the price |
| `Tables.ValueAfterInsert` | application.py:110-111 | inserting a row of the user's raises the market value by that row's value |
| `Tables.HeldSnoc` | application.py:110-111 | an inserted row adds its shares to its own key and to no other |
| `Tables.HeldCons` | application.py:100-101 | the size of a position, read off a table row by row |
| `Tables.KeysUniqueSnoc` | application.py:110-111 | inserting a row with a new key keeps keys unique |
| `Tables.KeysUniqueCons` | application.py:268 | a kept row with a new key in front of unique keys keeps them unique |
| `Tables.KeysUniqueTail` | application.py:268 | unique keys stay unique when the first row is dropped |
| `Tables.ValueConcat` | application.py:49-51 | the summed value of two row lists is the sum of their values |
| `Tables.ValueCons` | application.py:49-51 | the value of a row followed by others |
| `Tables.RowsAtHead` | application.py:47-48 | the select keeps a leading row of the user's |
| `Tables.Upper` | application.py:70 | upper-casing keeps the length, turns each lower-case ASCII letter into its capital and keeps every other character |
| `Tables.UpperIdempotent` | application.py:70 | upper-casing an upper-cased symbol changes nothing |
| `Quirks.UpperAcme` | application.py:70 | a lower-case symbol typed into buy is stored upper-cased |
| `Quirks.NegativeBuyPaysTheBuyer` | application.py:72-111 | buying -2 shares passes every check, pays the buyer and leaves a row of -2 shares |
| `Quirks.LowerCaseSellGetsNoResponse` | application.py:243-273 | a lower-case sell of a held symbol matches no row and gets no response |
| `Quirks.SellDeletesOtherUsersZeroRows` | application.py:268 | a sell by one user deletes another user's zero row |
| `Quirks.UnlistedSellCutsThePosition` | application.py:256-261 | a sell of an unlisted held symbol cuts the position and credits nothing |
| `Quirks.BuyThenSell` | application.py:61-114 | buying 10 at 50.00 from 10000.00 and then selling 4 at 60.00 leaves 9740.00, 6 shares and two trades |

## Left out

- Flask plumbing is not modelled: routing, the GET pages, the cache headers, the `usd` filter, the error handler, the `API_KEY` startup check and the debugging `print` calls in buy and sell. None of them touch the tables.
- The model's states are those reachable from a fresh, empty database. The site opens an existing `finance.db` file, whose contents are not part of this model.
- Sessions are not modelled. The logged-in user's id is a parameter, and handlers behind `login_required` require that id to be a user. `Login` returns the id rather than storing it in the session.
- The SQL engine is not modelled: no atomicity, no concurrent requests. Each handler is one sequential step over in-memory tables. A table is a sequence in insertion order.
- The quote service (`lookup` in helpers.py) is not part of this model. It is a map parameter whose absent keys mean "not listed". Buy reads it twice; the model assumes both reads agree.
- Password hashing is a pair of parameters: `digest` for the salted hash that register stores, and `matches` for the hash check of login.
- Trade timestamps are not modelled.
- Floating-point prices and the `float(...)` parse of the buy quantity are not modelled. Prices are integer cents and quantities integers. As a result the `int(quantity)` truncation of the existing-row update cannot differ from the quantity logged and inserted.
- Absent form fields (which crash the handlers on `None.upper()` or `int(None)`) are not modelled. The symbol, name and password fields are strings, and an absent one is the empty string.
- The `int(...)` parse of the sell quantity is not modelled. The quantity is an integer parameter, so the model has no case for input such as "", "1.5" or "abc", on which the parse raises ValueError (answered with HTTP 500) before any table is read.
- Upper-casing covers ASCII letters only.
- The cash of a new user (10000.00 dollars) is the `cash` column default of the database schema, which is not part of this model.
- The read-only `history` and `quote` handlers and `logout` are not modelled; they change no table.
- `Application.Finance.Index` returns the summary rather than rendering it. The per-row prices the template reads are not modelled.
