/**
 * The rows of the three tables behind the trading site (users, belongings,
 * history), the quote a price lookup returns, and the SQL statements the
 * handlers run, each written as a function from the table before the
 * statement to the table after it.
 *
 * Money is counted in integer cents and shares in whole integers.
 */
module Tables {

  type UserId = nat

  /** A row of `users`: login name, stored password digest, cash in cents. */
  datatype Account = Account(username: string, hash: string, cash: int)

  /** A row of `belongings`: one user's position in one symbol. */
  datatype Holding = Holding(id: UserId, symbol: string, stock: string, shares: int)

  /** A row of `history`; shares are signed (negative for a sale). The timestamp is not modelled. */
  datatype Trade = Trade(id: UserId, symbol: string, stock: string, price: nat, shares: int)

  /** What the quote service answers for a listed symbol: company name and price in cents. */
  datatype Quote = Quote(name: string, price: nat)

  /** The quote service as a table: a symbol it does not list is absent. */
  type Quotes = map<string, Quote>

  /** The `WHERE id = ... AND symbol = ...` condition of the belongings updates. */
  predicate Matches(h: Holding, uid: UserId, symbol: string)
  {
    h.id == uid && h.symbol == symbol
  }

  /** Two rows describe the same (user, symbol) position. */
  predicate SameKey(a: Holding, b: Holding)
  {
    a.id == b.id && a.symbol == b.symbol
  }

  /** The user holds a row for the symbol. */
  predicate Owns(t: seq<Holding>, uid: UserId, symbol: string)
  {
    exists h :: h in t && Matches(h, uid, symbol)
  }

  /** No two rows of the table share a (user, symbol) key. */
  ghost predicate KeysUnique(t: seq<Holding>)
  {
    forall i, j :: 0 <= i < j < |t| ==> !SameKey(t[i], t[j])
  }

  /** Every symbol in the rows is listed by the quote service. */
  predicate Listed(rows: seq<Holding>, quotes: Quotes)
  {
    forall h :: h in rows ==> h.symbol in quotes
  }

  /** `SELECT ... FROM belongings WHERE id = uid`: the user's rows, in table order. */
  function RowsOf(t: seq<Holding>, uid: UserId): (r: seq<Holding>)
    ensures |r| <= |t|
  {
    if t == [] then [] else (if t[0].id == uid then [t[0]] else []) + RowsOf(t[1..], uid)
  }

  /** `UPDATE belongings SET shares = shares + n WHERE id = uid AND symbol = symbol`. */
  function AddShares(t: seq<Holding>, uid: UserId, symbol: string, n: int): (r: seq<Holding>)
    ensures |r| == |t|
  {
    if t == [] then []
    else
      var h := t[0];
      [if Matches(h, uid, symbol) then h.(shares := h.shares + n) else h] + AddShares(t[1..], uid, symbol, n)
  }

  /** `UPDATE belongings SET shares = v WHERE id = uid AND symbol = symbol`. */
  function SetShares(t: seq<Holding>, uid: UserId, symbol: string, v: int): (r: seq<Holding>)
    ensures |r| == |t|
  {
    if t == [] then []
    else
      var h := t[0];
      [if Matches(h, uid, symbol) then h.(shares := v) else h] + SetShares(t[1..], uid, symbol, v)
  }

  /** `DELETE FROM belongings WHERE shares = 0`, for every user at once. */
  function PruneZero(t: seq<Holding>): (r: seq<Holding>)
    ensures |r| <= |t|
  {
    if t == [] then []
    else (if t[0].shares != 0 then [t[0]] else []) + PruneZero(t[1..])
  }

  /** Shares the rows keyed (uid, symbol) add up to; with unique keys, the one position's size, or 0. */
  function Held(t: seq<Holding>, uid: UserId, symbol: string): int
  {
    if t == [] then 0
    else (if Matches(t[0], uid, symbol) then t[0].shares else 0) + Held(t[1..], uid, symbol)
  }

  /** Current price of a symbol; an unlisted one is priced at zero (callers check `Listed` first). */
  function PriceOf(quotes: Quotes, symbol: string): nat
  {
    if symbol in quotes then quotes[symbol].price else 0
  }

  /** Market value of the rows: the sum of shares times current price. */
  function Value(rows: seq<Holding>, quotes: Quotes): int
  {
    if rows == [] then 0
    else rows[0].shares * PriceOf(quotes, rows[0].symbol) + Value(rows[1..], quotes)
  }

  /** Upper-casing of one character (ASCII letters only). */
  function UpperChar(c: char): char
  {
    if 'a' <= c <= 'z' then (c as int - 32) as char else c
  }

  /** `str.upper()`, restricted to ASCII. */
  function Upper(s: string): (r: string)
    ensures |r| == |s|
    ensures forall i :: 0 <= i < |r| ==> !('a' <= r[i] <= 'z')
    ensures forall i :: 0 <= i < |s| && !('a' <= s[i] <= 'z') ==> r[i] == s[i]
    ensures forall i :: 0 <= i < |s| && 'a' <= s[i] <= 'z' ==> r[i] == (s[i] as int - 32) as char
  {
    seq(|s|, i requires 0 <= i < |s| => UpperChar(s[i]))
  }

  /** The select returns exactly the table's rows of that user. */
  lemma {:induction false} RowsOfMembers(t: seq<Holding>, uid: UserId)
    ensures forall h :: h in RowsOf(t, uid) <==> h in t && h.id == uid
  {
    if t != [] {
      RowsOfMembers(t[1..], uid);
      assert t == [t[0]] + t[1..];
    }
  }

  /** The update changes exactly the rows the condition matches, each by n, and keeps the row order. */
  lemma {:induction false} AddSharesAt(t: seq<Holding>, uid: UserId, symbol: string, n: int)
    ensures forall i :: 0 <= i < |t| ==>
      AddShares(t, uid, symbol, n)[i] == if Matches(t[i], uid, symbol) then t[i].(shares := t[i].shares + n) else t[i]
  {
    if t != [] {
      AddSharesAt(t[1..], uid, symbol, n);
      var r := AddShares(t, uid, symbol, n);
      forall i | 1 <= i < |t|
        ensures r[i] == if Matches(t[i], uid, symbol) then t[i].(shares := t[i].shares + n) else t[i]
      {
        assert r[i] == AddShares(t[1..], uid, symbol, n)[i - 1] && t[i] == t[1..][i - 1];
      }
    }
  }

  /** The update sets exactly the rows the condition matches to v, and keeps the row order. */
  lemma {:induction false} SetSharesAt(t: seq<Holding>, uid: UserId, symbol: string, v: int)
    ensures forall i :: 0 <= i < |t| ==>
      SetShares(t, uid, symbol, v)[i] == if Matches(t[i], uid, symbol) then t[i].(shares := v) else t[i]
  {
    if t != [] {
      SetSharesAt(t[1..], uid, symbol, v);
      var r := SetShares(t, uid, symbol, v);
      forall i | 1 <= i < |t|
        ensures r[i] == if Matches(t[i], uid, symbol) then t[i].(shares := v) else t[i]
      {
        assert r[i] == SetShares(t[1..], uid, symbol, v)[i - 1] && t[i] == t[1..][i - 1];
      }
    }
  }

  /** The delete keeps exactly the rows with a nonzero share count. */
  lemma {:induction false} PruneZeroMembers(t: seq<Holding>)
    ensures forall h :: h in PruneZero(t) <==> h in t && h.shares != 0
  {
    if t != [] {
      PruneZeroMembers(t[1..]);
      assert t == [t[0]] + t[1..];
    }
  }

  /** Upper-casing twice is upper-casing once. */
  lemma UpperIdempotent(s: string)
    ensures Upper(Upper(s)) == Upper(s)
  {
    var u := Upper(s);
    assert forall i :: 0 <= i < |u| ==> Upper(u)[i] == u[i];
  }

  /** The value of a concatenation is the sum of the values. */
  lemma {:induction false} ValueConcat(a: seq<Holding>, b: seq<Holding>, quotes: Quotes)
    ensures Value(a + b, quotes) == Value(a, quotes) + Value(b, quotes)
  {
    if a == [] {
      assert a + b == b;
    } else {
      assert (a + b)[1..] == a[1..] + b;
      ValueConcat(a[1..], b, quotes);
    }
  }

  /** Selecting a user's rows distributes over concatenation of tables. */
  lemma {:induction false} RowsOfConcat(a: seq<Holding>, b: seq<Holding>, uid: UserId)
    ensures RowsOf(a + b, uid) == RowsOf(a, uid) + RowsOf(b, uid)
  {
    if a == [] {
      assert a + b == b;
    } else {
      var head := if a[0].id == uid then [a[0]] else [];
      assert (a + b)[0] == a[0] && (a + b)[1..] == a[1..] + b;
      RowsOfConcat(a[1..], b, uid);
      calc {
        RowsOf(a + b, uid);
        head + RowsOf(a[1..] + b, uid);
        head + (RowsOf(a[1..], uid) + RowsOf(b, uid));
        (head + RowsOf(a[1..], uid)) + RowsOf(b, uid);
        RowsOf(a, uid) + RowsOf(b, uid);
      }
    }
  }

  /** A table with unique keys stays so after its first row is dropped, and that row's key does not recur. */
  lemma KeysUniqueTail(t: seq<Holding>)
    requires |t| > 0 && KeysUnique(t)
    ensures KeysUnique(t[1..])
    ensures forall h :: h in t[1..] ==> !SameKey(t[0], h)
  {
    forall h | h in t[1..] ensures !SameKey(t[0], h) {
      var j :| 0 <= j < |t[1..]| && t[1..][j] == h;
      assert t[j + 1] == h;
    }
  }

  /** Prepending a row whose key is new keeps keys unique. */
  lemma KeysUniqueCons(h: Holding, t: seq<Holding>)
    requires KeysUnique(t)
    requires forall g :: g in t ==> !SameKey(h, g)
    ensures KeysUnique([h] + t)
  {
    var s := [h] + t;
    forall i, j | 0 <= i < j < |s| ensures !SameKey(s[i], s[j]) {
      if i == 0 {
        assert s[j] == t[j - 1];
      } else {
        assert s[i] == t[i - 1] && s[j] == t[j - 1];
      }
    }
  }

  /** Appending a row whose key is new keeps keys unique. */
  lemma KeysUniqueSnoc(t: seq<Holding>, h: Holding)
    requires KeysUnique(t)
    requires !Owns(t, h.id, h.symbol)
    ensures KeysUnique(t + [h])
  {
    var s := t + [h];
    forall i, j | 0 <= i < j < |s| ensures !SameKey(s[i], s[j]) {
      if j == |t| {
        assert s[i] == t[i] && t[i] in t;
      } else {
        assert s[i] == t[i] && s[j] == t[j];
      }
    }
  }

  /** The delete keeps no zero row and keeps keys unique. */
  lemma {:induction false} PruneZeroKeysUnique(t: seq<Holding>)
    requires KeysUnique(t)
    ensures KeysUnique(PruneZero(t))
    ensures forall i :: 0 <= i < |PruneZero(t)| ==> PruneZero(t)[i].shares != 0
  {
    var r := PruneZero(t);
    PruneZeroMembers(t);
    assert forall i :: 0 <= i < |r| ==> r[i] in r;
    if t != [] {
      KeysUniqueTail(t);
      PruneZeroKeysUnique(t[1..]);
      PruneZeroMembers(t[1..]);
      if t[0].shares != 0 {
        KeysUniqueCons(t[0], PruneZero(t[1..]));
      }
    }
  }

  /** An update that matches no row leaves the table as it was. */
  lemma AddSharesMiss(t: seq<Holding>, uid: UserId, symbol: string, n: int)
    requires !Owns(t, uid, symbol)
    ensures AddShares(t, uid, symbol, n) == t
  {
    var r := AddShares(t, uid, symbol, n);
    AddSharesAt(t, uid, symbol, n);
    forall i | 0 <= i < |t| ensures r[i] == t[i] {
      assert t[i] in t;
    }
  }

  /**
   * With unique keys, the update `shares = shares + n` on a held (user, symbol)
   * raises the user's market value by exactly n times the price.
   */
  lemma {:induction false} AddSharesValue(t: seq<Holding>, uid: UserId, symbol: string, n: int, quotes: Quotes)
    requires KeysUnique(t) && Owns(t, uid, symbol)
    ensures Value(RowsOf(AddShares(t, uid, symbol, n), uid), quotes)
         == Value(RowsOf(t, uid), quotes) + n * PriceOf(quotes, symbol)
  {
    KeysUniqueTail(t);
    if Matches(t[0], uid, symbol) {
      AddSharesValueAtHead(t, uid, symbol, n, quotes);
    } else {
      assert Owns(t[1..], uid, symbol) by {
        var g :| g in t && Matches(g, uid, symbol);
        assert g != t[0];
        assert g in t[1..];
      }
      assert RowsOf(t, uid) == (if t[0].id == uid then [t[0]] else []) + RowsOf(t[1..], uid);
      AddSharesValue(t[1..], uid, symbol, n, quotes);
      AddSharesValuePastHead(t, uid, symbol, n, quotes);
    }
  }

  /** The step of AddSharesValue where the first row is the one updated. */
  lemma AddSharesValueAtHead(t: seq<Holding>, uid: UserId, symbol: string, n: int, quotes: Quotes)
    requires t != [] && Matches(t[0], uid, symbol) && !Owns(t[1..], uid, symbol)
    ensures Value(RowsOf(AddShares(t, uid, symbol, n), uid), quotes)
         == Value(RowsOf(t, uid), quotes) + n * PriceOf(quotes, symbol)
  {
    var h, rest := t[0], t[1..];
    var h' := h.(shares := h.shares + n);
    AddSharesMiss(rest, uid, symbol, n);
    assert AddShares(t, uid, symbol, n) == [h'] + rest;
    RowsAtHead(h, rest, uid);
    RowsAtHead(h', rest, uid);
    var rows := RowsOf(rest, uid);
    ValueCons(h, rows, quotes);
    ValueCons(h', rows, quotes);
    Distributes(h.shares, n, PriceOf(quotes, symbol));
  }

  /** Multiplication by a price distributes over a sum of shares. */
  lemma Distributes(a: int, b: int, p: int)
    ensures (a + b) * p == a * p + b * p
  {
  }

  /** The rows of a user whose row leads the table. */
  lemma RowsAtHead(h: Holding, rest: seq<Holding>, uid: UserId)
    requires h.id == uid
    ensures RowsOf([h] + rest, uid) == [h] + RowsOf(rest, uid)
  {
    assert ([h] + rest)[1..] == rest;
  }

  /** The step of AddSharesValue where the updated row comes later. */
  lemma AddSharesValuePastHead(t: seq<Holding>, uid: UserId, symbol: string, n: int, quotes: Quotes)
    requires t != [] && !Matches(t[0], uid, symbol)
    requires Value(RowsOf(AddShares(t[1..], uid, symbol, n), uid), quotes)
          == Value(RowsOf(t[1..], uid), quotes) + n * PriceOf(quotes, symbol)
    ensures Value(RowsOf(AddShares(t, uid, symbol, n), uid), quotes)
         == Value(RowsOf(t, uid), quotes) + n * PriceOf(quotes, symbol)
  {
    var h, rows := t[0], RowsOf(t[1..], uid);
    var t' := AddShares(t, uid, symbol, n);
    assert t'[1..] == AddShares(t[1..], uid, symbol, n);
    var rows' := RowsOf(t'[1..], uid);
    assert t'[0] == h;
    if h.id == uid {
      assert RowsOf(t, uid) == [h] + rows;
      assert RowsOf(t', uid) == [h] + rows';
      ValueCons(h, rows, quotes);
      ValueCons(h, rows', quotes);
    } else {
      assert RowsOf(t, uid) == [] + rows;
      assert RowsOf(t', uid) == [] + rows';
      assert [] + rows == rows && [] + rows' == rows';
    }
  }

  /** The value of one row followed by others. */
  lemma ValueCons(h: Holding, rows: seq<Holding>, quotes: Quotes)
    ensures Value([h] + rows, quotes) == h.shares * PriceOf(quotes, h.symbol) + Value(rows, quotes)
  {
    assert ([h] + rows)[1..] == rows;
  }

  /**
   * With unique keys, setting the one matching row to its shares plus n is
   * the same statement as adding n to it.
   */
  lemma SetSharesAsAdd(t: seq<Holding>, h: Holding, n: int)
    requires KeysUnique(t) && h in t
    ensures SetShares(t, h.id, h.symbol, h.shares + n) == AddShares(t, h.id, h.symbol, n)
  {
    var s := SetShares(t, h.id, h.symbol, h.shares + n);
    var a := AddShares(t, h.id, h.symbol, n);
    var k :| 0 <= k < |t| && t[k] == h;
    SetSharesAt(t, h.id, h.symbol, h.shares + n);
    AddSharesAt(t, h.id, h.symbol, n);
    forall i | 0 <= i < |t| ensures s[i] == a[i] {
      if i != k {
        assert !SameKey(t[i], t[k]) by {
          if i < k { } else { }
        }
      }
    }
  }

  /** Deleting zero rows leaves every user's market value as it was. */
  lemma {:induction false} PruneZeroValue(t: seq<Holding>, uid: UserId, quotes: Quotes)
    ensures Value(RowsOf(PruneZero(t), uid), quotes) == Value(RowsOf(t, uid), quotes)
  {
    if t != [] {
      var h, rest := t[0], t[1..];
      assert t == [h] + rest;
      var kept := if h.shares != 0 then [h] else [];
      assert PruneZero(t) == kept + PruneZero(rest);
      RowsOfConcat([h], rest, uid);
      RowsOfConcat(kept, PruneZero(rest), uid);
      PruneZeroValue(rest, uid, quotes);
      ValueConcat(RowsOf([h], uid), RowsOf(rest, uid), quotes);
      ValueConcat(RowsOf(kept, uid), RowsOf(PruneZero(rest), uid), quotes);
      if RowsOf([h], uid) == [h] && h.shares == 0 {
        assert Value([h], quotes) == 0;
      }
    }
  }

  /** Updates keyed on one user leave every other user's rows as they were. */
  lemma {:induction false} AddSharesOtherUser(t: seq<Holding>, uid: UserId, symbol: string, n: int, other: UserId)
    requires other != uid
    ensures RowsOf(AddShares(t, uid, symbol, n), other) == RowsOf(t, other)
  {
    if t != [] {
      AddSharesOtherUser(t[1..], uid, symbol, n, other);
    }
  }

  /** The shares held under a key, read off a table that starts with h. */
  lemma HeldCons(h: Holding, rest: seq<Holding>, uid: UserId, symbol: string)
    ensures Held([h] + rest, uid, symbol) == (if Matches(h, uid, symbol) then h.shares else 0) + Held(rest, uid, symbol)
  {
    assert ([h] + rest)[1..] == rest;
  }

  /** Appending a row adds its shares to its own key and to no other. */
  lemma {:induction false} HeldSnoc(t: seq<Holding>, h: Holding, uid: UserId, symbol: string)
    ensures Held(t + [h], uid, symbol) == Held(t, uid, symbol) + (if Matches(h, uid, symbol) then h.shares else 0)
  {
    if t == [] {
      HeldCons(h, [], uid, symbol);
    } else {
      assert t + [h] == [t[0]] + (t[1..] + [h]);
      HeldCons(t[0], t[1..] + [h], uid, symbol);
      HeldSnoc(t[1..], h, uid, symbol);
    }
  }

  /**
   * With unique keys, the update `shares = shares + n` on a held (user, symbol)
   * moves that position by exactly n and leaves every other position as it was.
   */
  lemma {:induction false} HeldAfterAdd(t: seq<Holding>, uid: UserId, symbol: string, n: int, id: UserId, sym: string)
    requires KeysUnique(t) && Owns(t, uid, symbol)
    ensures Held(AddShares(t, uid, symbol, n), id, sym)
         == Held(t, id, sym) + (if id == uid && sym == symbol then n else 0)
  {
    var h, rest := t[0], t[1..];
    var t' := AddShares(t, uid, symbol, n);
    assert t == [h] + rest && t' == [t'[0]] + t'[1..];
    assert t'[1..] == AddShares(rest, uid, symbol, n);
    KeysUniqueTail(t);
    HeldCons(h, rest, id, sym);
    HeldCons(t'[0], t'[1..], id, sym);
    if Matches(h, uid, symbol) {
      assert !Owns(rest, uid, symbol);
      AddSharesMiss(rest, uid, symbol, n);
    } else {
      assert Owns(rest, uid, symbol) by {
        var g :| g in t && Matches(g, uid, symbol);
        assert g != h;
        assert g in rest;
      }
      HeldAfterAdd(rest, uid, symbol, n, id, sym);
    }
  }

  /** Deleting zero rows changes no position's size. */
  lemma {:induction false} HeldAfterPrune(t: seq<Holding>, uid: UserId, symbol: string)
    ensures Held(PruneZero(t), uid, symbol) == Held(t, uid, symbol)
  {
    if t != [] {
      var h, rest := t[0], t[1..];
      assert t == [h] + rest;
      HeldCons(h, rest, uid, symbol);
      HeldAfterPrune(rest, uid, symbol);
      if h.shares != 0 {
        assert PruneZero(t) == [h] + PruneZero(rest);
        HeldCons(h, PruneZero(rest), uid, symbol);
      } else {
        assert PruneZero(t) == PruneZero(rest);
      }
    }
  }

  /** With unique keys, setting the one row of a key to its shares plus n moves the position by n. */
  lemma HeldAfterSet(t: seq<Holding>, h: Holding, uid: UserId, symbol: string, n: int)
    requires KeysUnique(t) && h in t && Matches(h, uid, symbol)
    ensures Held(SetShares(t, uid, symbol, h.shares + n), uid, symbol) == Held(t, uid, symbol) + n
  {
    SetSharesAsAdd(t, h, n);
    assert Owns(t, uid, symbol);
    HeldAfterAdd(t, uid, symbol, n, uid, symbol);
  }

  /**
   * The sell statements together (`shares = shares + n` on a held position,
   * then the delete of zero rows) move that position by n and no other.
   */
  lemma HeldAfterAddPrune(t: seq<Holding>, uid: UserId, symbol: string, n: int, id: UserId, sym: string)
    requires KeysUnique(t) && Owns(t, uid, symbol)
    ensures Held(PruneZero(AddShares(t, uid, symbol, n)), id, sym)
         == Held(t, id, sym) + (if id == uid && sym == symbol then n else 0)
  {
    var updated := AddShares(t, uid, symbol, n);
    var pruned, added, before := Held(PruneZero(updated), id, sym), Held(updated, id, sym), Held(t, id, sym);
    HeldAfterPrune(updated, id, sym);
    HeldAfterAdd(t, uid, symbol, n, id, sym);
    assert pruned == added;
    assert added == before + (if id == uid && sym == symbol then n else 0);
  }

  /** The same two statements raise the user's market value by n times the price. */
  lemma ValueAfterAddPrune(t: seq<Holding>, uid: UserId, symbol: string, n: int, quotes: Quotes)
    requires KeysUnique(t) && Owns(t, uid, symbol)
    ensures Value(RowsOf(PruneZero(AddShares(t, uid, symbol, n)), uid), quotes)
         == Value(RowsOf(t, uid), quotes) + n * PriceOf(quotes, symbol)
  {
    var updated := AddShares(t, uid, symbol, n);
    var pruned, added, before :=
      Value(RowsOf(PruneZero(updated), uid), quotes), Value(RowsOf(updated, uid), quotes), Value(RowsOf(t, uid), quotes);
    PruneZeroValue(updated, uid, quotes);
    AddSharesValue(t, uid, symbol, n, quotes);
    assert pruned == added;
    assert added == before + n * PriceOf(quotes, symbol);
  }

  /**
   * Sell's statements on the row h of a position (`shares = h.shares + n`,
   * then the delete of zero rows) move that position by n and leave every
   * other position as it was.
   */
  lemma HeldAfterSetPrune(t: seq<Holding>, h: Holding, uid: UserId, symbol: string, n: int, id: UserId, sym: string)
    requires KeysUnique(t) && h in t && Matches(h, uid, symbol)
    ensures Held(PruneZero(SetShares(t, uid, symbol, h.shares + n)), id, sym)
         == Held(t, id, sym) + (if id == uid && sym == symbol then n else 0)
  {
    SetSharesAsAdd(t, h, n);
    assert Owns(t, uid, symbol);
    HeldAfterAddPrune(t, uid, symbol, n, id, sym);
  }

  /** The same statements change the user's market value by n times the price. */
  lemma ValueAfterSetPrune(t: seq<Holding>, h: Holding, uid: UserId, symbol: string, n: int, quotes: Quotes)
    requires KeysUnique(t) && h in t && Matches(h, uid, symbol)
    ensures Value(RowsOf(PruneZero(SetShares(t, uid, symbol, h.shares + n)), uid), quotes)
         == Value(RowsOf(t, uid), quotes) + n * PriceOf(quotes, symbol)
  {
    SetSharesAsAdd(t, h, n);
    assert Owns(t, uid, symbol);
    ValueAfterAddPrune(t, uid, symbol, n, quotes);
  }

  /** Inserting a row of the user's raises the user's market value by that row's value. */
  lemma ValueAfterInsert(t: seq<Holding>, h: Holding, quotes: Quotes)
    ensures Value(RowsOf(t + [h], h.id), quotes) == Value(RowsOf(t, h.id), quotes) + h.shares * PriceOf(quotes, h.symbol)
  {
    RowsOfConcat(t, [h], h.id);
    assert RowsOf([h], h.id) == [h] by {
      assert [h][1..] == [];
    }
    assert Value([h], quotes) == h.shares * PriceOf(quotes, h.symbol) + Value([], quotes) by {
      assert [h][1..] == [];
    }
    ValueConcat(RowsOf(t, h.id), [h], quotes);
  }
}
