/** The matching rule of the engine, stated on values.

    `Match(t, book)` runs the matching loop of the engine for an incoming order `t` against the
    resting orders `book` of the opposite side, listed in priority order (best price first, FIFO
    within a price). Each recursive step is one iteration of the loop: trade
    `min(t.remaining, book[0].remaining)` at the resting order's price, remove the resting
    order when it is used up, otherwise leave it in place with status PARTIAL. The engine's
    loops over the mutable book are proved to compute exactly this outcome; the properties the
    engine promises are proved here as lemmas about `Match`. */
module Matching {
  import opened Types

  /** What the matching loop reads and updates of one resting order: besides id, price,
      remaining quantity and status, the original quantity and the filled quantity a fill adds
      to. */
  datatype Resting = Resting(id: int, price: int, qty: int, filled: int, remaining: int, status: OrderStatus)

  /** What the matching loop reads and updates of the incoming order. `limit` matters only
      when `market` is false. */
  datatype Taker = Taker(id: int, symbol: string, side: Side, market: bool, limit: int, remaining: int, filled: int)

  /** One execution: buy-side order id, sell-side order id, instrument, quantity, price. */
  datatype Trade = Trade(buyOrderId: int, sellOrderId: int, symbol: string, qty: int, price: int)

  /** Trades in execution order, the resting side afterwards, and the incoming order's
      remaining and filled quantities afterwards. */
  datatype Outcome = Outcome(trades: seq<Trade>, rest: seq<Resting>, left: int, filled: int)

  /** Every resting order's filled and remaining quantities add up to its original quantity. */
  predicate AddsUp(book: seq<Resting>)
  {
    forall i :: 0 <= i < |book| ==> book[i].filled + book[i].remaining == book[i].qty
  }

  /** A limit order on `side` crosses a counter order at `counterPrice`: a BUY at or above the
      ask, a SELL at or below the bid. */
  predicate Crosses(side: Side, limit: int, counterPrice: int)
  {
    if side == Buy then limit >= counterPrice else limit <= counterPrice
  }

  /** Every resting order still has quantity to trade, is NEW or PARTIAL, and has filled and
      remaining quantities that add up to its original quantity. */
  predicate Live(book: seq<Resting>)
  {
    forall i :: 0 <= i < |book| ==>
      && book[i].remaining > 0 && (book[i].status == New || book[i].status == Partial)
      && book[i].filled + book[i].remaining == book[i].qty
  }

  /** The loop runs another iteration: quantity remains, a counter order exists, the order
      crosses it (a MARKET order always does), and the trade quantity is positive. */
  predicate Continues(t: Taker, book: seq<Resting>)
  {
    && t.remaining > 0
    && book != []
    && (t.market || Crosses(t.side, t.limit, book[0].price))
    && Min(t.remaining, book[0].remaining) > 0
  }

  /** The trade between `t` and the resting order `c` for `q` units at `c`'s price. */
  function Fill(t: Taker, c: Resting, q: int): Trade
  {
    Trade(if t.side == Buy then t.id else c.id, if t.side == Sell then t.id else c.id, t.symbol, q, c.price)
  }

  /** The resting order `c` after a fill of `q` units. */
  function AfterFill(c: Resting, q: int): Resting
  {
    c.(filled := c.filled + q, remaining := c.remaining - q, status := if c.remaining - q <= 0 then Filled else Partial)
  }

  /** The incoming order `t` after a fill of `q` units. */
  function Took(t: Taker, q: int): Taker
  {
    t.(remaining := t.remaining - q, filled := t.filled + q)
  }

  function Match(t: Taker, book: seq<Resting>): (r: Outcome)
    ensures |r.rest| <= |book|
    decreases |book|, if t.remaining > 0 then 1 else 0
  {
    if !Continues(t, book) then Outcome([], book, t.remaining, t.filled)
    else
      var q := Min(t.remaining, book[0].remaining);
      var c := AfterFill(book[0], q);
      var r := Match(Took(t, q), if c.remaining == 0 then book[1..] else [c] + book[1..]);
      Outcome([Fill(t, book[0], q)] + r.trades, r.rest, r.left, r.filled)
  }

  /** The resting side after one iteration: the front order filled by `q` units, dropped once
      it has nothing left. */
  function Next(book: seq<Resting>, q: int): seq<Resting>
    requires book != []
  {
    var c := AfterFill(book[0], q);
    if c.remaining == 0 then book[1..] else [c] + book[1..]
  }

  /** One iteration keeps the resting side live when the fill is no larger than the front
      order's quantity: a used-up order leaves, a partly filled one stays PARTIAL with quantity
      left and its quantities still adding up, and the orders behind are as they were. */
  lemma NextLive(book: seq<Resting>, q: int)
    requires Live(book) && book != [] && q <= book[0].remaining
    ensures Live(Next(book, q))
  {
    if AfterFill(book[0], q).remaining != 0 {
      assert forall i :: 1 <= i < |book| ==> Next(book, q)[i] == book[i];
    }
  }

  /** One iteration keeps every resting order's quantities adding up: a fill moves quantity
      from remaining to filled. */
  lemma NextAddsUp(book: seq<Resting>, q: int)
    requires AddsUp(book) && book != []
    ensures AddsUp(Next(book, q))
  {
    if AfterFill(book[0], q).remaining != 0 {
      assert forall i :: 1 <= i < |book| ==> Next(book, q)[i] == book[i];
    }
  }

  /** `ts` executed first, then the outcome `o`. */
  function Prepend(ts: seq<Trade>, o: Outcome): Outcome
  {
    Outcome(ts + o.trades, o.rest, o.left, o.filled)
  }

  /** Recording the trade of one more iteration keeps the outcome of the whole loop: `t2` and
      `book2` are the incoming order and the resting side after the iteration. */
  lemma RecordStep(ts: seq<Trade>, t: Taker, book: seq<Resting>, tr: Trade, t2: Taker, book2: seq<Resting>, out: Outcome)
    requires Prepend(ts, Match(t, book)) == out && Continues(t, book)
    requires var q := Min(t.remaining, book[0].remaining);
      tr == Fill(t, book[0], q) && t2 == Took(t, q) && book2 == Next(book, q)
    ensures Prepend(ts + [tr], Match(t2, book2)) == out
  {
    var q := Min(t.remaining, book[0].remaining);
    var c := AfterFill(book[0], q);
    assert book2 == if c.remaining == 0 then book[1..] else [c] + book[1..];
    var r := Match(t2, book2);
    assert Match(t, book) == Outcome([tr] + r.trades, r.rest, r.left, r.filled);
    AppendAssociative(ts, [tr], r.trades);
  }

  lemma AppendAssociative(a: seq<Trade>, b: seq<Trade>, c: seq<Trade>)
    ensures a + (b + c) == (a + b) + c
  {
  }

  function SumQty(ts: seq<Trade>): int
  {
    if ts == [] then 0 else ts[0].qty + SumQty(ts[1..])
  }

  lemma {:induction false} SumQtyAppend(ts: seq<Trade>, u: seq<Trade>)
    ensures SumQty(ts + u) == SumQty(ts) + SumQty(u)
  {
    if ts == [] {
      assert ts + u == u;
    } else {
      assert (ts + u)[1..] == ts[1..] + u;
      SumQtyAppend(ts[1..], u);
    }
  }

  /** Quantity conservation: every trade is for a positive quantity, and the incoming order's
      remaining quantity falls, and its filled quantity grows, by exactly the traded total; the
      remaining quantity never falls below zero. */
  lemma {:induction false} MatchConservesQuantity(t: Taker, book: seq<Resting>)
    ensures var r := Match(t, book);
      && SumQty(r.trades) + r.left == t.remaining
      && r.filled == t.filled + SumQty(r.trades)
      && (forall i :: 0 <= i < |r.trades| ==> r.trades[i].qty > 0)
      && (r.trades != [] ==> 0 <= r.left < t.remaining)
    decreases |book|, if t.remaining > 0 then 1 else 0
  {
    if Continues(t, book) {
      var q := Min(t.remaining, book[0].remaining);
      var c := AfterFill(book[0], q);
      var t' := Took(t, q);
      var next := if c.remaining == 0 then book[1..] else [c] + book[1..];
      MatchConservesQuantity(t', next);
      var r' := Match(t', next);
      var r := Match(t, book);
      assert r.trades == [Fill(t, book[0], q)] + r'.trades;
      assert r.trades[1..] == r'.trades;
      if r'.trades == [] {
        assert r'.left == t'.remaining;
      }
    }
  }

  /** Price-time priority and the passive-price rule: the i-th trade is against the i-th
      resting order in priority order and executes at that order's price; its buy id is the
      BUY-side order's id and its sell id the SELL-side order's id. */
  lemma {:induction false} MatchFollowsPriority(t: Taker, book: seq<Resting>)
    ensures var r := Match(t, book);
      && |r.trades| <= |book|
      && forall i :: 0 <= i < |r.trades| ==>
           && r.trades[i].price == book[i].price
           && r.trades[i].symbol == t.symbol
           && r.trades[i].buyOrderId == (if t.side == Buy then t.id else book[i].id)
           && r.trades[i].sellOrderId == (if t.side == Sell then t.id else book[i].id)
    decreases |book|, if t.remaining > 0 then 1 else 0
  {
    if Continues(t, book) {
      var q := Min(t.remaining, book[0].remaining);
      var c := AfterFill(book[0], q);
      var t' := Took(t, q);
      var next := if c.remaining == 0 then book[1..] else [c] + book[1..];
      MatchFollowsPriority(t', next);
      var r' := Match(t', next);
      var r := Match(t, book);
      assert r.trades == [Fill(t, book[0], q)] + r'.trades;
      if c.remaining != 0 {
        // the incoming order is used up, so nothing follows this trade
        assert t'.remaining == 0;
        assert r'.trades == [];
      } else {
        assert forall i :: 1 <= i < |r.trades| ==> r.trades[i] == r'.trades[i - 1] && next[i - 1] == book[i];
      }
    }
  }

  /** `ts` trades against `book` in order, each for the smaller of what the incoming order has
      left (starting from `rem`, reduced by every earlier trade) and what the resting order has. */
  ghost predicate MinChain(rem: int, ts: seq<Trade>, book: seq<Resting>)
    decreases |ts|
  {
    ts == [] || (book != [] && ts[0].qty == Min(rem, book[0].remaining) && MinChain(rem - ts[0].qty, ts[1..], book[1..]))
  }

  /** Each trade is for the minimum of the two remaining quantities at that moment. */
  lemma {:induction false} MatchTradeQuantities(t: Taker, book: seq<Resting>)
    ensures MinChain(t.remaining, Match(t, book).trades, book)
    decreases |book|, if t.remaining > 0 then 1 else 0
  {
    if Continues(t, book) {
      var q := Min(t.remaining, book[0].remaining);
      var c := AfterFill(book[0], q);
      var t' := Took(t, q);
      var next := if c.remaining == 0 then book[1..] else [c] + book[1..];
      MatchTradeQuantities(t', next);
      var r' := Match(t', next);
      var ts := Match(t, book).trades;
      assert ts == [Fill(t, book[0], q)] + r'.trades;
      assert ts[0].qty == q && ts[1..] == r'.trades;
      if c.remaining != 0 {
        assert t'.remaining == 0;
        assert r'.trades == [];
      }
    }
  }

  /** The chain spelt out trade by trade: the i-th trade is for the smaller of the quantity
      left after the first i trades and the i-th resting order's quantity. */
  lemma {:induction false} MinChainAt(rem: int, ts: seq<Trade>, book: seq<Resting>)
    requires MinChain(rem, ts, book)
    ensures |ts| <= |book|
    ensures forall i :: 0 <= i < |ts| ==> ts[i].qty == Min(rem - SumQty(ts[..i]), book[i].remaining)
    decreases |ts|
  {
    if ts != [] {
      MinChainAt(rem - ts[0].qty, ts[1..], book[1..]);
      forall i | 0 <= i < |ts|
        ensures ts[i].qty == Min(rem - SumQty(ts[..i]), book[i].remaining)
      {
        if i == 0 {
          assert ts[..0] == [];
        } else {
          assert ts[i] == ts[1..][i - 1] && book[i] == book[1..][i - 1];
          assert ts == [ts[0]] + ts[1..];
          SumQtyAfterFirst(ts[0], ts[1..], i - 1);
        }
      }
    }
  }

  /** The traded total of the first `i + 1` trades of `[f] + ts` counts `f` and then the first
      `i` trades of `ts`. */
  lemma SumQtyAfterFirst(f: Trade, ts: seq<Trade>, i: nat)
    requires i <= |ts|
    ensures SumQty(([f] + ts)[..i + 1]) == f.qty + SumQty(ts[..i])
  {
    var u := ([f] + ts)[..i + 1];
    assert u[0] == f && u[1..] == ts[..i];
  }

  /** What is left of the resting side: orders fully used by a trade are gone, the last one
      traded against stays at the front with its quantity reduced and status PARTIAL when it
      was not used up (the incoming order is then used up), and everything behind is as before. */
  lemma {:induction false} MatchRestShape(t: Taker, book: seq<Resting>)
    ensures var r := Match(t, book); var k := |r.trades|;
      && k <= |book|
      && (k == 0 ==> r.rest == book && r.left == t.remaining)
      && (forall i :: 0 <= i < k - 1 ==> r.trades[i].qty == book[i].remaining)
      && (0 < k && r.trades[k - 1].qty == book[k - 1].remaining ==> r.rest == book[k..])
      && (0 < k && r.trades[k - 1].qty != book[k - 1].remaining ==>
            && r.left == 0
            && r.rest == [AfterFill(book[k - 1], r.trades[k - 1].qty)] + book[k..]
            && r.rest[0].remaining > 0 && r.rest[0].status == Partial)
    decreases |book|, if t.remaining > 0 then 1 else 0
  {
    if Continues(t, book) {
      var q := Min(t.remaining, book[0].remaining);
      var c := AfterFill(book[0], q);
      var t' := Took(t, q);
      var next := if c.remaining == 0 then book[1..] else [c] + book[1..];
      MatchRestShape(t', next);
      var r' := Match(t', next);
      var r := Match(t, book);
      assert r == Outcome([Fill(t, book[0], q)] + r'.trades, r'.rest, r'.left, r'.filled);
      if c.remaining != 0 {
        assert t'.remaining == 0;
        assert r'.trades == [] && r'.rest == next && r'.left == 0;
        assert |r.trades| == 1 && r.trades[0].qty == q && r.rest == [c] + book[1..];
      } else {
        var k, k' := |r.trades|, |r'.trades|;
        assert k == k' + 1 && |next| == |book| - 1;
        assert forall i :: 0 <= i < k' ==> r.trades[i + 1] == r'.trades[i] && book[i + 1] == next[i];
        if k' != 0 {
          assert book[k..] == next[k'..];
          assert r.trades[k - 1] == r'.trades[k' - 1] && book[k - 1] == next[k' - 1];
        } else {
          assert r.rest == book[1..];
        }
      }
    }
  }

  /** The loop stops only when it must: if quantity is left over, the resting side is empty or
      (for a LIMIT order) its best order no longer crosses. A MARKET order with quantity left
      has therefore exhausted the resting side. Resting orders stay live. */
  lemma {:induction false} MatchStopsOnlyWhenDone(t: Taker, book: seq<Resting>)
    requires Live(book)
    ensures var r := Match(t, book);
      && Live(r.rest)
      && (r.left > 0 ==> r.rest == [] || (!t.market && !Crosses(t.side, t.limit, r.rest[0].price)))
    decreases |book|, if t.remaining > 0 then 1 else 0
  {
    if Continues(t, book) {
      var q := Min(t.remaining, book[0].remaining);
      var c := AfterFill(book[0], q);
      var t' := Took(t, q);
      var next := if c.remaining == 0 then book[1..] else [c] + book[1..];
      NextLive(book, q);
      MatchStopsOnlyWhenDone(t', next);
    }
  }

  /** A LIMIT order never trades at a price worse than its limit. */
  lemma {:induction false} MatchRespectsLimit(t: Taker, book: seq<Resting>)
    requires !t.market
    ensures forall tr :: tr in Match(t, book).trades ==> Crosses(t.side, t.limit, tr.price)
    decreases |book|, if t.remaining > 0 then 1 else 0
  {
    if Continues(t, book) {
      var q := Min(t.remaining, book[0].remaining);
      var c := AfterFill(book[0], q);
      var t' := Took(t, q);
      var next := if c.remaining == 0 then book[1..] else [c] + book[1..];
      MatchRespectsLimit(t', next);
      var r' := Match(t', next);
      var r := Match(t, book);
      assert r.trades == [Fill(t, book[0], q)] + r'.trades;
      if c.remaining != 0 {
        assert t'.remaining == 0;
        assert r'.trades == [];
      } else {
        assert Crosses(t.side, t.limit, r.trades[0].price);
      }
    }
  }

  /** An order that does not cross the best resting order trades nothing and keeps its
      quantity; the resting side is untouched. */
  lemma NoCrossNoTrade(t: Taker, book: seq<Resting>)
    requires book == [] || (!t.market && !Crosses(t.side, t.limit, book[0].price))
    ensures Match(t, book) == Outcome([], book, t.remaining, t.filled)
  {
  }
}
