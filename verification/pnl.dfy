/** Profit and loss from trades. Each trade moves its cost, price times quantity, from the
    buyer's P&L to the seller's; a player with no P&L yet starts from zero. */
module Pnl {
  import opened Types
  import opened Matching

  /** What a trade is worth: its price times its quantity. */
  function Cost(t: Trade): int
  {
    t.price * t.qty
  }

  /** What the trades `ts` are worth together. */
  function TotalCost(ts: seq<Trade>): int
  {
    if ts == [] then 0 else Cost(ts[0]) + TotalCost(ts[1..])
  }

  /** The P&L of each player, by player id. */
  type Ledger = map<string, int>

  /** A player's P&L: zero for a player the ledger does not know yet. */
  function PnlOf(l: Ledger, player: string): int
  {
    if player in l then l[player] else 0
  }

  /** Adds `delta` to a player's P&L, creating the player at zero when missing. */
  function Credit(l: Ledger, player: string, delta: int): (r: Ledger)
    ensures r.Keys == l.Keys + {player}
    ensures PnlOf(r, player) == PnlOf(l, player) + delta
    ensures forall p :: p != player ==> PnlOf(r, p) == PnlOf(l, p)
  {
    l[player := PnlOf(l, player) + delta]
  }

  /** The P&L update for one trade: the buying player is debited the trade's cost and the
      selling player credited with it. A player trading with themselves ends where they
      started, and nobody else's P&L moves. */
  function SettleTrade(l: Ledger, buyer: string, seller: string, t: Trade): (r: Ledger)
    ensures r.Keys == l.Keys + {buyer, seller}
    ensures buyer != seller ==>
      PnlOf(r, buyer) == PnlOf(l, buyer) - Cost(t) && PnlOf(r, seller) == PnlOf(l, seller) + Cost(t)
    ensures buyer == seller ==> PnlOf(r, buyer) == PnlOf(l, buyer)
    ensures forall p :: p != buyer && p != seller ==> PnlOf(r, p) == PnlOf(l, p)
  {
    Credit(Credit(l, buyer, -Cost(t)), seller, Cost(t))
  }

  /** Trades for non-negative quantities, each at a price an order on `side` with limit
      `limit` accepts, cost at most `limit` per unit for a buyer and at least `limit` per
      unit for a seller. */
  lemma {:induction false} CostWithinLimit(ts: seq<Trade>, side: Side, limit: int)
    requires forall tr :: tr in ts ==> tr.qty >= 0 && Crosses(side, limit, tr.price)
    ensures side == Buy ==> TotalCost(ts) <= limit * SumQty(ts)
    ensures side == Sell ==> TotalCost(ts) >= limit * SumQty(ts)
  {
    if ts != [] {
      var tr := ts[0];
      assert tr in ts;
      assert forall u :: u in ts[1..] ==> u in ts;
      CostWithinLimit(ts[1..], side, limit);
      Scale(tr.price, limit, tr.qty);
      Distribute(limit, tr.qty, SumQty(ts[1..]));
    }
  }

  /** Multiplying by a non-negative quantity keeps the order of two prices. */
  lemma Scale(a: int, b: int, q: int)
    requires q >= 0
    ensures a <= b ==> a * q <= b * q
    ensures a >= b ==> a * q >= b * q
  {
    if a <= b {
      assert (b - a) * q >= 0;
    } else {
      assert (a - b) * q >= 0;
    }
  }

  /** Multiplication distributes over addition. */
  lemma Distribute(k: int, x: int, y: int)
    ensures k * (x + y) == k * x + k * y
  {
  }

  /** What a LIMIT order pays or receives over all the trades of one match is bounded by its
      limit price: a LIMIT BUY pays at most its limit per unit filled, a LIMIT SELL receives
      at least its limit per unit filled. */
  lemma MatchCostWithinLimit(t: Taker, book: seq<Resting>)
    requires !t.market
    ensures var ts := Match(t, book).trades;
      && (t.side == Buy ==> TotalCost(ts) <= t.limit * SumQty(ts))
      && (t.side == Sell ==> TotalCost(ts) >= t.limit * SumQty(ts))
  {
    var ts := Match(t, book).trades;
    MatchRespectsLimit(t, book);
    MatchConservesQuantity(t, book);
    assert forall tr :: tr in ts ==> tr.qty >= 0 by {
      forall tr | tr in ts
        ensures tr.qty >= 0
      {
        var i :| 0 <= i < |ts| && ts[i] == tr;
      }
    }
    CostWithinLimit(ts, t.side, t.limit);
  }
}
