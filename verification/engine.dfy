/** The matching engine: a registry of order books, one per symbol, and the loops that match an
    incoming order against the opposite side of its book. Each loop is proved to produce what
    the matching rule `Matching.Match` describes. */
module Engine {
  import opened Types
  import opened Orders
  import opened Levels
  import opened Books
  import opened Matching

  /** The trades an incoming order produced, and the order itself. */
  datatype MatchResult = MatchResult(trades: seq<Trade>, order: Order)

  /** Why an operation failed: an order without a price cannot be compared with the prices
      of the book, looked up in it or queued in it. */
  datatype Fault = MissingPrice

  /** What the matching rule reads of an incoming order. */
  function TakerOf(o: Order): Taker
    reads o
  {
    Taker(o.id, o.symbol, o.side, o.kind == Market, PriceOf(o), o.remainingQty, o.filledQty)
  }

  /** The resting orders an order on `o`'s side trades against, in priority order. */
  function Counter(o: Order, book: OrderBook): seq<Order>
    reads book
  {
    Flatten(book.SideLevels(Opposite(o.side)))
  }

  /** The order `o` would trade with first: the best ask for a BUY, the best bid for a SELL. */
  function BestCounterOrder(o: Order, book: OrderBook): (r: Option<Order>)
    requires book.Valid()
    reads book
    ensures r.None? <==> Counter(o, book) == []
    ensures r.Some? ==> r.value == Counter(o, book)[0] && r.value.side == Opposite(o.side)
    ensures r.Some? ==> r.value.price == Some(book.SideLevels(Opposite(o.side))[0].price)
  {
    BestHasPriority(Opposite(o.side), book.SideLevels(Opposite(o.side)));
    if o.side == Buy then book.BestAsk() else book.BestBid()
  }

  /** One execution between the incoming order and a resting one at `price`: the quantity is
      the smaller of the two remaining quantities, both orders are filled by it, and the trade
      names the BUY-side order as buyer and the SELL-side order as seller. Nothing happens when
      that quantity is not positive. */
  method ExecuteTrade(aggressive: Order, passive: Order, price: int) returns (t: Option<Trade>)
    requires aggressive != passive
    modifies aggressive`filledQty, aggressive`remainingQty, aggressive`status
    modifies passive`filledQty, passive`remainingQty, passive`status
    ensures var q := Min(old(aggressive.remainingQty), old(passive.remainingQty));
      if q <= 0 then
        t.None? && unchanged(aggressive, passive)
      else
        && t == Some(Trade(if aggressive.side == Buy then aggressive.id else passive.id,
                           if aggressive.side == Sell then aggressive.id else passive.id,
                           aggressive.symbol, q, price))
        && aggressive.remainingQty == old(aggressive.remainingQty) - q
        && aggressive.filledQty == old(aggressive.filledQty) + q
        && aggressive.status == (if aggressive.remainingQty <= 0 then Filled else Partial)
        && passive.remainingQty == old(passive.remainingQty) - q
        && passive.filledQty == old(passive.filledQty) + q
        && passive.status == (if passive.remainingQty <= 0 then Filled else Partial)
  {
    var q := Min(aggressive.remainingQty, passive.remainingQty);
    if q <= 0 {
      return None;
    }
    aggressive.AddFill(q);
    passive.AddFill(q);
    var buyOrderId := if aggressive.side == Buy then aggressive.id else passive.id;
    var sellOrderId := if aggressive.side == Sell then aggressive.id else passive.id;
    t := Some(Trade(buyOrderId, sellOrderId, aggressive.symbol, q, price));
  }

  lemma SidesOf(side: Side, ls: seq<PriceLevel>)
    requires WellFormed(side, ls)
    ensures forall o :: o in Flatten(ls) ==> o.side == side
  {
    BestHasPriority(side, ls);
  }

  /** No order rests on both sides of a book. */
  lemma SidesDisjoint(side: Side, own: seq<PriceLevel>, cnt: seq<PriceLevel>)
    requires WellFormed(side, own) && WellFormed(Opposite(side), cnt)
    ensures forall o :: o in Flatten(own) ==> o !in Flatten(cnt)
  {
    SidesOf(side, own);
    SidesOf(Opposite(side), cnt);
  }

  /** After a trade with the front counter order `c`: `c` leaves the book and is FILLED once it
      has nothing left; otherwise it stays, marked PARTIAL when `markPartial` is set. */
  method Settle(book: OrderBook, c: Order, markPartial: bool, ghost s: seq<Order>)
    requires book.Valid() && s == Flatten(book.SideLevels(c.side)) && s != [] && c == s[0]
    requires c.remainingQty == 0 || c.status == Partial
    requires c !in s[1..]
    modifies book, c`status
    ensures book.Valid() && book.SideLevels(Opposite(c.side)) == old(book.SideLevels(Opposite(c.side)))
    ensures Flatten(book.SideLevels(c.side)) == (if c.remainingQty == 0 then s[1..] else s)
    ensures c.status == (if c.remainingQty == 0 then Filled else Partial)
    ensures View(s[1..]) == old(View(s[1..]))
  {
    ghost var tail := View(s[1..]);
    if c.remainingQty == 0 {
      RemoveFront(book.SideLevels(c.side), c);
      var _ := book.RemoveOrder(c);
      c.status := Filled;
    } else if markPartial {
      c.status := Partial;
    }
    assert View(s[1..]) == tail;
  }

  /** What the matching rule sees of the counter side `s` after its front order `c` took a
      fill of `q` units, in the rule's own terms: `Next` of what it saw before, `rest`. */
  lemma FrontStep(s: seq<Order>, c: Order, rest: seq<Resting>, q: int)
    requires s != [] && c == s[0] && rest != [] && View(s[1..]) == rest[1..]
    requires Resting(c.id, PriceOf(c), c.qty, c.filledQty, c.remainingQty, c.status) == AfterFill(rest[0], q)
    ensures View(if c.remainingQty == 0 then s[1..] else s) == Next(rest, q)
  {
  }

  /** The trade of one iteration in the matching rule's terms: `order`, seen by the rule as
      `tk`, and the resting order `c`, seen as `r`, trade as `ExecuteTrade` says, which is the
      rule's `Fill` of the smaller remaining quantity, with `Took` and `AfterFill` for the two
      orders afterwards. */
  method FillFront(order: Order, c: Order, ghost tk: Taker, ghost r: Resting) returns (t: Option<Trade>)
    requires order != c && TakerOf(order) == tk
    requires r == Resting(c.id, PriceOf(c), c.qty, c.filledQty, c.remainingQty, c.status)
    modifies order`filledQty, order`remainingQty, order`status, c`filledQty, c`remainingQty, c`status
    ensures var q := Min(tk.remaining, r.remaining);
      if q <= 0 then
        t.None? && unchanged(order, c)
      else
        && t == Some(Fill(tk, r, q)) && TakerOf(order) == Took(tk, q)
        && Resting(c.id, PriceOf(c), c.qty, c.filledQty, c.remainingQty, c.status) == AfterFill(r, q)
        && order.status == (if order.remainingQty <= 0 then Filled else Partial)
  {
    t := ExecuteTrade(order, c, PriceOf(c));
  }

  /** One iteration of either matching loop: `order` trades with `c`, the counter order with
      priority, and `c` is settled as `Settle` says. In the matching rule's terms, with `tk`
      and `rest` what the rule sees before, this is one step of `Match`. */
  method TradeWithFront(order: Order, book: OrderBook, c: Order, markPartial: bool,
                        ghost s: seq<Order>, ghost tk: Taker, ghost rest: seq<Resting>) returns (t: Option<Trade>)
    requires book.Valid() && s == Counter(order, book) && s != [] && c == s[0]
    requires Distinct(s)
    requires TakerOf(order) == tk && View(s) == rest && AddsUp(rest)
    requires order.remainingQty > 0 && (order.kind == Market || Crosses(order.side, PriceOf(order), PriceOf(c)))
    modifies book, order`filledQty, order`remainingQty, order`status, c`filledQty, c`remainingQty, c`status
    ensures book.Valid() && book.SideLevels(order.side) == old(book.SideLevels(order.side))
    ensures t.Some? <==> Continues(tk, rest)
    ensures t.None? ==> unchanged(book, order, c) && View(Counter(order, book)) == rest
    ensures t.Some? ==>
      var q := Min(tk.remaining, rest[0].remaining);
      && t.value == Fill(tk, rest[0], q)
      && TakerOf(order) == Took(tk, q)
      && View(Counter(order, book)) == Next(rest, q)
      && Counter(order, book) == (if c.remainingQty == 0 then s[1..] else s)
      && c.status == (if c.remainingQty == 0 then Filled else Partial)
    ensures order.filledQty + order.remainingQty == old(order.filledQty + order.remainingQty)
    ensures order.status == (if t.None? then old(order.status) else if order.remainingQty <= 0 then Filled else Partial)
    ensures c.Balanced()
  {
    SidesOf(Opposite(order.side), book.SideLevels(Opposite(order.side)));
    assert order !in s;
    DistinctPositions(s);
    assert c !in s[1..];
    assert View(s[1..]) == rest[1..];
    ghost var q := Min(tk.remaining, rest[0].remaining);
    assert rest[0] == Resting(c.id, PriceOf(c), c.qty, c.filledQty, c.remainingQty, c.status);
    assert c.Balanced();
    t := FillFront(order, c, tk, rest[0]);
    if t.Some? {
      Settle(book, c, markPartial, s);
      FrontStep(s, c, rest, q);
    }
  }

  /** Every order of `s` is used up and FILLED: its whole quantity is filled. */
  ghost predicate Consumed(s: seq<Order>)
    reads s
  {
    forall o :: o in s ==> o.remainingQty == 0 && o.status == Filled && o.filledQty == o.qty
  }

  /** One iteration of either matching loop: find the counter order with priority and trade
      with it as `TradeWithFront` says. Nothing trades when there is no counter order or the
      trade quantity is not positive, and then the MARKET loop (`marketLoop`) marks the order
      REJECTED. The LIMIT loop marks a counter order that keeps quantity PARTIAL; the MARKET
      loop does not. With `s0[k..]` the counter side, `tk` and `rest` what the matching rule
      sees before, this is one step of `Match`, taken exactly when `Match` takes one. */
  method TradeWithBest(order: Order, book: OrderBook, marketLoop: bool,
                       ghost s0: seq<Order>, ghost k: nat, ghost tk: Taker, ghost rest: seq<Resting>)
    returns (t: Option<Trade>, ghost k2: nat)
    requires book.Valid() && k <= |s0| && Counter(order, book) == s0[k..] && Distinct(s0)
    requires TakerOf(order) == tk && View(s0[k..]) == rest && AddsUp(rest)
    requires Consumed(s0[..k]) && order !in s0
    requires order.remainingQty > 0 && (order.kind == Market || (order.price.Some? && book.CanCross(order)))
    modifies book, order`filledQty, order`remainingQty, order`status, s0[k..]
    ensures book.Valid() && book.SideLevels(order.side) == old(book.SideLevels(order.side))
    ensures k2 <= |s0| && Counter(order, book) == s0[k2..]
    ensures Consumed(s0[..k2])
    ensures t.Some? <==> Continues(tk, rest)
    ensures t.None? ==> TakerOf(order) == tk && View(Counter(order, book)) == rest
    ensures t.Some? ==>
      var q := Min(tk.remaining, rest[0].remaining);
      && t.value == Fill(tk, rest[0], q)
      && TakerOf(order) == Took(tk, q)
      && View(Counter(order, book)) == Next(rest, q)
    ensures order.filledQty + order.remainingQty == old(order.filledQty + order.remainingQty)
    ensures order.status ==
      if t.None? then (if marketLoop then Rejected else old(order.status))
      else if order.remainingQty <= 0 then Filled else Partial
  {
    k2 := k;
    var best := BestCounterOrder(order, book);
    if best.None? {
      if marketLoop {
        order.status := Rejected;
      }
      return None, k2;
    }
    DistinctSuffix(s0, k);
    DistinctApart(s0, k);
    ghost var done := s0[..k];
    assert order !in done && best.value !in done;
    t := TradeWithFront(order, book, best.value, !marketLoop, s0[k..], tk, rest);
    assert Consumed(done);
    if t.None? {
      if marketLoop {
        ghost var v := View(Counter(order, book));
        assert order !in Counter(order, book);
        order.status := Rejected;
        assert View(Counter(order, book)) == v;
      }
      assert Consumed(done);
    } else if best.value.remainingQty == 0 {
      k2 := k + 1;
      assert s0[k..][1..] == s0[k2..];
      TakeOneMore(s0, k);
    }
  }

  /** One iteration of either matching loop in terms of the matching rule: `trades` so far
      followed by what `Match` gives from the current taker and counter side is `out`, before
      and after. The loop goes on (`more`) exactly when `Match` takes one more step, and then
      the order has strictly less quantity left, never below zero. */
  method Step(order: Order, book: OrderBook, marketLoop: bool, ghost s0: seq<Order>, ghost k: nat,
              ghost tk: Taker, ghost rest: seq<Resting>, trades: seq<Trade>, ghost out: Outcome)
    returns (more: bool, trades2: seq<Trade>, ghost k2: nat, ghost tk2: Taker, ghost rest2: seq<Resting>)
    requires book.Valid() && k <= |s0| && Counter(order, book) == s0[k..] && Distinct(s0)
    requires TakerOf(order) == tk && View(s0[k..]) == rest && AddsUp(rest)
    requires Consumed(s0[..k]) && order !in s0
    requires order.remainingQty > 0 && (order.kind == Market || (order.price.Some? && book.CanCross(order)))
    requires Prepend(trades, Match(tk, rest)) == out
    modifies book, order`filledQty, order`remainingQty, order`status, s0[k..]
    ensures book.Valid() && book.SideLevels(order.side) == old(book.SideLevels(order.side))
    ensures k2 <= |s0| && Counter(order, book) == s0[k2..] && Consumed(s0[..k2])
    ensures TakerOf(order) == tk2 && View(Counter(order, book)) == rest2 && AddsUp(rest2)
    ensures Prepend(trades2, Match(tk2, rest2)) == out
    ensures order.filledQty + order.remainingQty == old(order.filledQty + order.remainingQty)
    ensures more ==> trades2 != [] && 0 <= order.remainingQty < old(order.remainingQty)
    ensures more ==> order.status == (if order.remainingQty <= 0 then Filled else Partial)
    ensures !more ==> trades2 == trades && !Continues(tk2, rest2) && order.remainingQty == old(order.remainingQty)
    ensures !more ==> order.status == (if marketLoop then Rejected else old(order.status))
  {
    var t;
    t, k2 := TradeWithBest(order, book, marketLoop, s0, k, tk, rest);
    if t.None? {
      return false, trades, k2, tk, rest;
    }
    var q := Min(tk.remaining, rest[0].remaining);
    tk2, rest2 := Took(tk, q), Next(rest, q);
    NextAddsUp(rest, q);
    RecordStep(trades, tk, rest, t.value, tk2, rest2, out);
    more, trades2 := true, trades + [t.value];
  }

  /** When the LIMIT loop's guard fails, the matching rule stops as well: no quantity is left,
      or the book's best counter price is beyond the order's limit, or there is none. */
  lemma LimitGuard(order: Order, book: OrderBook)
    requires book.Valid() && order.kind == Limit && order.price.Some?
    ensures !(order.remainingQty > 0 && book.CanCross(order)) ==> !Continues(TakerOf(order), View(Counter(order, book)))
  {
    var ls := book.SideLevels(Opposite(order.side));
    BestHasPriority(Opposite(order.side), ls);
    if ls != [] {
      ViewAt(Flatten(ls));
    }
  }

  /** The matching loop of a LIMIT order: trade with the best counter order while quantity is
      left and the order crosses it. The trades, the order's remaining quantity and the counter
      side afterwards are what the matching rule gives. */
  method MatchLimit(order: Order, book: OrderBook) returns (trades: seq<Trade>)
    requires book.Valid() && order.kind == Limit && order.price.Some?
    requires Distinct(Counter(order, book)) && AddsUp(View(Counter(order, book)))
    modifies book, order, Counter(order, book)
    ensures book.Valid() && book.SideLevels(order.side) == old(book.SideLevels(order.side))
    ensures var out := Match(old(TakerOf(order)), old(View(Counter(order, book))));
      && trades == out.trades
      && order.remainingQty == out.left && order.filledQty == out.filled
      && View(Counter(order, book)) == out.rest
    ensures UsedUpFront(old(Counter(order, book)), Counter(order, book))
    ensures order.filledQty + order.remainingQty == old(order.filledQty + order.remainingQty)
    ensures order.status == (if trades == [] then old(order.status) else if order.remainingQty <= 0 then Filled else Partial)
  {
    ghost var s0 := Counter(order, book);
    ghost var tk := TakerOf(order);
    ghost var rest := View(s0);
    ghost var out := Match(tk, rest);
    ghost var own0 := book.SideLevels(order.side);
    ghost var k := 0;
    SidesOf(Opposite(order.side), book.SideLevels(Opposite(order.side)));
    assert order !in s0;
    trades := [];
    while order.remainingQty > 0 && book.CanCross(order)
      invariant book.Valid() && book.SideLevels(order.side) == own0
      invariant 0 <= k <= |s0| && Counter(order, book) == s0[k..]
      invariant Consumed(s0[..k])
      invariant TakerOf(order) == tk && View(Counter(order, book)) == rest && AddsUp(rest)
      invariant Prepend(trades, Match(tk, rest)) == out
      invariant order.filledQty + order.remainingQty == old(order.filledQty + order.remainingQty)
      invariant order.status == (if trades == [] then old(order.status) else if order.remainingQty <= 0 then Filled else Partial)
      decreases order.remainingQty
    {
      var more;
      more, trades, k, tk, rest := Step(order, book, false, s0, k, tk, rest, trades, out);
      if !more {
        break;
      }
    }
    if !(order.remainingQty > 0 && book.CanCross(order)) {
      LimitGuard(order, book);
    }
    assert out == Outcome(trades, rest, tk.remaining, tk.filled);
    assert |s0| - |Counter(order, book)| == k;
  }

  /** Queues what is left of a LIMIT order at the tail of its price level; an order with
      nothing left does not rest. */
  method RestRemainder(order: Order, book: OrderBook, ghost met: seq<Order>, ghost before: seq<Order>)
    requires book.Valid() && order.price.Some?
    modifies book
    ensures book.Valid()
    ensures View(met) == old(View(met)) && (old(UsedUpFront(before, met)) ==> UsedUpFront(before, met))
    ensures book.SideLevels(order.side) ==
      (if order.remainingQty > 0 then Insert(old(book.SideLevels(order.side)), order) else old(book.SideLevels(order.side)))
    ensures book.SideLevels(Opposite(order.side)) == old(book.SideLevels(Opposite(order.side)))
  {
    if order.remainingQty > 0 {
      book.AddOrder(order);
    }
  }

  /** Matches a LIMIT order, then queues whatever is left of it at the tail of its price level
      on its own side. Everything about the counter side and the trades is as `MatchLimit`
      says; the order rests in the book exactly when quantity is left. */
  method ExecuteLimitOrder(order: Order, book: OrderBook) returns (trades: seq<Trade>)
    requires book.Valid() && order.kind == Limit && order.price.Some?
    requires Distinct(Counter(order, book)) && AddsUp(View(Counter(order, book)))
    modifies book, order, Counter(order, book)
    ensures book.Valid()
    ensures var out := Match(old(TakerOf(order)), old(View(Counter(order, book))));
      && trades == out.trades
      && order.remainingQty == out.left && order.filledQty == out.filled
      && View(Counter(order, book)) == out.rest
      && book.SideLevels(order.side) ==
           (if out.left > 0 then Insert(old(book.SideLevels(order.side)), order) else old(book.SideLevels(order.side)))
    ensures UsedUpFront(old(Counter(order, book)), Counter(order, book))
    ensures order.filledQty + order.remainingQty == old(order.filledQty + order.remainingQty)
    ensures order.status == (if trades == [] then old(order.status) else if order.remainingQty <= 0 then Filled else Partial)
    ensures forall o :: o in old(Flatten(book.SideLevels(order.side))) && o != order && old(allocated(o)) ==> unchanged(o)
  {
    ghost var s0 := Counter(order, book);
    ghost var out := Match(TakerOf(order), View(s0));
    ghost var mine := Flatten(book.SideLevels(order.side));
    SidesDisjoint(order.side, book.SideLevels(order.side), book.SideLevels(Opposite(order.side)));
    assert allocated(mine);
    trades := MatchLimit(order, book);
    assert trades == out.trades && order.remainingQty == out.left && order.filledQty == out.filled && View(Counter(order, book)) == out.rest;
    ghost var counter := Counter(order, book);
    assert UsedUpFront(s0, counter);
    RestRemainder(order, book, counter, s0);
    assert Counter(order, book) == counter;
  }

  /** The matching loop of a MARKET order: trade with the best counter order, at its price,
      while quantity is left; when there is no counter order or no positive trade quantity
      the order is REJECTED and the loop stops. */
  method MatchMarket(order: Order, book: OrderBook) returns (trades: seq<Trade>)
    requires book.Valid() && order.kind == Market
    requires Distinct(Counter(order, book)) && AddsUp(View(Counter(order, book)))
    modifies book, order, Counter(order, book)
    ensures book.Valid() && book.SideLevels(order.side) == old(book.SideLevels(order.side))
    ensures var out := Match(old(TakerOf(order)), old(View(Counter(order, book))));
      && trades == out.trades
      && order.remainingQty == out.left && order.filledQty == out.filled
      && View(Counter(order, book)) == out.rest
      && order.status == (if out.left > 0 then Rejected else if out.left == 0 && trades != [] then Filled else old(order.status))
    ensures UsedUpFront(old(Counter(order, book)), Counter(order, book))
    ensures order.filledQty + order.remainingQty == old(order.filledQty + order.remainingQty)
  {
    ghost var s0 := Counter(order, book);
    ghost var tk := TakerOf(order);
    ghost var rest := View(s0);
    ghost var out := Match(tk, rest);
    ghost var k := 0;
    SidesOf(Opposite(order.side), book.SideLevels(Opposite(order.side)));
    assert order !in s0;
    trades := [];
    while order.remainingQty > 0
      invariant book.Valid() && book.SideLevels(order.side) == old(book.SideLevels(order.side))
      invariant 0 <= k <= |s0| && Counter(order, book) == s0[k..]
      invariant Consumed(s0[..k])
      invariant TakerOf(order) == tk && View(Counter(order, book)) == rest && AddsUp(rest)
      invariant Prepend(trades, Match(tk, rest)) == out
      invariant order.filledQty + order.remainingQty == old(order.filledQty + order.remainingQty)
      invariant order.status == (if trades == [] then old(order.status) else if order.remainingQty <= 0 then Filled else Partial)
      invariant trades == [] || order.remainingQty >= 0
      decreases order.remainingQty
    {
      var more;
      more, trades, k, tk, rest := Step(order, book, true, s0, k, tk, rest, trades, out);
      if !more {
        break;
      }
    }
    assert out == Outcome(trades, rest, tk.remaining, tk.filled);
    assert out.left == order.remainingQty && out.rest == View(Counter(order, book));
    assert |s0| - |Counter(order, book)| == k;
  }

  /** Executes a MARKET order: it trades as `MatchMarket` says; when that leaves nothing, the order is FILLED. A MARKET order
      that found too little liquidity ends REJECTED with the fills it got, and a MARKET order
      never rests in the book. */
  method ExecuteMarketOrder(order: Order, book: OrderBook) returns (trades: seq<Trade>)
    requires book.Valid() && order.kind == Market
    requires Distinct(Counter(order, book)) && AddsUp(View(Counter(order, book)))
    modifies book, order, Counter(order, book)
    ensures book.Valid() && book.SideLevels(order.side) == old(book.SideLevels(order.side))
    ensures var out := Match(old(TakerOf(order)), old(View(Counter(order, book))));
      && trades == out.trades
      && order.remainingQty == out.left && order.filledQty == out.filled
      && View(Counter(order, book)) == out.rest
      && order.status == (if out.left == 0 then Filled else if out.left > 0 then Rejected else old(order.status))
    ensures UsedUpFront(old(Counter(order, book)), Counter(order, book))
    ensures order.filledQty + order.remainingQty == old(order.filledQty + order.remainingQty)
    ensures forall o :: o in old(Flatten(book.SideLevels(order.side))) && o != order && old(allocated(o)) ==> unchanged(o)
  {
    ghost var s0 := Counter(order, book);
    ghost var mine := Flatten(book.SideLevels(order.side));
    SidesDisjoint(order.side, book.SideLevels(order.side), book.SideLevels(Opposite(order.side)));
    SidesOf(Opposite(order.side), book.SideLevels(Opposite(order.side)));
    assert allocated(mine);
    trades := MatchMarket(order, book);
    ghost var counter := Counter(order, book);
    ghost var v := View(counter);
    ghost var done := s0[..|s0| - |counter|];
    assert Consumed(done) && allocated(done) && order !in s0;
    assert order !in counter && order !in done;
    if order.remainingQty == 0 {
      order.status := Filled;
    }
    assert View(counter) == v && Consumed(done);
  }

  /** Seen from `side`, the best level of `own` would not trade with the best level of `cnt`. */
  predicate Apart(side: Side, own: seq<PriceLevel>, cnt: seq<PriceLevel>)
  {
    own == [] || cnt == [] || !Crosses(side, own[0].price, cnt[0].price)
  }

  /** An uncrossed book, whichever side it is seen from. */
  lemma UncrossedApart(book: OrderBook, side: Side)
    ensures book.Uncrossed() <==> Apart(side, book.SideLevels(side), book.SideLevels(Opposite(side)))
  {
  }

  /** Trading away orders at the front of the counter side, then resting what is left of an
      order that no longer crosses the counter side, keeps the two sides apart: the best
      counter price can only move away, and the new best price on `side` is the old one or
      the resting order's. */
  lemma StaysApart(side: Side, own: seq<PriceLevel>, cnt0: seq<PriceLevel>, cnt: seq<PriceLevel>,
                   n: nat, o: Order, rests: bool)
    requires WellFormed(side, own) && WellFormed(Opposite(side), cnt0) && WellFormed(Opposite(side), cnt)
    requires n <= |Flatten(cnt0)| && Flatten(cnt) == Flatten(cnt0)[n..]
    requires Apart(side, own, cnt0)
    requires rests ==> o.side == side && o.price.Some? && (cnt == [] || !Crosses(side, o.price.value, cnt[0].price))
    ensures Apart(side, if rests then Insert(own, o) else own, cnt)
  {
    if cnt != [] {
      BestHasPriority(Opposite(side), cnt);
      BestHasPriority(Opposite(side), cnt0);
      var f := Flatten(cnt)[0];
      assert f == Flatten(cnt0)[n] && f in Flatten(cnt0);
      assert f.price == Some(cnt[0].price) by {
        assert f == cnt[0].queue[0] && f in cnt[0].queue;
      }
    }
  }

  /** What the engine keeps true of every book: its shape, no order resting twice, every
      resting order live, best bid below best ask, and only orders for the book's instrument. */
  ghost predicate Sound(book: OrderBook)
    reads book, book.Orders()
  {
    && book.Healthy() && book.Uncrossed()
    && (forall o :: o in Flatten(book.bids) ==> o.symbol == book.symbol)
    && (forall o :: o in Flatten(book.asks) ==> o.symbol == book.symbol)
  }

  /** The counter side after orders at its front were used up: no repeats, and only orders
      that were there before. */
  lemma CounterSide(cnt0: seq<PriceLevel>, cnt: seq<PriceLevel>, n: nat)
    requires n <= |Flatten(cnt0)| && Flatten(cnt) == Flatten(cnt0)[n..] && Distinct(Flatten(cnt0))
    ensures Distinct(Flatten(cnt)) && forall o :: o in Flatten(cnt) ==> o in Flatten(cnt0)
  {
    DistinctSuffix(Flatten(cnt0), n);
  }

  /** A book whose two sides `mine` (seen from `side`) and `cnt` are each free of repeats,
      live, and made of orders for the book's instrument, and do not cross, is sound. */
  lemma Resound(book: OrderBook, side: Side, mine: seq<PriceLevel>, cnt: seq<PriceLevel>)
    requires book.Valid() && book.SideLevels(side) == mine && book.SideLevels(Opposite(side)) == cnt
    requires Distinct(Flatten(mine)) && Matching.Live(View(Flatten(mine)))
    requires Distinct(Flatten(cnt)) && Matching.Live(View(Flatten(cnt)))
    requires forall o :: o in Flatten(mine) ==> o.symbol == book.symbol
    requires forall o :: o in Flatten(cnt) ==> o.symbol == book.symbol
    requires Apart(side, mine, cnt)
    ensures Sound(book)
  {
    UncrossedApart(book, side);
  }

  /** The best level's price is the price the matching rule sees for the first resting order. */
  lemma FrontPrice(side: Side, ls: seq<PriceLevel>)
    requires WellFormed(side, ls)
    ensures ls == [] <==> View(Flatten(ls)) == []
    ensures ls != [] ==> View(Flatten(ls))[0].price == ls[0].price
  {
    BestHasPriority(side, ls);
    if ls != [] {
      ViewAt(Flatten(ls));
      assert Flatten(ls)[0] in ls[0].queue;
    }
  }

  /** The book is sound again after an order was matched on it. Before, its own side was
      `own` and the counter side `cnt0`, both sound; now the counter side holds what is left
      after the first `n` counter orders were used up, still live, and the own side has the
      order added when it rests (`rests`), which it does only when it no longer crosses. */
  lemma AfterMatch(book: OrderBook, order: Order, own: seq<PriceLevel>, cnt0: seq<PriceLevel>, n: nat, rests: bool)
    requires book.Valid() && order.symbol == book.symbol
    requires WellFormed(order.side, own) && WellFormed(Opposite(order.side), cnt0)
    requires rests ==> order.price.Some? && order.remainingQty > 0 && (order.status == New || order.status == Partial) && order.Balanced()
    requires book.SideLevels(order.side) == (if rests then Insert(own, order) else own)
    requires Distinct(Flatten(own)) && order !in Flatten(own)
    requires forall o :: o in Flatten(own) ==>
      o.symbol == book.symbol && o.remainingQty > 0 && (o.status == New || o.status == Partial) && o.Balanced()
    requires forall o :: o in Flatten(cnt0) ==> o.symbol == book.symbol
    requires var cnt := book.SideLevels(Opposite(order.side));
      && n <= |Flatten(cnt0)| && Flatten(cnt) == Flatten(cnt0)[n..]
      && Distinct(Flatten(cnt0)) && order !in Flatten(cnt0) && Matching.Live(View(Flatten(cnt)))
      && (rests ==> View(Flatten(cnt)) == [] || !Crosses(order.side, order.price.value, View(Flatten(cnt))[0].price))
    requires Apart(order.side, own, cnt0)
    ensures Sound(book)
    ensures order in Flatten(book.SideLevels(order.side)) <==> rests
    ensures order !in Flatten(book.SideLevels(Opposite(order.side)))
  {
    var side := order.side;
    var mine := book.SideLevels(side);
    var cnt := book.SideLevels(Opposite(side));
    CounterSide(cnt0, cnt, n);
    FrontPrice(Opposite(side), cnt);
    StaysApart(side, own, cnt0, cnt, n, order, rests);
    if rests {
      OwnSide(own, order);
      InsertOrders(own, order);
      assert order in multiset(Flatten(mine));
    } else {
      OrdersLive(Flatten(own));
    }
    Resound(book, side, mine, cnt);
  }

  /** A sound book seen from the side of `order`: each side free of repeats, the own side's
      orders live and on that side, the counter side live and on the other side, every order
      for the book's instrument, and the two sides apart. */
  lemma SoundSides(book: OrderBook, order: Order)
    requires Sound(book)
    ensures var own, cnt0 := book.SideLevels(order.side), book.SideLevels(Opposite(order.side));
      && Distinct(Flatten(own)) && Distinct(Flatten(cnt0)) && Matching.Live(View(Flatten(cnt0)))
      && (forall o :: o in Flatten(own) ==>
            && o.side == order.side && o.symbol == book.symbol
            && o.remainingQty > 0 && (o.status == New || o.status == Partial) && o.Balanced())
      && (forall o :: o in Flatten(cnt0) ==> o.side == Opposite(order.side) && o.symbol == book.symbol)
      && Apart(order.side, own, cnt0)
  {
    var own, cnt0 := book.SideLevels(order.side), book.SideLevels(Opposite(order.side));
    SidesOf(order.side, own);
    SidesOf(Opposite(order.side), cnt0);
    UncrossedApart(book, order.side);
    assert Matching.Live(View(Flatten(own)));
    LiveOrders(Flatten(own));
  }

  /** A MARKET order on its instrument's book: it trades as the matching rule says, never
      rests, and leaves the book sound. */
  method MarketOnBook(order: Order, book: OrderBook) returns (trades: seq<Trade>)
    requires Sound(book) && order.symbol == book.symbol && order.kind == Market && order.status == New
    requires order !in Flatten(book.bids) && order !in Flatten(book.asks)
    modifies book, order, Counter(order, book)
    ensures Sound(book)
    ensures order !in Flatten(book.bids) && order !in Flatten(book.asks)
    ensures var out := Match(old(TakerOf(order)), old(View(Counter(order, book))));
      && trades == out.trades && order.remainingQty == out.left && order.filledQty == out.filled
      && View(Counter(order, book)) == out.rest
      && order.status == (if out.left == 0 then Filled else if out.left > 0 then Rejected else New)
    ensures book.SideLevels(order.side) == old(book.SideLevels(order.side))
    ensures UsedUpFront(old(Counter(order, book)), Counter(order, book))
  {
    ghost var own := book.SideLevels(order.side);
    ghost var cnt0 := book.SideLevels(Opposite(order.side));
    ghost var s0 := Counter(order, book);
    ghost var mine := Flatten(own);
    ghost var out := Match(TakerOf(order), View(s0));
    SoundSides(book, order);
    MatchStopsOnlyWhenDone(TakerOf(order), View(s0));
    assert allocated(mine);
    trades := ExecuteMarketOrder(order, book);
    ghost var n := |s0| - |Counter(order, book)|;
    assert Counter(order, book) == s0[n..];
    assert trades == out.trades && order.remainingQty == out.left && order.filledQty == out.filled && View(Counter(order, book)) == out.rest;
    AfterMatch(book, order, own, cnt0, n, false);
  }

  /** A LIMIT order on its instrument's book: it trades as the matching rule says, rests with
      what is left, and leaves the book sound. */
  method LimitOnBook(order: Order, book: OrderBook) returns (trades: seq<Trade>)
    requires Sound(book) && order.symbol == book.symbol && order.kind == Limit && order.price.Some?
    requires order.status == New && order.Balanced()
    requires order !in Flatten(book.bids) && order !in Flatten(book.asks)
    modifies book, order, Counter(order, book)
    ensures Sound(book)
    ensures var out := Match(old(TakerOf(order)), old(View(Counter(order, book))));
      && trades == out.trades && order.remainingQty == out.left && order.filledQty == out.filled
      && View(Counter(order, book)) == out.rest
      && (order in Flatten(book.SideLevels(order.side)) <==> out.left > 0)
      && order !in Flatten(book.SideLevels(Opposite(order.side)))
      && order.status == (if trades == [] then New else if out.left <= 0 then Filled else Partial)
    ensures book.SideLevels(order.side) ==
      (if order.remainingQty > 0 then Insert(old(book.SideLevels(order.side)), order) else old(book.SideLevels(order.side)))
    ensures UsedUpFront(old(Counter(order, book)), Counter(order, book))
  {
    ghost var own := book.SideLevels(order.side);
    ghost var cnt0 := book.SideLevels(Opposite(order.side));
    ghost var s0 := Counter(order, book);
    SoundSides(book, order);
    trades := LimitSides(order, book);
    ghost var n := |s0| - |Counter(order, book)|;
    AfterMatch(book, order, own, cnt0, n, order.remainingQty > 0);
  }

  /** `ExecuteLimitOrder` on a sound book, with what the book's soundness before the match
      says about both sides after it: the orders of the own side are still live, the counter
      side is what the first counter orders left, still live, and a remainder that rests no
      longer crosses it. */
  method LimitSides(order: Order, book: OrderBook) returns (trades: seq<Trade>)
    requires Sound(book) && order.symbol == book.symbol && order.kind == Limit && order.price.Some?
    requires order !in Flatten(book.bids) && order !in Flatten(book.asks)
    modifies book, order, Counter(order, book)
    ensures book.Valid()
    ensures var out := Match(old(TakerOf(order)), old(View(Counter(order, book))));
      && trades == out.trades && order.remainingQty == out.left && order.filledQty == out.filled
      && View(Counter(order, book)) == out.rest
      && book.SideLevels(order.side) ==
           (if out.left > 0 then Insert(old(book.SideLevels(order.side)), order) else old(book.SideLevels(order.side)))
      && Matching.Live(out.rest)
      && (out.left > 0 ==> out.rest == [] || !Crosses(order.side, order.price.value, out.rest[0].price))
    ensures UsedUpFront(old(Counter(order, book)), Counter(order, book))
    ensures forall o :: o in old(Flatten(book.SideLevels(order.side))) ==>
      o.remainingQty > 0 && (o.status == New || o.status == Partial) && o.Balanced()
    ensures order.filledQty + order.remainingQty == old(order.filledQty + order.remainingQty)
    ensures order.status == (if trades == [] then old(order.status) else if order.remainingQty <= 0 then Filled else Partial)
  {
    ghost var s0 := Counter(order, book);
    ghost var mine := Flatten(book.SideLevels(order.side));
    SoundSides(book, order);
    MatchStopsOnlyWhenDone(TakerOf(order), View(s0));
    assert allocated(mine);
    trades := ExecuteLimitOrder(order, book);
  }

  /** The status an incoming NEW order ends with once matching produced `out`: a MARKET order
      is FILLED when nothing is left and REJECTED when something is; a LIMIT order stays NEW
      without trades, and is otherwise FILLED or PARTIAL by what is left. */
  function FinalStatus(kind: OrderType, out: Outcome): OrderStatus
  {
    if kind == Market then
      if out.left == 0 then Filled else if out.left > 0 then Rejected else New
    else if out.trades == [] then New
    else if out.left <= 0 then Filled
    else Partial
  }

  /** The own side after `order` was processed on a side that held `own`: the order queued at
      the tail of its level when it is a priced LIMIT order with quantity left, `own` otherwise. */
  function OwnAfter(order: Order, own: seq<PriceLevel>): seq<PriceLevel>
    requires WellFormed(order.side, own)
    reads order
  {
    if order.kind == Limit && order.price.Some? && order.remainingQty > 0 then Insert(own, order) else own
  }

  /** The counter orders now `now` are what is left of `before` once its first orders were
      used up and FILLED. */
  ghost predicate UsedUpFront(before: seq<Order>, now: seq<Order>)
    reads before
  {
    |now| <= |before| && now == before[|before| - |now|..] && Consumed(before[..|before| - |now|])
  }

  /** What processing `order` on `book` leaves behind, for an order that came in as `taker`
      and met `met` (the orders `counter`) on the counter side of a book whose own side was
      `own`: a LIMIT order without a price that had quantity to match fails with nothing traded
      and is REJECTED; every other order gets the trades of the matching rule, keeps what is
      left, sees the counter side the rule leaves, takes the status `FinalStatus` gives and
      rests on its own side exactly when it is a LIMIT order with quantity left. In every case
      the own side is `OwnAfter` of `own`, and the counter side is what is left of `counter`
      after its first orders were used up. */
  ghost predicate Processed(order: Order, book: OrderBook, r: Result<seq<Trade>, Fault>, taker: Taker, met: seq<Resting>,
                            own: seq<PriceLevel>, counter: seq<Order>)
    reads order, book, Counter(order, book), counter
  {
    && WellFormed(order.side, own)
    && book.SideLevels(order.side) == OwnAfter(order, own)
    && UsedUpFront(counter, Counter(order, book))
    && Matched(order, book, r, taker, met)
  }

  /** The outcome part of `Processed`: the result, the order's quantity and status, where it
      rests, and what the matching rule sees of the counter side afterwards. */
  ghost predicate Matched(order: Order, book: OrderBook, r: Result<seq<Trade>, Fault>, taker: Taker, met: seq<Resting>)
    reads order, book, Counter(order, book)
  {
    var out := Match(taker, met);
    if order.kind == Limit && order.price.None? && taker.remaining > 0 then
      && r == Failure(MissingPrice) && order.status == Rejected
      && order.remainingQty == taker.remaining && order.filledQty == taker.filled
      && View(Counter(order, book)) == met
      && order !in Flatten(book.SideLevels(order.side))
    else
      && r == Success(out.trades) && order.remainingQty == out.left && order.filledQty == out.filled
      && View(Counter(order, book)) == out.rest
      && order.status == FinalStatus(order.kind, out)
      && (order in Flatten(book.SideLevels(order.side)) <==> order.kind == Limit && out.left > 0)
  }

  /** Processing an incoming NEW order on its instrument's book: a MARKET order trades and
      never rests; a LIMIT order trades and rests with what is left; a LIMIT order without a
      price that has quantity to match fails before anything trades and is REJECTED, leaving
      the book as it was. The book is sound afterwards in every case; the order's own side
      gains at most the order itself, and the counter side only loses orders from its front,
      each of them FILLED. */
  method ProcessOnBook(order: Order, book: OrderBook) returns (r: Result<seq<Trade>, Fault>)
    requires Sound(book) && order.symbol == book.symbol && order.status == New && order.Balanced()
    requires order !in Flatten(book.bids) && order !in Flatten(book.asks)
    modifies book, order, Counter(order, book)
    ensures Sound(book)
    ensures order !in Flatten(book.SideLevels(Opposite(order.side)))
    ensures Processed(order, book, r, old(TakerOf(order)), old(View(Counter(order, book))),
                      old(book.SideLevels(order.side)), old(Counter(order, book)))
    ensures r.Failure? ==> book.bids == old(book.bids) && book.asks == old(book.asks)
  {
    ghost var counter := Counter(order, book);
    if order.kind == Market {
      var trades := MarketOnBook(order, book);
      r := Success(trades);
    } else if order.price.None? {
      assert counter[..0] == [] && counter[0..] == counter;
      if order.remainingQty > 0 {
        order.status := Rejected;
        r := Failure(MissingPrice);
      } else {
        r := Success([]);
      }
    } else {
      var trades := LimitOnBook(order, book);
      r := Success(trades);
    }
  }

  /** Taking an order off `side` keeps that side apart from the other: the new best price on
      `side` is the old one or the next one behind it. */
  lemma RemoveApart(side: Side, own: seq<PriceLevel>, cnt: seq<PriceLevel>, o: Order)
    requires WellFormed(side, own) && o.side == side && o.price.Some? && Apart(side, own, cnt)
    ensures Apart(side, Remove(own, o).levels, cnt)
  {
  }

  /** Takes a priced order off its side of a sound book, which stays sound; `removed` tells
      whether it rested there. */
  method TakeOff(order: Order, book: OrderBook) returns (removed: bool)
    requires Sound(book) && order.symbol == book.symbol && order.price.Some?
    modifies book
    ensures Sound(book)
    ensures removed == old(order in Flatten(book.SideLevels(order.side)))
    ensures book.SideLevels(order.side) == Remove(old(book.SideLevels(order.side)), order).levels
    ensures book.SideLevels(Opposite(order.side)) == old(book.SideLevels(Opposite(order.side)))
    ensures order !in Flatten(book.bids) && order !in Flatten(book.asks)
  {
    ghost var own := book.SideLevels(order.side);
    ghost var cnt := book.SideLevels(Opposite(order.side));
    ghost var before := Flatten(own);
    ghost var vc := View(Flatten(cnt));
    SoundSides(book, order);
    assert allocated(before) && allocated(Flatten(cnt));
    removed := book.RemoveOrder(order);
    RemoveDistinct(own, order);
    SidesOf(Opposite(order.side), cnt);
    assert View(Flatten(cnt)) == vc;
    AfterRemove(book, order, own, cnt);
  }

  /** The book is sound again after `order` was taken off its side: before, its own side was
      `own` and the other side `cnt`, both sound. */
  lemma AfterRemove(book: OrderBook, order: Order, own: seq<PriceLevel>, cnt: seq<PriceLevel>)
    requires book.Valid() && order.price.Some?
    requires WellFormed(order.side, own) && WellFormed(Opposite(order.side), cnt)
    requires book.SideLevels(order.side) == Remove(own, order).levels && book.SideLevels(Opposite(order.side)) == cnt
    requires Distinct(Flatten(own))
    requires forall o :: o in Flatten(own) ==>
      o.symbol == book.symbol && o.remainingQty > 0 && (o.status == New || o.status == Partial) && o.Balanced()
    requires Distinct(Flatten(cnt)) && Matching.Live(View(Flatten(cnt)))
    requires forall o :: o in Flatten(cnt) ==> o.symbol == book.symbol
    requires Apart(order.side, own, cnt)
    ensures Sound(book)
  {
    var mine := book.SideLevels(order.side);
    RemoveDistinct(own, order);
    RemoveApart(order.side, own, cnt, order);
    OrdersLive(Flatten(mine));
    Resound(book, order.side, mine, cnt);
  }

  /** Takes `order` off its instrument's book and marks it CANCELLED when it rested there;
      `r` tells whether it did. An order without a price cannot be looked up: the lookup
      fails on the SELL side, and on the BUY side whenever there are bids; with no bids it
      finds nothing. */
  method CancelOnBook(order: Order, book: OrderBook) returns (r: Result<bool, Fault>)
    requires Sound(book) && order.symbol == book.symbol
    modifies book, order
    ensures Sound(book)
    ensures order.price.None? ==>
      && r == (if order.side == Sell || old(book.bids) != [] then Failure(MissingPrice) else Success(false))
      && unchanged(book, order)
    ensures order.price.Some? ==>
      && r == Success(old(order in Flatten(book.SideLevels(order.side))))
      && book.SideLevels(order.side) == Remove(old(book.SideLevels(order.side)), order).levels
      && book.SideLevels(Opposite(order.side)) == old(book.SideLevels(Opposite(order.side)))
      && order !in Flatten(book.bids) && order !in Flatten(book.asks)
      && order.status == (if r.value then Cancelled else old(order.status))
  {
    if order.price.None? {
      if order.side == Sell || book.bids != [] {
        return Failure(MissingPrice);
      }
      return Success(false);
    }
    var removed := TakeOff(order, book);
    assert order !in book.Orders();
    if removed {
      order.status := Cancelled;
    }
    r := Success(removed);
  }
}
