/** The order book of one instrument: bids sorted by descending price, asks by ascending price,
    each price holding a FIFO queue of resting orders. */
module Books {
  import opened Types
  import opened Orders
  import opened Levels
  import Matching

  /** A market-data snapshot: the top levels of each side, best first. */
  datatype BookUpdate = BookUpdate(symbol: string, bids: seq<BookLevel>, asks: seq<BookLevel>)

  /** Half of `s`, rounded to the nearest whole tick with ties going away from zero. */
  function HalfUp(s: int): (r: int)
    ensures s % 2 == 0 ==> 2 * r == s
    ensures s % 2 != 0 && s > 0 ==> 2 * r == s + 1
    ensures s % 2 != 0 && s < 0 ==> 2 * r == s - 1
  {
    if s >= 0 then (s + 1) / 2 else -((-s + 1) / 2)
  }

  class OrderBook {
    const symbol: string
    var bids: seq<PriceLevel>
    var asks: seq<PriceLevel>

    /** Both sides keep their shape: sorted levels, none empty, orders at their level's price. */
    ghost predicate Valid()
      reads this
    {
      WellFormed(Buy, bids) && WellFormed(Sell, asks)
    }

    /** The levels of one side. */
    function SideLevels(side: Side): seq<PriceLevel>
      reads this
    {
      if side == Buy then bids else asks
    }

    /** Every order resting in the book. */
    ghost function Orders(): set<Order>
      reads this
    {
      OrderSet(bids) + OrderSet(asks)
    }

    /** Besides the shape, no order rests twice and every resting order has quantity left and
        status NEW or PARTIAL: what the engine keeps. */
    ghost predicate Healthy()
      reads this, Orders()
    {
      && Valid()
      && Distinct(Flatten(bids)) && Distinct(Flatten(asks))
      && Matching.Live(View(Flatten(bids))) && Matching.Live(View(Flatten(asks)))
    }

    /** The best bid is below the best ask whenever both sides have orders. */
    ghost predicate Uncrossed()
      reads this
    {
      bids == [] || asks == [] || bids[0].price < asks[0].price
    }

    constructor (symbol: string)
      ensures this.symbol == symbol && bids == [] && asks == []
      ensures Valid()
    {
      this.symbol := symbol;
      bids := [];
      asks := [];
    }

    /** Queues `o` at the tail of the level for its side and price, creating the level if it
        is absent. */
    method AddOrder(o: Order)
      requires Valid() && o.price.Some?
      modifies this
      ensures Valid()
      ensures SideLevels(o.side) == Insert(old(SideLevels(o.side)), o)
      ensures SideLevels(Opposite(o.side)) == old(SideLevels(Opposite(o.side)))
    {
      if o.side == Buy {
        bids := Insert(bids, o);
      } else {
        asks := Insert(asks, o);
      }
    }

    /** Takes `o` out of the queue for its side and price, dropping the level once it is empty;
        `removed` tells whether `o` was queued there. */
    method RemoveOrder(o: Order) returns (removed: bool)
      requires Valid() && o.price.Some?
      modifies this
      ensures Valid()
      ensures removed == Remove(old(SideLevels(o.side)), o).removed
      ensures SideLevels(o.side) == Remove(old(SideLevels(o.side)), o).levels
      ensures SideLevels(Opposite(o.side)) == old(SideLevels(Opposite(o.side)))
    {
      var r := Remove(SideLevels(o.side), o);
      if o.side == Buy {
        bids := r.levels;
      } else {
        asks := r.levels;
      }
      removed := r.removed;
    }

    method Clear()
      modifies this
      ensures bids == [] && asks == []
      ensures Valid()
    {
      bids := [];
      asks := [];
    }

    /** The bid with priority: the oldest order at the highest bid price; absent when there
        are no bids. */
    function BestBid(): (r: Option<Order>)
      requires Valid()
      reads this
      ensures r.None? <==> Flatten(bids) == []
      ensures r.Some? ==> r.value == Flatten(bids)[0] && r.value.price == Some(bids[0].price)
      ensures r.Some? ==> forall o :: o in Flatten(bids) ==> PriceOf(o) <= PriceOf(r.value)
    {
      Front(Buy, bids)
    }

    /** The ask with priority: the oldest order at the lowest ask price; absent when there
        are no asks. */
    function BestAsk(): (r: Option<Order>)
      requires Valid()
      reads this
      ensures r.None? <==> Flatten(asks) == []
      ensures r.Some? ==> r.value == Flatten(asks)[0] && r.value.price == Some(asks[0].price)
      ensures r.Some? ==> forall o :: o in Flatten(asks) ==> PriceOf(o) >= PriceOf(r.value)
    {
      Front(Sell, asks)
    }

    /** The price of the best order on `side`, which no price with a level on that side beats. */
    function BestPrice(side: Side): (r: Option<int>)
      requires Valid()
      reads this
      ensures r.None? <==> SideLevels(side) == []
      ensures r.Some? ==> r.value in Prices(SideLevels(side))
      ensures r.Some? ==> forall o :: o in Flatten(SideLevels(side)) ==> !Ahead(side, PriceOf(o), r.value)
    {
      var best := if side == Buy then BestBid() else BestAsk();
      if best.Some? then best.value.price else None
    }

    /** The queue at `price` on `side`, oldest first; empty when there is no such level. It
        holds every order of the side at that price and nothing else, in priority order. */
    function OrdersAtPrice(side: Side, price: int): (r: seq<Order>)
      requires Valid()
      reads this
      ensures r == [] <==> price !in Prices(SideLevels(side))
      ensures forall o :: o in r ==> o.side == side && o.price == Some(price) && o in Flatten(SideLevels(side))
      ensures r == AtPrice(Flatten(SideLevels(side)), price)
    {
      QueueAtOrders(side, SideLevels(side), price);
      LevelIffQueue(side, SideLevels(side), price);
      QueueAtIsFilter(side, SideLevels(side), price);
      QueueAt(SideLevels(side), price)
    }

    /** Total remaining quantity at `price` on `side`: the remaining quantities of all the
        side's orders at that price added up, 0 when there is no such level, and positive
        exactly when the level exists, in a healthy book. */
    function QuantityAtPrice(side: Side, price: int): (n: int)
      requires Valid()
      reads this, Orders()
      ensures n == SumRemaining(AtPrice(Flatten(SideLevels(side)), price))
      ensures price !in Prices(SideLevels(side)) ==> n == 0
      ensures Healthy() ==> (n > 0 <==> price in Prices(SideLevels(side)))
    {
      var q := OrdersAtPrice(side, price);
      LevelQuantity(side, price);
      SumRemaining(q)
    }

    /** In a healthy book a level's orders all have quantity left, so its total is positive. */
    lemma LevelQuantity(side: Side, price: int)
      requires Valid()
      ensures Healthy() ==> (SumRemaining(OrdersAtPrice(side, price)) > 0 <==> price in Prices(SideLevels(side)))
    {
      if Healthy() {
        LiveOrders(Flatten(SideLevels(side)));
        SumRemainingPositive(OrdersAtPrice(side, price));
      }
    }

    /** The top `levels` levels of each side with the total remaining quantity at each; none
        for a negative depth, which the stream limit refuses with an exception. */
    function Snapshot(levels: int): (r: Option<BookUpdate>)
      requires Valid()
      reads this, Orders()
      ensures r.None? <==> levels < 0
      ensures r.Some? ==> r.value.symbol == symbol
      ensures r.Some? ==> |r.value.bids| == Min(levels, |bids|) && |r.value.asks| == Min(levels, |asks|)
      ensures r.Some? ==> forall i :: 0 <= i < |r.value.bids| ==>
        r.value.bids[i] == BookLevel(bids[i].price, SumRemaining(bids[i].queue))
      ensures r.Some? ==> forall i :: 0 <= i < |r.value.asks| ==>
        r.value.asks[i] == BookLevel(asks[i].price, SumRemaining(asks[i].queue))
      ensures r.Some? ==> forall i, j :: 0 <= i < j < |r.value.bids| ==> r.value.bids[i].price > r.value.bids[j].price
      ensures r.Some? ==> forall i, j :: 0 <= i < j < |r.value.asks| ==> r.value.asks[i].price < r.value.asks[j].price
    {
      if levels < 0 then None
      else
        Sorted(Buy, bids);
        Sorted(Sell, asks);
        Some(BookUpdate(symbol, Depth(bids, levels), Depth(asks, levels)))
    }

    /** Whether `o` would trade with the best order on the other side: a BUY at or above the
        best ask, a SELL at or below the best bid. */
    function CanCross(o: Order): (r: bool)
      requires Valid() && o.price.Some?
      reads this
      ensures r <==>
        SideLevels(Opposite(o.side)) != [] &&
        Matching.Crosses(o.side, o.price.value, SideLevels(Opposite(o.side))[0].price)
    {
      if o.side == Buy then
        var ask := BestAsk();
        ask.Some? && o.price.value >= PriceOf(ask.value)
      else
        var bid := BestBid();
        bid.Some? && o.price.value <= PriceOf(bid.value)
    }

    /** Best ask minus best bid, when both sides have orders; positive exactly when the book
        is not crossed. */
    function Spread(): (r: Option<int>)
      requires Valid()
      reads this
      ensures r.Some? <==> bids != [] && asks != []
      ensures r.Some? ==> r.value == asks[0].price - bids[0].price
      ensures r.Some? ==> (r.value > 0 <==> Uncrossed())
    {
      var bid := BestBid();
      var ask := BestAsk();
      if bid.Some? && ask.Some? then Some(PriceOf(ask.value) - PriceOf(bid.value)) else None
    }

    /** Midpoint of best bid and best ask rounded half-up to a whole tick, when both sides
        have orders; in an uncrossed book it lies between the two. */
    function MidPrice(): (r: Option<int>)
      requires Valid()
      reads this
      ensures r.Some? <==> bids != [] && asks != []
      ensures r.Some? ==> -1 <= 2 * r.value - (bids[0].price + asks[0].price) <= 1
      ensures r.Some? ==> r.value == HalfUp(bids[0].price + asks[0].price)
      ensures r.Some? && Uncrossed() ==> bids[0].price <= r.value <= asks[0].price
    {
      var bid := BestBid();
      var ask := BestAsk();
      if bid.Some? && ask.Some? then Some(HalfUp(PriceOf(bid.value) + PriceOf(ask.value))) else None
    }

    /** Number of resting orders on both sides. */
    function OrderCount(): (n: nat)
      reads this
      ensures n == |Flatten(bids)| + |Flatten(asks)|
    {
      Count(bids) + Count(asks)
    }

    /** The book has no level on either side, which is the same as holding no order. */
    function IsEmpty(): (r: bool)
      requires Valid()
      reads this
      ensures r <==> OrderCount() == 0
    {
      BestHasPriority(Buy, bids);
      BestHasPriority(Sell, asks);
      bids == [] && asks == []
    }
  }
}
