/** An order: one player's trading intent and its execution state. */
module Orders {
  import opened Types

  class Order {
    /** Database id; assigned by the persistence layer and taken as given here. */
    const id: int
    const playerId: string
    /** Caller-supplied idempotency key. */
    const clOrdId: string
    const symbol: string
    const side: Side
    /** Original quantity. */
    const qty: int
    /** Limit price in ticks; absent for a MARKET order. */
    const price: Option<int>
    const kind: OrderType

    var status: OrderStatus
    var filledQty: int
    var remainingQty: int

    /** A new order has nothing filled, all of its quantity remaining, and status NEW. */
    constructor (id: int, playerId: string, clOrdId: string, symbol: string, side: Side,
                 qty: int, price: Option<int>, kind: OrderType)
      ensures this.id == id && this.playerId == playerId && this.clOrdId == clOrdId
      ensures this.symbol == symbol && this.side == side && this.qty == qty
      ensures this.price == price && this.kind == kind
      ensures status == New && filledQty == 0 && remainingQty == qty
      ensures Balanced()
    {
      this.id := id;
      this.playerId := playerId;
      this.clOrdId := clOrdId;
      this.symbol := symbol;
      this.side := side;
      this.qty := qty;
      this.price := price;
      this.kind := kind;
      status := New;
      filledQty := 0;
      remainingQty := qty;
    }

    /** Filled and remaining quantities always add up to the original quantity. */
    ghost predicate Balanced()
      reads this
    {
      filledQty + remainingQty == qty
    }

    /** Records a fill of `fill` units: FILLED once nothing (or less) remains, PARTIAL otherwise.
        Only the three execution-state fields change. */
    method AddFill(fill: int)
      modifies this`filledQty, this`remainingQty, this`status
      ensures filledQty == old(filledQty) + fill
      ensures remainingQty == old(remainingQty) - fill
      ensures status == (if remainingQty <= 0 then Filled else Partial)
      ensures old(Balanced()) ==> Balanced()
    {
      filledQty := filledQty + fill;
      remainingQty := remainingQty - fill;
      if remainingQty <= 0 {
        status := Filled;
      } else {
        status := Partial;
      }
    }
  }
}
