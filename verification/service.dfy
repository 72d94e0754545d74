/** The matching engine service: the registry of order books, one per instrument symbol, and
    the operations the rest of the system calls: process an incoming order, cancel a resting
    one, clear the books. */
module Service {
  import opened Types
  import opened Orders
  import opened Levels
  import opened Books
  import opened Matching
  import opened Engine

  class MatchingEngineService {
    /** The books, by symbol; a book is created the first time an order for its symbol comes. */
    var books: map<string, OrderBook>

    /** Every order resting in some book. */
    ghost function Resting(): set<Order>
      reads this, books.Values
    {
      set s, o | s in books && o in books[s].Orders() :: o
    }

    /** Each book is filed under its own symbol and is sound. */
    ghost predicate Valid()
      reads this, books.Values, Resting()
    {
      forall s :: s in books ==> books[s].symbol == s && Sound(books[s])
    }

    /** What the matching rule sees of the counter side an order would meet: the counter side
        of its instrument's book, or nothing when that book does not exist yet. */
    ghost function Waiting(order: Order): seq<Resting>
      reads this, books.Values, Resting()
    {
      if order.symbol in books then
        CounterResting(order);
        View(Counter(order, books[order.symbol]))
      else []
    }

    /** The counter side an order meets in its instrument's book rests in the registry. */
    lemma CounterResting(order: Order)
      requires order.symbol in books
      ensures forall o :: o in Counter(order, books[order.symbol]) ==> o in Resting()
    {
      var book := books[order.symbol];
      forall o | o in Counter(order, book)
        ensures o in Resting()
      {
        assert o in book.Orders();
      }
    }

    /** A service starts with no books. */
    constructor ()
      ensures books == map[]
      ensures Valid()
    {
      books := map[];
    }

    /** In a valid registry an order for `symbol` can rest only in the book for `symbol`. */
    lemma RestingIn(o: Order)
      requires Valid() && o.symbol in books
      ensures o in Resting() <==> o in Flatten(books[o.symbol].bids) || o in Flatten(books[o.symbol].asks)
    {
      var book := books[o.symbol];
      if o in Resting() {
        var s :| s in books && o in books[s].Orders();
        assert o in Flatten(books[s].bids) || o in Flatten(books[s].asks);
        assert o.symbol == s;
      }
      if o in Flatten(book.bids) || o in Flatten(book.asks) {
        assert o in book.Orders();
      }
    }

    /** An order for a symbol with a book rests in no other book, and the other books are
        other objects. */
    lemma Elsewhere(o: Order)
      requires Valid() && o.symbol in books
      ensures forall s :: s in books && s != o.symbol ==> books[s] != books[o.symbol] && o !in books[s].Orders()
    {
      forall s | s in books && s != o.symbol
        ensures books[s] != books[o.symbol] && o !in books[s].Orders()
      {
        var b := books[s];
        assert b.symbol == s;
      }
    }

    /** Files a new, empty book for `symbol`. */
    method NewBook(symbol: string) returns (book: OrderBook)
      requires Valid() && symbol !in books
      modifies this
      ensures Valid()
      ensures fresh(book) && book.symbol == symbol && book.bids == [] && book.asks == []
      ensures books == old(books)[symbol := book]
    {
      ghost var old_books := books;
      assert forall s :: s in books ==> allocated(books[s].Orders());
      book := new OrderBook(symbol);
      books := books[symbol := book];
      assert Sound(book);
      forall s | s in old_books
        ensures Sound(old_books[s])
      {
        var b := old_books[s];
        assert old(Sound(b)) && b.bids == old(b.bids) && b.asks == old(b.asks);
      }
    }

    /** The counter orders `order` would meet: the counter side of its instrument's book, or
        none when that book does not exist yet. */
    ghost function Met(order: Order): seq<Order>
      reads this, books.Values
    {
      if order.symbol in books then Counter(order, books[order.symbol]) else []
    }

    /** The levels of `order`'s own side in its instrument's book, or none when that book does
        not exist yet. */
    ghost function OwnLevels(order: Order): (r: seq<PriceLevel>)
      reads this, books.Values, Resting()
      ensures Valid() ==> WellFormed(order.side, r)
    {
      if order.symbol in books then books[order.symbol].SideLevels(order.side) else []
    }

    /** What processing `order` left behind in the registry, for an order that came in as
        `taker` and met `met` (the orders `counter`) on the counter side of its instrument's
        book, whose own side held `own`: the outcome `ProcessOnBook` describes, seen through the
        registry, with the trades wrapped in a `MatchResult` for the order. */
    ghost predicate Handled(order: Order, r: Result<MatchResult, Fault>, taker: Taker, met: seq<Resting>,
                            own: seq<PriceLevel>, counter: seq<Order>)
      reads this, books.Values, Resting(), order, counter
    {
      && WellFormed(order.side, own)
      && OwnLevels(order) == OwnAfter(order, own)
      && UsedUpFront(counter, Met(order))
      && Reported(order, r, taker, met)
    }

    /** The outcome part of `Handled`. */
    ghost predicate Reported(order: Order, r: Result<MatchResult, Fault>, taker: Taker, met: seq<Resting>)
      reads this, books.Values, Resting(), order
    {
      var out := Match(taker, met);
      if order.kind == Limit && order.price.None? && taker.remaining > 0 then
        && r == Failure(MissingPrice) && order.status == Rejected
        && order.remainingQty == taker.remaining && order.filledQty == taker.filled
        && Waiting(order) == met
        && order !in Resting()
      else
        && r == Success(MatchResult(out.trades, order))
        && order.remainingQty == out.left && order.filledQty == out.filled
        && Waiting(order) == out.rest
        && order.status == FinalStatus(order.kind, out)
        && (order in Resting() <==> order.kind == Limit && out.left > 0)
    }

    /** Processes an incoming NEW order that rests nowhere yet: finds or creates the book for
        its symbol and matches the order there as `ProcessOnBook` says, against what that book
        held. The other books keep their sides, no resting order changes but the counter
        orders the order met, and every book stays sound. */
    method ProcessOrder(order: Order) returns (r: Result<MatchResult, Fault>)
      requires Valid() && order.status == New && order.Balanced() && order !in Resting()
      modifies this, order, books.Values, Met(order)
      ensures Valid()
      ensures order.symbol in books && books.Keys == old(books.Keys) + {order.symbol}
      ensures forall s :: s in old(books) ==> books[s] == old(books[s])
      ensures forall s :: s in old(books) && s != order.symbol ==>
        books[s].bids == old(books[s].bids) && books[s].asks == old(books[s].asks)
      ensures Handled(order, r, old(TakerOf(order)), old(Waiting(order)), old(OwnLevels(order)), old(Met(order)))
    {
      var book := BookOf(order);
      r := ProcessIn(order, book);
    }

    /** The book an incoming order that rests nowhere yet goes to, created when missing; the
        order meets in it the counter side it met before, and it does not rest in it. */
    method BookOf(order: Order) returns (book: OrderBook)
      requires Valid() && order !in Resting()
      modifies this
      ensures Valid()
      ensures order.symbol in books && books[order.symbol] == book
      ensures books.Keys == old(books.Keys) + {order.symbol}
      ensures forall s :: s in old(books) ==> books[s] == old(books[s])
      ensures forall s :: s in old(books) && s != order.symbol ==>
        books[s].bids == old(books[s].bids) && books[s].asks == old(books[s].asks)
      ensures order.symbol !in old(books) ==> fresh(book)
      ensures Waiting(order) == old(Waiting(order))
      ensures Met(order) == old(Met(order)) && OwnLevels(order) == old(OwnLevels(order))
      ensures forall o :: o in Counter(order, book) ==> o in old(Resting())
      ensures order !in Flatten(book.bids) && order !in Flatten(book.asks)
    {
      if order.symbol in books {
        book := books[order.symbol];
        RestingIn(order);
        CounterResting(order);
      } else {
        book := NewBook(order.symbol);
        assert Counter(order, book) == [];
      }
    }

    /** Processes `order` on `book`, the book filed under the order's symbol, as
        `ProcessOnBook` says, and reports the outcome as the registry sees it. */
    method ProcessIn(order: Order, book: OrderBook) returns (r: Result<MatchResult, Fault>)
      requires Valid() && order.symbol in books && books[order.symbol] == book
      requires order.status == New && order.Balanced() && order !in Flatten(book.bids) && order !in Flatten(book.asks)
      modifies order, book, Counter(order, book)
      ensures books == old(books) && Valid()
      ensures forall s :: s in books && s != order.symbol ==>
        books[s].bids == old(books[s].bids) && books[s].asks == old(books[s].asks)
      ensures Handled(order, r, old(TakerOf(order)), old(Waiting(order)), old(OwnLevels(order)), old(Met(order)))
    {
      assert Waiting(order) == View(Counter(order, book));
      var res := MatchIn(order, book);
      assert Waiting(order) == View(Counter(order, book));
      RestingIn(order);
      assert order in Resting() <==> order in Flatten(book.SideLevels(order.side));
      match res
      case Success(trades) => r := Success(MatchResult(trades, order));
      case Failure(e) => r := Failure(e);
    }

    /** Runs `ProcessOnBook` on `book`, the book filed under the order's symbol; the other books
        keep their sides and stay sound. */
    method MatchIn(order: Order, book: OrderBook) returns (r: Result<seq<Trade>, Fault>)
      requires Valid() && order.symbol in books && books[order.symbol] == book
      requires order.status == New && order.Balanced() && order !in Flatten(book.bids) && order !in Flatten(book.asks)
      modifies order, book, Counter(order, book)
      ensures Valid()
      ensures forall s :: s in books && s != order.symbol ==>
        books[s].bids == old(books[s].bids) && books[s].asks == old(books[s].asks)
      ensures Processed(order, book, r, old(TakerOf(order)), old(View(Counter(order, book))),
                        old(book.SideLevels(order.side)), old(Counter(order, book)))
      ensures order !in Flatten(book.SideLevels(Opposite(order.side)))
    {
      ghost var cs := Counter(order, book);
      assert forall o :: o in cs ==> o in book.Orders() && o.symbol == order.symbol;
      assert forall s :: s in books ==> allocated(books[s].Orders());
      forall s | s in books
        ensures forall o :: o in books[s].Orders() ==> o.symbol == s
      {
        assert books[s].symbol == s && Sound(books[s]);
      }
      r := ProcessOnBook(order, book);
      forall s | s in books && s != order.symbol
        ensures Sound(books[s])
        ensures books[s].bids == old(books[s].bids) && books[s].asks == old(books[s].asks)
      {
        var b := books[s];
        assert old(Sound(b)) && b != book;
      }
    }

    /** Cancels the order the order repository found for a client order id, `found` being
        none when it found nothing. Only a NEW or PARTIAL order whose instrument has a book
        can be cancelled; then the book's own lookup decides, as `CancelOnBook` says: a priced
        order is taken off its side, the book's other side is kept, and a priceless one changes
        nothing. Every other cancel leaves every book as it was; no other book ever changes,
        and every book stays sound. */
    method CancelOrder(found: Option<Order>) returns (r: Result<bool, Fault>)
      requires Valid()
      modifies books.Values, if found.Some? then {found.value} else {}
      ensures books == old(books) && Valid()
      ensures found.None? ==> r == Success(false)
      ensures found.Some? && (old(found.value.status) !in {New, Partial} || found.value.symbol !in books) ==>
        r == Success(false) && unchanged(found.value)
      ensures found.Some? && old(found.value.status) in {New, Partial} && found.value.symbol in books ==>
        var order, book := found.value, books[found.value.symbol];
        if order.price.None? then
          && r == (if order.side == Sell || old(book.bids) != [] then Failure(MissingPrice) else Success(false))
          && unchanged(order)
        else
          && r == Success(old(order in Resting())) && order !in Resting()
          && book.SideLevels(order.side) == Remove(old(book.SideLevels(order.side)), order).levels
          && book.SideLevels(Opposite(order.side)) == old(book.SideLevels(Opposite(order.side)))
          && order.status == (if r.value then Cancelled else old(order.status))
      ensures forall s :: s in books ==>
        (found.None? || s != found.value.symbol || old(found.value.status) !in {New, Partial} || found.value.price.None?) ==>
        books[s].bids == old(books[s].bids) && books[s].asks == old(books[s].asks)
    {
      if found.None? {
        return Success(false);
      }
      var order := found.value;
      if order.status != New && order.status != Partial {
        return Success(false);
      }
      if order.symbol !in books {
        return Success(false);
      }
      RestingIn(order);
      r := CancelIn(order, books[order.symbol]);
      RestingIn(order);
    }

    /** Runs `CancelOnBook` on `book`, the book filed under the order's symbol, with what it
        does to that book; the other books keep their sides and stay sound. */
    method CancelIn(order: Order, book: OrderBook) returns (r: Result<bool, Fault>)
      requires Valid() && order.symbol in books && books[order.symbol] == book
      modifies book, order
      ensures Valid()
      ensures order.price.None? ==>
        && r == (if order.side == Sell || old(book.bids) != [] then Failure(MissingPrice) else Success(false))
        && unchanged(order)
        && book.bids == old(book.bids) && book.asks == old(book.asks)
      ensures order.price.Some? ==>
        && r == Success(old(order in Flatten(book.bids) || order in Flatten(book.asks)))
        && book.SideLevels(order.side) == Remove(old(book.SideLevels(order.side)), order).levels
        && book.SideLevels(Opposite(order.side)) == old(book.SideLevels(Opposite(order.side)))
        && order !in Flatten(book.bids) && order !in Flatten(book.asks)
        && order.status == (if r.value then Cancelled else old(order.status))
      ensures forall s :: s in books && s != order.symbol ==>
        books[s].bids == old(books[s].bids) && books[s].asks == old(books[s].asks)
    {
      assert forall s :: s in books ==> allocated(books[s].Orders());
      Elsewhere(order);
      r := CancelOnBook(order, book);
      forall s | s in books && s != order.symbol
        ensures Sound(books[s])
        ensures books[s].bids == old(books[s].bids) && books[s].asks == old(books[s].asks)
      {
        assert old(Sound(books[s]));
      }
    }

    /** Forgets every book; the books themselves are left as they were. */
    method ClearAllOrderBooks()
      modifies this
      ensures books == map[] && Valid() && Resting() == {}
    {
      books := map[];
    }

    /** Empties every book, then forgets them all. */
    method ClearAllBooks()
      modifies this, books.Values
      ensures books == map[] && Valid() && Resting() == {}
      ensures forall b :: b in old(books.Values) ==> b.bids == [] && b.asks == []
    {
      var left := books.Values;
      while left != {}
        invariant books == old(books) && left <= books.Values
        invariant forall b :: b in books.Values && b !in left ==> b.bids == [] && b.asks == []
        decreases left
      {
        var b :| b in left;
        b.Clear();
        left := left - {b};
      }
      books := map[];
    }
  }
}
