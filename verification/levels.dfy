/** One side of an order book: a map from price to a FIFO queue of orders, sorted best price
    first (descending for bids, ascending for asks). A side is the list of its levels in that
    order; the functions here are what the book's sorted map and its queues do. */
module Levels {
  import opened Types
  import opened Orders
  import Matching

  /** One price level: its price and the orders resting there, oldest first. */
  datatype PriceLevel = PriceLevel(price: int, queue: seq<Order>)

  /** One line of a market-data snapshot: a price and the quantity resting at it. */
  datatype BookLevel = BookLevel(price: int, quantity: int)

  /** Outcome of removing an order from one side: the new levels and whether it was found. */
  datatype Removal = Removal(levels: seq<PriceLevel>, removed: bool)

  /** Price `p` comes before price `q` on `side`: higher for bids, lower for asks. */
  predicate Ahead(side: Side, p: int, q: int)
  {
    if side == Buy then p > q else p < q
  }

  /** An order's price in ticks; 0 stands for the absent price of a MARKET order. */
  function PriceOf(o: Order): int
  {
    if o.price.Some? then o.price.value else 0
  }

  /** A level is non-empty and holds only orders on `side` priced at the level's price. */
  predicate LevelOk(side: Side, l: PriceLevel)
  {
    l.queue != [] && forall o :: o in l.queue ==> o.side == side && o.price == Some(l.price)
  }

  /** The shape a side keeps: levels strictly in priority order, none of them empty, every
      order on this side at the price of its level. */
  predicate WellFormed(side: Side, ls: seq<PriceLevel>)
  {
    ls != [] ==>
      && LevelOk(side, ls[0])
      && (|ls| > 1 ==> Ahead(side, ls[0].price, ls[1].price))
      && WellFormed(side, ls[1..])
  }

  /** All orders of the side in priority order: best level first, oldest first within a level. */
  function Flatten(ls: seq<PriceLevel>): seq<Order>
  {
    if ls == [] then [] else ls[0].queue + Flatten(ls[1..])
  }

  ghost function OrderSet(ls: seq<PriceLevel>): set<Order>
  {
    set o | o in Flatten(ls)
  }

  /** The prices that have a level. */
  function Prices(ls: seq<PriceLevel>): set<int>
  {
    if ls == [] then {} else {ls[0].price} + Prices(ls[1..])
  }

  /** The queue at price `p`, empty when there is no such level. */
  function QueueAt(ls: seq<PriceLevel>, p: int): seq<Order>
  {
    if ls == [] then [] else if ls[0].price == p then ls[0].queue else QueueAt(ls[1..], p)
  }

  /** No order appears twice. */
  predicate Distinct(s: seq<Order>)
  {
    forall o :: o in s ==> multiset(s)[o] == 1
  }

  /** A price has a level exactly when its queue is non-empty, since no level is empty. */
  lemma {:induction false} LevelIffQueue(side: Side, ls: seq<PriceLevel>, p: int)
    requires WellFormed(side, ls)
    ensures p in Prices(ls) <==> QueueAt(ls, p) != []
  {
    if ls != [] {
      LevelIffQueue(side, ls[1..], p);
    }
  }

  /** A price that comes before the first level has no level. */
  lemma {:induction false} AheadOfAll(side: Side, ls: seq<PriceLevel>, p: int)
    requires WellFormed(side, ls)
    requires ls != [] ==> Ahead(side, p, ls[0].price)
    ensures p !in Prices(ls) && QueueAt(ls, p) == []
  {
    if ls != [] {
      if |ls| > 1 {
        assert Ahead(side, ls[0].price, ls[1].price);
      }
      AheadOfAll(side, ls[1..], p);
    }
  }

  /** Every order of a well-formed side is on that side, priced, at a level's price, and no
      better than the first level: the front of the first queue has price-time priority. */
  lemma {:induction false} BestHasPriority(side: Side, ls: seq<PriceLevel>)
    requires WellFormed(side, ls)
    ensures forall o :: o in Flatten(ls) ==>
      && o.side == side && o.price.Some? && o.price.value in Prices(ls)
      && o in QueueAt(ls, o.price.value)
      && !Ahead(side, o.price.value, ls[0].price)
    ensures ls != [] ==> Flatten(ls) != [] && Flatten(ls)[0] == ls[0].queue[0]
  {
    if ls != [] {
      BestHasPriority(side, ls[1..]);
      forall o | o in Flatten(ls[1..])
        ensures o.price.value != ls[0].price && !Ahead(side, o.price.value, ls[0].price)
      {
        assert Ahead(side, ls[0].price, ls[1].price);
      }
    }
  }

  /** The side after adding `o` at the tail of the queue for its price, creating the level when
      it is absent. The best level afterwards is `o`'s or the old best. */
  function Insert(ls: seq<PriceLevel>, o: Order): (r: seq<PriceLevel>)
    requires WellFormed(o.side, ls) && o.price.Some?
    ensures WellFormed(o.side, r)
    ensures r != [] && (r[0].price == o.price.value || (ls != [] && r[0].price == ls[0].price))
  {
    var p := o.price.value;
    if ls == [] || Ahead(o.side, p, ls[0].price) then
      var r := [PriceLevel(p, [o])] + ls;
      assert r[1..] == ls;
      r
    else if ls[0].price == p then
      var r := [PriceLevel(p, ls[0].queue + [o])] + ls[1..];
      assert r[1..] == ls[1..];
      r
    else
      var r := [ls[0]] + Insert(ls[1..], o);
      assert r[1..] == Insert(ls[1..], o);
      r
  }

  /** Adding `o` puts it at the tail of the queue for its price and leaves every other queue as
      it was. */
  lemma {:induction false} InsertQueues(ls: seq<PriceLevel>, o: Order)
    requires WellFormed(o.side, ls) && o.price.Some?
    ensures QueueAt(Insert(ls, o), o.price.value) == QueueAt(ls, o.price.value) + [o]
    ensures forall p :: p != o.price.value ==> QueueAt(Insert(ls, o), p) == QueueAt(ls, p)
  {
    var p := o.price.value;
    var r := Insert(ls, o);
    if ls == [] || Ahead(o.side, p, ls[0].price) {
      AheadOfAll(o.side, ls, p);
      assert r[1..] == ls;
    } else if ls[0].price == p {
      assert r[1..] == ls[1..];
    } else {
      InsertQueues(ls[1..], o);
      assert r[1..] == Insert(ls[1..], o);
    }
  }

  /** Adding `o` adds exactly one occurrence of `o` to the side and nothing else. */
  lemma {:induction false} InsertOrders(ls: seq<PriceLevel>, o: Order)
    requires WellFormed(o.side, ls) && o.price.Some?
    ensures multiset(Flatten(Insert(ls, o))) == multiset(Flatten(ls)) + multiset{o}
  {
    var p := o.price.value;
    var r := Insert(ls, o);
    if ls == [] || Ahead(o.side, p, ls[0].price) {
      assert r[1..] == ls;
    } else if ls[0].price == p {
      assert r[1..] == ls[1..];
    } else {
      InsertOrders(ls[1..], o);
      assert r[1..] == Insert(ls[1..], o);
    }
  }

  /** Position of the first occurrence of `o` in `q`. */
  function IndexOf(q: seq<Order>, o: Order): (i: nat)
    requires o in q
    ensures i < |q| && q[i] == o && o !in q[..i]
  {
    if q[0] == o then 0 else 1 + IndexOf(q[1..], o)
  }

  /** The queue without the first occurrence of `o`; the other orders keep their order. */
  function RemoveFirst(q: seq<Order>, o: Order): (r: seq<Order>)
    ensures o !in q ==> r == q
  {
    if q == [] then []
    else if q[0] == o then q[1..]
    else [q[0]] + RemoveFirst(q[1..], o)
  }

  /** Removal takes exactly one occurrence of `o` out of a queue that holds it and adds
      nothing. */
  lemma RemoveFirstCounts(q: seq<Order>, o: Order)
    ensures o in q ==> |RemoveFirst(q, o)| == |q| - 1
    ensures forall x :: x in RemoveFirst(q, o) ==> x in q
    ensures multiset(RemoveFirst(q, o)) == multiset(q) - multiset{o}
  {
    var r := RemoveFirst(q, o);
    RemoveFirstMultiset(q, o);
    assert |multiset(r)| == |r| && |multiset(q)| == |q|;
    forall x | x in r
      ensures x in q
    {
      assert x in multiset(r);
    }
  }

  lemma {:induction false} RemoveFirstMultiset(q: seq<Order>, o: Order)
    ensures multiset(RemoveFirst(q, o)) == multiset(q) - multiset{o}
  {
    if q != [] {
      assert q == [q[0]] + q[1..];
      RemoveFirstMultiset(q[1..], o);
      if q[0] != o {
        var r := RemoveFirst(q[1..], o);
        assert RemoveFirst(q, o) == [q[0]] + r;
        assert multiset([q[0]] + r) == multiset{q[0]} + multiset(r);
      }
    }
  }

  /** Deque removal takes out exactly the first occurrence: what precedes it and what follows
      it stay, in the same order. */
  lemma RemoveFirstAt(q: seq<Order>, o: Order)
    requires o in q
    ensures RemoveFirst(q, o) == q[..IndexOf(q, o)] + q[IndexOf(q, o) + 1..]
  {
    var i := IndexOf(q, o);
    assert q == q[..i] + [o] + q[i + 1..];
    RemoveFirstSplit(q[..i], o, q[i + 1..]);
  }

  /** Removing `o` from `a + [o] + b`, where `a` does not hold `o`, leaves `a + b`. */
  lemma RemoveFirstSplit(a: seq<Order>, o: Order, b: seq<Order>)
    requires o !in a
    ensures RemoveFirst(a + [o] + b, o) == a + b
  {
    assert a + [o] + b == a + ([o] + b);
    RemoveFirstSkip(a, [o] + b, o);
    assert ([o] + b)[1..] == b;
  }

  /** The side after removing `o` from the queue at its price; the level goes as soon as its
      queue is empty, and nothing changes when `o` is not queued there. */
  function Remove(ls: seq<PriceLevel>, o: Order): (r: Removal)
    requires WellFormed(o.side, ls) && o.price.Some?
    ensures WellFormed(o.side, r.levels)
    ensures r.removed == (o in QueueAt(ls, o.price.value))
    ensures !r.removed ==> r.levels == ls
    ensures r.levels != [] ==>
      ls != [] && (r.levels[0].price == ls[0].price || (|ls| > 1 && r.levels[0].price == ls[1].price))
  {
    var p := o.price.value;
    if ls == [] then Removal(ls, false)
    else if ls[0].price == p then
      RemoveFirstCounts(ls[0].queue, o);
      var q := RemoveFirst(ls[0].queue, o);
      var levels := if q == [] then ls[1..] else [PriceLevel(p, q)] + ls[1..];
      assert q != [] ==> levels[1..] == ls[1..];
      Removal(if o in ls[0].queue then levels else ls, o in ls[0].queue)
    else
      var r := Remove(ls[1..], o);
      var levels := [ls[0]] + r.levels;
      assert levels[1..] == r.levels;
      Removal(if r.removed then levels else ls, r.removed)
  }

  /** Removing `o` takes its first occurrence out of the queue at its price and leaves every
      other queue as it was. */
  lemma {:induction false} RemoveQueues(ls: seq<PriceLevel>, o: Order)
    requires WellFormed(o.side, ls) && o.price.Some?
    ensures QueueAt(Remove(ls, o).levels, o.price.value) == RemoveFirst(QueueAt(ls, o.price.value), o)
    ensures forall p :: p != o.price.value ==> QueueAt(Remove(ls, o).levels, p) == QueueAt(ls, p)
  {
    var p := o.price.value;
    var r := Remove(ls, o);
    if ls != [] {
      if ls[0].price == p {
        AheadOfAll(o.side, ls[1..], p);
        assert r.levels != [] && r.levels[0].price == p ==> r.levels[1..] == ls[1..];
      } else {
        RemoveQueues(ls[1..], o);
        if r.removed {
          assert r.levels[1..] == Remove(ls[1..], o).levels;
        }
      }
    }
  }

  /** Removing an order the front part `a` holds leaves whatever follows `a` untouched. */
  lemma {:induction false} RemoveFirstAppend(a: seq<Order>, b: seq<Order>, o: Order)
    requires o in a
    ensures RemoveFirst(a + b, o) == RemoveFirst(a, o) + b
  {
    assert (a + b)[0] == a[0] && (a + b)[1..] == a[1..] + b;
    if a[0] != o {
      RemoveFirstAppend(a[1..], b, o);
    }
  }

  /** Removing an order the front part `a` does not hold leaves `a` untouched. */
  lemma {:induction false} RemoveFirstSkip(a: seq<Order>, b: seq<Order>, o: Order)
    requires o !in a
    ensures RemoveFirst(a + b, o) == a + RemoveFirst(b, o)
  {
    if a == [] {
      assert a + b == b;
    } else {
      assert (a + b)[0] == a[0] && (a + b)[1..] == a[1..] + b;
      RemoveFirstSkip(a[1..], b, o);
      assert a + RemoveFirst(b, o) == [a[0]] + (a[1..] + RemoveFirst(b, o));
    }
  }

  /** A removal that succeeds takes the first occurrence of `o` out of the side's orders in
      priority order, and every other order keeps its place. */
  lemma {:induction false} RemoveFlat(ls: seq<PriceLevel>, o: Order)
    requires WellFormed(o.side, ls) && o.price.Some?
    ensures Remove(ls, o).removed ==> Flatten(Remove(ls, o).levels) == RemoveFirst(Flatten(ls), o)
  {
    var p := o.price.value;
    var r := Remove(ls, o);
    if ls != [] && r.removed {
      if ls[0].price == p {
        var q := RemoveFirst(ls[0].queue, o);
        RemoveFirstAppend(ls[0].queue, Flatten(ls[1..]), o);
        assert Flatten(r.levels) == q + Flatten(ls[1..]) by {
          if q != [] {
            assert r.levels[0].queue == q && r.levels[1..] == ls[1..];
          }
        }
      } else {
        assert o !in ls[0].queue;
        RemoveFirstSkip(ls[0].queue, Flatten(ls[1..]), o);
        RemoveFlat(ls[1..], o);
        assert r.levels[0] == ls[0] && r.levels[1..] == Remove(ls[1..], o).levels;
      }
    }
  }

  /** A removal that succeeds takes exactly one occurrence of `o` off the side. */
  lemma RemoveOrders(ls: seq<PriceLevel>, o: Order)
    requires WellFormed(o.side, ls) && o.price.Some?
    ensures Remove(ls, o).removed ==>
      multiset(Flatten(Remove(ls, o).levels)) == multiset(Flatten(ls)) - multiset{o}
  {
    RemoveFlat(ls, o);
    RemoveFirstCounts(Flatten(ls), o);
  }

  /** Taking the front order of the best level off the side leaves the rest of the side, in
      the same priority order. */
  lemma RemoveFront(ls: seq<PriceLevel>, o: Order)
    requires WellFormed(o.side, ls) && Flatten(ls) != [] && o == Flatten(ls)[0]
    ensures o.price.Some?
    ensures Remove(ls, o).removed
    ensures Flatten(Remove(ls, o).levels) == Flatten(ls)[1..]
  {
    BestHasPriority(o.side, ls);
    var q := ls[0].queue;
    assert o in q && o.price == Some(ls[0].price);
    var rq := RemoveFirst(q, o);
    assert rq == q[1..];
    var levels := Remove(ls, o).levels;
    assert Flatten(ls) == q + Flatten(ls[1..]);
    assert (q + Flatten(ls[1..]))[1..] == q[1..] + Flatten(ls[1..]);
    if rq == [] {
      assert levels == ls[1..];
    } else {
      assert levels == [PriceLevel(ls[0].price, rq)] + ls[1..];
      assert levels[1..] == ls[1..];
    }
  }

  /** In a sequence without repeats, different positions hold different orders. */
  lemma DistinctPositions(s: seq<Order>)
    requires Distinct(s)
    ensures forall i, j :: 0 <= i < j < |s| ==> s[i] != s[j]
  {
    forall i, j | 0 <= i < j < |s|
      ensures s[i] != s[j]
    {
      assert s == s[..j] + s[j..];
      assert multiset(s) == multiset(s[..j]) + multiset(s[j..]);
      assert s[i] in s[..j] && s[j] in s[j..];
      assert multiset(s[..j])[s[i]] >= 1 && multiset(s[j..])[s[j]] >= 1;
      assert multiset(s)[s[j]] == 1 && multiset(s)[s[i]] == 1;
    }
  }

  /** A suffix of a sequence without repeats has none either. */
  lemma DistinctSuffix(s: seq<Order>, k: nat)
    requires Distinct(s) && k <= |s|
    ensures Distinct(s[k..])
  {
    assert s == s[..k] + s[k..];
    assert multiset(s) == multiset(s[..k]) + multiset(s[k..]);
    forall o | o in s[k..]
      ensures multiset(s[k..])[o] == 1
    {
      assert o in s;
    }
  }

  /** In a sequence without repeats, the order at position `k` is not among those before it. */
  lemma DistinctApart(s: seq<Order>, k: nat)
    requires Distinct(s) && k < |s|
    ensures s[k] !in s[..k]
  {
    assert s == s[..k] + s[k..];
    assert multiset(s) == multiset(s[..k]) + multiset(s[k..]);
    assert s[k] in s && s[k..][0] == s[k];
    assert multiset(s[k..])[s[k]] >= 1;
    assert multiset(s[..k])[s[k]] == 0;
  }

  /** A prefix one longer is the prefix followed by the next order. */
  lemma TakeOneMore(s: seq<Order>, k: nat)
    requires k < |s|
    ensures s[..k + 1] == s[..k] + [s[k]]
  {
  }

  /** Levels are in strict priority order, whatever two of them are compared. */
  lemma {:induction false} Sorted(side: Side, ls: seq<PriceLevel>)
    requires WellFormed(side, ls)
    ensures forall i, j :: 0 <= i < j < |ls| ==> Ahead(side, ls[i].price, ls[j].price)
  {
    if ls != [] {
      Sorted(side, ls[1..]);
      assert forall j :: 1 <= j < |ls| ==> ls[j] == ls[1..][j - 1];
    }
  }

  /** Number of orders on the side, counted level by level. */
  function Count(ls: seq<PriceLevel>): (n: nat)
    ensures n == |Flatten(ls)|
  {
    if ls == [] then 0 else |ls[0].queue| + Count(ls[1..])
  }

  /** Total remaining quantity of the orders in `q`. */
  function SumRemaining(q: seq<Order>): int
    reads q
  {
    if q == [] then 0 else q[0].remainingQty + SumRemaining(q[1..])
  }

  /** The first `n` levels of the side as snapshot lines: each level's price and the total
      remaining quantity of its orders. */
  function Depth(ls: seq<PriceLevel>, n: nat): (r: seq<BookLevel>)
    reads OrderSet(ls)
    ensures |r| == Min(n, |ls|)
    ensures forall i :: 0 <= i < |r| ==> r[i] == BookLevel(ls[i].price, SumRemaining(ls[i].queue))
  {
    if n == 0 || ls == [] then []
    else [BookLevel(ls[0].price, SumRemaining(ls[0].queue))] + Depth(ls[1..], n - 1)
  }

  /** What the matching rule sees of the resting orders `q`. */
  function View(q: seq<Order>): (v: seq<Matching.Resting>)
    reads q
    ensures |v| == |q|
  {
    if q == [] then [] else [Matching.Resting(q[0].id, PriceOf(q[0]), q[0].qty, q[0].filledQty, q[0].remainingQty, q[0].status)] + View(q[1..])
  }

  /** The matching rule sees each resting order's id, price, original, filled and remaining
      quantities, and status. */
  lemma {:induction false} ViewAt(q: seq<Order>)
    ensures forall i :: 0 <= i < |q| ==>
      View(q)[i] == Matching.Resting(q[i].id, PriceOf(q[i]), q[i].qty, q[i].filledQty, q[i].remainingQty, q[i].status)
  {
    if q != [] {
      ViewAt(q[1..]);
      assert forall i :: 1 <= i < |q| ==> View(q)[i] == View(q[1..])[i - 1] && q[i] == q[1..][i - 1];
    }
  }

  /** The order with price-time priority on a side: the front of the best level, absent when
      the side is empty. */
  function Front(side: Side, ls: seq<PriceLevel>): (r: Option<Order>)
    requires WellFormed(side, ls)
    ensures r.None? <==> Flatten(ls) == []
    ensures r.Some? ==> r.value == Flatten(ls)[0] && r.value.side == side && r.value.price == Some(ls[0].price)
    ensures r.Some? ==> forall o :: o in Flatten(ls) ==> !Ahead(side, PriceOf(o), PriceOf(r.value))
  {
    BestHasPriority(side, ls);
    if ls != [] && ls[0].queue != [] then Some(ls[0].queue[0]) else None
  }

  /** The orders queued at a price are on the side, carry that price, and are resting orders
      of the side. */
  lemma {:induction false} QueueAtOrders(side: Side, ls: seq<PriceLevel>, p: int)
    requires WellFormed(side, ls)
    ensures forall o :: o in QueueAt(ls, p) ==> o.side == side && o.price == Some(p) && o in Flatten(ls)
  {
    if ls != [] && ls[0].price != p {
      QueueAtOrders(side, ls[1..], p);
    }
  }

  /** The orders of `s` priced at `p`, in the order they come in `s`. */
  function AtPrice(s: seq<Order>, p: int): (r: seq<Order>)
    ensures forall o :: o in r ==> o in s && o.price == Some(p)
  {
    if s == [] then []
    else (if s[0].price == Some(p) then [s[0]] else []) + AtPrice(s[1..], p)
  }

  /** Picking the orders at a price distributes over concatenation. */
  lemma {:induction false} AtPriceAppend(a: seq<Order>, b: seq<Order>, p: int)
    ensures AtPrice(a + b, p) == AtPrice(a, p) + AtPrice(b, p)
  {
    if a == [] {
      assert a + b == b;
    } else {
      assert (a + b)[1..] == a[1..] + b;
      AtPriceAppend(a[1..], b, p);
    }
  }

  /** A queue whose orders are all at `p` (`at`), or none of them (`!at`), keeps all or none. */
  lemma {:induction false} AtPriceUniform(q: seq<Order>, p: int, at: bool)
    requires forall o :: o in q ==> (o.price == Some(p)) == at
    ensures AtPrice(q, p) == if at then q else []
  {
    if q != [] {
      assert q[0] in q;
      assert forall o :: o in q[1..] ==> o in q;
      AtPriceUniform(q[1..], p, at);
      if at {
        assert q == [q[0]] + q[1..];
      }
    }
  }

  /** The queue kept at a price holds exactly the orders of the side at that price, in their
      priority order: no order at that price is kept anywhere else. */
  lemma {:induction false} QueueAtIsFilter(side: Side, ls: seq<PriceLevel>, p: int)
    requires WellFormed(side, ls)
    ensures QueueAt(ls, p) == AtPrice(Flatten(ls), p)
  {
    if ls != [] {
      QueueAtIsFilter(side, ls[1..], p);
      AtPriceAppend(ls[0].queue, Flatten(ls[1..]), p);
      AtPriceUniform(ls[0].queue, p, ls[0].price == p);
      if ls[0].price == p {
        AheadOfAll(side, ls[1..], p);
      }
    }
  }

  /** Orders that all have quantity left add up to at least one unit each. */
  lemma {:induction false} SumRemainingPositive(q: seq<Order>)
    requires forall o :: o in q ==> o.remainingQty > 0
    ensures SumRemaining(q) >= |q|
  {
    if q != [] {
      SumRemainingPositive(q[1..]);
    }
  }

  /** Orders that the matching rule sees as live have quantity left and filled and remaining
      quantities that add up to the original quantity. */
  lemma LiveOrders(s: seq<Order>)
    requires Matching.Live(View(s))
    ensures forall o :: o in s ==> o.remainingQty > 0 && (o.status == New || o.status == Partial) && o.Balanced()
  {
    forall o | o in s
      ensures o.remainingQty > 0 && (o.status == New || o.status == Partial) && o.Balanced()
    {
      var i :| 0 <= i < |s| && s[i] == o;
      ViewAt(s);
      assert View(s)[i].remaining == o.remainingQty;
    }
  }

  /** Two orders added at the same price queue in arrival order, so the earlier one has
      priority over the later one. */
  lemma InsertFifo(ls: seq<PriceLevel>, a: Order, b: Order)
    requires WellFormed(a.side, ls) && a.price.Some? && b.side == a.side && b.price == a.price
    ensures QueueAt(Insert(Insert(ls, a), b), a.price.value) == QueueAt(ls, a.price.value) + [a, b]
    ensures ls == [] ==> Front(a.side, Insert(Insert(ls, a), b)) == Some(a)
  {
    InsertQueues(ls, a);
    InsertQueues(Insert(ls, a), b);
    assert QueueAt(ls, a.price.value) + [a] + [b] == QueueAt(ls, a.price.value) + [a, b];
  }

  /** Orders that all have quantity left, are NEW or PARTIAL and are balanced look live to the
      matching rule. */
  lemma OrdersLive(s: seq<Order>)
    requires forall o :: o in s ==> o.remainingQty > 0 && (o.status == New || o.status == Partial) && o.Balanced()
    ensures Matching.Live(View(s))
  {
    ViewAt(s);
    assert forall i :: 0 <= i < |s| ==> s[i] in s;
  }

  /** Adding an order that is not on the side yet keeps the side free of repeats, and the side
      then holds exactly its old orders and the new one. */
  lemma InsertDistinct(ls: seq<PriceLevel>, o: Order)
    requires WellFormed(o.side, ls) && o.price.Some? && Distinct(Flatten(ls)) && o !in Flatten(ls)
    ensures Distinct(Flatten(Insert(ls, o)))
    ensures forall x :: x in Flatten(Insert(ls, o)) ==> x in Flatten(ls) || x == o
  {
    InsertOrders(ls, o);
    var m0 := multiset(Flatten(ls));
    var m := multiset(Flatten(Insert(ls, o)));
    assert m == m0 + multiset{o};
    forall x | x in Flatten(Insert(ls, o))
      ensures m[x] == 1
    {
      if x != o {
        assert x in m0;
      }
    }
  }

  /** The order's own side after the order comes to rest there: no repeats, every order
      live, and only the old orders and the new one. */
  lemma OwnSide(own: seq<PriceLevel>, order: Order)
    requires WellFormed(order.side, own) && order.price.Some?
    requires order.remainingQty > 0 && (order.status == New || order.status == Partial) && order.Balanced()
    requires Distinct(Flatten(own)) && order !in Flatten(own)
    requires forall o :: o in Flatten(own) ==> o.remainingQty > 0 && (o.status == New || o.status == Partial) && o.Balanced()
    ensures Distinct(Flatten(Insert(own, order))) && Matching.Live(View(Flatten(Insert(own, order))))
    ensures forall o :: o in Flatten(Insert(own, order)) ==> o in Flatten(own) || o == order
  {
    var s := Flatten(Insert(own, order));
    InsertDistinct(own, order);
    forall o | o in s
      ensures o.remainingQty > 0 && (o.status == New || o.status == Partial) && o.Balanced()
    {
      if o != order {
        assert o in Flatten(own);
      }
    }
    OrdersLive(s);
  }

  /** On a side without repeats, removing `o` succeeds exactly when `o` rests on the side;
      afterwards `o` is gone, the side is still free of repeats, and holds only old orders. */
  lemma RemoveDistinct(ls: seq<PriceLevel>, o: Order)
    requires WellFormed(o.side, ls) && o.price.Some? && Distinct(Flatten(ls))
    ensures Remove(ls, o).removed <==> o in Flatten(ls)
    ensures o !in Flatten(Remove(ls, o).levels)
    ensures Distinct(Flatten(Remove(ls, o).levels))
    ensures forall x :: x in Flatten(Remove(ls, o).levels) ==> x in Flatten(ls)
  {
    BestHasPriority(o.side, ls);
    QueueAtOrders(o.side, ls, o.price.value);
    RemoveOrders(ls, o);
    var r := Remove(ls, o);
    if r.removed {
      var m0 := multiset(Flatten(ls));
      var m := multiset(Flatten(r.levels));
      assert m == m0 - multiset{o};
      assert m0[o] == 1;
      forall x | x in Flatten(r.levels)
        ensures x in Flatten(ls) && m[x] == 1
      {
        assert x in m;
        assert x in m0;
      }
    }
  }
}
