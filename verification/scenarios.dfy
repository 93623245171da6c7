/** Concrete books worked through `ProcessOrder` and `ProcessQueue`, one per
    behaviour worth seeing on real numbers. Every order of a scenario is in
    one market. */
module Scenarios {
  import opened Orders
  import opened Book
  import opened Matching
  import opened Processing
  import Sorting

  /** A market order on an empty book trades nothing, yet ends FILLED with
      nothing filled: its status no longer says what happened. */
  lemma MarketOrderOnEmptyBook(buy: Order)
    requires buy.side == Buy && buy.price == 0 && buy.size == 50 && buy.filled == 0
    requires buy.status == WaitingNew
    ensures var r := ProcessOrder([buy], buy);
      && r.trades == []
      && r.book == [buy.(status := Filled)]
      && !Consistent(r.book[0])
  {
    var accepted := buy.(status := New);
    assert Save([buy], accepted) == [accepted];
    assert [accepted][1..] == [];
    assert Filter([accepted], o => Eligible(o, buy.market, Sell)) == [];
    assert TakeDepth([accepted], accepted) == [];
    assert Save([accepted], accepted.(status := Filled)) == [buy.(status := Filled)];
  }

  /** Asks of 20 at 100 and 10 at 99, stored worst first, and a submitted
      buy of 15 at 100. */
  predicate TwoAsksSetup(a1: Order, a2: Order, buy: Order) {
    && a1.id == 1 && a2.id == 2 && buy.id == 3
    && a1.market == a2.market == buy.market
    && a1.side == Sell && a1.price == 99 && a1.size == 10 && a1.filled == 0 && a1.status == New
    && a2.side == Sell && a2.price == 100 && a2.size == 20 && a2.filled == 0 && a2.status == New
    && buy.side == Buy && buy.price == 100 && buy.size == 15 && buy.filled == 0
    && buy.status == WaitingNew
  }

  /** Both asks cross, the cheaper one first although it is stored second. */
  lemma TwoAsksDepth(a1: Order, a2: Order, buy: Order)
    requires TwoAsksSetup(a1, a2, buy)
    ensures TakeDepth([a2, a1, buy.(status := New)], buy.(status := New)) == [a1, a2]
  {
    var accepted := buy.(status := New);
    var b1 := [a2, a1, accepted];
    var asks := o => Eligible(o, buy.market, Sell);
    assert [accepted][1..] == [] && [a1, accepted][1..] == [accepted] && b1[1..] == [a1, accepted];
    assert Filter([accepted], asks) == [];
    assert Filter([a1, accepted], asks) == [a1];
    assert Filter(b1, asks) == [a2, a1];
    var key := PriceKey(Sell);
    assert Sorting.SortBy([a1], key) == [a1] by {
      assert [a1][1..] == [];
    }
    assert [a2, a1][1..] == [a1];
    assert [a1][1..] == [];
    assert Sorting.Insert(a2, [a1], key) == [a1, a2];
    assert Sorting.SortBy([a2, a1], key) == [a1, a2];
  }

  /** The buy takes all of the ask at 99, then 5 of the ask at 100. */
  lemma TwoAsksCross(a1: Order, a2: Order, buy: Order)
    requires TwoAsksSetup(a1, a2, buy)
    ensures Cross(buy.(status := New), [a1, a2]) == Match(
      buy.(filled := 15, status := Filled),
      [a1.(filled := 10, status := Filled), a2.(filled := 5, status := PartiallyFilled)],
      [Trade(3, 1, 99, Buy, 10), Trade(3, 2, 100, Buy, 5)])
  {
    var after1 := buy.(filled := 10, status := PartiallyFilled);
    assert [a1, a2][1..] == [a2];
    assert Cross(after1, [a2]) == Match(buy.(filled := 15, status := Filled),
      [a2.(filled := 5, status := PartiallyFilled)], [Trade(3, 2, 100, Buy, 5)]);
  }

  /** A buy for 15 at 100 against asks of 20 at 100 and 10 at 99, stored in
      that order: the buy takes all 10 of the cheaper ask at 99, then 5 of
      the other at 100, and stops once filled. */
  lemma BuyAcrossTwoAsks(a1: Order, a2: Order, buy: Order)
    requires TwoAsksSetup(a1, a2, buy)
    ensures var r := ProcessOrder([a2, a1, buy], buy);
      && r.trades == [Trade(3, 1, 99, Buy, 10), Trade(3, 2, 100, Buy, 5)]
      && r.book == [a2.(filled := 5, status := PartiallyFilled),
                    a1.(filled := 10, status := Filled),
                    buy.(filled := 15, status := Filled)]
  {
    var accepted := buy.(status := New);
    var b1 := Save([a2, a1, buy], accepted);
    assert b1 == [a2, a1, accepted];
    TwoAsksDepth(a1, a2, buy);
    TwoAsksCross(a1, a2, buy);
    var m1 := a1.(filled := 10, status := Filled);
    var m2 := a2.(filled := 5, status := PartiallyFilled);
    var done := buy.(filled := 15, status := Filled);
    TwoAsksWriteBack(a1, a2, accepted, m1, m2, done);
    assert Take(b1, accepted) == TakeResult([m2, m1, done], done,
      [Trade(3, 1, 99, Buy, 10), Trade(3, 2, 100, Buy, 5)]);
  }

  lemma TwoAsksWriteBack(a1: Order, a2: Order, accepted: Order, m1: Order, m2: Order, done: Order)
    requires a1.id == m1.id == 1 && a2.id == m2.id == 2 && accepted.id == done.id == 3
    ensures Save(SaveAll([a2, a1, accepted], [m1, m2]), done) == [m2, m1, done]
  {
    assert Save([a2, a1, accepted], m1) == [a2, m1, accepted];
    assert [m1, m2][1..] == [m2];
    assert [m2][1..] == [];
    assert Save([a2, m1, accepted], m2) == [m2, m1, accepted];
    assert SaveAll([m2, m1, accepted], []) == [m2, m1, accepted];
    assert Save([m2, m1, accepted], done) == [m2, m1, done];
  }

  /** A market sell for 100 against one resting bid of 50 at 100: one trade
      of 50 at the bid's price, the bid is FILLED, and the sell is marked
      FILLED with half of it unfilled. */
  lemma MarketSellAgainstSmallerBid(bid: Order, sell: Order)
    requires bid.id == 1 && sell.id == 2 && bid.market == sell.market
    requires bid.side == Buy && bid.price == 100 && bid.size == 50 && bid.filled == 0 && bid.status == New
    requires sell.side == Sell && sell.price == 0 && sell.size == 100 && sell.filled == 0
    requires sell.status == WaitingNew
    ensures var r := ProcessOrder([bid, sell], sell);
      && r.trades == [Trade(1, 2, 100, Sell, 50)]
      && r.book == [bid.(filled := 50, status := Filled), sell.(filled := 50, status := Filled)]
      && Remaining(r.book[1]) == 50
  {
    var accepted := sell.(status := New);
    var b1 := Save([bid, sell], accepted);
    assert b1 == [bid, accepted];
    var bids := o => Eligible(o, sell.market, Buy);
    assert [accepted][1..] == [] && b1[1..] == [accepted];
    assert Filter([accepted], bids) == [];
    assert Filter(b1, bids) == [bid];
    assert Sorting.SortBy([bid], PriceKey(Buy)) == [bid] by {
      assert [bid][1..] == [];
    }
    assert TakeDepth(b1, accepted) == [bid];
    var m := bid.(filled := 50, status := Filled);
    var after := accepted.(filled := 50, status := PartiallyFilled);
    assert Cross(accepted, [bid]) == Match(after, [m], [Trade(1, 2, 100, Sell, 50)]) by {
      assert [bid][1..] == [];
    }
    assert [m][1..] == [];
    assert SaveAll(b1, [m]) == [m, accepted] by {
      assert Save(b1, m) == [m, accepted];
    }
    assert Save([m, accepted], after) == [m, after];
    assert Save([m, after], after.(status := Filled)) == [m, after.(status := Filled)];
  }

  /** A priced sell above the only bid does not cross: no trade, and the
      sell rests as NEW. */
  lemma SellAboveBidRests(bid: Order, sell: Order)
    requires bid.id == 1 && sell.id == 2 && bid.market == sell.market
    requires bid.side == Buy && bid.price == 100 && bid.size == 10 && bid.filled == 0 && bid.status == New
    requires sell.side == Sell && sell.price == 150 && sell.size == 10 && sell.filled == 0
    requires sell.status == WaitingNew
    ensures var r := ProcessOrder([bid, sell], sell);
      && r.trades == []
      && r.book == [bid, sell.(status := New)]
  {
    var accepted := sell.(status := New);
    var b1 := Save([bid, sell], accepted);
    assert b1 == [bid, accepted];
    var bids := o => Eligible(o, sell.market, Buy);
    assert [accepted][1..] == [] && b1[1..] == [accepted];
    assert Filter([accepted], bids) == [];
    assert Filter(b1, bids) == [bid];
    assert Sorting.SortBy([bid], PriceKey(Buy)) == [bid] by {
      assert [bid][1..] == [];
    }
    assert TakeDepth(b1, accepted) == [bid];
  }

  /** A submitted sell of 10 at 100 and a later submitted buy of 10 at 100,
      the buy stored first. */
  predicate QueuedPairSetup(sell: Order, buy: Order) {
    && sell.id == 1 && buy.id == 2 && sell.market == buy.market
    && sell.side == Sell && sell.price == 100 && sell.size == 10 && sell.filled == 0
    && buy.side == Buy && buy.price == 100 && buy.size == 10 && buy.filled == 0
    && sell.status == WaitingNew && buy.status == WaitingNew
    && sell.createdAt == 1 && buy.createdAt == 2
  }

  /** The queue runs oldest first: the sell, although the buy is stored first. */
  lemma QueuedPairQueue(sell: Order, buy: Order)
    requires QueuedPairSetup(sell, buy)
    ensures WaitingQueue([buy, sell]) == [sell, buy]
  {
    assert [buy, sell][1..] == [sell] && [sell][1..] == [];
    assert Filter([sell], IsWaiting) == [sell];
    assert Filter([buy, sell], IsWaiting) == [buy, sell];
    assert Sorting.SortBy([sell], SubmittedAt) == [sell];
    assert Sorting.Insert(buy, [sell], SubmittedAt) == [sell] + Sorting.Insert(buy, [], SubmittedAt);
    assert Sorting.SortBy([buy, sell], SubmittedAt) == [sell, buy];
  }

  /** The sell goes first and finds no bid: the buy is still WAITING, so
      it is not in the depth. The sell rests as NEW. */
  lemma QueuedPairFirst(sell: Order, buy: Order)
    requires QueuedPairSetup(sell, buy)
    ensures ProcessOrder([buy, sell], sell) == Step([buy, sell.(status := New)], [])
  {
    var accepted := sell.(status := New);
    var b1 := Save([buy, sell], accepted);
    assert b1 == [buy, accepted];
    var bids := o => Eligible(o, sell.market, Buy);
    assert [accepted][1..] == [] && b1[1..] == [accepted];
    assert Filter([accepted], bids) == [];
    assert Filter(b1, bids) == [];
    assert TakeDepth(b1, accepted) == [];
  }

  /** The buy goes second and takes the resting sell in full. */
  lemma QueuedPairSecond(sell: Order, buy: Order)
    requires QueuedPairSetup(sell, buy)
    ensures ProcessOrder([buy, sell.(status := New)], buy) == Step(
      [buy.(filled := 10, status := Filled), sell.(filled := 10, status := Filled)],
      [Trade(2, 1, 100, Buy, 10)])
  {
    var ask := sell.(status := New);
    var accepted := buy.(status := New);
    var b1 := Save([buy, ask], accepted);
    assert b1 == [accepted, ask];
    var asks := o => Eligible(o, buy.market, Sell);
    assert [ask][1..] == [] && b1[1..] == [ask];
    assert Filter([ask], asks) == [ask];
    assert Filter(b1, asks) == [ask];
    assert Sorting.SortBy([ask], PriceKey(Sell)) == [ask];
    assert TakeDepth(b1, accepted) == [ask];
    var m := ask.(filled := 10, status := Filled);
    var done := accepted.(filled := 10, status := Filled);
    assert Cross(accepted, [ask]) == Match(done, [m], [Trade(2, 1, 100, Buy, 10)]);
    assert [m][1..] == [];
    assert SaveAll(b1, [m]) == [accepted, m] by {
      assert Save(b1, m) == [accepted, m];
    }
    assert Save([accepted, m], done) == [done, m];
  }

  /** Draining a queue of two: the second order is processed on the book
      the first left, and the trades follow in that order. */
  lemma DrainTwo(book: seq<Order>, x: Order, y: Order, mid: seq<Order>, end: seq<Order>,
                 first: seq<Trade>, second: seq<Trade>)
    requires ProcessOrder(book, x) == Step(mid, first)
    requires ProcessOrder(mid, y) == Step(end, second)
    ensures Drain(book, [x, y]) == Step(end, first + second)
  {
    assert [x, y][1..] == [y] && [y][1..] == [];
    assert Drain(mid, [y]) == Step(end, second + []);
    assert second + [] == second;
  }

  /** The drain of that queue: the sell rests, then the buy takes it. */
  lemma QueuedPairDrain(sell: Order, buy: Order)
    requires QueuedPairSetup(sell, buy)
    ensures Drain([buy, sell], [sell, buy]) == Step(
      [buy.(filled := 10, status := Filled), sell.(filled := 10, status := Filled)],
      [Trade(2, 1, 100, Buy, 10)])
  {
    QueuedPairFirst(sell, buy);
    QueuedPairSecond(sell, buy);
    var trades := [Trade(2, 1, 100, Buy, 10)];
    var end := [buy.(filled := 10, status := Filled), sell.(filled := 10, status := Filled)];
    DrainTwo([buy, sell], sell, buy, [buy, sell.(status := New)], end, [], trades);
    assert [] + trades == trades;
  }

  /** `process_queue` over a book where both orders are submitted: the older
      sell rests first, then the buy takes it, and nothing stays WAITING. */
  lemma QueuedPairDrains(sell: Order, buy: Order)
    requires QueuedPairSetup(sell, buy)
    ensures var r := ProcessQueue([buy, sell]);
      && r.trades == [Trade(2, 1, 100, Buy, 10)]
      && r.book == [buy.(filled := 10, status := Filled), sell.(filled := 10, status := Filled)]
  {
    QueuedPairQueue(sell, buy);
    QueuedPairDrain(sell, buy);
  }
}
