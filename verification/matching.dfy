/** `Matching.take`: one incoming order (the taker) crosses the opposite side
    of its market's book, best price first, producing one trade per match at
    the resting order's (the maker's) price.
 */
module Matching {
  import opened Orders
  import opened Book

  /** The price test of the loop in `take`: it breaks exactly when this is
      false. A market order (price 0) passes every price; a priced order
      passes a maker priced at its limit or better. */
  predicate Crosses(taker: Order, maker: Order): (b: bool)
    ensures b <==> (taker.price == 0
                    || (taker.side == Sell && maker.price >= taker.price)
                    || (taker.side == Buy && maker.price <= taker.price))
  {
    !(|| (taker.side == Sell && taker.price != 0 && taker.price > maker.price)
      || (taker.side == Buy && taker.price != 0 && taker.price < maker.price))
  }

  function Min(a: int, b: int): int {
    if a <= b then a else b
  }

  /** The size of one match: the smaller of the two remaining sizes. */
  function FillSize(taker: Order, maker: Order): (n: int)
    ensures n == Min(Remaining(taker), Remaining(maker))
    ensures n <= Remaining(taker) && n <= Remaining(maker)
    ensures n == Remaining(taker) || n == Remaining(maker)
  {
    if Remaining(taker) > Remaining(maker) then Remaining(maker) else Remaining(taker)
  }

  /** The trade of one match; buyer and seller follow the orders' sides. */
  function TradeOf(taker: Order, maker: Order, n: int): (t: Trade)
    ensures Records(t, taker, maker, n)
  {
    if taker.side == Sell then Trade(maker.id, taker.id, maker.price, taker.side, n)
    else Trade(taker.id, maker.id, maker.price, taker.side, n)
  }

  /** `t` records a match of `taker` against `maker` of size `n`. */
  predicate Records(t: Trade, taker: Order, maker: Order, n: int) {
    && t.size == n
    && t.price == maker.price
    && t.side == taker.side
    && (taker.side == Sell ==> t.sellOrder == taker.id && t.buyOrder == maker.id)
    && (taker.side == Buy ==> t.buyOrder == taker.id && t.sellOrder == maker.id)
  }

  function SumSizes(ts: seq<Trade>): int {
    if |ts| == 0 then 0 else ts[0].size + SumSizes(ts[1..])
  }

  lemma {:induction false} SumSizesAppend(a: seq<Trade>, b: seq<Trade>)
    ensures SumSizes(a + b) == SumSizes(a) + SumSizes(b)
    decreases |a|
  {
    if |a| > 0 {
      assert (a + b)[1..] == a[1..] + b;
      SumSizesAppend(a[1..], b);
    } else {
      assert a + b == b;
    }
  }

  /** The outcome of crossing: the taker's final state, the makers it
      matched (in their new state, one per trade) and the trades. */
  datatype Match = Match(taker: Order, makers: seq<Order>, trades: seq<Trade>)

  /** The loop of `take` over a depth snapshot. */
  function Cross(taker: Order, depth: seq<Order>): (m: Match)
    ensures |m.makers| == |m.trades| <= |depth|
    ensures SameTerms(m.taker, taker)
    ensures m.taker.filled == taker.filled + SumSizes(m.trades)
    ensures |m.trades| == 0 ==> m.taker == taker
    ensures |m.trades| > 0 ==> m.taker.status == Filled || m.taker.status == PartiallyFilled
    ensures |m.trades| > 0 ==> (m.taker.status == Filled <==> Remaining(m.taker) == 0)
    decreases |depth|
  {
    if |depth| == 0 || !Crosses(taker, depth[0]) then Match(taker, [], [])
    else
      var n := FillSize(taker, depth[0]);
      var maker := Fill(depth[0], n);
      var next := Fill(taker, n);
      var trade := TradeOf(next, maker, n);
      if next.status == Filled then Match(next, [maker], [trade])
      else
        var rest := Cross(next, depth[1..]);
        Match(rest.taker, [maker] + rest.makers, [trade] + rest.trades)
  }

  lemma SumSizesPrefix(t: Trade, ts: seq<Trade>, i: nat)
    requires 0 < i <= |ts| + 1
    ensures SumSizes(([t] + ts)[..i]) == t.size + SumSizes(ts[..i - 1])
  {
    assert ([t] + ts)[..i] == [t] + ts[..i - 1];
    assert ([t] + ts[..i - 1])[1..] == ts[..i - 1];
  }

  /** Each trade records its match: the i-th trade is against the i-th
      depth entry, which crosses, at that entry's price, and the entry
      absorbed exactly the trade's size. */
  lemma {:induction false} CrossRecords(taker: Order, depth: seq<Order>)
    ensures var m := Cross(taker, depth);
      forall i :: 0 <= i < |m.trades| ==>
        && Crosses(taker, depth[i])
        && Records(m.trades[i], taker, depth[i], m.trades[i].size)
        && m.makers[i] == Fill(depth[i], m.trades[i].size)
    decreases |depth|
  {
    var m := Cross(taker, depth);
    if |depth| > 0 && Crosses(taker, depth[0]) {
      var n := FillSize(taker, depth[0]);
      var next := Fill(taker, n);
      if next.status != Filled {
        var rest := Cross(next, depth[1..]);
        CrossRecords(next, depth[1..]);
        forall i | 1 <= i < |m.trades|
          ensures Crosses(taker, depth[i])
          ensures Records(m.trades[i], taker, depth[i], m.trades[i].size)
          ensures m.makers[i] == Fill(depth[i], m.trades[i].size)
        {
          assert m.trades[i] == rest.trades[i - 1];
          assert m.makers[i] == rest.makers[i - 1];
          assert depth[i] == depth[1..][i - 1];
        }
      }
    }
  }

  /** Fills taken in turn: each trade's size is the smaller of what the
      taker still has to fill and what its maker still has, and the taker's
      remaining size then drops by that much. */
  ghost predicate FillsInTurn(remaining: int, ts: seq<Trade>, depth: seq<Order>)
    decreases |ts|
  {
    |ts| <= |depth|
    && (|ts| > 0 ==>
          && ts[0].size == Min(remaining, Remaining(depth[0]))
          && FillsInTurn(remaining - ts[0].size, ts[1..], depth[1..]))
  }

  /** The loop takes its fills in turn. */
  lemma {:induction false} CrossFillsInTurn(taker: Order, depth: seq<Order>)
    ensures FillsInTurn(Remaining(taker), Cross(taker, depth).trades, depth)
    decreases |depth|
  {
    var ts := Cross(taker, depth).trades;
    if |depth| > 0 && Crosses(taker, depth[0]) {
      var n := FillSize(taker, depth[0]);
      var next := Fill(taker, n);
      assert ts[0].size == n;
      if next.status != Filled {
        CrossFillsInTurn(next, depth[1..]);
        assert ts[1..] == Cross(next, depth[1..]).trades;
      } else {
        assert ts[1..] == [];
      }
    }
  }

  /** Fills taken in turn, read at one index: the i-th is sized against
      what remained after the first i. */
  lemma {:induction false} FillsInTurnAt(remaining: int, ts: seq<Trade>, depth: seq<Order>, i: nat)
    requires FillsInTurn(remaining, ts, depth)
    requires i < |ts|
    ensures ts[i].size == Min(remaining - SumSizes(ts[..i]), Remaining(depth[i]))
    decreases i
  {
    if i == 0 {
      assert ts[..0] == [];
    } else {
      FillsInTurnAt(remaining - ts[0].size, ts[1..], depth[1..], i - 1);
      assert ts == [ts[0]] + ts[1..];
      SumSizesPrefix(ts[0], ts[1..], i);
      assert depth[1..][i - 1] == depth[i];
    }
  }

  /** Where the loop stops: short of the depth's end only because the taker
      filled or because the next entry does not cross. */
  lemma {:induction false} CrossStops(taker: Order, depth: seq<Order>)
    ensures var m := Cross(taker, depth);
      |m.trades| < |depth| ==>
        (|m.trades| > 0 && m.taker.status == Filled) || !Crosses(taker, depth[|m.trades|])
    decreases |depth|
  {
    var m := Cross(taker, depth);
    if |depth| > 0 && Crosses(taker, depth[0]) {
      var n := FillSize(taker, depth[0]);
      var next := Fill(taker, n);
      if next.status != Filled {
        CrossStops(next, depth[1..]);
        var rest := Cross(next, depth[1..]);
        if |m.trades| < |depth| {
          assert depth[|m.trades|] == depth[1..][|rest.trades|];
        }
      }
    }
  }

  /** The loop breaks as soon as the taker is FILLED: before every trade
      but the first, the taker was not yet filled. */
  lemma {:induction false} CrossFilledStopsAt(taker: Order, depth: seq<Order>, i: nat)
    requires 0 < i < |Cross(taker, depth).trades|
    ensures taker.filled + SumSizes(Cross(taker, depth).trades[..i]) != taker.size
    decreases i
  {
    var ts := Cross(taker, depth).trades;
    assert |depth| > 0 && Crosses(taker, depth[0]);
    var n := FillSize(taker, depth[0]);
    var next := Fill(taker, n);
    assert next.status != Filled;
    var rs := Cross(next, depth[1..]).trades;
    assert ts == [ts[0]] + rs;
    assert ts[0].size == n;
    SumSizesPrefix(ts[0], rs, i);
    if i > 1 {
      CrossFilledStopsAt(next, depth[1..], i - 1);
    } else {
      assert rs[..0] == [];
    }
  }

  /** `CrossFilledStopsAt` at every trade: no trade follows the one that
      fills the taker. */
  lemma CrossFilledStops(taker: Order, depth: seq<Order>)
    ensures var ts := Cross(taker, depth).trades;
      forall i :: 0 < i < |ts| ==> taker.filled + SumSizes(ts[..i]) != taker.size
  {
    var ts := Cross(taker, depth).trades;
    forall i | 0 < i < |ts|
      ensures taker.filled + SumSizes(ts[..i]) != taker.size
    {
      CrossFilledStopsAt(taker, depth, i);
    }
  }

  /** Every match leaves one side empty: each maker but the last is used up,
      and the last one is used up unless the taker is. */
  lemma {:induction false} CrossConsumes(taker: Order, depth: seq<Order>)
    ensures var m := Cross(taker, depth);
      && (forall i :: 0 <= i < |m.makers| - 1 ==> m.makers[i].status == Filled)
      && (|m.makers| > 0 ==> m.makers[|m.makers| - 1].status == Filled || m.taker.status == Filled)
      && (m.taker.status != Filled ==> forall i :: 0 <= i < |m.makers| ==> m.makers[i].status == Filled)
    decreases |depth|
  {
    var m := Cross(taker, depth);
    if |depth| > 0 && Crosses(taker, depth[0]) {
      var n := FillSize(taker, depth[0]);
      var next := Fill(taker, n);
      if next.status != Filled {
        CrossConsumes(next, depth[1..]);
        var rest := Cross(next, depth[1..]);
        assert Fill(depth[0], n).status == Filled;
        assert forall i :: 1 <= i < |m.makers| ==> m.makers[i] == rest.makers[i - 1];
      }
    }
  }

  /** No over-fill: from well-formed orders, every fill is non-negative and
      no order ends with more filled than its size. */
  lemma {:induction false} CrossNoOverfill(taker: Order, depth: seq<Order>)
    requires WellFormed(taker)
    requires forall o :: o in depth ==> WellFormed(o)
    ensures var m := Cross(taker, depth);
      && WellFormed(m.taker)
      && (forall i :: 0 <= i < |m.makers| ==> WellFormed(m.makers[i]))
      && (forall i :: 0 <= i < |m.trades| ==> m.trades[i].size >= 0)
    decreases |depth|
  {
    var m := Cross(taker, depth);
    if |depth| > 0 && Crosses(taker, depth[0]) {
      assert depth[0] in depth;
      var n := FillSize(taker, depth[0]);
      assert 0 <= n <= Remaining(taker) && n <= Remaining(depth[0]);
      var next := Fill(taker, n);
      if next.status != Filled {
        var rest := Cross(next, depth[1..]);
        assert forall o :: o in depth[1..] ==> o in depth;
        CrossNoOverfill(next, depth[1..]);
        assert m.makers == [Fill(depth[0], n)] + rest.makers;
        assert m.trades == [m.trades[0]] + rest.trades;
      }
    }
  }

  /** `CrossNoOverfill` for the i-th maker, in terms of its depth entry. */
  lemma CrossMakerNoOverfill(taker: Order, depth: seq<Order>, i: nat)
    requires WellFormed(taker)
    requires forall o :: o in depth ==> WellFormed(o)
    requires i < |Cross(taker, depth).trades|
    ensures WellFormed(Fill(depth[i], Cross(taker, depth).trades[i].size))
  {
    CrossNoOverfill(taker, depth);
    CrossRecords(taker, depth);
  }

  /** What the makers absorbed, summed over the matched depth entries. */
  function MakerGain(makers: seq<Order>, depth: seq<Order>): int
    requires |makers| <= |depth|
  {
    if |makers| == 0 then 0
    else makers[0].filled - depth[0].filled + MakerGain(makers[1..], depth[1..])
  }

  /** Fill conservation on the resting side: the makers together absorbed
      exactly the traded size, which is also what the taker absorbed. */
  lemma {:induction false} CrossConserves(taker: Order, depth: seq<Order>)
    ensures var m := Cross(taker, depth);
      && MakerGain(m.makers, depth) == SumSizes(m.trades)
      && m.taker.filled - taker.filled == SumSizes(m.trades)
    decreases |depth|
  {
    var m := Cross(taker, depth);
    if |depth| > 0 && Crosses(taker, depth[0]) {
      var n := FillSize(taker, depth[0]);
      var next := Fill(taker, n);
      if next.status != Filled {
        CrossConserves(next, depth[1..]);
        var rest := Cross(next, depth[1..]);
        assert m.makers[1..] == rest.makers;
        assert m.trades[1..] == rest.trades;
      } else {
        assert m.makers[1..] == [];
        assert m.trades[1..] == [];
      }
    }
  }

  /** Every trade of a cross against priced makers is priced, carries the
      taker's side and id, and respects a priced taker's limit. */
  lemma CrossTrades(taker: Order, depth: seq<Order>)
    requires forall o :: o in depth ==> o.price != 0
    ensures forall t :: t in Cross(taker, depth).trades ==>
      && t.price != 0
      && t.side == taker.side
      && (taker.side == Sell ==> t.sellOrder == taker.id)
      && (taker.side == Buy ==> t.buyOrder == taker.id)
      && (taker.price != 0 && taker.side == Sell ==> t.price >= taker.price)
      && (taker.price != 0 && taker.side == Buy ==> t.price <= taker.price)
  {
    var ts := Cross(taker, depth).trades;
    CrossRecords(taker, depth);
    forall t | t in ts
      ensures t.price != 0
      ensures t.side == taker.side
      ensures taker.side == Sell ==> t.sellOrder == taker.id
      ensures taker.side == Buy ==> t.buyOrder == taker.id
      ensures taker.price != 0 && taker.side == Sell ==> t.price >= taker.price
      ensures taker.price != 0 && taker.side == Buy ==> t.price <= taker.price
    {
      var i :| 0 <= i < |ts| && ts[i] == t;
      assert depth[i] in depth;
    }
  }

  /** The depth `take` iterates: the other side of the taker's market. */
  function TakeDepth(book: seq<Order>, taker: Order): (d: seq<Order>)
    ensures forall o :: o in d <==> o in book && Eligible(o, taker.market, Opposite(taker.side))
    ensures BestFirst(d, Opposite(taker.side))
  {
    Depth(book, taker.market, Opposite(taker.side))
  }

  datatype TakeResult = TakeResult(book: seq<Order>, taker: Order, trades: seq<Trade>)

  /** `take`: cross the taker against its depth, then write back every
      matched maker and the taker. The depth is read once, before the loop,
      and nothing reads the book inside it, so writing the rows back at the
      end leaves each row where the source's per-match saves leave it. With
      no match, nothing is saved and the book is as it was. */
  function Take(book: seq<Order>, taker: Order): (r: TakeResult)
    ensures |r.book| == |book|
    ensures SameTerms(r.taker, taker)
    ensures r.taker.filled == taker.filled + SumSizes(r.trades)
    ensures r.trades == [] ==> r.taker == taker
    ensures r.trades != [] ==> r.taker.status == Filled || r.taker.status == PartiallyFilled
    ensures r.trades != [] ==> (r.taker.status == Filled <==> Remaining(r.taker) == 0)
    ensures r.trades == [] ==> r.book == book
  {
    var depth := TakeDepth(book, taker);
    var m := Cross(taker, depth);
    if m.trades == [] then TakeResult(book, taker, [])
    else TakeResult(Save(SaveAll(book, m.makers), m.taker), m.taker, m.trades)
  }

  /** The trades of `take`: none is at price 0, so a market order never
      makes; each carries the taker's side and names the taker as buyer or
      seller; and none is outside a priced taker's limit. */
  lemma TakeTrades(book: seq<Order>, taker: Order)
    ensures var r := Take(book, taker);
      forall t :: t in r.trades ==>
        && t.price != 0
        && t.side == taker.side
        && (taker.side == Sell ==> t.sellOrder == taker.id)
        && (taker.side == Buy ==> t.buyOrder == taker.id)
        && (taker.price != 0 && taker.side == Sell ==> t.price >= taker.price)
        && (taker.price != 0 && taker.side == Buy ==> t.price <= taker.price)
  {
    CrossTrades(taker, TakeDepth(book, taker));
  }

  /** The makers of a cross carry the ids of the depth entries they came
      from, so distinct entries give distinct makers. */
  lemma MakersUnique(taker: Order, depth: seq<Order>)
    requires UniqueIds(depth)
    ensures UniqueIds(Cross(taker, depth).makers)
    ensures forall i :: 0 <= i < |Cross(taker, depth).makers| ==>
      Cross(taker, depth).makers[i].id == depth[i].id
  {
    CrossRecords(taker, depth);
  }

  /** What `take` does to one row: the taker's row holds the taker's final
      state, a matched maker's row absorbed exactly its trade's size, and
      any other row, including the depth entries after the break point and
      every row that is not an eligible maker, is unchanged. */
  lemma TakeRow(book: seq<Order>, taker: Order, j: nat)
    requires UniqueIds(book)
    requires taker in book
    requires j < |book|
    ensures var r := Take(book, taker); var d := TakeDepth(book, taker);
      && r.book[j].id == book[j].id
      && (book[j].id == taker.id ==> r.book[j] == r.taker)
      && (forall i :: 0 <= i < |r.trades| && d[i].id == book[j].id ==>
            book[j] == d[i] && r.book[j] == Fill(book[j], r.trades[i].size))
      && (book[j].id != taker.id && (forall i :: 0 <= i < |r.trades| ==> d[i].id != book[j].id) ==>
            r.book[j] == book[j])
      && (book[j].id != taker.id && !Eligible(book[j], taker.market, Opposite(taker.side)) ==>
            r.book[j] == book[j])
  {
    var d := TakeDepth(book, taker);
    var m := Cross(taker, d);
    DepthUnique(book, taker.market, Opposite(taker.side));
    MakersUnique(taker, d);
    CrossRecords(taker, d);
    SaveAllRows(book, m.makers);
    var b1 := SaveAll(book, m.makers);
    assert Take(book, taker).book == Save(b1, m.taker);
    assert book[j] in book;
    forall i | 0 <= i < |m.trades| && d[i].id == book[j].id
      ensures book[j] == d[i] && b1[j] == Fill(book[j], m.trades[i].size)
    {
      assert d[i] in d;
      DistinctRows(book, book[j], d[i]);
    }
    forall i | 0 <= i < |m.trades|
      ensures d[i].id != taker.id
      ensures !Eligible(book[j], taker.market, Opposite(taker.side)) ==> d[i].id != book[j].id
    {
      assert d[i] in d;
      DistinctRows(book, d[i], taker);
      DistinctRows(book, book[j], d[i]);
    }
  }

  /** `TakeRow` for every row at once. */
  lemma TakeBook(book: seq<Order>, taker: Order)
    requires UniqueIds(book)
    requires taker in book
    ensures var r := Take(book, taker); var d := TakeDepth(book, taker);
      && SameRows(book, r.book)
      && |r.trades| <= |d|
      && (forall j :: 0 <= j < |book| && book[j].id == taker.id ==> r.book[j] == r.taker)
      && (forall i, j :: 0 <= i < |r.trades| && 0 <= j < |book| && book[j].id == d[i].id ==>
            book[j] == d[i] && r.book[j] == Fill(book[j], r.trades[i].size))
      && (forall j ::
            && 0 <= j < |book|
            && book[j].id != taker.id
            && (forall i :: 0 <= i < |r.trades| ==> d[i].id != book[j].id)
            ==> r.book[j] == book[j])
      && (forall j ::
            && 0 <= j < |book|
            && book[j].id != taker.id
            && !Eligible(book[j], taker.market, Opposite(taker.side))
            ==> r.book[j] == book[j])
  {
    forall j | 0 <= j < |book| {
      TakeRow(book, taker, j);
    }
  }

  /** Price priority: the trades of one `take` run from the best price to
      the worst, as seen from the maker side. */
  lemma TakePriority(book: seq<Order>, taker: Order)
    ensures var r := Take(book, taker);
      forall i, j :: 0 <= i < j < |r.trades| ==>
        AtLeastAsGood(Opposite(taker.side), r.trades[i].price, r.trades[j].price)
  {
    CrossRecords(taker, TakeDepth(book, taker));
  }

  /** The break point of `take`: the loop stops before the end of the depth
      only when the taker is filled or the next resting price does not cross. */
  lemma TakeStops(book: seq<Order>, taker: Order)
    ensures var r := Take(book, taker); var d := TakeDepth(book, taker);
      && |r.trades| <= |d|
      && (|r.trades| < |d| ==>
            (|r.trades| > 0 && r.taker.status == Filled)
            || (taker.side == Sell && taker.price != 0 && taker.price > d[|r.trades|].price)
            || (taker.side == Buy && taker.price != 0 && taker.price < d[|r.trades|].price))
  {
    CrossStops(taker, TakeDepth(book, taker));
  }

  /** `TakeStatuses` for one row. */
  lemma TakeRowStatus(book: seq<Order>, taker: Order, j: nat)
    requires UniqueIds(book)
    requires taker in book
    requires taker.status != WaitingNew
    requires j < |book|
    ensures var r := Take(book, taker);
      && r.book[j].id == book[j].id
      && (book[j].id == taker.id ==> r.book[j] == r.taker)
      && (book[j].id != taker.id && book[j].status == WaitingNew ==> r.book[j] == book[j])
      && (book[j].status != WaitingNew ==> r.book[j].status != WaitingNew)
  {
    var d := TakeDepth(book, taker);
    var r := Take(book, taker);
    TakeRow(book, taker, j);
    if book[j].id == taker.id {
    } else if i :| 0 <= i < |r.trades| && d[i].id == book[j].id {
      assert r.book[j] == Fill(book[j], r.trades[i].size);
    }
  }

  /** `take` stops at the trade that fills the taker: before every trade
      but the first, the taker was not yet filled. */
  lemma TakeFilledStops(book: seq<Order>, taker: Order)
    ensures var ts := Take(book, taker).trades;
      forall i :: 0 < i < |ts| ==> taker.filled + SumSizes(ts[..i]) != taker.size
  {
    var ts := Take(book, taker).trades;
    assert ts == Cross(taker, TakeDepth(book, taker)).trades;
    forall i | 0 < i < |ts|
      ensures taker.filled + SumSizes(ts[..i]) != taker.size
    {
      CrossFilledStopsAt(taker, TakeDepth(book, taker), i);
    }
  }

  /** The status view of `TakeBook`: `take` writes only its taker's row and
      resting rows, so WAITING rows other than the taker's stay as they
      are, and a processed row never goes back to WAITING. */
  lemma TakeStatuses(book: seq<Order>, taker: Order)
    requires UniqueIds(book)
    requires taker in book
    requires taker.status != WaitingNew
    ensures var r := Take(book, taker);
      && SameRows(book, r.book)
      && (forall j :: 0 <= j < |book| && book[j].id == taker.id ==> r.book[j] == r.taker)
      && (forall j :: 0 <= j < |book| && book[j].id != taker.id && book[j].status == WaitingNew ==>
            r.book[j] == book[j])
      && (forall j :: 0 <= j < |book| && book[j].status != WaitingNew ==> r.book[j].status != WaitingNew)
  {
    var r := Take(book, taker);
    forall j | 0 <= j < |book|
      ensures r.book[j].id == book[j].id
      ensures book[j].id == taker.id ==> r.book[j] == r.taker
      ensures book[j].id != taker.id && book[j].status == WaitingNew ==> r.book[j] == book[j]
      ensures book[j].status != WaitingNew ==> r.book[j].status != WaitingNew
    {
      TakeRowStatus(book, taker, j);
    }
  }


  /** No over-fill on one row: a well-formed row stays well formed through
      `take` when the taker and its depth are well formed. */
  lemma TakeRowNoOverfill(book: seq<Order>, taker: Order, j: nat)
    requires UniqueIds(book)
    requires taker in book
    requires forall o :: o in book ==> WellFormed(o)
    requires j < |book|
    ensures WellFormed(Take(book, taker).book[j])
  {
    var d := TakeDepth(book, taker);
    var m := Cross(taker, d);
    TakeRow(book, taker, j);
    assert forall o :: o in d ==> WellFormed(o);
    if book[j].id == taker.id {
      CrossNoOverfill(taker, d);
    } else if i :| 0 <= i < |m.trades| && d[i].id == book[j].id {
      CrossMakerNoOverfill(taker, d, i);
    } else {
      assert book[j] in book;
    }
  }

  /** No over-fill at the book level: from a book of well-formed orders,
      `take` leaves every row well formed. */
  lemma TakeNoOverfill(book: seq<Order>, taker: Order)
    requires UniqueIds(book)
    requires taker in book
    requires forall o :: o in book ==> WellFormed(o)
    ensures forall o :: o in Take(book, taker).book ==> WellFormed(o)
  {
    var r := Take(book, taker);
    forall j | 0 <= j < |r.book|
      ensures WellFormed(r.book[j])
    {
      TakeRowNoOverfill(book, taker, j);
    }
  }

  /** `take` keeps every row's status honest: a row FILLED after it has
      nothing left to fill, provided that held before. */
  lemma TakeConsistent(book: seq<Order>, taker: Order)
    requires UniqueIds(book)
    requires taker in book
    requires forall o :: o in book ==> Consistent(o)
    ensures forall o :: o in Take(book, taker).book ==> Consistent(o)
  {
    var d := TakeDepth(book, taker);
    var r := Take(book, taker);
    forall j | 0 <= j < |r.book|
      ensures Consistent(r.book[j])
    {
      TakeRow(book, taker, j);
      assert book[j] in book;
      if book[j].id == taker.id {
      } else if i :| 0 <= i < |r.trades| && d[i].id == book[j].id {
        assert r.book[j] == Fill(book[j], r.trades[i].size);
      }
    }
  }

  /** Writing back the makers adds to the book's total filled quantity
      exactly what they absorbed, when each maker's id finds its depth entry. */
  lemma {:induction false} SaveAllGain(book: seq<Order>, makers: seq<Order>, d: seq<Order>)
    requires UniqueIds(book)
    requires UniqueIds(makers)
    requires |makers| <= |d|
    requires forall i :: 0 <= i < |makers| ==> Lookup(book, makers[i].id) == Some(d[i])
    ensures SumFilled(SaveAll(book, makers)) == SumFilled(book) + MakerGain(makers, d)
    decreases |makers|
  {
    if |makers| > 0 {
      var b1 := Save(book, makers[0]);
      SumFilledSave(book, makers[0]);
      assert SameRows(book, b1);
      SameRowsUnique(book, b1);
      forall i | 0 <= i < |makers[1..]|
        ensures Lookup(b1, makers[1..][i].id) == Some(d[1..][i])
      {
        assert makers[1..][i] == makers[i + 1];
        LookupSave(book, makers[0], makers[i + 1].id);
      }
      SaveAllGain(b1, makers[1..], d[1..]);
    }
  }

  /** Double-entry conservation of `take`: the book's total filled quantity
      grows by twice the traded size, once on the taker's row and once
      across the makers' rows. */
  lemma TakeConservesFills(book: seq<Order>, taker: Order)
    requires UniqueIds(book)
    requires taker in book
    ensures var r := Take(book, taker);
      SumFilled(r.book) == SumFilled(book) + 2 * SumSizes(r.trades)
  {
    var d := TakeDepth(book, taker);
    var m := Cross(taker, d);
    DepthUnique(book, taker.market, Opposite(taker.side));
    MakersUnique(taker, d);
    CrossConserves(taker, d);
    TakeBook(book, taker);
    forall i | 0 <= i < |m.makers|
      ensures Lookup(book, m.makers[i].id) == Some(d[i])
      ensures m.makers[i].id != taker.id
    {
      assert d[i] in d;
      LookupUnique(book, d[i]);
      DistinctRows(book, d[i], taker);
    }
    SaveAllGain(book, m.makers, d);
    var b2 := SaveAll(book, m.makers);
    SaveAllRows(book, m.makers);
    SameRowsUnique(book, b2);
    LookupUnique(book, taker);
    LookupSaveAll(book, m.makers, taker.id);
    SumFilledSave(b2, m.taker);
  }
}
