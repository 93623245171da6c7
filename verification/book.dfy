/** The order book of one database: its rows, how a row is written back,
    and the price-ordered views of one side of one market.
 */
module Book {
  import opened Orders
  import opened Sorting

  /** Writing an order back (`save()`): the row with its id takes its new
      value, every other row keeps its own. */
  function Save(book: seq<Order>, o: Order): (r: seq<Order>)
    ensures |r| == |book|
    ensures forall j :: 0 <= j < |book| ==> r[j] == (if book[j].id == o.id then o else book[j])
  {
    seq(|book|, j requires 0 <= j < |book| => if book[j].id == o.id then o else book[j])
  }

  /** Writing back several orders, first to last. */
  function SaveAll(book: seq<Order>, os: seq<Order>): (r: seq<Order>)
    ensures |r| == |book|
    ensures forall j :: 0 <= j < |book| ==> r[j].id == book[j].id
    decreases |os|
  {
    if |os| == 0 then book else SaveAll(Save(book, os[0]), os[1..])
  }

  /** Two books with the same rows in the same places, row contents aside. */
  ghost predicate SameRows(a: seq<Order>, b: seq<Order>) {
    |a| == |b| && forall j :: 0 <= j < |a| ==> a[j].id == b[j].id
  }

  lemma SameRowsUnique(a: seq<Order>, b: seq<Order>)
    requires SameRows(a, b)
    requires UniqueIds(a)
    ensures UniqueIds(b)
  {
    forall i, j | 0 <= i < j < |b|
      ensures b[i].id != b[j].id
    {
      assert a[i].id == b[i].id && a[j].id == b[j].id;
    }
  }

  /** After writing back orders with distinct ids, a row holds the order
      written with its id, or is untouched when none was. */
  lemma {:induction false} SaveAllRows(book: seq<Order>, os: seq<Order>)
    requires UniqueIds(os)
    ensures SameRows(book, SaveAll(book, os))
    ensures forall i, j :: 0 <= i < |os| && 0 <= j < |book| && os[i].id == book[j].id ==>
      SaveAll(book, os)[j] == os[i]
    ensures forall j :: 0 <= j < |book| && (forall i :: 0 <= i < |os| ==> os[i].id != book[j].id) ==>
      SaveAll(book, os)[j] == book[j]
    decreases |os|
  {
    if |os| > 0 {
      var b1 := Save(book, os[0]);
      SaveAllRows(b1, os[1..]);
      var r := SaveAll(b1, os[1..]);
      assert r == SaveAll(book, os);
      forall i, j | 0 <= i < |os| && 0 <= j < |book| && os[i].id == book[j].id
        ensures r[j] == os[i]
      {
        if i == 0 {
          assert forall k :: 0 <= k < |os[1..]| ==> os[1..][k].id != b1[j].id by {
            forall k | 0 <= k < |os[1..]|
              ensures os[1..][k].id != b1[j].id
            {
              assert os[1..][k] == os[k + 1];
            }
          }
        } else {
          assert os[1..][i - 1] == os[i];
        }
      }
      forall j | 0 <= j < |book| && (forall i :: 0 <= i < |os| ==> os[i].id != book[j].id)
        ensures r[j] == book[j]
      {
        assert forall k :: 0 <= k < |os[1..]| ==> os[1..][k] == os[k + 1];
      }
    }
  }

  /** The rows of `book` that satisfy `p` (the `filter` of a query), in row order. */
  function Filter(book: seq<Order>, p: Order -> bool): (r: seq<Order>)
    ensures forall o :: o in r <==> o in book && p(o)
    ensures UniqueIds(book) ==> UniqueIds(r)
    decreases |book|
  {
    if |book| == 0 then []
    else
      var rest := Filter(book[1..], p);
      assert book == [book[0]] + book[1..];
      assert UniqueIds(book) ==> forall o :: o in rest ==> o.id != book[0].id by {
        if UniqueIds(book) {
          forall o | o in rest
            ensures o.id != book[0].id
          {
            var k :| 0 <= k < |book[1..]| && book[1..][k] == o;
            assert book[k + 1] == o;
          }
        }
      }
      if p(book[0]) then [book[0]] + rest else rest
  }

  /** Two different rows of a book with unique ids have different ids. */
  lemma DistinctRows(book: seq<Order>, a: Order, b: Order)
    requires UniqueIds(book)
    requires a in book && b in book
    ensures a != b ==> a.id != b.id
  {
    var i :| 0 <= i < |book| && book[i] == a;
    var j :| 0 <= j < |book| && book[j] == b;
  }

  /** The `order_by` key of a side: price descending for bids, ascending for asks. */
  function PriceKey(side: Side): Order -> int {
    if side == Buy then (o: Order) => -o.price else (o: Order) => o.price
  }

  /** `p` is at least as good a price as `q` for a maker on `side`. */
  predicate AtLeastAsGood(side: Side, p: int, q: int) {
    if side == Buy then p >= q else p <= q
  }

  /** Best price first: bids from the highest, asks from the lowest. */
  ghost predicate BestFirst(d: seq<Order>, side: Side) {
    forall i, j :: 0 <= i < j < |d| ==> AtLeastAsGood(side, d[i].price, d[j].price)
  }

  /** The depth of one side of a market: exactly its eligible rows, best price first. */
  function Depth(book: seq<Order>, market: nat, side: Side): (d: seq<Order>)
    ensures forall o :: o in d <==> o in book && Eligible(o, market, side)
    ensures BestFirst(d, side)
  {
    var d := SortBy(Filter(book, o => Eligible(o, market, side)), PriceKey(side));
    assert forall i, j :: 0 <= i < j < |d| ==> PriceKey(side)(d[i]) <= PriceKey(side)(d[j]);
    d
  }

  lemma DepthUnique(book: seq<Order>, market: nat, side: Side)
    requires UniqueIds(book)
    ensures UniqueIds(Depth(book, market, side))
  {
    SortByUnique(Filter(book, o => Eligible(o, market, side)), PriceKey(side));
  }

  /** The head of a best-first depth is at least as good as every entry. */
  lemma HeadIsBest(d: seq<Order>, side: Side)
    requires |d| > 0
    requires BestFirst(d, side)
    ensures forall o :: o in d ==> AtLeastAsGood(side, d[0].price, o.price)
  {
    forall o | o in d
      ensures AtLeastAsGood(side, d[0].price, o.price)
    {
      var k :| 0 <= k < |d| && d[k] == o;
    }
  }

  datatype BidAsk = BidAsk(bid: Option<int>, ask: Option<int>)

  /** `get_bid_ask`: the best resting bid and ask of a market, None for an empty side. */
  function GetBidAsk(book: seq<Order>, market: nat): (q: BidAsk)
    ensures q.bid.None? <==> forall o :: o in book ==> !Eligible(o, market, Buy)
    ensures q.bid.Some? ==>
      && (exists o :: o in book && Eligible(o, market, Buy) && o.price == q.bid.value)
      && (forall o :: o in book && Eligible(o, market, Buy) ==> o.price <= q.bid.value)
    ensures q.ask.None? <==> forall o :: o in book ==> !Eligible(o, market, Sell)
    ensures q.ask.Some? ==>
      && (exists o :: o in book && Eligible(o, market, Sell) && o.price == q.ask.value)
      && (forall o :: o in book && Eligible(o, market, Sell) ==> o.price >= q.ask.value)
  {
    var bids := Depth(book, market, Buy);
    var asks := Depth(book, market, Sell);
    assert |bids| > 0 ==> bids[0] in bids && forall o :: o in bids ==> o.price <= bids[0].price by {
      if |bids| > 0 { HeadIsBest(bids, Buy); }
    }
    assert |asks| > 0 ==> asks[0] in asks && forall o :: o in asks ==> o.price >= asks[0].price by {
      if |asks| > 0 { HeadIsBest(asks, Sell); }
    }
    BidAsk(
      if |bids| > 0 then Some(bids[0].price) else None,
      if |asks| > 0 then Some(asks[0].price) else None
    )
  }
  /** The current row with a given id. */
  function Lookup(book: seq<Order>, id: nat): (r: Option<Order>)
    ensures r.Some? ==> r.value in book && r.value.id == id
    ensures r.None? ==> forall o :: o in book ==> o.id != id
    decreases |book|
  {
    if |book| == 0 then None
    else if book[0].id == id then Some(book[0])
    else
      assert book == [book[0]] + book[1..];
      Lookup(book[1..], id)
  }

  /** Writing back `o` replaces what a lookup of its id finds, and only that. */
  lemma {:induction false} LookupSave(book: seq<Order>, o: Order, id: nat)
    ensures Lookup(Save(book, o), id) ==
      if id == o.id && Lookup(book, id).Some? then Some(o) else Lookup(book, id)
    decreases |book|
  {
    if |book| > 0 {
      assert Save(book, o)[1..] == Save(book[1..], o);
      LookupSave(book[1..], o, id);
    }
  }

  /** The total filled quantity over the rows of a book. */
  function SumFilled(book: seq<Order>): int {
    if |book| == 0 then 0 else book[0].filled + SumFilled(book[1..])
  }

  /** What writing back `o` adds to its row's fill counter (nothing when
      no row has its id). */
  function SaveGain(book: seq<Order>, o: Order): int {
    match Lookup(book, o.id)
    case Some(row) => o.filled - row.filled
    case None => 0
  }

  /** Writing back one order changes the book's total filled quantity by
      exactly what it adds to its own row. */
  lemma {:induction false} SumFilledSave(book: seq<Order>, o: Order)
    requires UniqueIds(book)
    ensures SumFilled(Save(book, o)) == SumFilled(book) + SaveGain(book, o)
    decreases |book|
  {
    if |book| > 0 {
      var rest := book[1..];
      assert Save(book, o)[1..] == Save(rest, o);
      assert UniqueIds(rest);
      SumFilledSave(rest, o);
      if book[0].id == o.id {
        assert forall j :: 0 <= j < |rest| ==> rest[j].id != o.id by {
          forall j | 0 <= j < |rest|
            ensures rest[j].id != o.id
          {
            assert rest[j] == book[j + 1];
          }
        }
        assert Save(rest, o) == rest;
      }
    }
  }

  /** In a book with unique ids, looking up a row's id finds that row. */
  lemma LookupUnique(book: seq<Order>, o: Order)
    requires UniqueIds(book)
    requires o in book
    ensures Lookup(book, o.id) == Some(o)
  {
    DistinctRows(book, Lookup(book, o.id).value, o);
  }

  /** Writing back orders none of which has `id` leaves its lookup alone. */
  lemma {:induction false} LookupSaveAll(book: seq<Order>, os: seq<Order>, id: nat)
    requires forall i :: 0 <= i < |os| ==> os[i].id != id
    ensures Lookup(SaveAll(book, os), id) == Lookup(book, id)
    decreases |os|
  {
    if |os| > 0 {
      LookupSave(book, os[0], id);
      LookupSaveAll(Save(book, os[0]), os[1..], id);
    }
  }
}
