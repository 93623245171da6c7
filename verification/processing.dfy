/** `Matching.process_order` and `Matching.process_queue`: the status step
    that admits a submitted order to matching, and the drain of all
    submitted orders in submission order.
 */
module Processing {
  import opened Orders
  import opened Book
  import opened Matching
  import Sorting

  predicate IsWaiting(o: Order) {
    o.status == WaitingNew
  }

  /** The queue's `order_by` key. */
  function SubmittedAt(o: Order): int {
    o.createdAt
  }

  /** The book after a step and the trades the step emitted, in order. */
  datatype Step = Step(book: seq<Order>, trades: seq<Trade>)

  /** `process_order`. Only a submitted (WAITING) order is processed: it
      becomes NEW, is written back, and takes liquidity; a market order
      (price 0) is then marked FILLED whatever it got. */
  function ProcessOrder(book: seq<Order>, order: Order): (r: Step)
    ensures order.status != WaitingNew ==> r.book == book && r.trades == []
    ensures |r.book| == |book|
  {
    if order.status != WaitingNew then Step(book, [])
    else
      var accepted := order.(status := New);
      var t := Take(Save(book, accepted), accepted);
      if order.price == 0 then Step(Save(t.book, t.taker.(status := Filled)), t.trades)
      else Step(t.book, t.trades)
  }

  /** `ProcessOrderRows` for one row. */
  lemma ProcessOrderRow(book: seq<Order>, order: Order, j: nat)
    requires UniqueIds(book)
    requires order in book
    requires order.status == WaitingNew
    requires j < |book|
    ensures var r := ProcessOrder(book, order);
      && r.book[j].id == book[j].id
      && (book[j].id == order.id ==>
            && SameTerms(r.book[j], order)
            && r.book[j].filled == order.filled + SumSizes(r.trades)
            && r.book[j].status != WaitingNew
            && (order.price == 0 ==> r.book[j].status == Filled)
            && (order.price != 0 && r.trades == [] ==> r.book[j].status == New)
            && (order.price != 0 && r.trades != [] ==> (r.book[j].status == Filled <==> Remaining(r.book[j]) == 0)))
      && (book[j].id != order.id && book[j].status == WaitingNew ==> r.book[j] == book[j])
      && (book[j].status != WaitingNew ==> r.book[j].status != WaitingNew)
  {
    var accepted := order.(status := New);
    var b1 := Save(book, accepted);
    assert SameRows(book, b1);
    SameRowsUnique(book, b1);
    var k :| 0 <= k < |book| && book[k] == order;
    assert b1[k] == accepted;
    TakeRowStatus(b1, accepted, j);
    var t := Take(b1, accepted);
    var r := ProcessOrder(book, order);
    assert r.trades == t.trades;
    if book[j].id == order.id {
      assert b1[j] == accepted;
      assert r.book[j] == if order.price == 0 then t.taker.(status := Filled) else t.taker;
    } else {
      assert r.book[j] == t.book[j];
      assert b1[j] == book[j];
    }
  }

  /** What processing a submitted order does to the book: its own row ends
      with its fixed terms, the traded size added to its fill counter and a
      status that is no longer WAITING (FILLED for a market order); other
      submitted rows are untouched; processed rows stay processed. */
  lemma ProcessOrderRows(book: seq<Order>, order: Order)
    requires UniqueIds(book)
    requires order in book
    requires order.status == WaitingNew
    ensures var r := ProcessOrder(book, order);
      && SameRows(book, r.book)
      && (forall j :: 0 <= j < |book| && book[j].id == order.id ==>
            && SameTerms(r.book[j], order)
            && r.book[j].filled == order.filled + SumSizes(r.trades)
            && r.book[j].status != WaitingNew
            && (order.price == 0 ==> r.book[j].status == Filled)
            && (order.price != 0 && r.trades == [] ==> r.book[j].status == New)
            && (order.price != 0 && r.trades != [] ==> (r.book[j].status == Filled <==> Remaining(r.book[j]) == 0)))
      && (forall j :: 0 <= j < |book| && book[j].id != order.id && book[j].status == WaitingNew ==>
            r.book[j] == book[j])
      && (forall j :: 0 <= j < |book| && book[j].status != WaitingNew ==> r.book[j].status != WaitingNew)
  {
    var r := ProcessOrder(book, order);
    forall j | 0 <= j < |book|
      ensures r.book[j].id == book[j].id
      ensures book[j].id == order.id ==>
        && SameTerms(r.book[j], order)
        && r.book[j].filled == order.filled + SumSizes(r.trades)
        && r.book[j].status != WaitingNew
        && (order.price == 0 ==> r.book[j].status == Filled)
        && (order.price != 0 && r.trades == [] ==> r.book[j].status == New)
        && (order.price != 0 && r.trades != [] ==> (r.book[j].status == Filled <==> Remaining(r.book[j]) == 0))
      ensures book[j].id != order.id && book[j].status == WaitingNew ==> r.book[j] == book[j]
      ensures book[j].status != WaitingNew ==> r.book[j].status != WaitingNew
    {
      ProcessOrderRow(book, order, j);
    }
  }


  /** No over-fill survives processing: from a book of well-formed orders,
      every row is still well formed. */
  lemma ProcessOrderNoOverfill(book: seq<Order>, order: Order)
    requires UniqueIds(book)
    requires order in book
    requires forall o :: o in book ==> WellFormed(o)
    ensures forall o :: o in ProcessOrder(book, order).book ==> WellFormed(o)
  {
    if order.status == WaitingNew {
      var accepted := order.(status := New);
      var b1 := Save(book, accepted);
      SameRowsUnique(book, b1);
      var k :| 0 <= k < |book| && book[k] == order;
      assert b1[k] == accepted;
      assert forall o :: o in b1 ==> WellFormed(o);
      TakeNoOverfill(b1, accepted);
      var t := Take(b1, accepted);
      if order.price == 0 {
        assert t.taker in t.book by { TakeBook(b1, accepted); }
      }
    }
  }

  /** Processing a priced order keeps every row's status consistent with
      its fill counter. */
  lemma ProcessPricedOrderConsistent(book: seq<Order>, order: Order)
    requires UniqueIds(book)
    requires order in book
    requires order.price != 0
    requires forall o :: o in book ==> Consistent(o)
    ensures forall o :: o in ProcessOrder(book, order).book ==> Consistent(o)
  {
    if order.status == WaitingNew {
      var accepted := order.(status := New);
      var b1 := Save(book, accepted);
      SameRowsUnique(book, b1);
      var k :| 0 <= k < |book| && book[k] == order;
      assert b1[k] == accepted;
      TakeConsistent(b1, accepted);
    }
  }

  /** The submitted orders at query time, oldest first. */
  function WaitingQueue(book: seq<Order>): (q: seq<Order>)
    ensures forall o :: o in q <==> o in book && o.status == WaitingNew
    ensures forall i, j :: 0 <= i < j < |q| ==> q[i].createdAt <= q[j].createdAt
  {
    var q := Sorting.SortBy(Filter(book, IsWaiting), SubmittedAt);
    assert forall i, j :: 0 <= i < j < |q| ==> SubmittedAt(q[i]) <= SubmittedAt(q[j]);
    q
  }

  /** The queue is a permutation of the submitted rows: each occurs in it
      as often as in the book. */
  lemma WaitingQueuePermutes(book: seq<Order>)
    ensures multiset(WaitingQueue(book)) == multiset(Filter(book, IsWaiting))
  {
    Sorting.SortByPermutes(Filter(book, IsWaiting), SubmittedAt);
  }

  /** Each submitted order is queued exactly once. */
  lemma WaitingQueueUnique(book: seq<Order>)
    requires UniqueIds(book)
    ensures UniqueIds(WaitingQueue(book))
  {
    Sorting.SortByUnique(Filter(book, IsWaiting), SubmittedAt);
  }

  /** Processing a queue snapshot: `process_order` once per queued order,
      in queue order, each on the book the previous one left. */
  function Drain(book: seq<Order>, queue: seq<Order>): (r: Step)
    ensures |r.book| == |book|
    decreases |queue|
  {
    if |queue| == 0 then Step(book, [])
    else
      var s := ProcessOrder(book, queue[0]);
      var rest := Drain(s.book, queue[1..]);
      Step(rest.book, s.trades + rest.trades)
  }

  /** A queue of already processed snapshots changes nothing. */
  lemma {:induction false} DrainSkipsProcessed(book: seq<Order>, queue: seq<Order>)
    requires forall o :: o in queue ==> o.status != WaitingNew
    ensures Drain(book, queue) == Step(book, [])
    decreases |queue|
  {
    if |queue| > 0 {
      assert queue[0] in queue;
      assert forall o :: o in queue[1..] ==> o in queue;
      DrainSkipsProcessed(book, queue[1..]);
    }
  }

  /** `process_queue`: `process_order` on each queued snapshot, oldest
      first. With nothing submitted the book is left as it was. */
  function ProcessQueue(book: seq<Order>): (r: Step)
    ensures |r.book| == |book|
    ensures (forall o :: o in book ==> o.status != WaitingNew) ==> r.book == book && r.trades == []
  {
    Drain(book, WaitingQueue(book))
  }

  /** A reference drain that re-reads each order's current row just
      before processing it, rather than using the queue snapshot. */
  function DrainCurrent(book: seq<Order>, ids: seq<nat>): Step
    decreases |ids|
  {
    if |ids| == 0 then Step(book, [])
    else
      var s := match Lookup(book, ids[0])
        case Some(o) => ProcessOrder(book, o)
        case None => Step(book, []);
      var rest := DrainCurrent(s.book, ids[1..]);
      Step(rest.book, s.trades + rest.trades)
  }

  function Ids(q: seq<Order>): (r: seq<nat>)
    ensures |r| == |q|
    ensures forall i :: 0 <= i < |q| ==> r[i] == q[i].id
  {
    seq(|q|, i requires 0 <= i < |q| => q[i].id)
  }

  /** The queue invariant: every queued order is still the current, still
      submitted row of the book, once. */
  ghost predicate QueueFresh(book: seq<Order>, queue: seq<Order>) {
    && UniqueIds(book)
    && UniqueIds(queue)
    && forall o :: o in queue ==> o in book && o.status == WaitingNew
  }

  /** Processing the head of a fresh queue keeps the rest of it fresh. */
  lemma DrainStepFresh(book: seq<Order>, queue: seq<Order>)
    requires |queue| > 0
    requires QueueFresh(book, queue)
    ensures QueueFresh(ProcessOrder(book, queue[0]).book, queue[1..])
  {
    var s := ProcessOrder(book, queue[0]);
    assert queue[0] in queue;
    ProcessOrderRows(book, queue[0]);
    SameRowsUnique(book, s.book);
    forall o | o in queue[1..]
      ensures o in s.book && o.status == WaitingNew
    {
      var i :| 0 <= i < |queue[1..]| && queue[1..][i] == o;
      assert queue[i + 1] == o;
      var j :| 0 <= j < |book| && book[j] == o;
      assert s.book[j] == book[j];
    }
  }

  /** The queue snapshot is never stale: draining it processes exactly what
      re-reading each order's current row would. */
  lemma {:induction false} DrainIsCurrent(book: seq<Order>, queue: seq<Order>)
    requires QueueFresh(book, queue)
    ensures Drain(book, queue) == DrainCurrent(book, Ids(queue))
    decreases |queue|
  {
    if |queue| > 0 {
      assert queue[0] in queue;
      LookupUnique(book, queue[0]);
      DrainStepFresh(book, queue);
      var s := ProcessOrder(book, queue[0]);
      DrainIsCurrent(s.book, queue[1..]);
      assert Ids(queue)[1..] == Ids(queue[1..]);
    }
  }

  /** Draining a fresh queue leaves none of its orders WAITING and brings
      no processed row back to WAITING. */
  lemma {:induction false} DrainClears(book: seq<Order>, queue: seq<Order>)
    requires QueueFresh(book, queue)
    ensures var r := Drain(book, queue);
      && SameRows(book, r.book)
      && forall j :: 0 <= j < |book| && (book[j].status != WaitingNew || book[j] in queue) ==>
           r.book[j].status != WaitingNew
    decreases |queue|
  {
    if |queue| > 0 {
      assert queue[0] in queue;
      var s := ProcessOrder(book, queue[0]);
      ProcessOrderRows(book, queue[0]);
      DrainStepFresh(book, queue);
      DrainClears(s.book, queue[1..]);
      var r := Drain(book, queue);
      forall j | 0 <= j < |book| && (book[j].status != WaitingNew || book[j] in queue)
        ensures r.book[j].status != WaitingNew
      {
        if book[j].status == WaitingNew && book[j] != queue[0] {
          assert book[j] in queue[1..] by {
            var i :| 0 <= i < |queue| && queue[i] == book[j];
            assert i != 0;
            assert queue[1..][i - 1] == book[j];
          }
          assert book[j] in book;
          DistinctRows(book, book[j], queue[0]);
        }
      }
    }
  }

  /** After `process_queue` no order is left WAITING, and the queue it
      drained holds every order that was. */
  lemma ProcessQueueDrains(book: seq<Order>)
    requires UniqueIds(book)
    ensures SameRows(book, ProcessQueue(book).book)
    ensures forall o :: o in ProcessQueue(book).book ==> o.status != WaitingNew
  {
    var q := WaitingQueue(book);
    WaitingQueueUnique(book);
    DrainClears(book, q);
    var r := ProcessQueue(book);
    forall o | o in r.book
      ensures o.status != WaitingNew
    {
      var j :| 0 <= j < |r.book| && r.book[j] == o;
      assert book[j] in book;
    }
  }

  /** Processing one order conserves fills: the book's total filled
      quantity grows by twice what it traded. Forcing a market order to
      FILLED changes its status only, not its fill counter. */
  lemma ProcessOrderConservesFills(book: seq<Order>, order: Order)
    requires UniqueIds(book)
    requires order in book
    ensures var r := ProcessOrder(book, order);
      SumFilled(r.book) == SumFilled(book) + 2 * SumSizes(r.trades)
  {
    if order.status == WaitingNew {
      var accepted := order.(status := New);
      var b1 := Save(book, accepted);
      LookupUnique(book, order);
      SumFilledSave(book, accepted);
      assert SameRows(book, b1);
      SameRowsUnique(book, b1);
      var k :| 0 <= k < |book| && book[k] == order;
      assert b1[k] == accepted;
      TakeConservesFills(b1, accepted);
      if order.price == 0 {
        var t := Take(b1, accepted);
        TakeBook(b1, accepted);
        assert t.book[k] == t.taker;
        SameRowsUnique(b1, t.book);
        LookupUnique(t.book, t.taker);
        SumFilledSave(t.book, t.taker.(status := Filled));
      }
    }
  }

  /** Conservation over a whole drain: the book's total filled quantity
      grows by twice the size of all trades emitted. */
  lemma {:induction false} DrainConservesFills(book: seq<Order>, queue: seq<Order>)
    requires QueueFresh(book, queue)
    ensures var r := Drain(book, queue);
      SumFilled(r.book) == SumFilled(book) + 2 * SumSizes(r.trades)
    decreases |queue|
  {
    if |queue| > 0 {
      assert queue[0] in queue;
      var s := ProcessOrder(book, queue[0]);
      ProcessOrderConservesFills(book, queue[0]);
      DrainStepFresh(book, queue);
      DrainConservesFills(s.book, queue[1..]);
      SumSizesAppend(s.trades, Drain(s.book, queue[1..]).trades);
    }
  }

  /** No over-fill over a whole drain. */
  lemma {:induction false} DrainNoOverfill(book: seq<Order>, queue: seq<Order>)
    requires QueueFresh(book, queue)
    requires forall o :: o in book ==> WellFormed(o)
    ensures forall o :: o in Drain(book, queue).book ==> WellFormed(o)
    decreases |queue|
  {
    if |queue| > 0 {
      assert queue[0] in queue;
      var s := ProcessOrder(book, queue[0]);
      ProcessOrderNoOverfill(book, queue[0]);
      DrainStepFresh(book, queue);
      DrainNoOverfill(s.book, queue[1..]);
    }
  }

  /** `process_queue` over a book of well-formed orders: none over-fills,
      and the fills gained are twice the traded size. */
  lemma ProcessQueueSound(book: seq<Order>)
    requires UniqueIds(book)
    requires forall o :: o in book ==> WellFormed(o)
    ensures var r := ProcessQueue(book);
      && (forall o :: o in r.book ==> WellFormed(o))
      && SumFilled(r.book) == SumFilled(book) + 2 * SumSizes(r.trades)
  {
    WaitingQueueUnique(book);
    DrainNoOverfill(book, WaitingQueue(book));
    DrainConservesFills(book, WaitingQueue(book));
  }
}
