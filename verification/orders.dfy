/** The order and trade records the matching engine works on.

    An order book is a sequence of order rows; an order is identified by its
    `id` (the row's primary key). Prices, sizes and fill counters are the
    integers the source stores; `price == 0` marks a market order.
 */
module Orders {

  datatype Option<T> = None | Some(value: T)

  datatype Side = Buy | Sell

  /** Order statuses; `WaitingNew` is a submitted order not yet processed. */
  datatype Status = WaitingNew | New | Updated | PartiallyFilled | Filled

  datatype Order = Order(
    id: nat,
    market: nat,
    side: Side,
    price: int,
    size: int,
    filled: int,
    status: Status,
    createdAt: int
  )

  /** One execution: the buying and selling order ids, the execution price,
      the side of the order that took liquidity, and the executed size. */
  datatype Trade = Trade(buyOrder: nat, sellOrder: nat, price: int, side: Side, size: int)

  function Opposite(s: Side): (r: Side)
    ensures r != s
  {
    if s == Buy then Sell else Buy
  }

  /** The statuses that keep an order in the book as a possible maker. */
  predicate Resting(st: Status) {
    st == New || st == Updated || st == PartiallyFilled
  }

  /** An order another order may trade against: in the market, on the side,
      resting, and priced (a market order never rests). */
  predicate Eligible(o: Order, market: nat, side: Side) {
    o.market == market && o.side == side && Resting(o.status) && o.price != 0
  }

  function Remaining(o: Order): int {
    o.size - o.filled
  }

  predicate WellFormed(o: Order) {
    0 <= o.filled <= o.size
  }

  ghost predicate UniqueIds(s: seq<Order>) {
    forall i, j :: 0 <= i < j < |s| ==> s[i].id != s[j].id
  }

  /** A FILLED status means nothing remains to fill. */
  predicate Consistent(o: Order) {
    o.status == Filled ==> Remaining(o) == 0
  }

  /** The fixed attributes of an order: everything but its fill counter and status. */
  predicate SameTerms(a: Order, b: Order) {
    a.(filled := 0, status := New) == b.(filled := 0, status := New)
  }

  /** `Order.fill(n)`: add `n` to the fill counter, then the order is FILLED
      when nothing remains and PARTIALLY_FILLED otherwise. */
  function Fill(o: Order, n: int): (r: Order)
    ensures SameTerms(r, o)
    ensures r.filled == o.filled + n
    ensures Remaining(r) == Remaining(o) - n
    ensures r.status == Filled <==> Remaining(r) == 0
    ensures r.status != Filled ==> r.status == PartiallyFilled
  {
    var f := o.filled + n;
    o.(filled := f, status := if f == o.size then Filled else PartiallyFilled)
  }
}
