/** Ordering of order rows by an integer key (the `order_by` of a query).

    The sort is an insertion sort: rows with equal keys stay in a fixed order
    decided by the sort, as the database leaves ties unspecified.
 */
module Sorting {
  import opened Orders

  ghost predicate SortedBy(s: seq<Order>, key: Order -> int) {
    forall i, j :: 0 <= i < j < |s| ==> key(s[i]) <= key(s[j])
  }

  function Insert(x: Order, s: seq<Order>, key: Order -> int): (r: seq<Order>)
    requires SortedBy(s, key)
    ensures SortedBy(r, key)
    ensures forall y :: y in r <==> y == x || y in s
  {
    if |s| == 0 || key(x) <= key(s[0]) then
      [x] + s
    else
      var rest := Insert(x, s[1..], key);
      assert s == [s[0]] + s[1..];
      HeadIsLeast(s, key);
      assert forall y :: y in rest ==> key(s[0]) <= key(y);
      [s[0]] + rest
  }

  /** In a sorted sequence the head's key bounds every later key. */
  lemma HeadIsLeast(s: seq<Order>, key: Order -> int)
    requires |s| > 0
    requires SortedBy(s, key)
    ensures SortedBy(s[1..], key)
    ensures forall y :: y in s[1..] ==> key(s[0]) <= key(y)
  {
    forall y | y in s[1..]
      ensures key(s[0]) <= key(y)
    {
      var k :| 0 <= k < |s[1..]| && s[1..][k] == y;
      assert s[k + 1] == y;
    }
  }

  function SortBy(s: seq<Order>, key: Order -> int): (r: seq<Order>)
    ensures SortedBy(r, key)
    ensures forall y :: y in r <==> y in s
  {
    if |s| == 0 then []
    else
      assert s == [s[0]] + s[1..];
      Insert(s[0], SortBy(s[1..], key), key)
  }

  /** Insertion adds exactly one occurrence of the inserted row. */
  lemma {:induction false} InsertPermutes(x: Order, s: seq<Order>, key: Order -> int)
    requires SortedBy(s, key)
    ensures multiset(Insert(x, s, key)) == multiset(s) + multiset{x}
  {
    if |s| > 0 && key(x) > key(s[0]) {
      HeadIsLeast(s, key);
      InsertPermutes(x, s[1..], key);
      assert s == [s[0]] + s[1..];
    }
  }

  /** Sorting is a permutation: every row keeps its number of occurrences. */
  lemma {:induction false} SortByPermutes(s: seq<Order>, key: Order -> int)
    ensures multiset(SortBy(s, key)) == multiset(s)
  {
    if |s| > 0 {
      SortByPermutes(s[1..], key);
      InsertPermutes(s[0], SortBy(s[1..], key), key);
      assert s == [s[0]] + s[1..];
    }
  }

  lemma {:induction false} InsertUnique(x: Order, s: seq<Order>, key: Order -> int)
    requires SortedBy(s, key)
    requires UniqueIds(s)
    requires forall y :: y in s ==> y.id != x.id
    ensures UniqueIds(Insert(x, s, key))
  {
    if |s| == 0 || key(x) <= key(s[0]) {
    } else {
      InsertUnique(x, s[1..], key);
      var rest := Insert(x, s[1..], key);
      assert s == [s[0]] + s[1..];
      assert forall y :: y in rest ==> y.id != s[0].id;
    }
  }

  /** Sorting keeps ids unique: no row is duplicated. */
  lemma {:induction false} SortByUnique(s: seq<Order>, key: Order -> int)
    requires UniqueIds(s)
    ensures UniqueIds(SortBy(s, key))
  {
    if |s| > 0 {
      SortByUnique(s[1..], key);
      var sorted := SortBy(s[1..], key);
      assert s == [s[0]] + s[1..];
      InsertUnique(s[0], sorted, key);
    }
  }
}
