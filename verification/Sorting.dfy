/** `slice::sort` and `sort_by_key`: stable sorting by an order, as insertion sort. */
module Sorting {
  function SortBy<T>(leq: (T, T) -> bool, s: seq<T>): seq<T> {
    if s == [] then [] else InsertBy(leq, s[0], SortBy(leq, s[1..]))
  }

  function InsertBy<T>(leq: (T, T) -> bool, x: T, s: seq<T>): seq<T> {
    if s == [] || leq(x, s[0]) then [x] + s else [s[0]] + InsertBy(leq, x, s[1..])
  }

  /** In order, equal elements allowed. */
  predicate Ordered<T>(leq: (T, T) -> bool, s: seq<T>) {
    forall i :: 0 < i < |s| ==> leq(s[i - 1], s[i])
  }

  ghost predicate Total<T(!new)>(leq: (T, T) -> bool) {
    forall a, b :: leq(a, b) || leq(b, a)
  }

  lemma InsertSorts<T(!new)>(leq: (T, T) -> bool, x: T, s: seq<T>)
    requires Total(leq) && Ordered(leq, s)
    ensures Ordered(leq, InsertBy(leq, x, s)) && multiset(InsertBy(leq, x, s)) == multiset(s) + multiset{x}
  {
    if s != [] {
      assert s == [s[0]] + s[1..];
      if leq(x, s[0]) {
        OrderedCons(leq, x, s);
      } else {
        var t := InsertBy(leq, x, s[1..]);
        InsertSorts(leq, x, s[1..]);
        assert t[0] == x || (s[1..] != [] && t[0] == s[1..][0]);
        OrderedCons(leq, s[0], t);
      }
    }
  }

  lemma OrderedCons<T>(leq: (T, T) -> bool, x: T, s: seq<T>)
    requires Ordered(leq, s) && (s != [] ==> leq(x, s[0]))
    ensures Ordered(leq, [x] + s)
  {
  }

  lemma SortSorts<T(!new)>(leq: (T, T) -> bool, s: seq<T>)
    requires Total(leq)
    ensures Ordered(leq, SortBy(leq, s)) && multiset(SortBy(leq, s)) == multiset(s)
  {
    if s != [] {
      SortSorts(leq, s[1..]);
      InsertSorts(leq, s[0], SortBy(leq, s[1..]));
      assert s == [s[0]] + s[1..];
    }
  }

  /** Sorting leaves what is in order as it is. */
  lemma OrderedStays<T>(leq: (T, T) -> bool, s: seq<T>)
    requires Ordered(leq, s)
    ensures SortBy(leq, s) == s
  {
    if s != [] {
      OrderedStays(leq, s[1..]);
    }
  }
}
