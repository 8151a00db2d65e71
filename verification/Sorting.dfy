/** Sorting by a total order, as the library's sort does it. */
module Sorting {
  ghost predicate TotalOrder<T(!new)>(le: (T, T) -> bool) {
    && (forall a, b :: le(a, b) || le(b, a))
    && (forall a, b, c :: le(a, b) && le(b, c) ==> le(a, c))
  }

  ghost predicate SortedBy<T>(le: (T, T) -> bool, list: seq<T>) {
    forall i, j :: 0 <= i < j < |list| ==> le(list[i], list[j])
  }

  /** sort.Slice and sort.Strings. */
  method Sort<T(!new)>(le: (T, T) -> bool, list: seq<T>) returns (sorted: seq<T>)
    requires TotalOrder(le)
    ensures multiset(sorted) == multiset(list) && SortedBy(le, sorted)
  {
    sorted := [];
    for n := 0 to |list|
      invariant multiset(sorted) == multiset(list[..n]) && SortedBy(le, sorted)
    {
      var at := 0;
      while at < |sorted| && le(sorted[at], list[n])
        invariant at <= |sorted| && forall i :: 0 <= i < at ==> le(sorted[i], list[n])
      {
        at := at + 1;
      }
      InsertSorted(le, sorted, at, list[n]);
      assert list[..n + 1] == list[..n] + [list[n]];
      sorted := sorted[..at] + [list[n]] + sorted[at..];
    }
    assert list[..|list|] == list;
  }

  lemma InsertSorted<T(!new)>(le: (T, T) -> bool, sorted: seq<T>, at: nat, x: T)
    requires TotalOrder(le) && SortedBy(le, sorted) && at <= |sorted|
    requires (forall i :: 0 <= i < at ==> le(sorted[i], x)) && (at < |sorted| ==> !le(sorted[at], x))
    ensures var all := sorted[..at] + [x] + sorted[at..];
      SortedBy(le, all) && multiset(all) == multiset(sorted) + multiset{x}
  {
    hide TotalOrder;
    var all := sorted[..at] + [x] + sorted[at..];
    assert sorted == sorted[..at] + sorted[at..];
    forall i, j | 0 <= i < j < |all| ensures le(all[i], all[j]) {
      InsertedPair(le, sorted, at, x, i, j);
    }
  }

  lemma InsertedPair<T(!new)>(le: (T, T) -> bool, sorted: seq<T>, at: nat, x: T, i: nat, j: nat)
    requires TotalOrder(le) && SortedBy(le, sorted) && at <= |sorted| && i < j < |sorted| + 1
    requires (forall i :: 0 <= i < at ==> le(sorted[i], x)) && (at < |sorted| ==> !le(sorted[at], x))
    ensures var all := sorted[..at] + [x] + sorted[at..]; le(all[i], all[j])
  {
    hide TotalOrder;
    var all := sorted[..at] + [x] + sorted[at..];
    assert all[i] == if i < at then sorted[i] else if i == at then x else sorted[i - 1];
    assert all[j] == if j < at then sorted[j] else if j == at then x else sorted[j - 1];
    if i == at {
      Above(le, sorted, at, x, j - 1);
    }
  }

  lemma Above<T(!new)>(le: (T, T) -> bool, sorted: seq<T>, at: nat, x: T, j: nat)
    requires TotalOrder(le) && SortedBy(le, sorted) && at <= j < |sorted| && !le(sorted[at], x)
    ensures le(x, sorted[j])
  {
    assert le(x, sorted[at]);
  }
}
