/**
 * PHP's `usort` as a function. Since PHP 8.0 the sort is stable: elements the
 * comparator calls equal keep their relative order. The model is an insertion
 * sort that places each later element after every earlier one that is not
 * strictly greater, which has that property. `leq(a, b)` means the comparator
 * returns a value `<= 0` for `(a, b)`.
 */
module Sorting {

  /** The comparator is a total preorder: any two elements compare, and the order is transitive. */
  ghost predicate TotalPreorder<T(!new)>(leq: (T, T) -> bool) {
    && (forall a, b :: leq(a, b) || leq(b, a))
    && (forall a, b, c :: leq(a, b) && leq(b, c) ==> leq(a, c))
  }

  ghost predicate SortedBy<T>(s: seq<T>, leq: (T, T) -> bool) {
    forall i, j :: 0 <= i < j < |s| ==> leq(s[i], s[j])
  }

  /** Put `x` after the longest prefix of `s` whose elements are not greater than `x`. */
  function Insert<T>(x: T, s: seq<T>, leq: (T, T) -> bool): (r: seq<T>)
    ensures multiset(r) == multiset(s) + multiset{x}
    ensures |r| == |s| + 1
  {
    if s == [] then [x]
    else if !leq(s[0], x) then [x] + s
    else
      var rest := Insert(x, s[1..], leq);
      assert s == [s[0]] + s[1..];
      [s[0]] + rest
  }

  /** `usort($s, cmp)`. */
  function SortBy<T>(s: seq<T>, leq: (T, T) -> bool): (r: seq<T>)
    ensures multiset(r) == multiset(s)
    ensures |r| == |s|
  {
    if s == [] then []
    else
      var init := s[..|s| - 1];
      assert s == init + [s[|s| - 1]];
      Insert(s[|s| - 1], SortBy(init, leq), leq)
  }

  lemma {:induction false} InsertSorted<T(!new)>(x: T, s: seq<T>, leq: (T, T) -> bool)
    requires TotalPreorder(leq)
    requires SortedBy(s, leq)
    ensures SortedBy(Insert(x, s, leq), leq)
  {
    if s == [] {
    } else if !leq(s[0], x) {
      assert leq(x, s[0]);
    } else {
      var rest := Insert(x, s[1..], leq);
      InsertSorted(x, s[1..], leq);
      assert multiset(rest) == multiset(s[1..]) + multiset{x};
      forall j | 0 <= j < |rest| ensures leq(s[0], rest[j]) {
        assert rest[j] in multiset(rest);
        if rest[j] != x {
          assert rest[j] in s[1..];
        }
      }
    }
  }

  lemma {:induction false} SortBySorted<T(!new)>(s: seq<T>, leq: (T, T) -> bool)
    requires TotalPreorder(leq)
    ensures SortedBy(SortBy(s, leq), leq)
  {
    if s != [] {
      SortBySorted(s[..|s| - 1], leq);
      InsertSorted(s[|s| - 1], SortBy(s[..|s| - 1], leq), leq);
    }
  }

  /** Sorting keeps exactly the elements it was given. */
  lemma SortByMembers<T>(s: seq<T>, leq: (T, T) -> bool, x: T)
    ensures x in SortBy(s, leq) <==> x in s
  {
    assert x in SortBy(s, leq) <==> x in multiset(SortBy(s, leq));
  }
}
