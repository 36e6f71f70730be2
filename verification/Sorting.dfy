/** A stable sort by a strict order, as list.sort with a key. */
module Sorting {

  /** Places an element after every element that is not larger, as a stable sort does. */
  function Insert<T>(less: (T, T) -> bool, p: T, sorted: seq<T>): seq<T> {
    if sorted == [] then [p]
    else if less(p, sorted[0]) then [p] + sorted
    else [sorted[0]] + Insert(less, p, sorted[1..])
  }

  function Sort<T>(less: (T, T) -> bool, s: seq<T>): seq<T> {
    if s == [] then [] else Insert(less, s[|s| - 1], Sort(less, s[..|s| - 1]))
  }

  /** A strict order in which incomparable elements count as equal. */
  ghost predicate StrictOrder<T(!new)>(less: (T, T) -> bool) {
    && (forall a, b :: less(a, b) ==> !less(b, a))
    && (forall a, b, c :: !less(b, a) && !less(c, b) ==> !less(c, a))
  }

  ghost predicate Ordered<T>(less: (T, T) -> bool, s: seq<T>) {
    forall i, j :: 0 <= i < j < |s| ==> !less(s[j], s[i])
  }

  lemma {:induction false} InsertAdds<T>(less: (T, T) -> bool, p: T, sorted: seq<T>)
    ensures multiset(Insert(less, p, sorted)) == multiset(sorted) + multiset{p}
  {
    if sorted != [] && !less(p, sorted[0]) {
      InsertAdds(less, p, sorted[1..]);
      assert sorted == [sorted[0]] + sorted[1..];
    }
  }

  lemma {:induction false} InsertKeepsOrder<T(!new)>(less: (T, T) -> bool, p: T, sorted: seq<T>)
    requires StrictOrder(less) && Ordered(less, sorted)
    ensures Ordered(less, Insert(less, p, sorted))
  {
    if sorted != [] && !less(p, sorted[0]) {
      InsertKeepsOrder(less, p, sorted[1..]);
      InsertAdds(less, p, sorted[1..]);
      var rest := Insert(less, p, sorted[1..]);
      forall j | 0 <= j < |rest| ensures !less(rest[j], sorted[0]) {
        assert rest[j] in multiset(sorted[1..]) + multiset{p};
      }
    } else if sorted != [] {
      forall j | 0 <= j < |sorted| ensures !less(sorted[j], p) {
        assert j > 0 ==> !less(sorted[j], sorted[0]);
      }
    }
  }

  /** The sort orders the elements and keeps every one of them. */
  lemma {:induction false} SortSorts<T(!new)>(less: (T, T) -> bool, s: seq<T>)
    requires StrictOrder(less)
    ensures Ordered(less, Sort(less, s)) && multiset(Sort(less, s)) == multiset(s)
  {
    if s != [] {
      var front, last := s[..|s| - 1], s[|s| - 1];
      SortSorts(less, front);
      InsertAdds(less, last, Sort(less, front));
      InsertKeepsOrder(less, last, Sort(less, front));
      assert s == front + [last];
    }
  }

  lemma SortOne<T>(less: (T, T) -> bool, p: T)
    ensures Sort(less, [p]) == [p]
  {
    assert [p][..0] == [];
  }
}
