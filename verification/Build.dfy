/** The tail of the snapshot builder: sort by OID, then refuse duplicates. */
module Build {
  import opened Oids
  import opened Values
  import Sorting

  datatype Built = DuplicateOid(oid: Oid) | Built(oids: seq<Oid>, vals: seq<Value>)

  predicate Before(a: Binding, b: Binding) {
    Lt(a.name, b.name)
  }

  /** The stable sort of the collected pairs by OID. */
  function Sort(pairs: seq<Binding>): seq<Binding> {
    Sorting.Sort(Before, pairs)
  }

  ghost predicate Sorted(pairs: seq<Binding>) {
    forall i, j :: 0 <= i < j < |pairs| ==> Le(pairs[i].name, pairs[j].name)
  }

  ghost predicate DistinctNames(pairs: seq<Binding>) {
    forall i, j :: 0 <= i < j < |pairs| ==> pairs[i].name != pairs[j].name
  }

  function Vals(pairs: seq<Binding>): (vals: seq<Value>)
    ensures |vals| == |pairs|
  {
    seq(|pairs|, i requires 0 <= i < |pairs| => pairs[i].val)
  }

  lemma BeforeIsOrder()
    ensures Sorting.StrictOrder(Before)
  {
    forall a: Binding, b: Binding | Before(a, b) ensures !Before(b, a) {
      LtAsymmetric(a.name, b.name);
    }
    forall a: Binding, b: Binding, c: Binding | !Before(b, a) && !Before(c, b) ensures !Before(c, a) {
      NotLtIsLe(b.name, a.name);
      NotLtIsLe(c.name, b.name);
      NotLtIsLe(c.name, a.name);
      if a.name != b.name && b.name != c.name {
        LtTransitive(a.name, b.name, c.name);
      }
    }
  }

  /** The sort orders the pairs and keeps every one of them. */
  lemma SortSorts(pairs: seq<Binding>)
    ensures Sorted(Sort(pairs)) && multiset(Sort(pairs)) == multiset(pairs)
  {
    BeforeIsOrder();
    Sorting.SortSorts(Before, pairs);
    var sorted := Sort(pairs);
    forall i, j | 0 <= i < j < |sorted| ensures Le(sorted[i].name, sorted[j].name) {
      assert !Before(sorted[j], sorted[i]);
      NotLtIsLe(sorted[j].name, sorted[i].name);
    }
  }

  /** At most one pair is called `name`. */
  ghost predicate AtMostOne(name: Oid, pairs: seq<Binding>) {
    forall i, j :: 0 <= i < j < |pairs| ==> !(pairs[i].name == name && pairs[j].name == name)
  }

  /** How often a name occurs does not depend on the order of the pairs. */
  lemma AtMostOneByMultiset(name: Oid, a: seq<Binding>, b: seq<Binding>)
    requires multiset(a) == multiset(b) && AtMostOne(name, a)
    ensures AtMostOne(name, b)
  {
    forall i, j | 0 <= i < j < |b| ensures !(b[i].name == name && b[j].name == name) {
      if b[i].name == name && b[j].name == name {
        assert b[i] in multiset(a) && b[j] in multiset(a);
        var k :| 0 <= k < |a| && a[k] == b[i];
        var l :| 0 <= l < |a| && a[l] == b[j];
        assert k == l;
        CountOnce(a, k);
        CountTwice(b, i, j);
      }
    }
  }

  lemma DistinctNamesByMultiset(a: seq<Binding>, b: seq<Binding>)
    requires multiset(a) == multiset(b) && DistinctNames(a)
    ensures DistinctNames(b)
  {
    forall i, j | 0 <= i < j < |b| ensures b[i].name != b[j].name {
      AtMostOneByMultiset(b[i].name, a, b);
    }
  }

  lemma CountOnce(a: seq<Binding>, k: nat)
    requires k < |a| && AtMostOne(a[k].name, a)
    ensures multiset(a)[a[k]] == 1
  {
    assert a == a[..k] + [a[k]] + a[k + 1..];
    assert a[k] !in a[..k] && a[k] !in a[k + 1..];
    assert multiset(a) == multiset(a[..k]) + multiset{a[k]} + multiset(a[k + 1..]);
  }

  lemma CountTwice(b: seq<Binding>, i: nat, j: nat)
    requires i < j < |b| && b[i] == b[j]
    ensures multiset(b)[b[i]] >= 2
  {
    assert b == b[..j] + [b[j]] + b[j + 1..];
    assert multiset(b) == multiset(b[..j]) + multiset{b[j]} + multiset(b[j + 1..]);
    assert b[..j][i] in multiset(b[..j]);
  }

  /** Sort, compare neighbours, split into the two aligned arrays. */
  method BuildTail(pairs: seq<Binding>) returns (r: Built)
    ensures r.Built? <==> DistinctNames(pairs)
    ensures r.Built? ==>
              && StrictlySorted(r.oids)
              && |r.vals| == |r.oids|
              && multiset(seq(|r.oids|, i requires 0 <= i < |r.oids| => Bound(r.oids[i], r.vals[i]))) == multiset(pairs)
    ensures r.Built? ==> r.oids == NamesOf(Sort(pairs)) && r.vals == Vals(Sort(pairs))
    ensures r.DuplicateOid? ==> !AtMostOne(r.oid, pairs)
  {
    var sorted := Sort(pairs);
    SortSorts(pairs);
    var i := 0;
    while i + 1 < |sorted|
      invariant forall j :: 0 <= j < i && j + 1 < |sorted| ==> sorted[j].name != sorted[j + 1].name
    {
      if sorted[i].name == sorted[i + 1].name {
        if AtMostOne(sorted[i].name, pairs) {
          AtMostOneByMultiset(sorted[i].name, pairs, sorted);
        }
        return DuplicateOid(sorted[i].name);
      }
      i := i + 1;
    }
    NeighboursSuffice(sorted);
    DistinctNamesByMultiset(sorted, pairs);
    RowsAreThePairs(sorted);
    return Built(NamesOf(sorted), Vals(sorted));
  }

  /** The two arrays, read row by row, are the pairs. */
  lemma RowsAreThePairs(pairs: seq<Binding>)
    ensures var oids, vals := NamesOf(pairs), Vals(pairs);
            seq(|oids|, i requires 0 <= i < |oids| => Bound(oids[i], vals[i])) == pairs
  {
  }

  /** In a sorted sequence it is enough to compare neighbours. */
  lemma {:induction false} NeighboursSuffice(sorted: seq<Binding>)
    requires Sorted(sorted)
    requires forall j :: 0 <= j < |sorted| - 1 ==> sorted[j].name != sorted[j + 1].name
    ensures StrictlySorted(NamesOf(sorted)) && DistinctNames(sorted)
  {
    forall i, j | 0 <= i < j < |sorted| ensures Lt(sorted[i].name, sorted[j].name) && sorted[i].name != sorted[j].name {
      assert Lt(sorted[i].name, sorted[i + 1].name);
      if i + 1 < j {
        if sorted[i + 1].name != sorted[j].name {
          LtTransitive(sorted[i].name, sorted[i + 1].name, sorted[j].name);
        }
      }
      LtAsymmetric(sorted[i].name, sorted[j].name);
    }
  }

  lemma SortedTail(a: seq<Binding>)
    requires StrictlySorted(NamesOf(a)) && a != []
    ensures StrictlySorted(NamesOf(a[1..]))
    ensures multiset(a[1..]) == multiset(a) - multiset{a[0]}
    ensures forall k :: 0 < k < |a| ==> Lt(a[0].name, a[k].name)
  {
    assert a == [a[0]] + a[1..];
    forall i, j | 0 <= i < j < |a| - 1 ensures Lt(NamesOf(a[1..])[i], NamesOf(a[1..])[j]) {
      assert Lt(NamesOf(a)[i + 1], NamesOf(a)[j + 1]);
    }
    forall k | 0 < k < |a| ensures Lt(a[0].name, a[k].name) {
      assert Lt(NamesOf(a)[0], NamesOf(a)[k]);
    }
  }

  /** Two strictly sorted sequences of the same pairs are the same sequence. */
  lemma {:induction false} SortedIsUnique(a: seq<Binding>, b: seq<Binding>)
    requires StrictlySorted(NamesOf(a)) && StrictlySorted(NamesOf(b)) && multiset(a) == multiset(b)
    ensures a == b
    decreases |a|
  {
    assert |a| == |multiset(a)| == |multiset(b)| == |b|;
    if a != [] {
      SortedTail(a);
      SortedTail(b);
      assert a[0] in multiset(b) && b[0] in multiset(a);
      if a[0] != b[0] {
        LtAsymmetric(a[0].name, b[0].name);
      }
      SortedIsUnique(a[1..], b[1..]);
      assert a == [a[0]] + a[1..] && b == [b[0]] + b[1..];
    }
  }

  /** The snapshot does not depend on the order in which collectors added their rows. */
  lemma CollectionOrderIsIrrelevant(a: seq<Binding>, b: seq<Binding>)
    requires multiset(a) == multiset(b) && DistinctNames(a)
    ensures Sort(a) == Sort(b)
  {
    SortSorts(a);
    SortSorts(b);
    DistinctNamesByMultiset(a, Sort(a));
    DistinctNamesByMultiset(a, Sort(b));
    NeighboursSuffice(Sort(a));
    NeighboursSuffice(Sort(b));
    SortedIsUnique(Sort(a), Sort(b));
  }
}
