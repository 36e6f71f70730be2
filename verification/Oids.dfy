/** Object identifiers as Python tuples of sub-identifiers, in Python's tuple order. */
module Oids {

  type Oid = seq<nat>

  /** Tuple comparison: the first difference decides; a proper prefix is the smaller one. */
  predicate Lt(a: Oid, b: Oid) {
    b != [] && (a == [] || a[0] < b[0] || (a[0] == b[0] && Lt(a[1..], b[1..])))
  }

  predicate Le(a: Oid, b: Oid) {
    a == b || Lt(a, b)
  }

  /** Every entry is below every later one: sorted, and without duplicates. */
  ghost predicate StrictlySorted(oids: seq<Oid>) {
    forall i, j :: 0 <= i < j < |oids| ==> Lt(oids[i], oids[j])
  }

  lemma {:induction false} LtIrreflexive(a: Oid)
    ensures !Lt(a, a)
  {
    if a != [] {
      LtIrreflexive(a[1..]);
    }
  }

  lemma {:induction false} LtTransitive(a: Oid, b: Oid, c: Oid)
    requires Lt(a, b) && Lt(b, c)
    ensures Lt(a, c)
  {
    if a != [] && a[0] == b[0] == c[0] {
      LtTransitive(a[1..], b[1..], c[1..]);
    }
  }

  lemma {:induction false} LtTotal(a: Oid, b: Oid)
    ensures Lt(a, b) || a == b || Lt(b, a)
  {
    if a != [] && b != [] && a[0] == b[0] {
      LtTotal(a[1..], b[1..]);
      assert a == [a[0]] + a[1..] && b == [b[0]] + b[1..];
    }
  }

  lemma LtAsymmetric(a: Oid, b: Oid)
    requires Lt(a, b)
    ensures !Lt(b, a) && a != b
  {
    LtIrreflexive(a);
    if Lt(b, a) {
      LtTransitive(a, b, a);
    }
  }

  lemma LeLtTransitive(a: Oid, b: Oid, c: Oid)
    requires Le(a, b) && Lt(b, c)
    ensures Lt(a, c)
  {
    if a != b {
      LtTransitive(a, b, c);
    }
  }

  /** For every pair at once: exactly one of below, equal and above. */
  lemma NotLtIsLe(a: Oid, b: Oid)
    ensures !Lt(a, b) <==> Le(b, a)
  {
    LtTotal(a, b);
    if Lt(a, b) {
      LtAsymmetric(a, b);
    }
    LtIrreflexive(a);
  }

  /** A strictly sorted sequence holds each OID at most once, so it is no longer than any set
      its OIDs are drawn from. */
  lemma {:induction false} SortedFitsUniverse(oids: seq<Oid>, universe: set<Oid>)
    requires StrictlySorted(oids)
    requires forall o :: o in oids ==> o in universe
    ensures |oids| <= |universe|
  {
    if oids != [] {
      var last := oids[|oids| - 1];
      var front := oids[..|oids| - 1];
      forall o | o in front ensures o in universe - {last} {
        var i :| 0 <= i < |front| && front[i] == o;
        LtAsymmetric(oids[i], last);
      }
      SortedFitsUniverse(front, universe - {last});
      assert |universe - {last}| == |universe| - 1;
    }
  }
}
