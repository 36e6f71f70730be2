/** The MIB as one sorted array: what GET, GETNEXT and one GETBULK slice mean. */
module Mib {
  import opened Common
  import opened Oids
  import opened Values

  /** Whether the view in force lets a row be read; no access function is the constant true. */
  type Access = (Oid, Value) -> bool

  /** The view without an access function: every row may be read. */
  predicate ReadAll(oid: Oid, val: Value) {
    true
  }

  /** An immutable snapshot. An empty `sizes` means the sizes were not computed. */
  datatype Snapshot = Snapshot(oids: seq<Oid>, vals: seq<Value>, sizes: seq<nat>)
  {
    ghost predicate Valid() {
      Aligned() && StrictlySorted(oids)
    }

    predicate Aligned() {
      |vals| == |oids| && (sizes == [] || |sizes| == |oids|)
    }

    function Size(i: nat): nat
      requires Aligned() && i < |oids|
    {
      if sizes == [] then 64 else sizes[i]
    }

    function Row(i: nat): Binding
      requires Aligned() && i < |oids|
    {
      Bound(oids[i], vals[i])
    }

    predicate Permits(ac: Access, i: nat)
      requires Aligned() && i < |oids|
    {
      ac(oids[i], vals[i])
    }
  }

  // ---------------------------------------------------------------- bisection

  /** The standard library's bisect_right on the window [lo, hi). */
  function BisectRight(oids: seq<Oid>, x: Oid, lo: nat, hi: nat): (i: nat)
    requires lo <= hi <= |oids|
    ensures lo <= i <= hi
    decreases hi - lo
  {
    if lo == hi then lo else
    var mid := (lo + hi) / 2;
    if Lt(x, oids[mid]) then BisectRight(oids, x, lo, mid) else BisectRight(oids, x, mid + 1, hi)
  }

  /** The standard library's bisect_left on the window [lo, hi). */
  function BisectLeft(oids: seq<Oid>, x: Oid, lo: nat, hi: nat): (i: nat)
    requires lo <= hi <= |oids|
    ensures lo <= i <= hi
    decreases hi - lo
  {
    if lo == hi then lo else
    var mid := (lo + hi) / 2;
    if Lt(oids[mid], x) then BisectLeft(oids, x, mid + 1, hi) else BisectLeft(oids, x, lo, mid)
  }

  /** On a sorted array, bisect_right is the border between "at most x" and "above x". */
  lemma {:induction false} BisectRightIsBorder(oids: seq<Oid>, x: Oid, lo: nat, hi: nat)
    requires StrictlySorted(oids) && lo <= hi <= |oids|
    requires forall k :: 0 <= k < lo ==> Le(oids[k], x)
    requires forall k :: hi <= k < |oids| ==> Lt(x, oids[k])
    ensures forall k :: 0 <= k < |oids| ==> (k < BisectRight(oids, x, lo, hi) <==> Le(oids[k], x))
    ensures forall k :: 0 <= k < |oids| ==> (k >= BisectRight(oids, x, lo, hi) <==> Lt(x, oids[k]))
    decreases hi - lo
  {
    if lo == hi {
      forall k | 0 <= k < |oids| ensures Le(oids[k], x) <==> !Lt(x, oids[k]) {
        NotLtIsLe(x, oids[k]);
      }
    } else {
      var mid := (lo + hi) / 2;
      NotLtIsLe(x, oids[mid]);
      if Lt(x, oids[mid]) {
        forall k | mid <= k < |oids| ensures Lt(x, oids[k]) {
          if k > mid { LtTransitive(x, oids[mid], oids[k]); }
        }
        BisectRightIsBorder(oids, x, lo, mid);
      } else {
        forall k | 0 <= k < mid + 1 ensures Le(oids[k], x) {
          if k < mid && oids[mid] != x { LtTransitive(oids[k], oids[mid], x); }
        }
        BisectRightIsBorder(oids, x, mid + 1, hi);
      }
    }
  }

  /** On a sorted array, bisect_left is the border between "below x" and "at least x". */
  lemma {:induction false} BisectLeftIsBorder(oids: seq<Oid>, x: Oid, lo: nat, hi: nat)
    requires StrictlySorted(oids) && lo <= hi <= |oids|
    requires forall k :: 0 <= k < lo ==> Lt(oids[k], x)
    requires forall k :: hi <= k < |oids| ==> Le(x, oids[k])
    ensures forall k :: 0 <= k < |oids| ==> (k < BisectLeft(oids, x, lo, hi) <==> Lt(oids[k], x))
    decreases hi - lo
  {
    if lo == hi {
      forall k | 0 <= k < |oids| ensures Le(x, oids[k]) <==> !Lt(oids[k], x) {
        NotLtIsLe(oids[k], x);
      }
    } else {
      var mid := (lo + hi) / 2;
      NotLtIsLe(oids[mid], x);
      if Lt(oids[mid], x) {
        forall k | 0 <= k < mid + 1 ensures Lt(oids[k], x) {
          if k < mid { LtTransitive(oids[k], oids[mid], x); }
        }
        BisectLeftIsBorder(oids, x, mid + 1, hi);
      } else {
        forall k | mid <= k < |oids| ensures Le(x, oids[k]) {
          if k > mid { LeLtTransitive(x, oids[mid], oids[k]); }
        }
        BisectLeftIsBorder(oids, x, lo, mid);
      }
    }
  }

  /** Where the walk stands after `name`: the number of OIDs at or below it. */
  function After(s: Snapshot, name: Oid): (i: nat)
    ensures i <= |s.oids|
  {
    BisectRight(s.oids, name, 0, |s.oids|)
  }

  lemma AfterIsBorder(s: Snapshot, name: Oid)
    requires s.Valid()
    ensures forall k :: 0 <= k < |s.oids| ==> (k >= After(s, name) <==> Lt(name, s.oids[k]))
  {
    BisectRightIsBorder(s.oids, name, 0, |s.oids|);
  }

  /** After the name of row k comes row k + 1. */
  lemma AfterRow(s: Snapshot, k: nat)
    requires s.Valid() && k < |s.oids|
    ensures After(s, s.oids[k]) == k + 1
  {
    AfterIsBorder(s, s.oids[k]);
    LtIrreflexive(s.oids[k]);
    if k + 1 < |s.oids| {
      assert Lt(s.oids[k], s.oids[k + 1]);
    }
  }

  // ------------------------------------------------------------------ GETNEXT

  /** The first row at or past i that may be read, or the end of the array. */
  function FirstPermitted(s: Snapshot, ac: Access, i: nat): (k: nat)
    requires s.Aligned() && i <= |s.oids|
    ensures i <= k <= |s.oids|
    ensures k < |s.oids| ==> s.Permits(ac, k)
    ensures forall j :: i <= j < k ==> !s.Permits(ac, j)
    decreases |s.oids| - i
  {
    if i == |s.oids| || s.Permits(ac, i) then i else FirstPermitted(s, ac, i + 1)
  }

  /** The answer to one GETNEXT. */
  function Next(s: Snapshot, ac: Access, name: Oid): VarBind
    requires s.Aligned()
  {
    var k := FirstPermitted(s, ac, After(s, name));
    if k < |s.oids| then s.Row(k) else EndOfMibView(name)
  }

  /** Row i holds the least readable OID above `name`. */
  ghost predicate IsSuccessor(s: Snapshot, ac: Access, name: Oid, i: nat)
    requires s.Valid() && i < |s.oids|
  {
    && ac(s.oids[i], s.vals[i])
    && Lt(name, s.oids[i])
    && forall j :: 0 <= j < |s.oids| && ac(s.oids[j], s.vals[j]) && Lt(name, s.oids[j]) ==> Le(s.oids[i], s.oids[j])
  }

  /** GETNEXT answers with the least readable OID above the one asked and the value beside it, and with
      endOfMibView exactly when there is none. */
  lemma NextIsLeastAbove(s: Snapshot, ac: Access, name: Oid)
    requires s.Valid()
    ensures Next(s, ac, name).EndOfMibView? ==>
              && Next(s, ac, name).name == name
              && forall j :: 0 <= j < |s.oids| && ac(s.oids[j], s.vals[j]) ==> !Lt(name, s.oids[j])
    ensures !Next(s, ac, name).EndOfMibView? ==>
              exists i :: 0 <= i < |s.oids| && IsSuccessor(s, ac, name, i)
                          && Next(s, ac, name) == Bound(s.oids[i], s.vals[i])
  {
    AfterIsBorder(s, name);
    var i := After(s, name);
    var k := FirstPermitted(s, ac, i);
    forall j | 0 <= j < |s.oids| ensures s.Permits(ac, j) <==> ac(s.oids[j], s.vals[j]) {
    }
    if k < |s.oids| {
      assert Next(s, ac, name) == Bound(s.oids[k], s.vals[k]) && IsSuccessor(s, ac, name, k);
    }
  }

  /** k successive GETNEXTs, each from the name the one before it answered with. */
  function Chain(s: Snapshot, ac: Access, name: Oid, k: nat): (answers: seq<VarBind>)
    requires s.Aligned()
    ensures |answers| == k
    decreases k
  {
    if k == 0 then [] else
    var v := Next(s, ac, name);
    [v] + Chain(s, ac, v.name, k - 1)
  }

  predicate InRange(s: Snapshot, ks: seq<nat>) {
    forall a :: 0 <= a < |ks| ==> ks[a] < |s.oids|
  }

  /** The rows at or past i that may be read, in order. */
  function PermittedFrom(s: Snapshot, ac: Access, i: nat): (ks: seq<nat>)
    requires s.Aligned() && i <= |s.oids|
    ensures InRange(s, ks)
    decreases |s.oids| - i
  {
    if i == |s.oids| then []
    else if s.Permits(ac, i) then [i] + PermittedFrom(s, ac, i + 1)
    else PermittedFrom(s, ac, i + 1)
  }

  /** PermittedFrom lists exactly the readable rows at or past i, in increasing order. */
  lemma {:induction false} PermittedFromIsExact(s: Snapshot, ac: Access, i: nat)
    requires s.Aligned() && i <= |s.oids|
    ensures forall k :: k in PermittedFrom(s, ac, i) <==> i <= k < |s.oids| && s.Permits(ac, k)
    ensures forall a, b :: 0 <= a < b < |PermittedFrom(s, ac, i)| ==>
              PermittedFrom(s, ac, i)[a] < PermittedFrom(s, ac, i)[b]
    decreases |s.oids| - i
  {
    if i < |s.oids| {
      PermittedFromIsExact(s, ac, i + 1);
      var rest := PermittedFrom(s, ac, i + 1);
      assert forall a :: 0 <= a < |rest| ==> rest[a] in rest;
    }
  }

  function Rows(s: Snapshot, ks: seq<nat>): (rows: seq<Binding>)
    requires s.Aligned() && InRange(s, ks)
    ensures |rows| == |ks|
  {
    seq(|ks|, i requires 0 <= i < |ks| => s.Row(ks[i]))
  }

  lemma RowsCons(s: Snapshot, k: nat, ks: seq<nat>)
    requires s.Aligned() && k < |s.oids| && InRange(s, ks)
    ensures InRange(s, [k] + ks) && Rows(s, [k] + ks) == [s.Row(k)] + Rows(s, ks)
  {
  }

  lemma {:induction false} PermittedFromFirst(s: Snapshot, ac: Access, i: nat)
    requires s.Aligned() && i <= |s.oids|
    ensures var k := FirstPermitted(s, ac, i);
            PermittedFrom(s, ac, i) == if k == |s.oids| then [] else [k] + PermittedFrom(s, ac, k + 1)
    decreases |s.oids| - i
  {
    if i < |s.oids| && !s.Permits(ac, i) {
      PermittedFromFirst(s, ac, i + 1);
    }
  }

  /** Iterated GETNEXT visits exactly the readable rows above the start, in order. */
  lemma {:induction false} ChainVisitsPermitted(s: Snapshot, ac: Access, name: Oid, m: nat)
    requires s.Valid()
    requires m <= |PermittedFrom(s, ac, After(s, name))|
    ensures Chain(s, ac, name, m) == Rows(s, PermittedFrom(s, ac, After(s, name))[..m])
    decreases m
  {
    if m > 0 {
      var i := After(s, name);
      PermittedFromFirst(s, ac, i);
      var k := FirstPermitted(s, ac, i);
      AfterRow(s, k);
      ChainVisitsPermitted(s, ac, s.oids[k], m - 1);
      var rest := PermittedFrom(s, ac, k + 1);
      RowsCons(s, k, rest[..m - 1]);
      assert ([k] + rest)[..m] == [k] + rest[..m - 1];
    }
  }

  /** Once a chain of GETNEXTs has met the end of the view it stays there. */
  lemma {:induction false} EndIsAbsorbing(s: Snapshot, ac: Access, name: Oid, m: nat, i: nat, j: nat)
    requires s.Valid() && i <= j < m
    requires Chain(s, ac, name, m)[i].EndOfMibView?
    ensures Chain(s, ac, name, m)[j] == Chain(s, ac, name, m)[i]
    decreases m
  {
    var v := Next(s, ac, name);
    if i > 0 {
      EndIsAbsorbing(s, ac, v.name, m - 1, i - 1, j - 1);
    } else if j > 0 {
      NextIsLeastAbove(s, ac, name);
      EndIsAbsorbing(s, ac, name, m - 1, 0, j - 1);
    }
  }

  /** A longer chain is a shorter one followed by the chain from where it stopped. */
  lemma {:induction false} ChainSplits(s: Snapshot, ac: Access, name: Oid, a: nat, b: nat)
    requires s.Aligned() && a > 0
    ensures Chain(s, ac, name, a + b) ==
            Chain(s, ac, name, a) + Chain(s, ac, Chain(s, ac, name, a)[a - 1].name, b)
    decreases a
  {
    hide Next;
    var v := Next(s, ac, name);
    if a > 1 {
      ChainSplits(s, ac, v.name, a - 1, b);
      var head, tail := Chain(s, ac, v.name, a - 1), Chain(s, ac, Chain(s, ac, v.name, a - 1)[a - 2].name, b);
      assert [v] + (head + tail) == ([v] + head) + tail;
    } else {
      assert Chain(s, ac, v.name, 0) == [];
    }
  }

  lemma ChainsJoin(s: Snapshot, ac: Access, name: Oid, front: seq<VarBind>, back: seq<VarBind>)
    requires s.Aligned() && |front| > 0
    requires front == Chain(s, ac, name, |front|)
    requires back == Chain(s, ac, front[|front| - 1].name, |back|)
    ensures front + back == Chain(s, ac, name, |front + back|)
  {
    ChainSplits(s, ac, name, |front|, |back|);
  }

  // -------------------------------------------------------------- the slice

  /** The rows a slice takes from index i on, when `used` bytes are already spent and `first` says
      that nothing has been taken yet. */
  function Take(s: Snapshot, ac: Access, i: nat, count: int, used: nat, bytes: int, first: bool): (ks: seq<nat>)
    requires s.Aligned() && i <= |s.oids|
    ensures InRange(s, ks)
    decreases |s.oids| - i
  {
    if i == |s.oids| || count <= 0 then []
    else if !s.Permits(ac, i) then Take(s, ac, i + 1, count, used, bytes, first)
    else if !first && used + s.Size(i) > bytes then []
    else [i] + Take(s, ac, i + 1, count - 1, used + s.Size(i), bytes, false)
  }

  /** One step of the slice loop moves a row from what is still to be taken to what was taken. */
  lemma TakeStep(s: Snapshot, ac: Access, ks: seq<nat>, i: nat, count: int, used: nat, bytes: int, first: bool)
    requires s.Aligned() && InRange(s, ks) && i < |s.oids| && count > 0 && s.Permits(ac, i)
    requires first || used + s.Size(i) <= bytes
    ensures (ks + [i]) + Take(s, ac, i + 1, count - 1, used + s.Size(i), bytes, false) ==
            ks + Take(s, ac, i, count, used, bytes, first)
    ensures Rows(s, ks + [i]) == Rows(s, ks) + [s.Row(i)]
  {
    var rest := Take(s, ac, i + 1, count - 1, used + s.Size(i), bytes, false);
    assert ks + ([i] + rest) == (ks + [i]) + rest;
  }

  /** When the slice loop stops: nothing more is taken. */
  lemma TakeStops(s: Snapshot, ac: Access, i: nat, count: int, used: nat, bytes: int, first: bool)
    requires s.Aligned() && i <= |s.oids|
    requires i == |s.oids| || count <= 0 || (s.Permits(ac, i) && !first && used + s.Size(i) > bytes)
    ensures Take(s, ac, i, count, used, bytes, first) == []
  {
  }

  /** The answer to one budgeted GETBULK slice. */
  function Slice(s: Snapshot, ac: Access, name: Oid, count: int, bytes: int): (answer: seq<VarBind>)
    requires s.Aligned()
    ensures |answer| > 0
  {
    var ks := Take(s, ac, After(s, name), count, 0, bytes, true);
    if ks == [] then [EndOfMibView(name)] else Rows(s, ks)
  }

  function Used(s: Snapshot, ks: seq<nat>): nat
    requires s.Aligned() && InRange(s, ks)
  {
    if ks == [] then 0 else s.Size(ks[0]) + Used(s, ks[1..])
  }

  /** A run of `m` rows may go into one slice: it respects the count, and the bytes unless it is
      a single row and nothing came before it. */
  predicate Fits(s: Snapshot, ks: seq<nat>, m: nat, count: int, used: nat, bytes: int, first: bool)
    requires s.Aligned() && m <= |ks| && InRange(s, ks)
  {
    m <= count && (m == 0 || (first && m == 1) || used + Used(s, ks[..m]) <= bytes)
  }

  /** How many of the rows `ks` one slice takes. */
  function Cut(s: Snapshot, ks: seq<nat>, count: int, used: nat, bytes: int, first: bool): (m: nat)
    requires s.Aligned() && InRange(s, ks)
    ensures m <= |ks|
  {
    if ks == [] || count <= 0 || (!first && used + s.Size(ks[0]) > bytes) then 0
    else 1 + Cut(s, ks[1..], count - 1, used + s.Size(ks[0]), bytes, false)
  }

  /** A slice is a cut through the readable rows. */
  lemma {:induction false} TakeIsCut(s: Snapshot, ac: Access, i: nat, count: int, used: nat, bytes: int, first: bool)
    requires s.Aligned() && i <= |s.oids|
    ensures Take(s, ac, i, count, used, bytes, first) ==
            PermittedFrom(s, ac, i)[..Cut(s, PermittedFrom(s, ac, i), count, used, bytes, first)]
    decreases |s.oids| - i
  {
    if i == |s.oids| || count <= 0 {
    } else if !s.Permits(ac, i) {
      TakeIsCut(s, ac, i + 1, count, used, bytes, first);
    } else if first || used + s.Size(i) <= bytes {
      TakeIsCut(s, ac, i + 1, count - 1, used + s.Size(i), bytes, false);
      var rest := PermittedFrom(s, ac, i + 1);
      var m := Cut(s, rest, count - 1, used + s.Size(i), bytes, false);
      assert ([i] + rest)[1..] == rest;
      assert Cut(s, [i] + rest, count, used, bytes, first) == m + 1;
      assert ([i] + rest)[..m + 1] == [i] + rest[..m];
    }
  }

  lemma UsedStep(s: Snapshot, ks: seq<nat>, m: nat)
    requires s.Aligned() && InRange(s, ks) && 1 <= m <= |ks|
    ensures Used(s, ks[..m]) == s.Size(ks[0]) + Used(s, ks[1..][..m - 1])
  {
    assert ks[..m][1..] == ks[1..][..m - 1];
  }

  /** The cut fits, and no longer run does: a run fits exactly when it is no longer than the cut. */
  lemma {:induction false} CutIsLongest(
    s: Snapshot, ks: seq<nat>, m: nat, count: int, used: nat, bytes: int, first: bool)
    requires s.Aligned() && InRange(s, ks) && m <= |ks| && 0 <= count
    ensures Fits(s, ks, m, count, used, bytes, first) <==> m <= Cut(s, ks, count, used, bytes, first)
    decreases |ks|
  {
    if m > 0 {
      UsedStep(s, ks, m);
      if count > 0 {
        CutIsLongest(s, ks[1..], m - 1, count - 1, used + s.Size(ks[0]), bytes, false);
      }
    }
  }

  /** A slice is the longest run of readable rows that fits the count and the bytes; at least one
      row when there is one and the count allows it. */
  lemma SliceIsLongestRun(s: Snapshot, ac: Access, name: Oid, count: int, bytes: int, m: nat)
    requires s.Valid() && count >= 1
    requires m <= |PermittedFrom(s, ac, After(s, name))|
    ensures var ks := PermittedFrom(s, ac, After(s, name));
            var taken := Take(s, ac, After(s, name), count, 0, bytes, true);
            && taken <= ks
            && (taken == [] <==> ks == [])
            && (Fits(s, ks, m, count, 0, bytes, true) <==> m <= |taken|)
  {
    var ks := PermittedFrom(s, ac, After(s, name));
    TakeIsCut(s, ac, After(s, name), count, 0, bytes, true);
    CutIsLongest(s, ks, m, count, 0, bytes, true);
  }

  /** A slice is a run of successive GETNEXTs. */
  lemma SliceIsChain(s: Snapshot, ac: Access, name: Oid, count: int, bytes: int)
    requires s.Valid() && count >= 1
    ensures Slice(s, ac, name, count, bytes) == Chain(s, ac, name, |Slice(s, ac, name, count, bytes)|)
  {
    AfterIsBorder(s, name);
    var i := After(s, name);
    var taken := Take(s, ac, i, count, 0, bytes, true);
    SliceIsLongestRun(s, ac, name, count, bytes, 0);
    if taken == [] {
      PermittedFromFirst(s, ac, i);
      assert Chain(s, ac, name, 1) == [Next(s, ac, name)];
    } else {
      ChainVisitsPermitted(s, ac, name, |taken|);
    }
  }

  /** A slice answers endOfMibView exactly when no readable row lies above the name, or when it was
      asked for no rows at all. */
  lemma SliceEndsIff(s: Snapshot, ac: Access, name: Oid, count: int, bytes: int)
    requires s.Valid()
    ensures Slice(s, ac, name, count, bytes) == [EndOfMibView(name)] <==>
            count <= 0 || forall j :: 0 <= j < |s.oids| && s.Permits(ac, j) ==> !Lt(name, s.oids[j])
    ensures Slice(s, ac, name, count, bytes)[0].EndOfMibView? ==>
              Slice(s, ac, name, count, bytes) == [EndOfMibView(name)]
  {
    AfterIsBorder(s, name);
    var ks := PermittedFrom(s, ac, After(s, name));
    if count > 0 {
      SliceIsLongestRun(s, ac, name, count, bytes, 0);
      PermittedFromIsExact(s, ac, After(s, name));
      if ks == [] {
        assert forall j :: 0 <= j < |s.oids| && s.Permits(ac, j) ==> j !in ks && j < After(s, name);
      } else {
        assert ks[0] in ks;
        assert Slice(s, ac, name, count, bytes)[0] == s.Row(ks[0]);
      }
    }
  }

  /** A zero count hides the rest of the MIB: with one row and no repetitions asked for, the slice
      answers endOfMibView although the row lies above the name. */
  lemma ZeroCountHidesRows()
    ensures var s := Snapshot([[1, 3]], [Integer(7)], []);
            && s.Valid()
            && Slice(s, ReadAll, [1], 0, 1160) == [EndOfMibView([1])]
            && Next(s, ReadAll, [1]) == Bound([1, 3], Integer(7))
  {
    var s := Snapshot([[1, 3]], [Integer(7)], []);
    assert s.Valid();
    assert Lt([1], [1, 3]) by { assert [1, 3][1..] == [3] && [1][1..] == []; }
    AfterIsBorder(s, [1]);
  }

  // --------------------------------------------------------- successive slices

  datatype Page = Page(count: int, bytes: int)

  /** The answers of successive slices of one snapshot, each from the last name of the one before. */
  function Pages(s: Snapshot, ac: Access, name: Oid, pages: seq<Page>): seq<VarBind>
    requires s.Aligned()
    decreases |pages|
  {
    if pages == [] then [] else
    var answer := Slice(s, ac, name, pages[0].count, pages[0].bytes);
    answer + Pages(s, ac, answer[|answer| - 1].name, pages[1..])
  }

  /** However a walk of one snapshot is cut into slices, the answers are those of iterated GETNEXT. */
  lemma {:induction false} PagesAreIteratedNext(s: Snapshot, ac: Access, name: Oid, pages: seq<Page>)
    requires s.Valid() && forall i :: 0 <= i < |pages| ==> pages[i].count >= 1
    ensures Pages(s, ac, name, pages) == Chain(s, ac, name, |Pages(s, ac, name, pages)|)
    decreases |pages|
  {
    if pages != [] {
      var answer := Slice(s, ac, name, pages[0].count, pages[0].bytes);
      var last := answer[|answer| - 1].name;
      var rest := Pages(s, ac, last, pages[1..]);
      assert answer == Chain(s, ac, name, |answer|) by {
        SliceIsChain(s, ac, name, pages[0].count, pages[0].bytes);
      }
      assert rest == Chain(s, ac, last, |rest|) by {
        PagesAreIteratedNext(s, ac, last, pages[1..]);
      }
      ChainsJoin(s, ac, name, answer, rest);
    }
  }

  // ------------------------------------------------------------------- without sizes

  lemma {:induction false} UnsizedUse(s: Snapshot, ks: seq<nat>)
    requires s.Aligned() && InRange(s, ks) && s.sizes == []
    ensures Used(s, ks) == 64 * |ks|
  {
    if ks != [] {
      UnsizedUse(s, ks[1..]);
    }
  }

  lemma SizedUse(s: Snapshot, k: nat)
    requires s.Aligned() && k < |s.oids| && s.sizes != []
    ensures Used(s, [k]) == s.sizes[k]
  {
    assert Used(s, [k][1..]) == 0;
  }

  /** A snapshot without sizes counts 64 bytes a row: a slice holds as many readable rows as the count and
      a 64th of the bytes allow, and one in any case. */
  lemma UnsizedSlice(s: Snapshot, ac: Access, name: Oid, count: int, bytes: nat)
    requires s.Valid() && s.sizes == [] && count >= 1
    ensures var ks := PermittedFrom(s, ac, After(s, name));
            |Take(s, ac, After(s, name), count, 0, bytes, true)| == Min(Min(|ks|, count), Max(1, bytes / 64))
  {
    var ks, taken := PermittedFrom(s, ac, After(s, name)), Take(s, ac, After(s, name), count, 0, bytes, true);
    var m := Min(Min(|ks|, count), Max(1, bytes / 64));
    SliceIsLongestRun(s, ac, name, count, bytes, m);
    SliceIsLongestRun(s, ac, name, count, bytes, |taken|);
    UnsizedUse(s, ks[..m]);
    UnsizedUse(s, ks[..|taken|]);
  }
}
