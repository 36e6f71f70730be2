/** A manager's whole walk: repeated GETBULK slices, while the snapshot is replaced between them. */
module Walk {
  import opened Oids
  import opened Values
  import opened Mib

  /** One request of the walk: whatever snapshot and view are in force when it is served, and
      whatever count and byte budget it is served with. */
  datatype Request = Request(snap: Snapshot, ac: Access, count: int, bytes: int)

  predicate Aligned(reqs: seq<Request>) {
    forall i :: 0 <= i < |reqs| ==> reqs[i].snap.Aligned()
  }

  ghost predicate Servable(reqs: seq<Request>) {
    forall i :: 0 <= i < |reqs| ==> reqs[i].snap.Valid() && reqs[i].count >= 1
  }

  /** What the walk has produced: its rows, the name it would ask next, whether it met
      endOfMibView, and how many requests that took. */
  datatype Outcome = Outcome(rows: seq<VarBind>, cursor: Oid, ended: bool, served: nat)

  function Answer(req: Request, name: Oid): (answer: seq<VarBind>)
    requires req.snap.Aligned()
    ensures |answer| > 0
  {
    Slice(req.snap, req.ac, name, req.count, req.bytes)
  }

  function Last(answer: seq<VarBind>): Oid
    requires |answer| > 0
  {
    answer[|answer| - 1].name
  }

  /** The manager asks from the last name it was given, until it is told that the view ends. */
  function Run(name: Oid, reqs: seq<Request>): (o: Outcome)
    requires Aligned(reqs)
    ensures o.served <= |reqs|
    ensures !o.ended ==> o.served == |reqs|
    decreases |reqs|
  {
    if reqs == [] then Outcome([], name, false, 0) else
    var answer := Answer(reqs[0], name);
    if answer[0].EndOfMibView? then Outcome([], name, true, 1) else
    var rest := Run(Last(answer), reqs[1..]);
    Outcome(answer + rest.rows, rest.cursor, rest.ended, rest.served + 1)
  }

  /** The request is served from a snapshot in which the OID has a readable row. */
  ghost predicate Offers(req: Request, oid: Oid) {
    req.snap.Aligned() && exists i :: 0 <= i < |req.snap.oids| && req.snap.oids[i] == oid && req.snap.Permits(req.ac, i)
  }

  ghost predicate Names(rows: seq<VarBind>, oid: Oid) {
    exists k :: 0 <= k < |rows| && rows[k].name == oid
  }

  ghost predicate Ascending(rows: seq<VarBind>) {
    forall i, j :: 0 <= i < j < |rows| ==> Lt(rows[i].name, rows[j].name)
  }

  /** The rows one answer is made of: a non-empty run at the head of the readable rows above the
      name asked, or none, exactly when there are none. */
  lemma AnswerRows(req: Request, name: Oid) returns (ks: seq<nat>, m: nat)
    requires req.snap.Valid() && req.count >= 1
    ensures ks == PermittedFrom(req.snap, req.ac, After(req.snap, name))
    ensures m <= |ks| && (m == 0 <==> ks == [])
    ensures m == 0 <==> Answer(req, name)[0].EndOfMibView?
    ensures m > 0 ==>
              Answer(req, name) == Rows(req.snap, ks[..m]) && Last(Answer(req, name)) == req.snap.oids[ks[m - 1]]
  {
    ks := PermittedFrom(req.snap, req.ac, After(req.snap, name));
    m := |Take(req.snap, req.ac, After(req.snap, name), req.count, 0, req.bytes, true)|;
    SliceIsLongestRun(req.snap, req.ac, name, req.count, req.bytes, 0);
    assert ks[..m] == Take(req.snap, req.ac, After(req.snap, name), req.count, 0, req.bytes, true);
  }

  /** One answer: bound rows in strictly ascending order above the name asked, each of them a
      readable row. */
  lemma AnswerAscends(req: Request, name: Oid)
    requires req.snap.Valid() && req.count >= 1 && !Answer(req, name)[0].EndOfMibView?
    ensures Ascending(Answer(req, name))
    ensures forall k :: 0 <= k < |Answer(req, name)| ==>
              && Answer(req, name)[k].Bound?
              && Lt(name, Answer(req, name)[k].name)
              && Offers(req, Answer(req, name)[k].name)
  {
    var ks, m := AnswerRows(req, name);
    PermittedFromIsExact(req.snap, req.ac, After(req.snap, name));
    AfterIsBorder(req.snap, name);
    var answer := Answer(req, name);
    forall k | 0 <= k < |answer|
      ensures answer[k].Bound? && Lt(name, answer[k].name) && Offers(req, answer[k].name)
    {
      assert answer[k] == req.snap.Row(ks[k]) && ks[k] in ks;
    }
    forall a, b | 0 <= a < b < |answer| ensures Lt(answer[a].name, answer[b].name) {
      assert answer[a] == req.snap.Row(ks[a]) && answer[b] == req.snap.Row(ks[b]);
    }
  }

  /** An offered OID above the name asked has a place among the readable rows. */
  lemma OfferedPlace(req: Request, name: Oid, oid: Oid) returns (p: nat)
    requires req.snap.Valid() && Offers(req, oid) && Lt(name, oid)
    ensures var ks := PermittedFrom(req.snap, req.ac, After(req.snap, name));
            p < |ks| && req.snap.oids[ks[p]] == oid
  {
    var s, i := req.snap, After(req.snap, name);
    PermittedFromIsExact(s, req.ac, i);
    AfterIsBorder(s, name);
    var r :| 0 <= r < |s.oids| && s.oids[r] == oid && s.Permits(req.ac, r);
    var ks := PermittedFrom(s, req.ac, i);
    assert r in ks;
    p :| 0 <= p < |ks| && ks[p] == r;
  }

  /** No readable row between the name asked and the last name answered is left out, and while
      there is a readable row above the name asked the answer is not endOfMibView. */
  lemma AnswerLeavesNoGap(req: Request, name: Oid, oid: Oid)
    requires req.snap.Valid() && req.count >= 1 && Offers(req, oid) && Lt(name, oid)
    ensures !Answer(req, name)[0].EndOfMibView?
    ensures Le(oid, Last(Answer(req, name))) ==> Names(Answer(req, name), oid)
  {
    var p := OfferedPlace(req, name, oid);
    var ks, m := AnswerRows(req, name);
    if p < m {
      assert Answer(req, name)[p].name == oid;
    } else {
      PermittedFromIsExact(req.snap, req.ac, After(req.snap, name));
      assert ks[m - 1] < ks[p];
      assert Lt(req.snap.oids[ks[m - 1]], oid);
      LtAsymmetric(req.snap.oids[ks[m - 1]], oid);
    }
  }

  /** Over any run of requests, whatever snapshots they are served from: strictly ascending OIDs,
      all above the start and none above the cursor, so no OID is ever returned twice. */
  lemma {:induction false} WalkAscends(name: Oid, reqs: seq<Request>)
    requires Servable(reqs)
    ensures Ascending(Run(name, reqs).rows)
    ensures Le(name, Run(name, reqs).cursor)
    ensures forall k :: 0 <= k < |Run(name, reqs).rows| ==>
              Lt(name, Run(name, reqs).rows[k].name) && Le(Run(name, reqs).rows[k].name, Run(name, reqs).cursor)
    decreases |reqs|
  {
    hide Answer;
    if reqs != [] {
      var answer := Answer(reqs[0], name);
      if !answer[0].EndOfMibView? {
        AnswerAscends(reqs[0], name);
        var last := Last(answer);
        WalkAscends(last, reqs[1..]);
        var rest := Run(last, reqs[1..]);
        forall k | 0 <= k < |rest.rows| ensures Lt(name, rest.rows[k].name) {
          LtTransitive(name, last, rest.rows[k].name);
        }
        forall k | 0 <= k < |answer| ensures Le(answer[k].name, last) && Le(answer[k].name, rest.cursor) {
          if answer[k].name != last && last != rest.cursor {
            LtTransitive(answer[k].name, last, rest.cursor);
          }
        }
        forall a, b | 0 <= a < |answer| && 0 <= b < |rest.rows| ensures Lt(answer[a].name, rest.rows[b].name) {
          LeLtTransitive(answer[a].name, last, rest.rows[b].name);
        }
        if last != rest.cursor {
          LtTransitive(name, last, rest.cursor);
        }
      }
    }
  }

  /** Each varbind of an answer that does not end the walk is a readable row of its snapshot. */
  lemma AnswerIsRow(req: Request, name: Oid, k: nat) returns (row: nat)
    requires req.snap.Valid() && req.count >= 1
    requires !Answer(req, name)[0].EndOfMibView? && k < |Answer(req, name)|
    ensures row < |req.snap.oids| && req.snap.Permits(req.ac, row) && Answer(req, name)[k] == req.snap.Row(row)
  {
    var ks, m := AnswerRows(req, name);
    PermittedFromIsExact(req.snap, req.ac, After(req.snap, name));
    row := ks[k];
    assert row in ks;
  }

  /** Every varbind returned is a readable row, name and value, of a snapshot that was served. */
  lemma {:induction false} WalkIsSound(name: Oid, reqs: seq<Request>, k: nat) returns (i: nat, row: nat)
    requires Servable(reqs) && k < |Run(name, reqs).rows|
    ensures i < Run(name, reqs).served && row < |reqs[i].snap.oids|
    ensures reqs[i].snap.Permits(reqs[i].ac, row) && Run(name, reqs).rows[k] == reqs[i].snap.Row(row)
    decreases |reqs|
  {
    hide Answer;
    var answer := Answer(reqs[0], name);
    if k < |answer| {
      i := 0;
      row := AnswerIsRow(reqs[0], name, k);
    } else {
      i, row := WalkIsSound(Last(answer), reqs[1..], k - |answer|);
      i := i + 1;
    }
  }

  /** Every OID past the start that all the snapshots served offer is returned, once the walk has
      ended or has passed it. */
  lemma {:induction false} WalkIsComplete(name: Oid, reqs: seq<Request>, oid: Oid)
    requires Servable(reqs) && Lt(name, oid)
    requires forall i :: 0 <= i < Run(name, reqs).served ==> Offers(reqs[i], oid)
    requires Run(name, reqs).ended || Le(oid, Run(name, reqs).cursor)
    ensures Names(Run(name, reqs).rows, oid)
    decreases |reqs|
  {
    hide Answer;
    if reqs == [] {
      LtAsymmetric(name, oid);
    } else {
      var answer := Answer(reqs[0], name);
      AnswerLeavesNoGap(reqs[0], name, oid);
      var last := Last(answer);
      var rest := Run(last, reqs[1..]);
      if Le(oid, last) {
        var k :| 0 <= k < |answer| && answer[k].name == oid;
        assert Run(name, reqs).rows[k].name == oid;
      } else {
        NotLtIsLe(last, oid);
        forall i | 0 <= i < rest.served ensures Offers(reqs[1..][i], oid) {
          assert Offers(reqs[i + 1], oid);
        }
        WalkIsComplete(last, reqs[1..], oid);
        var k :| 0 <= k < |rest.rows| && rest.rows[k].name == oid;
        assert Run(name, reqs).rows[|answer| + k].name == oid;
      }
    }
  }

  /** Exactly once: two positions of one walk never hold the same OID. */
  lemma WalkReturnsOnce(name: Oid, reqs: seq<Request>, oid: Oid, a: nat, b: nat)
    requires Servable(reqs)
    requires a < |Run(name, reqs).rows| && b < |Run(name, reqs).rows|
    requires Run(name, reqs).rows[a].name == oid == Run(name, reqs).rows[b].name
    ensures a == b
  {
    WalkAscends(name, reqs);
    LtIrreflexive(oid);
  }

  /** Each request that does not end the walk brings at least one row. */
  lemma {:induction false} WalkMakesProgress(name: Oid, reqs: seq<Request>)
    requires Servable(reqs) && !Run(name, reqs).ended
    ensures |Run(name, reqs).rows| >= |reqs|
    decreases |reqs|
  {
    hide Answer;
    if reqs != [] {
      var answer := Answer(reqs[0], name);
      WalkMakesProgress(Last(answer), reqs[1..]);
    }
  }

  /** When all snapshots draw their OIDs from a finite universe, the walk meets endOfMibView after
      at most one request more than the universe has OIDs. */
  lemma WalkTerminates(name: Oid, reqs: seq<Request>, universe: set<Oid>)
    requires Servable(reqs) && |reqs| > |universe|
    requires forall i, o :: 0 <= i < |reqs| && o in reqs[i].snap.oids ==> o in universe
    ensures Run(name, reqs).ended
  {
    var o := Run(name, reqs);
    if !o.ended {
      WalkMakesProgress(name, reqs);
      WalkAscends(name, reqs);
      var oids := seq(|o.rows|, k requires 0 <= k < |o.rows| => o.rows[k].name);
      forall x | x in oids ensures x in universe {
        var k :| 0 <= k < |oids| && oids[k] == x;
        var i, row := WalkIsSound(name, reqs, k);
        assert x == reqs[i].snap.oids[row];
      }
      SortedFitsUniverse(oids, universe);
    }
  }

  /** A walk of one unchanging snapshot ends with exactly the readable rows above its start, in
      order, whatever counts and budgets the requests had. */
  lemma {:induction false} SteadyWalkIsExact(s: Snapshot, ac: Access, name: Oid, reqs: seq<Request>)
    requires s.Valid() && Servable(reqs) && Run(name, reqs).ended
    requires forall i :: 0 <= i < |reqs| ==> reqs[i].snap == s && reqs[i].ac == ac
    ensures Run(name, reqs).rows == Rows(s, PermittedFrom(s, ac, After(s, name)))
    decreases |reqs|
  {
    var ks, m := AnswerRows(reqs[0], name);
    if m > 0 {
      AfterRow(s, ks[m - 1]);
      SteadyWalkIsExact(s, ac, s.oids[ks[m - 1]], reqs[1..]);
      PermittedFromAfter(s, ac, After(s, name), m);
      RowsAppend(s, ks[..m], ks[m..]);
      assert ks[..m] + ks[m..] == ks;
    }
  }

  lemma RowsAppend(s: Snapshot, a: seq<nat>, b: seq<nat>)
    requires s.Aligned() && InRange(s, a) && InRange(s, b)
    ensures InRange(s, a + b) && Rows(s, a + b) == Rows(s, a) + Rows(s, b)
  {
  }

  /** What is readable after the m-th readable row is the rest of the list. */
  lemma {:induction false} PermittedFromAfter(s: Snapshot, ac: Access, i: nat, m: nat)
    requires s.Aligned() && i <= |s.oids| && 1 <= m <= |PermittedFrom(s, ac, i)|
    ensures PermittedFrom(s, ac, i)[m..] == PermittedFrom(s, ac, PermittedFrom(s, ac, i)[m - 1] + 1)
    decreases m
  {
    PermittedFromFirst(s, ac, i);
    var k := FirstPermitted(s, ac, i);
    var rest := PermittedFrom(s, ac, k + 1);
    assert ([k] + rest)[m..] == rest[m - 1..];
    if m > 1 {
      PermittedFromAfter(s, ac, k + 1, m - 1);
    }
  }

  // -------------------------------------------------------- a walk that meets a swap

  /** The readable rows from row i up to, but not including, row j. */
  function PermittedIn(s: Snapshot, ac: Access, i: nat, j: nat): (ks: seq<nat>)
    requires s.Aligned() && i <= j <= |s.oids|
    ensures InRange(s, ks)
    decreases j - i
  {
    if i == j then []
    else if s.Permits(ac, i) then [i] + PermittedIn(s, ac, i + 1, j)
    else PermittedIn(s, ac, i + 1, j)
  }

  lemma {:induction false} PermittedSplits(s: Snapshot, ac: Access, i: nat, j: nat)
    requires s.Aligned() && i <= j <= |s.oids|
    ensures PermittedFrom(s, ac, i) == PermittedIn(s, ac, i, j) + PermittedFrom(s, ac, j)
    decreases j - i
  {
    if i < j {
      PermittedSplits(s, ac, i + 1, j);
    }
  }

  lemma {:induction false} PermittedJoins(s: Snapshot, ac: Access, i: nat, j: nat, l: nat)
    requires s.Aligned() && i <= j <= l <= |s.oids|
    ensures Rows(s, PermittedIn(s, ac, i, j)) + Rows(s, PermittedIn(s, ac, j, l)) == Rows(s, PermittedIn(s, ac, i, l))
    decreases j - i
  {
    if i < j {
      PermittedJoins(s, ac, i + 1, j, l);
      if s.Permits(ac, i) {
        RowsCons(s, i, PermittedIn(s, ac, i + 1, j));
        RowsCons(s, i, PermittedIn(s, ac, i + 1, l));
      }
    }
  }

  /** One answer is all the readable rows from the name asked up to the last name answered. */
  lemma AnswerIsWindow(req: Request, name: Oid)
    requires req.snap.Valid() && req.count >= 1 && !Answer(req, name)[0].EndOfMibView?
    ensures var s, next := req.snap, After(req.snap, Last(Answer(req, name)));
            After(s, name) <= next && Answer(req, name) == Rows(s, PermittedIn(s, req.ac, After(s, name), next))
  {
    var s, i := req.snap, After(req.snap, name);
    var ks, m := AnswerRows(req, name);
    PermittedFromIsExact(s, req.ac, i);
    assert ks[m - 1] in ks;
    AfterRow(s, ks[m - 1]);
    PermittedFromAfter(s, req.ac, i, m);
    PermittedSplits(s, req.ac, i, ks[m - 1] + 1);
    assert ks[..m] == PermittedIn(s, req.ac, i, ks[m - 1] + 1);
  }

  ghost predicate ServedFrom(reqs: seq<Request>, s: Snapshot, ac: Access) {
    forall i :: 0 <= i < |reqs| ==> reqs[i].snap == s && reqs[i].ac == ac
  }

  /** A walk of one snapshot that has not ended yet has returned all the readable rows above its
      start and not above its cursor. */
  lemma {:induction false} SteadyWalkSoFar(s: Snapshot, ac: Access, name: Oid, reqs: seq<Request>)
    requires s.Valid() && Servable(reqs) && ServedFrom(reqs, s, ac) && !Run(name, reqs).ended
    ensures After(s, name) <= After(s, Run(name, reqs).cursor)
    ensures Run(name, reqs).rows == Rows(s, PermittedIn(s, ac, After(s, name), After(s, Run(name, reqs).cursor)))
    decreases |reqs|
  {
    hide Answer;
    if reqs != [] {
      var answer := Answer(reqs[0], name);
      AnswerIsWindow(reqs[0], name);
      SteadyWalkSoFar(s, ac, Last(answer), reqs[1..]);
      PermittedJoins(s, ac, After(s, name), After(s, Last(answer)), After(s, Run(name, reqs).cursor));
    }
  }

  lemma {:induction false} RunSplits(name: Oid, first: seq<Request>, later: seq<Request>)
    requires Aligned(first) && Aligned(later) && !Run(name, first).ended
    ensures Run(name, first + later).rows == Run(name, first).rows + Run(Run(name, first).cursor, later).rows
    ensures Run(name, first + later).ended == Run(Run(name, first).cursor, later).ended
    decreases |first|
  {
    hide Answer;
    if first == [] {
      assert first + later == later;
    } else {
      assert (first + later)[1..] == first[1..] + later;
      RunSplits(Last(Answer(first[0], name)), first[1..], later);
    }
  }

  /** A walk during which the snapshot is replaced once returns the old snapshot's rows up to the
      cursor at the swap and the new snapshot's rows after it. */
  lemma SwapSplicesWalk(
    name: Oid, first: seq<Request>, s1: Snapshot, ac1: Access, later: seq<Request>, s2: Snapshot, ac2: Access)
    requires s1.Valid() && Servable(first) && ServedFrom(first, s1, ac1) && !Run(name, first).ended
    requires s2.Valid() && Servable(later) && ServedFrom(later, s2, ac2) && Run(name, first + later).ended
    ensures var c := Run(name, first).cursor;
            After(s1, name) <= After(s1, c) &&
            Run(name, first + later).rows ==
              Rows(s1, PermittedIn(s1, ac1, After(s1, name), After(s1, c)))
              + Rows(s2, PermittedFrom(s2, ac2, After(s2, c)))
  {
    RunSplits(name, first, later);
    SteadyWalkSoFar(s1, ac1, name, first);
    SteadyWalkIsExact(s2, ac2, Run(name, first).cursor, later);
  }

  /** So the walk is that of the old snapshot exactly when the two snapshots have the same readable
      rows above the cursor at the swap. */
  lemma SwapIsInvisibleIff(
    name: Oid, first: seq<Request>, s1: Snapshot, ac1: Access, later: seq<Request>, s2: Snapshot, ac2: Access)
    requires s1.Valid() && Servable(first) && ServedFrom(first, s1, ac1) && !Run(name, first).ended
    requires s2.Valid() && Servable(later) && ServedFrom(later, s2, ac2) && Run(name, first + later).ended
    ensures var c := Run(name, first).cursor;
            Run(name, first + later).rows == Rows(s1, PermittedFrom(s1, ac1, After(s1, name))) <==>
            Rows(s1, PermittedFrom(s1, ac1, After(s1, c))) == Rows(s2, PermittedFrom(s2, ac2, After(s2, c)))
  {
    hide Run, PermittedIn, PermittedFrom, After;
    var c := Run(name, first).cursor;
    SwapSplicesWalk(name, first, s1, ac1, later, s2, ac2);
    var old1, new2 := PermittedFrom(s1, ac1, After(s1, c)), PermittedFrom(s2, ac2, After(s2, c));
    var head := PermittedIn(s1, ac1, After(s1, name), After(s1, c));
    assert PermittedFrom(s1, ac1, After(s1, name)) == head + old1 by {
      PermittedSplits(s1, ac1, After(s1, name), After(s1, c));
    }
    RowsAppend(s1, head, old1);
    SameTail(Rows(s1, head), Rows(s1, old1), Rows(s2, new2));
  }

  lemma SameTail(head: seq<VarBind>, a: seq<VarBind>, b: seq<VarBind>)
    ensures head + a == head + b <==> a == b
  {
    assert (head + a)[|head|..] == a && (head + b)[|head|..] == b;
  }

  lemma TwoRows(a: int, b: int) returns (s: Snapshot)
    ensures s == Snapshot([[1], [2]], [Integer(a), Integer(b)], []) && s.Valid()
    ensures After(s, []) == 0 && After(s, [1]) == 1 && After(s, [2]) == 2
  {
    s := Snapshot([[1], [2]], [Integer(a), Integer(b)], []);
    assert Lt([1], [2]) && Lt([], [1]);
    AfterIsBorder(s, []);
    AfterRow(s, 0);
    AfterRow(s, 1);
  }

  /** A concrete walk, one row a request: replaced after its first answer, the snapshot [1] = 7, [2] = 8
      becomes [1] = 9, [2] = 10, and the walk returns 7 and 10, which is in neither of them. */
  lemma WalkMixesSnapshots()
    ensures var s1 := Snapshot([[1], [2]], [Integer(7), Integer(8)], []);
            var s2 := Snapshot([[1], [2]], [Integer(9), Integer(10)], []);
            var a, b := Request(s1, ReadAll, 1, 1160), Request(s2, ReadAll, 1, 1160);
            Run([], [a, b, b]) == Outcome([Bound([1], Integer(7)), Bound([2], Integer(10))], [2], true, 3)
  {
    var s1 := TwoRows(7, 8);
    var s2 := TwoRows(9, 10);
    var a, b := Request(s1, ReadAll, 1, 1160), Request(s2, ReadAll, 1, 1160);
    assert Answer(a, []) == [s1.Row(0)] && Answer(b, [1]) == [s2.Row(1)] && Answer(b, [2]) == [EndOfMibView([2])];
    hide Answer;
    assert [a, b, b][1..] == [b, b] && [b, b][1..] == [b];
    assert Run([2], [b]) == Outcome([], [2], true, 1);
    assert Run([1], [b, b]) == Outcome([s2.Row(1)], [2], true, 2);
  }
}
