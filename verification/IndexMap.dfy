/** ifIndex assignment: an index is handed out once per adapter LUID and persisted. */
module IndexMap {
  import opened Common
  import opened AtomicStore
  import Sorting

  type Luid = nat

  datatype Assignments = Assignments(interfaces: map<Luid, nat>, next: nat)

  /** An adapter row as the operating system reports it; a connection type of 2 is Passive. */
  datatype Row = Row(luid: Luid, hardware: bool, filtering: bool, loopback: bool, connectionType: nat)

  datatype Served = Served(luid: Luid, index: nat)

  predicate Emitted(r: Row) {
    r.hardware && !r.filtering && !r.loopback && r.connectionType != 2
  }

  /** A usable index map. */
  function ReadMap(m: Assignments): Option<Assignments> {
    Some(m)
  }

  function Loaded(d: Disk<Assignments>): Assignments {
    var r := Load(d, ReadMap);
    if r.Some? then r.value else Assignments(map[], 1)
  }

  /** The map after giving the adapter an index, if it has none. */
  function Assign(m: Assignments, r: Row): Assignments {
    if Emitted(r) && r.luid !in m.interfaces then
      Assignments(m.interfaces[r.luid := m.next], m.next + 1)
    else m
  }

  function AssignAll(m: Assignments, rows: seq<Row>): Assignments
    decreases |rows|
  {
    if rows == [] then m else AssignAll(Assign(m, rows[0]), rows[1..])
  }

  /** The indices served, in the order of the rows. */
  function ServedRows(m: Assignments, rows: seq<Row>): seq<Served>
    decreases |rows|
  {
    if rows == [] then [] else
    var m' := Assign(m, rows[0]);
    (if Emitted(rows[0]) then [Served(rows[0].luid, m'.interfaces[rows[0].luid])] else []) + ServedRows(m', rows[1..])
  }

  predicate LowerIndex(a: Served, b: Served) {
    a.index < b.index
  }

  /** The stable sort by index. */
  function SortByIndex(out: seq<Served>): seq<Served> {
    Sorting.Sort(LowerIndex, out)
  }

  ghost predicate InIndexOrder(out: seq<Served>) {
    forall i, j :: 0 <= i < j < |out| ==> out[i].index <= out[j].index
  }

  /** The final sort orders what is served by index, and loses and invents nothing. */
  lemma SortSorts(out: seq<Served>)
    ensures InIndexOrder(SortByIndex(out)) && multiset(SortByIndex(out)) == multiset(out)
    ensures var sorted := SortByIndex(out);
            forall i, j :: 0 <= i < j < |sorted| ==> sorted[i].index <= sorted[j].index
  {
    Sorting.SortSorts(LowerIndex, out);
    var sorted := SortByIndex(out);
    forall i, j | 0 <= i < j < |sorted| ensures sorted[i].index <= sorted[j].index {
      assert !LowerIndex(sorted[j], sorted[i]);
    }
  }

  /** One enumeration: load, assign, save when something changed, serve. The process may die during
      the save (`steps`), and a save that fails half-way may also be survived. */
  method GetInterfaces(file: StateFile<Assignments>, rows: seq<Row>, steps: nat, bakOk: bool)
    returns (out: seq<Served>)
    modifies file
    ensures var m := Loaded(old(file.disk));
            var m' := AssignAll(m, rows);
            && out == SortByIndex(ServedRows(m, rows))
            && InIndexOrder(out) && multiset(out) == multiset(ServedRows(m, rows))
            && file.disk == if m' == m then old(file.disk) else AfterSteps(old(file.disk), m', steps, bakOk)
  {
    hide SortByIndex, InIndexOrder;
    var found := file.LoadState(ReadMap);
    var current := if found.Some? then found.value else Assignments(map[], 1);
    ghost var m := current;
    var changed := false;
    out := [];
    for k := 0 to |rows|
      invariant AssignAll(current, rows[k..]) == AssignAll(m, rows)
      invariant out + ServedRows(current, rows[k..]) == ServedRows(m, rows)
      invariant changed <==> current != m
      invariant current.next >= m.next && (current.next == m.next ==> current == m)
    {
      assert rows[k..][1..] == rows[k + 1..];
      ghost var before := out;
      if Emitted(rows[k]) {
        if rows[k].luid !in current.interfaces {
          current := Assignments(current.interfaces[rows[k].luid := current.next], current.next + 1);
          changed := true;
        }
        out := out + [Served(rows[k].luid, current.interfaces[rows[k].luid])];
      }
      ghost var rest := ServedRows(current, rows[k + 1..]);
      assert before + (out[|before|..] + rest) == out + rest;
    }
    assert rows[|rows|..] == [] && out + [] == out;
    if changed {
      var _ := file.Save(current, steps, bakOk);
    }
    SortSorts(out);
    out := SortByIndex(out);
  }

  // ---------------------------------------------------------------- one enumeration

  /** No two adapters share an index, and the next index is above all of them. */
  ghost predicate WellFormed(m: Assignments) {
    && (forall a :: a in m.interfaces ==> m.interfaces[a] < m.next)
    && (forall a, b :: a in m.interfaces && b in m.interfaces && m.interfaces[a] == m.interfaces[b] ==> a == b)
  }

  ghost predicate Extends(m: Assignments, m': Assignments) {
    m.next <= m'.next && forall a :: a in m.interfaces ==> a in m'.interfaces && m'.interfaces[a] == m.interfaces[a]
  }

  ghost predicate Records(m: Assignments, p: Served) {
    p.luid in m.interfaces && m.interfaces[p.luid] == p.index
  }

  /** An enumeration, in whatever order, keeps every assignment and records everything it serves;
      and if it changes the map at all, it serves something that was not recorded before. */
  lemma {:induction false} EnumerationExtends(m: Assignments, rows: seq<Row>)
    requires WellFormed(m)
    ensures WellFormed(AssignAll(m, rows)) && Extends(m, AssignAll(m, rows))
    ensures forall p :: p in ServedRows(m, rows) ==> Records(AssignAll(m, rows), p)
    ensures AssignAll(m, rows) != m ==> exists p :: p in ServedRows(m, rows) && !Records(m, p)
    decreases |rows|
  {
    if rows != [] {
      var m' := Assign(m, rows[0]);
      EnumerationExtends(m', rows[1..]);
      if Emitted(rows[0]) {
        var p := Served(rows[0].luid, m'.interfaces[rows[0].luid]);
        assert Records(m', p);
        if m' != m {
          assert p in ServedRows(m, rows) && !Records(m, p);
        }
      }
      if m' == m && AssignAll(m', rows[1..]) != m' {
        var p :| p in ServedRows(m', rows[1..]) && !Records(m', p);
        assert p in ServedRows(m, rows);
      }
    }
  }

  datatype Enumeration = Enumeration(rows: seq<Row>, steps: nat, bakOk: bool, survives: bool)

  function DiskAfter(d: Disk<Assignments>, e: Enumeration): Disk<Assignments> {
    var m := Loaded(d);
    var m' := AssignAll(m, e.rows);
    if m' == m then d else AfterSteps(d, m', e.steps, e.bakOk)
  }

  /** The indices this enumeration gives to managers; a process that died gives none. */
  function ServedBy(d: Disk<Assignments>, e: Enumeration): seq<Served> {
    if e.survives then SortByIndex(ServedRows(Loaded(d), e.rows)) else []
  }

  /** The new assignments, if any, reached the disk. */
  predicate Persisted(d: Disk<Assignments>, e: Enumeration) {
    AssignAll(Loaded(d), e.rows) == Loaded(d) || e.steps >= COMMITTED
  }

  lemma EnumerationLands(d: Disk<Assignments>, e: Enumeration)
    ensures Clean(d, ReadMap) ==> Clean(DiskAfter(d, e), ReadMap)
    ensures e.steps >= COMMITTED ==> Loaded(DiskAfter(d, e)) == AssignAll(Loaded(d), e.rows)
    ensures e.steps < COMMITTED ==> Loaded(DiskAfter(d, e)) in {Loaded(d), Assignments(map[], 1)}
    ensures e.steps < COMMITTED && (Clean(d, ReadMap) || AssignAll(Loaded(d), e.rows) == Loaded(d)) ==>
              Loaded(DiskAfter(d, e)) == Loaded(d)
    ensures e.steps >= COMMITTED && AssignAll(Loaded(d), e.rows) != Loaded(d) ==> Clean(DiskAfter(d, e), ReadMap)
  {
    if Clean(d, ReadMap) {
      SaveIsAtomic(d, AssignAll(Loaded(d), e.rows), e.steps, e.bakOk, ReadMap);
    }
  }

  lemma ServedInAnyOrder(d: Disk<Assignments>, e: Enumeration, p: Served)
    ensures p in ServedBy(d, e) <==> e.survives && p in ServedRows(Loaded(d), e.rows)
  {
    var out := ServedRows(Loaded(d), e.rows);
    SortSorts(out);
    assert p in SortByIndex(out) <==> p in multiset(SortByIndex(out));
    assert p in out <==> p in multiset(out);
  }

  /** Everything an enumeration serves is on record afterwards exactly when its save got through or
      it had nothing new to save. */
  lemma ServedIsRecordedIff(d: Disk<Assignments>, e: Enumeration)
    requires WellFormed(Loaded(d)) && e.survives
    ensures (forall p :: p in ServedBy(d, e) ==> Records(Loaded(DiskAfter(d, e)), p)) <==> Persisted(d, e)
  {
    EnumerationExtends(Loaded(d), e.rows);
    EnumerationLands(d, e);
    forall p ensures p in ServedBy(d, e) <==> p in ServedRows(Loaded(d), e.rows) {
      ServedInAnyOrder(d, e, p);
    }
  }

  // ------------------------------------------------------------------ all of history

  /** A save that fails is never survived: either it completes, or the process dies with it. */
  predicate NoFailureSurvived(d: Disk<Assignments>, es: seq<Enumeration>)
    decreases |es|
  {
    es == [] || ((es[0].survives ==> Persisted(d, es[0])) && NoFailureSurvived(DiskAfter(d, es[0]), es[1..]))
  }

  function AllServed(d: Disk<Assignments>, es: seq<Enumeration>): seq<Served>
    decreases |es|
  {
    if es == [] then [] else ServedBy(d, es[0]) + AllServed(DiskAfter(d, es[0]), es[1..])
  }

  function FinalDisk(d: Disk<Assignments>, es: seq<Enumeration>): Disk<Assignments>
    decreases |es|
  {
    if es == [] then d else FinalDisk(DiskAfter(d, es[0]), es[1..])
  }

  /** Over all history whatever is on record stays there; and unless a failed save is survived,
      whatever is served gets there. */
  lemma {:induction false} HistoryIsRecorded(d: Disk<Assignments>, es: seq<Enumeration>)
    requires Clean(d, ReadMap) && WellFormed(Loaded(d))
    ensures WellFormed(Loaded(FinalDisk(d, es))) && Extends(Loaded(d), Loaded(FinalDisk(d, es)))
    ensures NoFailureSurvived(d, es) ==> forall p :: p in AllServed(d, es) ==> Records(Loaded(FinalDisk(d, es)), p)
    decreases |es|
  {
    if es != [] {
      var next := DiskAfter(d, es[0]);
      EnumerationExtends(Loaded(d), es[0].rows);
      EnumerationLands(d, es[0]);
      HistoryIsRecorded(next, es[1..]);
      if es[0].survives {
        ServedIsRecordedIff(d, es[0]);
      }
      if NoFailureSurvived(d, es) {
        forall p | p in ServedBy(d, es[0]) ensures Records(Loaded(FinalDisk(d, es)), p) {
          assert Records(Loaded(next), p);
        }
      }
    }
  }

  /** The two sides name the same adapters by the same indices. */
  ghost predicate Agree(ps: seq<Served>, qs: seq<Served>) {
    forall p, q :: p in ps && q in qs ==> (p.luid == q.luid <==> p.index == q.index)
  }

  /** No adapter ever changes its index, no two adapters ever share one, and the next index is above
      everything ever served: over any enumeration orders, adapters that come and go, and crashes
      at any step of any save. */
  lemma IndicesAreConsistentForever(d: Disk<Assignments>, es: seq<Enumeration>)
    requires Clean(d, ReadMap) && WellFormed(Loaded(d)) && NoFailureSurvived(d, es)
    ensures Agree(AllServed(d, es), AllServed(d, es))
    ensures forall p :: p in AllServed(d, es) ==> p.index < Loaded(FinalDisk(d, es)).next
  {
    HistoryIsRecorded(d, es);
  }

  /** A save that fails but is survived (its error is caught and logged) breaks this: two adapters
      are given index 1. */
  lemma SurvivedFailureSharesIndex()
    ensures var d: Disk<Assignments> := Disk(Missing, Missing, Missing);
            var first := Enumeration([Row(7, true, false, false, 1)], 0, true, true);
            var second := Enumeration([Row(8, true, false, false, 1)], COMMITTED, true, true);
            && Clean(d, ReadMap) && WellFormed(Loaded(d)) && !NoFailureSurvived(d, [first, second])
            && AllServed(d, [first, second]) == [Served(7, 1), Served(8, 1)]
  {
    var d: Disk<Assignments> := Disk(Missing, Missing, Missing);
    var a, b := Row(7, true, false, false, 1), Row(8, true, false, false, 1);
    var first, second := Enumeration([a], 0, true, true), Enumeration([b], COMMITTED, true, true);
    var m := Loaded(d);
    assert [a][1..] == [] && [b][1..] == [] && [first, second][1..] == [second] && [second][1..] == [];
    assert ServedRows(m, [a]) == [Served(7, 1)] && ServedRows(m, [b]) == [Served(8, 1)];
    assert DiskAfter(d, first) == d;
    Sorting.SortOne(LowerIndex, Served(7, 1));
    Sorting.SortOne(LowerIndex, Served(8, 1));
    assert 7 in AssignAll(m, [a]).interfaces;
    assert AllServed(d, [first, second]) == ServedBy(d, first) + AllServed(d, [second]);
    assert AllServed(DiskAfter(d, second), []) == [];
    assert AllServed(d, [second]) == ServedBy(d, second);
  }

  // ----------------------------------------------------- and only what is recorded stays

  lemma {:induction false} UnusedLuid(used: set<Luid>) returns (luid: Luid)
    ensures luid !in used && forall x :: x in used ==> x < luid
    decreases |used|
  {
    if used == {} {
      luid := 0;
    } else {
      var x :| x in used;
      var above := UnusedLuid(used - {x});
      luid := Max(above, x + 1);
      forall y | y in used ensures y < luid {
        assert y == x || y in used - {x};
      }
    }
  }

  /** An enumeration of one adapter, whose save completes. */
  function Single(luid: Luid): Enumeration {
    Enumeration([Row(luid, true, false, false, 1)], COMMITTED, true, true)
  }

  lemma SingleServes(d: Disk<Assignments>, luid: Luid)
    ensures var m := Loaded(d);
            ServedBy(d, Single(luid)) == [Served(luid, if luid in m.interfaces then m.interfaces[luid] else m.next)]
  {
    var rows := Single(luid).rows;
    assert rows[1..] == [];
    var p := ServedRows(Loaded(d), rows)[0];
    assert ServedRows(Loaded(d), rows) == [p];
    Sorting.SortOne(LowerIndex, p);
  }

  /** A pair that is not on record is contradicted by some next enumeration: its adapter gets another
      index, or another adapter gets its index. */
  lemma UnrecordedIsContradicted(d: Disk<Assignments>, p: Served) returns (e: Enumeration)
    requires WellFormed(Loaded(d)) && !Records(Loaded(d), p)
    ensures !Agree([p], ServedBy(d, e)) && e.steps >= COMMITTED
  {
    var m := Loaded(d);
    var other := UnusedLuid(m.interfaces.Keys + {p.luid});
    var luid := if p.luid !in m.interfaces && m.next == p.index then other else p.luid;
    SingleServes(d, luid);
    e := Single(luid);
    assert p in [p] && ServedBy(d, e)[0] in ServedBy(d, e);
  }

  /** What is on record is never contradicted, even by histories that survive failed saves. */
  lemma {:induction false} RecordedIsKept(d: Disk<Assignments>, es: seq<Enumeration>, p: Served)
    requires Clean(d, ReadMap) && WellFormed(Loaded(d)) && Records(Loaded(d), p)
    ensures Agree([p], AllServed(d, es))
    decreases |es|
  {
    if es != [] {
      EnumerationExtends(Loaded(d), es[0].rows);
      EnumerationLands(d, es[0]);
      RecordedIsKept(DiskAfter(d, es[0]), es[1..], p);
      forall q | q in ServedBy(d, es[0]) ensures p.luid == q.luid <==> p.index == q.index {
        ServedInAnyOrder(d, es[0], q);
      }
    }
  }

  // ----------------------------------------------------------- histories with damage

  /** The service enumerates, or one of its two files is damaged or lost from outside. */
  datatype Event = Enumerate(e: Enumeration) | Damage(main: bool, lost: bool)

  function After(d: Disk<Assignments>, ev: Event): Disk<Assignments> {
    match ev
    case Enumerate(e) => DiskAfter(d, e)
    case Damage(main, lost) =>
      var ruin := if lost then Missing else Damaged;
      if main then d.(main := ruin) else d.(bak := ruin)
  }

  function ServedIn(d: Disk<Assignments>, evs: seq<Event>): seq<Served>
    decreases |evs|
  {
    if evs == [] then []
    else (if evs[0].Enumerate? then ServedBy(d, evs[0].e) else []) + ServedIn(After(d, evs[0]), evs[1..])
  }

  function DiskIn(d: Disk<Assignments>, evs: seq<Event>): Disk<Assignments>
    decreases |evs|
  {
    if evs == [] then d else DiskIn(After(d, evs[0]), evs[1..])
  }

  /** Each file that holds a map holds one the service could have written. */
  ghost predicate Sound(d: Disk<Assignments>) {
    (d.main.Holds? ==> WellFormed(d.main.value)) && (d.bak.Holds? ==> WellFormed(d.bak.value))
  }

  lemma {:induction false} HistoryStaysSound(d: Disk<Assignments>, evs: seq<Event>)
    requires Sound(d)
    ensures Sound(DiskIn(d, evs)) && WellFormed(Loaded(DiskIn(d, evs)))
    decreases |evs|
  {
    if evs != [] {
      if evs[0].Enumerate? {
        EnumerationExtends(Loaded(d), evs[0].e.rows);
      }
      HistoryStaysSound(After(d, evs[0]), evs[1..]);
    }
  }

  lemma {:induction false} ServedInSnoc(d: Disk<Assignments>, evs: seq<Event>, e: Enumeration)
    ensures ServedIn(d, evs + [Enumerate(e)]) == ServedIn(d, evs) + ServedBy(DiskIn(d, evs), e)
    decreases |evs|
  {
    if evs == [] {
      assert [Enumerate(e)][1..] == [];
    } else {
      assert (evs + [Enumerate(e)])[1..] == evs[1..] + [Enumerate(e)];
      ServedInSnoc(After(d, evs[0]), evs[1..], e);
    }
  }

  lemma NextAgrees(d: Disk<Assignments>, served: seq<Served>, e: Enumeration)
    requires WellFormed(Loaded(d)) && Agree(served, served)
    requires forall p :: p in served ==> Records(Loaded(d), p)
    ensures Agree(served + ServedBy(d, e), served + ServedBy(d, e))
  {
    EnumerationExtends(Loaded(d), e.rows);
    var m := AssignAll(Loaded(d), e.rows);
    forall p | p in served + ServedBy(d, e) ensures p in served || Records(m, p) {
      ServedInAnyOrder(d, e, p);
    }
  }

  /** Over any history of enumerations, crashed, failed and survived saves, and damage to either file:
      no next enumeration can contradict anything ever served exactly when nothing served so far
      contradicts itself and all of it is in the map that a load now gives. */
  lemma NextIndexAgreesIff(d: Disk<Assignments>, evs: seq<Event>)
    requires Sound(d)
    ensures (forall e :: Agree(ServedIn(d, evs + [Enumerate(e)]), ServedIn(d, evs + [Enumerate(e)]))) <==>
            && Agree(ServedIn(d, evs), ServedIn(d, evs))
            && forall p :: p in ServedIn(d, evs) ==> Records(Loaded(DiskIn(d, evs)), p)
  {
    var served, now := ServedIn(d, evs), DiskIn(d, evs);
    HistoryStaysSound(d, evs);
    forall e ensures ServedIn(d, evs + [Enumerate(e)]) == served + ServedBy(now, e) {
      ServedInSnoc(d, evs, e);
    }
    if !Agree(served, served) {
      var e := Single(0);
      assert !Agree(ServedIn(d, evs + [Enumerate(e)]), ServedIn(d, evs + [Enumerate(e)]));
    } else if p :| p in served && !Records(Loaded(now), p) {
      var e := UnrecordedIsContradicted(now, p);
      assert !Agree(ServedIn(d, evs + [Enumerate(e)]), ServedIn(d, evs + [Enumerate(e)]));
    } else {
      forall e ensures Agree(ServedIn(d, evs + [Enumerate(e)]), ServedIn(d, evs + [Enumerate(e)])) {
        NextAgrees(now, served, e);
      }
    }
  }

  // ------------------------------------------------------- and all that may follow them

  /** An enumeration that gives a new adapter an index and dies after its save has moved the file over
      the .bak. */
  function Crash(luid: Luid): Enumeration {
    Enumeration([Row(luid, true, false, false, 1)], COMMITTED - 1, true, false)
  }

  lemma CrashLoses(d: Disk<Assignments>, luid: Luid)
    requires !Clean(d, ReadMap) && luid !in Loaded(d).interfaces
    ensures Loaded(DiskAfter(d, Crash(luid))) == Assignments(map[], 1) && Clean(DiskAfter(d, Crash(luid)), ReadMap)
  {
    SingleAssigns(Loaded(d), luid);
  }

  lemma AllServedCons(d: Disk<Assignments>, e: Enumeration, es: seq<Enumeration>)
    ensures AllServed(d, [e] + es) == ServedBy(d, e) + AllServed(DiskAfter(d, e), es)
    ensures NoFailureSurvived(d, [e] + es) <==>
            (e.survives ==> Persisted(d, e)) && NoFailureSurvived(DiskAfter(d, e), es)
  {
    assert ([e] + es)[1..] == es;
  }

  lemma AllServedOne(d: Disk<Assignments>, e: Enumeration)
    ensures AllServed(d, [e]) == ServedBy(d, e)
    ensures NoFailureSurvived(d, [e]) <==> (e.survives ==> Persisted(d, e))
  {
    AllServedCons(d, e, []);
    assert [e] + [] == [e];
  }

  /** Over a damaged file whatever was served is contradicted, after a crash. */
  lemma LostIsContradicted(d: Disk<Assignments>, p: Served) returns (es: seq<Enumeration>)
    requires !Clean(d, ReadMap)
    ensures NoFailureSurvived(d, es) && !Agree([p], AllServed(d, es))
  {
    var luid := UnusedLuid(Loaded(d).interfaces.Keys);
    var next := DiskAfter(d, Crash(luid));
    CrashLoses(d, luid);
    var e := UnrecordedIsContradicted(next, p);
    es := [Crash(luid)] + [e];
    AllServedCons(d, Crash(luid), [e]);
    AllServedOne(next, e);
  }

  /** What one enumeration gave to managers is kept by every later history exactly when it gave nothing,
      or its save got through or it had nothing new to save, and the current file is then absent or
      usable. */
  lemma ConsistentAfterIff(d: Disk<Assignments>, e: Enumeration)
    requires WellFormed(Loaded(d)) && e.survives
    ensures (forall es :: Agree(ServedBy(d, e), AllServed(DiskAfter(d, e), es))) <==>
            ServedBy(d, e) == [] || (Persisted(d, e) && Clean(DiskAfter(d, e), ReadMap))
  {
    var served, next := ServedBy(d, e), DiskAfter(d, e);
    ServedIsRecordedIff(d, e);
    EnumerationExtends(Loaded(d), e.rows);
    EnumerationLands(d, e);
    hide ServedBy, DiskAfter, AllServed, Clean;
    if !Persisted(d, e) {
      var p :| p in served && !Records(Loaded(next), p);
      var es := UnrecordedIsMet(next, p);
      assert !Agree(served, AllServed(next, es));
    } else if !Clean(next, ReadMap) && served != [] {
      var es := LostIsContradicted(next, served[0]);
      assert !Agree(served, AllServed(next, es));
    } else {
      forall es, p | p in served ensures Agree([p], AllServed(next, es)) {
        RecordedIsKept(next, es, p);
      }
      forall es ensures Agree(served, AllServed(next, es)) {
        forall p, q | p in served && q in AllServed(next, es) ensures p.luid == q.luid <==> p.index == q.index {
          assert Agree([p], AllServed(next, es)) && p in [p];
        }
      }
    }
  }

  lemma UnrecordedIsMet(d: Disk<Assignments>, p: Served) returns (es: seq<Enumeration>)
    requires WellFormed(Loaded(d)) && !Records(Loaded(d), p)
    ensures !Agree([p], AllServed(d, es))
  {
    var e := UnrecordedIsContradicted(d, p);
    es := [e];
    AllServedOne(d, e);
  }

  lemma Disagree(served: seq<Served>, p: Served, later: seq<Served>)
    requires p in served && !Agree([p], later)
    ensures !Agree(served + later, served + later)
  {
    var q :| q in later && !(p.luid == q.luid <==> p.index == q.index);
    assert p in served + later && q in served + later;
  }

  /** Over a damaged file with a .bak that records something, that is served, and then contradicted. */
  lemma BackupIsContradicted(d: Disk<Assignments>) returns (es: seq<Enumeration>)
    requires !Clean(d, ReadMap) && Loaded(d).interfaces != map[]
    ensures NoFailureSurvived(d, es) && !Agree(AllServed(d, es), AllServed(d, es))
  {
    var luid :| luid in Loaded(d).interfaces;
    var e := Single(luid);
    SingleServes(d, luid);
    var p := ServedBy(d, e)[0];
    SingleKeeps(Loaded(d), luid);
    var later := LostIsContradicted(d, p);
    es := [e] + later;
    AllServedCons(d, e, later);
    Disagree(ServedBy(d, e), p, AllServed(d, later));
  }

  lemma SingleKeeps(m: Assignments, luid: Luid)
    requires luid in m.interfaces
    ensures AssignAll(m, Single(luid).rows) == m
  {
    assert Single(luid).rows[1..] == [];
  }

  /** While a damaged file and a .bak without assignments are all there is, nothing is served before it
      is saved. */
  lemma {:induction false} EmptyIsSafe(d: Disk<Assignments>, es: seq<Enumeration>)
    requires Loaded(d).interfaces == map[] && NoFailureSurvived(d, es)
    ensures Agree(AllServed(d, es), AllServed(d, es))
    decreases |es|
  {
    if es != [] {
      var e, next := es[0], DiskAfter(d, es[0]);
      EnumerationExtends(Loaded(d), e.rows);
      forall p | p in ServedBy(d, e) ensures Records(AssignAll(Loaded(d), e.rows), p) {
        ServedInAnyOrder(d, e, p);
      }
      if AssignAll(Loaded(d), e.rows) == Loaded(d) || e.steps < COMMITTED {
        assert ServedBy(d, e) == [] by { NothingServed(d, e); }
        assert Loaded(next).interfaces == map[];
        EmptyIsSafe(next, es[1..]);
      } else {
        assert Loaded(next) == AssignAll(Loaded(d), e.rows) && Clean(next, ReadMap);
        HistoryIsRecorded(next, es[1..]);
      }
    }
  }

  lemma NothingServed(d: Disk<Assignments>, e: Enumeration)
    requires Loaded(d).interfaces == map[] && (e.survives ==> Persisted(d, e))
    requires AssignAll(Loaded(d), e.rows) == Loaded(d) || e.steps < COMMITTED
    ensures ServedBy(d, e) == []
  {
    if e.survives {
      EnumerationExtends(Loaded(d), e.rows);
      if ServedBy(d, e) != [] {
        ServedInAnyOrder(d, e, ServedBy(d, e)[0]);
      }
    }
  }

  /** What was served can be neither lost nor contradicted. */
  ghost predicate Safe(d: Disk<Assignments>, served: seq<Served>) {
    && (forall p :: p in served ==> Records(Loaded(d), p))
    && (Clean(d, ReadMap) || (served == [] && Loaded(d).interfaces == map[]))
  }

  lemma SafeIsEnough(d: Disk<Assignments>, served: seq<Served>, es: seq<Enumeration>)
    requires WellFormed(Loaded(d)) && Agree(served, served) && Safe(d, served) && NoFailureSurvived(d, es)
    ensures Agree(served + AllServed(d, es), served + AllServed(d, es))
  {
    if Clean(d, ReadMap) {
      HistoryIsRecorded(d, es);
      forall p | p in served + AllServed(d, es) ensures Records(Loaded(FinalDisk(d, es)), p) {
        assert p in served || p in AllServed(d, es);
      }
    } else {
      EmptyIsSafe(d, es);
      assert served + AllServed(d, es) == AllServed(d, es);
    }
  }

  lemma UnsafeIsContradicted(d: Disk<Assignments>, served: seq<Served>) returns (es: seq<Enumeration>)
    requires WellFormed(Loaded(d)) && !Safe(d, served)
    ensures NoFailureSurvived(d, es) && !Agree(served + AllServed(d, es), served + AllServed(d, es))
  {
    hide Agree, Clean, Records;
    if p :| p in served && !Records(Loaded(d), p) {
      var e := UnrecordedIsContradicted(d, p);
      AllServedOne(d, e);
      es := [e];
      Disagree(served, p, AllServed(d, es));
    } else if served != [] {
      es := LostIsContradicted(d, served[0]);
      Disagree(served, served[0], AllServed(d, es));
    } else {
      es := BackupIsContradicted(d);
      assert served + AllServed(d, es) == AllServed(d, es);
    }
  }

  /** No later history in which no failed save is survived, crashes included, contradicts what was
      served, or itself. */
  ghost predicate NeverContradicted(d: Disk<Assignments>, served: seq<Served>) {
    forall es | NoFailureSurvived(d, es) :: Agree(served + AllServed(d, es), served + AllServed(d, es))
  }

  lemma NothingMore(d: Disk<Assignments>, served: seq<Served>)
    requires NeverContradicted(d, served)
    ensures Agree(served, served)
  {
    var none: seq<Enumeration> := [];
    assert NoFailureSurvived(d, none);
    assert served + AllServed(d, none) == served;
  }

  /** Over any history of enumerations, crashed, failed and survived saves, and damage to either file:
      no later history contradicts anything ever served exactly when nothing so far contradicts itself
      and what was served is safe. */
  lemma IndexRepeatsIff(d: Disk<Assignments>, evs: seq<Event>)
    requires Sound(d)
    ensures NeverContradicted(DiskIn(d, evs), ServedIn(d, evs)) <==>
            Agree(ServedIn(d, evs), ServedIn(d, evs)) && Safe(DiskIn(d, evs), ServedIn(d, evs))
  {
    var served, now := ServedIn(d, evs), DiskIn(d, evs);
    HistoryStaysSound(d, evs);
    if NeverContradicted(now, served) {
      NothingMore(now, served);
      if !Safe(now, served) {
        var es := UnsafeIsContradicted(now, served);
      }
    } else if Agree(served, served) && Safe(now, served) {
      forall es | NoFailureSurvived(now, es) ensures Agree(served + AllServed(now, es), served + AllServed(now, es)) {
        SafeIsEnough(now, served, es);
      }
    }
  }

  /** A concrete history: adapters 7 and 8 are recorded one after the other, the current file is then
      damaged, and adapter 9 is given the index that 8 has. */
  lemma DamageSharesIndex()
    ensures ServedIn(Disk(Missing, Missing, Missing),
                     [Enumerate(Single(7)), Enumerate(Single(8)), Damage(true, false), Enumerate(Single(9))])
            == [Served(7, 1), Served(8, 2), Served(9, 2)]
  {
    var d0: Disk<Assignments> := Disk(Missing, Missing, Missing);
    var evs := [Enumerate(Single(7)), Enumerate(Single(8)), Damage(true, false), Enumerate(Single(9))];
    var m1, m2 := Assignments(map[7 := 1], 2), Assignments(map[7 := 1, 8 := 2], 3);
    SingleAssigns(Assignments(map[], 1), 7);
    SingleAssigns(m1, 8);
    var d1, d2 := After(d0, evs[0]), Disk(Holds(m2), Holds(m1), Missing);
    assert d1 == Disk(Holds(m1), Missing, Missing) && After(d1, evs[1]) == d2;
    var d3 := After(d2, evs[2]);
    assert Loaded(d3) == m1;
    SingleServes(d0, 7);
    SingleServes(d1, 8);
    SingleServes(d3, 9);
    hide ServedBy, After;
    assert evs[1..][1..][1..] == [evs[3]] && [evs[3]][1..] == [];
    assert ServedIn(d3, [evs[3]]) == [Served(9, 2)] by { assert ServedIn(After(d3, evs[3]), []) == []; }
  }

  /** A concrete history with a crash over the damage: adapter 7 is recorded and served, 8 is recorded by
      a process that dies before it serves, the current file is damaged, a process dies over it while it
      records 9, and adapter 10 is given the index of 7. */
  lemma CrashOverDamageSharesIndex()
    ensures var unserved := Single(8).(survives := false);
            ServedIn(Disk(Missing, Missing, Missing),
                     [Enumerate(Single(7)), Enumerate(unserved), Damage(true, false), Enumerate(Crash(9)),
                      Enumerate(Single(10))])
            == [Served(7, 1), Served(10, 1)]
  {
    var d0: Disk<Assignments> := Disk(Missing, Missing, Missing);
    var unserved := Single(8).(survives := false);
    var evs := [Enumerate(Single(7)), Enumerate(unserved), Damage(true, false), Enumerate(Crash(9)),
                Enumerate(Single(10))];
    var m1, m2 := Assignments(map[7 := 1], 2), Assignments(map[7 := 1, 8 := 2], 3);
    SingleAssigns(Assignments(map[], 1), 7);
    SingleAssigns(m1, 8);
    var d1: Disk<Assignments>, d2 := Disk(Holds(m1), Missing, Missing), Disk(Holds(m2), Holds(m1), Missing);
    var d3: Disk<Assignments> := Disk(Damaged, Holds(m1), Missing);
    assert After(d0, evs[0]) == d1 && After(d1, evs[1]) == d2 && After(d2, evs[2]) == d3;
    CrashLoses(d3, 9);
    var d4 := After(d3, evs[3]);
    SingleServes(d0, 7);
    SingleServes(d4, 10);
    assert ServedBy(d1, unserved) == [] && ServedBy(d3, Crash(9)) == [];
    hide ServedBy, After;
    assert evs[1..][1..] == evs[2..] && evs[2..][1..] == evs[3..] && evs[3..][1..] == [evs[4]] && [evs[4]][1..] == [];
    assert ServedIn(d4, [evs[4]]) == [Served(10, 1)] by { assert ServedIn(After(d4, evs[4]), []) == []; }
    assert ServedIn(d3, evs[3..]) == [Served(10, 1)];
    assert ServedIn(d2, evs[2..]) == [Served(10, 1)];
    assert ServedIn(d1, evs[1..]) == [Served(10, 1)];
  }

  lemma SingleAssigns(m: Assignments, luid: Luid)
    requires luid !in m.interfaces
    ensures AssignAll(m, Single(luid).rows) == Assignments(m.interfaces[luid := m.next], m.next + 1)
    ensures AssignAll(m, Single(luid).rows) != m
  {
    assert Single(luid).rows[1..] == [];
  }

  // --------------------------------------------------------- which adapters, which indices

  /** The physical adapters that are neither filters nor loopbacks nor members of a team. */
  function HardwareRows(rows: seq<Row>): seq<Row> {
    if rows == [] then []
    else
      var r := rows[0];
      (if !r.hardware || r.filtering || r.loopback || r.connectionType == 2 then [] else [r]) + HardwareRows(rows[1..])
  }

  /** Every such adapter is served once for each of its rows, in their order before the final sort, and
      nothing else is. */
  lemma {:induction false} ServedAreTheHardware(m: Assignments, rows: seq<Row>)
    ensures |ServedRows(m, rows)| == |HardwareRows(rows)|
    ensures forall k :: 0 <= k < |ServedRows(m, rows)| ==> ServedRows(m, rows)[k].luid == HardwareRows(rows)[k].luid
    decreases |rows|
  {
    if rows != [] {
      ServedAreTheHardware(Assign(m, rows[0]), rows[1..]);
    }
  }

  /** New adapters get the indices from the next one on, without a gap; an index is never given again. */
  lemma {:induction false} NewIndicesAreConsecutive(m: Assignments, rows: seq<Row>)
    requires WellFormed(m)
    ensures var m' := AssignAll(m, rows);
            && m'.next - m.next == |m'.interfaces| - |m.interfaces|
            && forall luid :: luid in m'.interfaces && luid !in m.interfaces ==> m.next <= m'.interfaces[luid] < m'.next
    decreases |rows|
  {
    if rows != [] {
      var r, one := rows[0], Assign(m, rows[0]);
      if one != m {
        assert one.interfaces.Keys == m.interfaces.Keys + {r.luid};
      }
      EnumerationExtends(one, rows[1..]);
      NewIndicesAreConsecutive(one, rows[1..]);
    }
  }

  /** On a machine without an index map the first index is 1. */
  lemma FirstIndexIsOne(d: Disk<Assignments>)
    ensures !d.main.Holds? && !d.bak.Holds? ==> Loaded(d) == Assignments(map[], 1)
    ensures d.main.Holds? ==> Loaded(d) == d.main.value
    ensures !d.main.Holds? && d.bak.Holds? ==> Loaded(d) == d.bak.value
  {
  }
}
