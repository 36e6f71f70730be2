/** Saves that fail and are survived: the volatile identity that is then served, and exactly when it
    makes one machine serve a pair in two boots. */
module EngineFailures {
  import opened Json
  import opened AtomicStore
  import opened Engine
  import opened EngineRuns
  import opened EngineReplays
  import opened EngineMachine

  /** How far a save gets that does not complete. */
  type Early = s: nat | s < COMMITTED

  /** What becomes of a start: it persists its identity and serves or stops; its process dies while it
      does; or its save raises and it lives on. */
  datatype Fate = Completes(serves: bool) | Dies(steps: Early) | Raises(steps: Early)

  datatype Try = Try(guid: string, source: string, key: int, bakOk: bool, fate: Fate)

  function AsStart(t: Try): Start {
    var steps := if t.fate.Completes? then COMMITTED else t.fate.steps;
    Start(t.guid, t.source, t.key, steps, t.bakOk, t.fate == Completes(true))
  }

  /** A start whose save raises serves boots 1 under the id of its guid; one that has nothing to save
      serves what is on file. */
  function TryServes(newId: NewId, d: Disk<Json>, t: Try): seq<Served> {
    if !t.fate.Raises? then ServedBy(newId, d, AsStart(t))
    else if Writes(newId, d, AsStart(t)) then [Served(Volatile(newId, t.guid).id, Volatile(newId, t.guid).boots, t.key)]
    else [Served(Planned(newId, d, AsStart(t)).id, Planned(newId, d, AsStart(t)).boots, t.key)]
  }

  function TriesServe(newId: NewId, d: Disk<Json>, tries: seq<Try>): seq<Served>
    decreases |tries|
  {
    if tries == [] then []
    else TryServes(newId, d, tries[0]) + TriesServe(newId, DiskAfter(newId, d, AsStart(tries[0])), tries[1..])
  }

  /** Starts of one machine with the given fates, in whatever boots. */
  predicate Have(tries: seq<Try>, guid: string, fates: seq<Fate>) {
    |tries| == |fates| && forall i :: 0 <= i < |tries| ==> tries[i].guid == guid && tries[i].fate == fates[i]
  }

  predicate MayServe(f: Fate) {
    f.Raises? || f == Completes(true)
  }

  /** No save that raises shares the history with another start that serves. */
  ghost predicate FailuresAreAlone(fates: seq<Fate>) {
    forall i, j :: 0 <= i < |fates| && 0 <= j < |fates| && i != j && fates[i].Raises? ==> !MayServe(fates[j])
  }

  // ------------------------------------------------------------------ without failures

  function AsStarts(tries: seq<Try>): (starts: seq<Start>)
    ensures |starts| == |tries|
  {
    seq(|tries|, i requires 0 <= i < |tries| => AsStart(tries[i]))
  }

  lemma {:induction false} WithoutFailures(newId: NewId, d: Disk<Json>, tries: seq<Try>)
    requires forall i :: 0 <= i < |tries| ==> !tries[i].fate.Raises?
    ensures TriesServe(newId, d, tries) == Serves(newId, d, AsStarts(tries))
    decreases |tries|
  {
    if tries != [] {
      assert AsStarts(tries)[1..] == AsStarts(tries[1..]);
      WithoutFailures(newId, DiskAfter(newId, d, AsStart(tries[0])), tries[1..]);
    }
  }

  lemma {:induction false} SilentServeNothing(newId: NewId, d: Disk<Json>, tries: seq<Try>)
    requires forall i :: 0 <= i < |tries| ==> !MayServe(tries[i].fate)
    ensures TriesServe(newId, d, tries) == []
    decreases |tries|
  {
    if tries != [] {
      SilentServeNothing(newId, DiskAfter(newId, d, AsStart(tries[0])), tries[1..]);
    }
  }

  lemma TryServesOne(newId: NewId, d: Disk<Json>, t: Try)
    ensures |TryServes(newId, d, t)| <= 1 && (!MayServe(t.fate) ==> TryServes(newId, d, t) == [])
  {
  }

  /** With one start that may serve, at most one pair is served. */
  lemma {:induction false} OneServes(newId: NewId, d: Disk<Json>, tries: seq<Try>, k: nat)
    requires k < |tries| && forall i :: 0 <= i < |tries| && i != k ==> !MayServe(tries[i].fate)
    ensures |TriesServe(newId, d, tries)| <= 1
    decreases |tries|
  {
    hide TryServes, DiskAfter;
    var next := DiskAfter(newId, d, AsStart(tries[0]));
    TryServesOne(newId, d, tries[0]);
    if k == 0 {
      SilentServeNothing(newId, next, tries[1..]);
    } else {
      OneServes(newId, next, tries[1..], k - 1);
    }
  }

  lemma StartsAreCompatible(newId: NewId, d: Disk<Json>, starts: seq<Start>, guid: string)
    requires CollisionFree(newId) && NewMachine(d) && OneMachine(starts, guid) && |starts| <= ENGINE_BOOTS_MAX
    ensures AllCompatible(Serves(newId, d, starts))
  {
    NewMachineIsSteady(newId, d);
    FarFromCeiling(newId, d, starts, guid);
    ServedPairsAdvance(newId, d, starts, guid);
    AdvancingIsCompatible(Serves(newId, d, starts));
  }

  lemma AtMostOneIsCompatible(pairs: seq<Served>)
    requires |pairs| <= 1
    ensures AllCompatible(pairs)
  {
  }

  lemma AloneIsCompatible(newId: NewId, d: Disk<Json>, tries: seq<Try>, guid: string, fates: seq<Fate>)
    requires CollisionFree(newId) && NewMachine(d) && Have(tries, guid, fates)
    requires |fates| <= ENGINE_BOOTS_MAX && FailuresAreAlone(fates)
    ensures AllCompatible(TriesServe(newId, d, tries))
  {
    hide TriesServe, Serves, CollisionFree, NewMachine, AllCompatible;
    if k :| 0 <= k < |fates| && fates[k].Raises? {
      OneServes(newId, d, tries, k);
      AtMostOneIsCompatible(TriesServe(newId, d, tries));
    } else {
      WithoutFailures(newId, d, tries);
      StartsAreCompatible(newId, d, AsStarts(tries), guid);
    }
  }

  // --------------------------------------------------------------------- with failures

  /** The file says nothing, or the machine's first boot. */
  ghost predicate FirstBoot(newId: NewId, d: Disk<Json>, guid: string) {
    Clean(d, ReadDoc) && (Loaded(d) == JObj(map[]) || Says(Loaded(d), State(guid, newId(guid), 1, 1)))
  }

  lemma FirstBootCarries(newId: NewId, d: Disk<Json>, guid: string)
    requires FirstBoot(newId, d, guid) && newId(guid) != ""
    ensures Reliable(Loaded(d)) && Derived(newId, Loaded(d)) && Carried(Loaded(d), guid) <= 1
    ensures Carried(Loaded(d), guid) == 1 ==> PyEq(Get(Prior(Loaded(d)), "boot_key"), JInt(1))
    ensures forall key :: key != 1 ==> !PyEq(Get(Prior(Loaded(d)), "boot_key"), JInt(key))
  {
    NothingIsNotTaken();
    if Loaded(d) != JObj(map[]) {
      SaysCarries(newId, Loaded(d), State(guid, newId(guid), 1, 1));
    }
  }

  /** A start of that boot, or one in another boot whose save does not complete, leaves it so. */
  lemma FirstBootStays(newId: NewId, d: Disk<Json>, t: Try, guid: string)
    requires FirstBoot(newId, d, guid) && newId(guid) != "" && t.guid == guid
    requires t.key == 1 || t.fate.Raises?
    ensures FirstBoot(newId, DiskAfter(newId, d, AsStart(t)), guid)
    ensures t.key == 1 && t.fate == Completes(true) ==> TryServes(newId, d, t) == [Served(newId(guid), 1, 1)]
    ensures t.key != 1 && t.fate.Raises? ==> TryServes(newId, d, t) == [Served(newId(guid), 1, t.key)]
  {
    var st := AsStart(t);
    FirstBootCarries(newId, d, guid);
    StartLands(newId, d, st);
    PlanGoesOn(newId, d, st);
    if t.key != 1 {
      NewKeyWrites(newId, d, st);
    }
  }

  lemma NewKeyWrites(newId: NewId, d: Disk<Json>, st: Start)
    requires !PyEq(Get(Prior(Loaded(d)), "boot_key"), JInt(st.key))
    ensures Writes(newId, d, st)
  {
    assert "boot_key" in Document(Planned(newId, d, st), st.source).fields;
    assert Document(Planned(newId, d, st), st.source).fields["boot_key"] == JInt(st.key);
  }

  predicate Aims(tries: seq<Try>, guid: string) {
    forall i :: 0 <= i < |tries| ==> tries[i].guid == guid && (tries[i].key == 1 || tries[i].fate.Raises?)
  }

  /** Each start that aims at the first boot serves boots 1 in its own. */
  lemma {:induction false} AimedIsServed(newId: NewId, d: Disk<Json>, tries: seq<Try>, guid: string, n: nat)
    requires FirstBoot(newId, d, guid) && newId(guid) != "" && Aims(tries, guid) && n < |tries|
    requires (tries[n].key == 1 && tries[n].fate == Completes(true)) || (tries[n].key != 1 && tries[n].fate.Raises?)
    ensures Served(newId(guid), 1, tries[n].key) in TriesServe(newId, d, tries)
    decreases n
  {
    hide TryServes, DiskAfter, FirstBoot;
    FirstBootStays(newId, d, tries[0], guid);
    if n > 0 {
      AimedIsServed(newId, DiskAfter(newId, d, AsStart(tries[0])), tries[1..], guid, n - 1);
    }
  }

  /** A start whose save raises in boot 2, and another one that serves in boot 1, or raises in boot 3. */
  lemma FailureReplays(newId: NewId, guid: string, fates: seq<Fate>, i: nat, j: nat) returns (tries: seq<Try>)
    requires CollisionFree(newId) && i < |fates| && j < |fates| && i != j && fates[i].Raises? && MayServe(fates[j])
    ensures Have(tries, guid, fates) && !AllCompatible(TriesServe(newId, Disk(Missing, Missing, Missing), tries))
  {
    var d: Disk<Json> := Disk(Missing, Missing, Missing);
    tries := seq(|fates|, k requires 0 <= k < |fates| =>
      Try(guid, "machine-guid", if k == i then 2 else if k == j && fates[k].Raises? then 3 else 1, true, fates[k]));
    assert FirstBoot(newId, d, guid);
    AimedIsServed(newId, d, tries, guid, i);
    AimedIsServed(newId, d, tries, guid, j);
    assert !Compatible(Served(newId(guid), 1, tries[i].key), Served(newId(guid), 1, tries[j].key));
  }

  /** A concrete history: the first boot cannot write its identity and serves boots 1 all the same, and
      so does the second, which can. */
  lemma FailedSaveReplays(newId: NewId)
    requires CollisionFree(newId)
    ensures TriesServe(newId, Disk(Missing, Missing, Missing),
                       [Try("g", "s", 2, true, Raises(0)), Try("g", "s", 1, true, Completes(true))])
            == [Served(newId("g"), 1, 2), Served(newId("g"), 1, 1)]
  {
    var d: Disk<Json> := Disk(Missing, Missing, Missing);
    var a, b := Try("g", "s", 2, true, Raises(0)), Try("g", "s", 1, true, Completes(true));
    assert FirstBoot(newId, d, "g");
    FirstBootStays(newId, d, a, "g");
    FirstBootStays(newId, d, b, "g");
    assert DiskAfter(newId, d, AsStart(a)) == d;
    hide TryServes, DiskAfter, FirstBoot;
    assert [a, b][1..] == [b] && [b][1..] == [];
    assert TriesServe(newId, d, [b]) == TryServes(newId, d, b);
  }

  /** For one machine on which nothing was recorded, and for any sequence of fates that does not reach
      the ceiling: no history with those fates, whatever its boots, serves a pair in two boots exactly
      when no save that raises shares it with another start that serves. */
  lemma FailuresAreSafeIff(newId: NewId, guid: string, fates: seq<Fate>)
    requires CollisionFree(newId) && |fates| <= ENGINE_BOOTS_MAX
    ensures (forall d, tries | NewMachine(d) && Have(tries, guid, fates) :: AllCompatible(TriesServe(newId, d, tries)))
            <==> FailuresAreAlone(fates)
  {
    if FailuresAreAlone(fates) {
      forall d, tries | NewMachine(d) && Have(tries, guid, fates) ensures AllCompatible(TriesServe(newId, d, tries)) {
        AloneIsCompatible(newId, d, tries, guid, fates);
      }
    } else {
      var i, j :| 0 <= i < |fates| && 0 <= j < |fates| && i != j && fates[i].Raises? && MayServe(fates[j]);
      var tries := FailureReplays(newId, guid, fates, i, j);
      assert NewMachine(Disk(Missing, Missing, Missing));
    }
  }
}
