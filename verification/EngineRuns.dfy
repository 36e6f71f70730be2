/** Sequences of service starts, on whatever machines, any of which may die while persisting its
    identity; and when no (engineID, snmpEngineBoots) pair is ever served in two boots. */
module EngineRuns {
  import opened Common
  import opened Json
  import opened AtomicStore
  import opened Engine

  /** One start: the machine's guid and where it came from, the boot it happens in, how far its save
      gets, and whether the process lives on to serve. */
  datatype Start = Start(guid: string, source: string, key: int, steps: nat, bakOk: bool, survives: bool)

  /** A pair that managers were given, and the boot it was given in. */
  datatype Served = Served(id: string, boots: int, key: int)

  /** Ids are not empty, and no two guids share one. */
  ghost predicate CollisionFree(newId: NewId) {
    (forall g :: newId(g) != "") && forall g, h :: newId(g) == newId(h) ==> g == h
  }

  function Planned(newId: NewId, d: Disk<Json>, st: Start): State {
    PlanState(Loaded(d), st.guid, st.key, newId(st.guid)).state
  }

  predicate Writes(newId: NewId, d: Disk<Json>, st: Start) {
    Differs(Document(Planned(newId, d, st), st.source), Loaded(d))
  }

  function DiskAfter(newId: NewId, d: Disk<Json>, st: Start): Disk<Json> {
    if Writes(newId, d, st) then AfterSteps(d, Document(Planned(newId, d, st), st.source), st.steps, st.bakOk) else d
  }

  /** The planned state is what the file says after this start. */
  predicate Lands(newId: NewId, d: Disk<Json>, st: Start) {
    !Writes(newId, d, st) || st.steps >= COMMITTED
  }

  /** What this start serves. A process that dies while saving serves nothing. */
  function ServedBy(newId: NewId, d: Disk<Json>, st: Start): seq<Served> {
    var s := Planned(newId, d, st);
    if Lands(newId, d, st) && st.survives then [Served(s.id, s.boots, st.key)] else []
  }

  function Serves(newId: NewId, d: Disk<Json>, starts: seq<Start>): seq<Served>
    decreases |starts|
  {
    if starts == [] then [] else
    ServedBy(newId, d, starts[0]) + Serves(newId, DiskAfter(newId, d, starts[0]), starts[1..])
  }

  function GuidsOf(starts: seq<Start>): (guids: seq<string>)
    ensures |guids| == |starts|
  {
    seq(|starts|, i requires 0 <= i < |starts| => starts[i].guid)
  }

  // ---------------------------------------------------------------- the file as found

  /** The count on file is not a JSON true or a float that Python takes for the number one. */
  predicate PlainBoots(doc: Json) {
    var b := Get(Prior(doc), "boots");
    Numeric(b) == Some(1.0) ==> b.JInt?
  }

  /** Python finds the document equal to the one that some start plans from it, so that the start
      leaves the file as it is. */
  ghost predicate TakenForPlan(doc: Json)
    requires doc.JObj?
  {
    exists s: State, source: string ::
      && s.id != "" && PlanState(doc, s.guid, s.key, s.id) == Plan(s, [])
      && SameDict(Document(s, source).fields, doc.fields)
  }

  /** If a start leaves the document as it is, the count it serves is the count on file. */
  ghost predicate Reliable(doc: Json)
    requires doc.JObj?
  {
    PlainBoots(doc) || !TakenForPlan(doc)
  }

  /** The id on file is the one its own guid gives. */
  predicate Derived(newId: NewId, doc: Json) {
    var guid := Get(Prior(doc), "machine_guid");
    HasIdentity(doc) && guid.JStr? ==> Get(Prior(doc), "engine_id").text == newId(guid.text)
  }

  /** The count that a start on this guid goes on from. */
  function Carried(doc: Json, guid: string): nat {
    if HasIdentity(doc) && Get(Prior(doc), "machine_guid") != JStr(guid) then 0 else PriorBoots(doc)
  }

  /** The main file is absent or usable, or all the starts complete their saves. */
  ghost predicate SavesAreSafe(d: Disk<Json>, starts: seq<Start>) {
    Clean(d, ReadDoc) || forall i :: 0 <= i < |starts| ==> starts[i].steps >= COMMITTED
  }

  /** What a start that writes nothing has found in the file. */
  lemma UnchangedFields(newId: NewId, d: Disk<Json>, st: Start)
    requires !Writes(newId, d, st)
    ensures var prev, s := Loaded(d), Planned(newId, d, st);
            && Get(prev, "engine_id") == JStr(s.id) && Get(prev, "machine_guid") == JStr(s.guid)
            && PyEq(Get(prev, "boot_key"), JInt(s.key)) && PyEq(Get(prev, "boots"), JInt(s.boots))
            && SameDict(Document(s, st.source).fields, prev.fields)
  {
    var prev, doc := Loaded(d), Document(Planned(newId, d, st), st.source);
    assert forall k :: k in doc.fields ==> k in prev.fields && PyEq(doc.fields[k], prev.fields[k]);
    assert "engine_id" in doc.fields && "machine_guid" in doc.fields;
    assert "boot_key" in doc.fields && "boots" in doc.fields;
  }

  /** A start that writes nothing was planned from the identity on file. */
  lemma UnchangedIsTaken(newId: NewId, d: Disk<Json>, st: Start)
    requires !Writes(newId, d, st) && newId(st.guid) != ""
    ensures TakenForPlan(Loaded(d))
  {
    var prev, s := Loaded(d), Planned(newId, d, st);
    UnchangedFields(newId, d, st);
    PlanIsInRange(prev, st.guid, st.key, newId(st.guid));
    hide Document, SameDict;
    assert PlanState(prev, s.guid, s.key, s.id) == Plan(s, []);
  }

  /** A document that Python finds equal to the planned one says the planned state. */
  lemma UnchangedSays(newId: NewId, d: Disk<Json>, st: Start)
    requires !Writes(newId, d, st) && Reliable(Loaded(d)) && newId(st.guid) != ""
    ensures Says(Loaded(d), Planned(newId, d, st))
  {
    UnchangedIsTaken(newId, d, st);
    UnchangedFields(newId, d, st);
    PlanIsInRange(Loaded(d), st.guid, st.key, newId(st.guid));
    UnchangedCount(newId, d, st);
  }

  /** A plain count that equals the one planned is that number. */
  lemma UnchangedCount(newId: NewId, d: Disk<Json>, st: Start)
    requires !Writes(newId, d, st) && PlainBoots(Loaded(d)) && newId(st.guid) != ""
    ensures Get(Loaded(d), "boots") == JInt(Planned(newId, d, st).boots)
  {
    UnchangedFields(newId, d, st);
    hide Document, SameDict;
  }

  lemma NothingIsNotTaken()
    ensures !TakenForPlan(JObj(map[])) && PlainBoots(JObj(map[]))
  {
    forall s: State, source: string ensures !SameDict(Document(s, source).fields, map[]) {
      assert "boots" in Document(s, source).fields;
    }
  }

  /** A save that does not complete leaves what was there, or nothing when it dies after moving a
      damaged file over the .bak. */
  lemma CrashLeaves(d: Disk<Json>, doc: Json, steps: nat, bakOk: bool)
    requires doc.JObj? && steps < COMMITTED
    ensures Loaded(AfterSteps(d, doc, steps, bakOk)) in {Loaded(d), JObj(map[])}
    ensures Clean(d, ReadDoc) ==>
              Clean(AfterSteps(d, doc, steps, bakOk), ReadDoc) && Loaded(AfterSteps(d, doc, steps, bakOk)) == Loaded(d)
  {
  }

  lemma SaveLeaves(d: Disk<Json>, doc: Json, steps: nat, bakOk: bool)
    requires doc.JObj? && steps >= COMMITTED
    ensures Loaded(AfterSteps(d, doc, steps, bakOk)) == doc && Clean(AfterSteps(d, doc, steps, bakOk), ReadDoc)
  {
  }

  /** What a start leaves on file: its planned state if the save got through, else what was there, or
      nothing when the save dies after moving a damaged file over the .bak. */
  lemma StartLands(newId: NewId, d: Disk<Json>, st: Start)
    requires newId(st.guid) != "" && Reliable(Loaded(d))
    ensures Clean(d, ReadDoc) ==> Clean(DiskAfter(newId, d, st), ReadDoc)
    ensures Reliable(Loaded(DiskAfter(newId, d, st)))
    ensures Lands(newId, d, st) ==> Says(Loaded(DiskAfter(newId, d, st)), Planned(newId, d, st))
    ensures Lands(newId, d, st) && Writes(newId, d, st) ==> Clean(DiskAfter(newId, d, st), ReadDoc)
    ensures !Lands(newId, d, st) ==> Loaded(DiskAfter(newId, d, st)) in {Loaded(d), JObj(map[])}
    ensures !Lands(newId, d, st) && Clean(d, ReadDoc) ==> Loaded(DiskAfter(newId, d, st)) == Loaded(d)
  {
    var s := Planned(newId, d, st);
    var doc := Document(s, st.source);
    PlanIsInRange(Loaded(d), st.guid, st.key, newId(st.guid));
    NothingIsNotTaken();
    if !Writes(newId, d, st) {
      UnchangedSays(newId, d, st);
    } else if st.steps < COMMITTED {
      CrashLeaves(d, doc, st.steps, st.bakOk);
    } else {
      SaveLeaves(d, doc, st.steps, st.bakOk);
      DocumentSays(s, st.source);
    }
    hide AfterSteps, TakenForPlan, PlanState, Document;
  }

  // ------------------------------------------------------------------- one step on

  /** Below the ceiling a start goes on from the count it carries, under the id of its guid. */
  lemma PlanGoesOn(newId: NewId, d: Disk<Json>, st: Start)
    requires Derived(newId, Loaded(d)) && Carried(Loaded(d), st.guid) < ENGINE_BOOTS_MAX
    ensures var s, c := Planned(newId, d, st), Carried(Loaded(d), st.guid);
            && s.guid == st.guid && s.id == newId(st.guid) && s.key == st.key
            && s.boots == Max(1, if PyEq(Get(Prior(Loaded(d)), "boot_key"), JInt(st.key)) then c else c + 1)
  {
  }

  lemma SaysCarries(newId: NewId, doc: Json, s: State)
    requires Says(doc, s) && s.id == newId(s.guid)
    ensures Derived(newId, doc) && Carried(doc, s.guid) == s.boots
    ensures forall g :: g != s.guid ==> Carried(doc, g) == 0
    ensures PlainBoots(doc) && PyEq(Get(Prior(doc), "boot_key"), JInt(s.key))
  {
  }

  /** The pair is behind the count on file, or is the one on file. */
  predicate HeldBy(doc: Json, guid: string, h: Served) {
    || h.boots < Carried(doc, guid)
    || (h.boots == Carried(doc, guid) && PyEq(Get(Prior(doc), "boot_key"), JInt(h.key)))
  }

  /** Two servings of one pair were in the same boot. */
  predicate Compatible(a: Served, b: Served) {
    a.id == b.id && a.boots == b.boots ==> a.key == b.key
  }

  /** No pair in two boots. */
  ghost predicate AllCompatible(pairs: seq<Served>) {
    forall a, b :: a in pairs && b in pairs ==> Compatible(a, b)
  }

  /** A pair held by the file does not come again in another boot, and is held by the next file. */
  lemma HeldStaysHeld(newId: NewId, d: Disk<Json>, st: Start, h: Served, next: Json)
    requires Derived(newId, Loaded(d)) && Carried(Loaded(d), st.guid) < ENGINE_BOOTS_MAX
    requires HeldBy(Loaded(d), st.guid, h) && Says(next, Planned(newId, d, st))
    ensures Compatible(h, Served(Planned(newId, d, st).id, Planned(newId, d, st).boots, st.key))
    ensures HeldBy(next, st.guid, h)
  {
    PlanGoesOn(newId, d, st);
    SaysCarries(newId, next, Planned(newId, d, st));
  }

  // -------------------------------------------------------------- conditions on guids

  /** No guid comes back after another one. */
  ghost predicate NoReturn(guids: seq<string>) {
    forall i, j, k :: 0 <= i < j < k < |guids| && guids[i] == guids[k] ==> guids[j] == guids[i]
  }

  /** No guid occurs so far apart that its count could meet the ceiling in between. */
  ghost predicate Room(doc: Json, guids: seq<string>) {
    forall i, k :: 0 <= i <= k < |guids| && guids[i] == guids[k] ==>
      Carried(doc, guids[i]) + (k - i) + 1 <= ENGINE_BOOTS_MAX
  }

  /** A short enough history has room. */
  lemma ShortHistoryHasRoom(doc: Json, guids: seq<string>)
    requires PriorBoots(doc) + |guids| <= ENGINE_BOOTS_MAX
    ensures Room(doc, guids)
  {
  }

  lemma GuidsOfRest(starts: seq<Start>)
    requires starts != []
    ensures GuidsOf(starts)[0] == starts[0].guid && GuidsOf(starts)[1..] == GuidsOf(starts[1..])
  {
  }

  lemma NoReturnRest(starts: seq<Start>)
    requires starts != [] && NoReturn(GuidsOf(starts))
    ensures NoReturn(GuidsOf(starts[1..]))
  {
    GuidsOfRest(starts);
    var guids := GuidsOf(starts);
    forall i, j, k | 0 <= i < j < k < |guids| - 1 && guids[1..][i] == guids[1..][k]
      ensures guids[1..][j] == guids[1..][i]
    {
      assert guids[i + 1] == guids[k + 1] ==> guids[j + 1] == guids[i + 1];
    }
  }

  predicate OneMachine(starts: seq<Start>, guid: string) {
    forall i :: 0 <= i < |starts| ==> starts[i].guid == guid
  }

  lemma OneMachineGuids(starts: seq<Start>, guid: string)
    requires OneMachine(starts, guid)
    ensures NoReturn(GuidsOf(starts)) && forall i :: 0 <= i < |starts| ==> GuidsOf(starts)[i] == guid
  {
  }

  /** No start finds the count it carries at its ceiling. */
  predicate BelowCeiling(newId: NewId, d: Disk<Json>, starts: seq<Start>)
    decreases |starts|
  {
    starts != [] ==>
      && Carried(Loaded(d), starts[0].guid) < ENGINE_BOOTS_MAX
      && BelowCeiling(newId, DiskAfter(newId, d, starts[0]), starts[1..])
  }

  lemma CarriedAfter(newId: NewId, d: Disk<Json>, st: Start, guid: string)
    requires newId(st.guid) != "" && Reliable(Loaded(d)) && Derived(newId, Loaded(d))
    requires Carried(Loaded(d), st.guid) < ENGINE_BOOTS_MAX
    ensures Derived(newId, Loaded(DiskAfter(newId, d, st)))
    ensures Carried(Loaded(DiskAfter(newId, d, st)), guid) <=
            Carried(Loaded(d), guid) + if guid == st.guid then 1 else 0
  {
    StartLands(newId, d, st);
    PlanGoesOn(newId, d, st);
    if Lands(newId, d, st) {
      SaysCarries(newId, Loaded(DiskAfter(newId, d, st)), Planned(newId, d, st));
    }
  }

  lemma RoomRest(doc: Json, next: Json, starts: seq<Start>)
    requires starts != [] && Room(doc, GuidsOf(starts))
    requires forall g :: Carried(next, g) <= Carried(doc, g) + if g == starts[0].guid then 1 else 0
    ensures Room(next, GuidsOf(starts[1..]))
  {
    var guids := GuidsOf(starts);
    GuidsOfRest(starts);
    forall i, k | 0 <= i <= k < |guids| - 1 && guids[1..][i] == guids[1..][k]
      ensures Carried(next, guids[1..][i]) + (k - i) + 1 <= ENGINE_BOOTS_MAX
    {
      assert guids[i + 1] == guids[k + 1];
      assert Carried(doc, guids[i + 1]) + (k - i) + 1 <= ENGINE_BOOTS_MAX;
      if guids[i + 1] == guids[0] {
        assert Carried(doc, guids[0]) + (k + 1) + 1 <= ENGINE_BOOTS_MAX;
      }
    }
  }

  /** A history that has room stays below the ceiling. */
  lemma {:induction false} RoomIsBelowCeiling(newId: NewId, d: Disk<Json>, starts: seq<Start>)
    requires CollisionFree(newId) && Reliable(Loaded(d)) && Derived(newId, Loaded(d))
    requires Room(Loaded(d), GuidsOf(starts))
    ensures BelowCeiling(newId, d, starts)
    decreases |starts|
  {
    if starts != [] {
      var st, next := starts[0], DiskAfter(newId, d, starts[0]);
      assert GuidsOf(starts)[0] == st.guid;
      StartLands(newId, d, st);
      CarriedAfter(newId, d, st, st.guid);
      forall g ensures Carried(Loaded(next), g) <= Carried(Loaded(d), g) + if g == st.guid then 1 else 0 {
        CarriedAfter(newId, d, st, g);
      }
      RoomRest(Loaded(d), Loaded(next), starts);
      RoomIsBelowCeiling(newId, next, starts[1..]);
    }
  }

  /** What every start keeps. */
  ghost predicate Steady(newId: NewId, d: Disk<Json>, starts: seq<Start>) {
    && CollisionFree(newId) && Reliable(Loaded(d)) && Derived(newId, Loaded(d))
    && NoReturn(GuidsOf(starts)) && BelowCeiling(newId, d, starts)
  }

  /** Nothing that was served can be lost: the main file is absent or usable, or every start writes
      before it serves, or all the starts complete their saves. */
  ghost predicate Dependable(d: Disk<Json>, starts: seq<Start>) {
    SavesAreSafe(d, starts) || !TakenForPlan(Loaded(d))
  }

  lemma SteadyStep(newId: NewId, d: Disk<Json>, starts: seq<Start>)
    requires starts != [] && Steady(newId, d, starts)
    ensures var next := DiskAfter(newId, d, starts[0]);
            && Steady(newId, next, starts[1..])
            && (Lands(newId, d, starts[0]) ==> Says(Loaded(next), Planned(newId, d, starts[0])))
            && (SavesAreSafe(d, starts) ==> SavesAreSafe(next, starts[1..]))
            && (SavesAreSafe(d, starts) && !Lands(newId, d, starts[0]) ==> Loaded(next) == Loaded(d))
            && (Dependable(d, starts) ==> Dependable(next, starts[1..]))
            && (Dependable(d, starts) && Lands(newId, d, starts[0]) ==> SavesAreSafe(next, starts[1..]))
  {
    var st := starts[0];
    StartLands(newId, d, st);
    CarriedAfter(newId, d, st, st.guid);
    NoReturnRest(starts);
    NothingIsNotTaken();
    if !Writes(newId, d, st) {
      UnchangedIsTaken(newId, d, st);
    }
    hide Planned, PlanState, Document, AfterSteps, SameDict, Says, Derived, Carried, TakenForPlan, PlainBoots, NoReturn;
  }

  // ------------------------------------------------------------ no pair in two boots

  /** The pair's guid, where it still comes, comes at once and without a break, and the file holds
      the pair. */
  ghost predicate Stands(newId: NewId, doc: Json, guids: seq<string>, h: Served) {
    forall i :: 0 <= i < |guids| && h.id == newId(guids[i]) ==>
      guids[0] == guids[i] && HeldBy(doc, guids[i], h)
  }

  ghost predicate AgreesWith(h: Served, pairs: seq<Served>) {
    forall p :: p in pairs ==> Compatible(h, p)
  }

  lemma StandsStep(newId: NewId, d: Disk<Json>, starts: seq<Start>, h: Served)
    requires starts != [] && Steady(newId, d, starts) && SavesAreSafe(d, starts)
    requires Stands(newId, Loaded(d), GuidsOf(starts), h)
    ensures AgreesWith(h, ServedBy(newId, d, starts[0]))
    ensures Stands(newId, Loaded(DiskAfter(newId, d, starts[0])), GuidsOf(starts[1..]), h)
  {
    var st, guids, next := starts[0], GuidsOf(starts), Loaded(DiskAfter(newId, d, starts[0]));
    GuidsOfRest(starts);
    SteadyStep(newId, d, starts);
    PlanGoesOn(newId, d, st);
    if h.id == newId(st.guid) {
      assert h.id == newId(guids[0]);
      if Lands(newId, d, st) {
        HeldStaysHeld(newId, d, st, h, next);
      }
    }
    forall i | 0 <= i < |guids| - 1 && h.id == newId(guids[1..][i])
      ensures guids[1..][0] == guids[1..][i] && HeldBy(next, guids[1..][i], h)
    {
      assert guids[1..][i] == guids[i + 1];
      assert guids[0] == guids[i + 1];
      assert i > 0 ==> guids[1] == guids[0];
    }
  }

  lemma {:induction false} LaterAgree(newId: NewId, d: Disk<Json>, starts: seq<Start>, h: Served)
    requires Steady(newId, d, starts) && SavesAreSafe(d, starts) && Stands(newId, Loaded(d), GuidsOf(starts), h)
    ensures AgreesWith(h, Serves(newId, d, starts))
    decreases |starts|
  {
    if starts != [] {
      StandsStep(newId, d, starts, h);
      SteadyStep(newId, d, starts);
      LaterAgree(newId, DiskAfter(newId, d, starts[0]), starts[1..], h);
    }
  }

  /** What a start has just served stands. */
  lemma ServedStands(newId: NewId, d: Disk<Json>, starts: seq<Start>)
    requires starts != [] && Steady(newId, d, starts) && Lands(newId, d, starts[0])
    ensures var s := Planned(newId, d, starts[0]);
            var h := Served(s.id, s.boots, starts[0].key);
            Stands(newId, Loaded(DiskAfter(newId, d, starts[0])), GuidsOf(starts[1..]), h)
  {
    var st, guids := starts[0], GuidsOf(starts);
    GuidsOfRest(starts);
    SteadyStep(newId, d, starts);
    PlanGoesOn(newId, d, st);
    SaysCarries(newId, Loaded(DiskAfter(newId, d, st)), Planned(newId, d, st));
    forall i | 0 <= i < |guids| - 1 && newId(st.guid) == newId(guids[1..][i])
      ensures guids[1..][0] == guids[1..][i] == st.guid
    {
      assert guids[i + 1] == guids[0];
      assert i > 0 ==> guids[1] == guids[0];
    }
  }

  /** Replay safety over whole histories: whatever boots, restarts, clones, renames and crashed saves
      there are, no (engineID, snmpEngineBoots) pair is served in two different boots, as long as no
      guid comes back after another one and no count meets its ceiling. */
  lemma {:induction false} PairIsNeverReused(newId: NewId, d: Disk<Json>, starts: seq<Start>)
    requires Steady(newId, d, starts) && Dependable(d, starts)
    ensures AllCompatible(Serves(newId, d, starts))
    decreases |starts|
  {
    if starts != [] {
      var next, own := DiskAfter(newId, d, starts[0]), ServedBy(newId, d, starts[0]);
      SteadyStep(newId, d, starts);
      PairIsNeverReused(newId, next, starts[1..]);
      if own != [] {
        ServedStands(newId, d, starts);
        LaterAgree(newId, next, starts[1..], own[0]);
      }
      Prepended(own, Serves(newId, next, starts[1..]));
    }
  }

  lemma Prepended(own: seq<Served>, rest: seq<Served>)
    requires AllCompatible(rest) && |own| <= 1 && (own != [] ==> AgreesWith(own[0], rest))
    ensures AllCompatible(own + rest)
  {
    forall a, b | a in own + rest && b in own + rest ensures Compatible(a, b) {
      assert a in own ==> a == own[0];
      assert b in own ==> b == own[0];
    }
  }
}
