/** Histories that do serve a pair twice, and so the exact conditions under which none does. */
module EngineReplays {
  import opened Common
  import opened Json
  import opened AtomicStore
  import opened Engine
  import opened EngineRuns

  /** A start whose save completes. */
  function Landing(guid: string, source: string, key: int, survives: bool): Start {
    Start(guid, source, key, COMMITTED, true, survives)
  }

  lemma ServesFirst(newId: NewId, d: Disk<Json>, st: Start, rest: seq<Start>)
    ensures Serves(newId, d, [st] + rest) == ServedBy(newId, d, st) + Serves(newId, DiskAfter(newId, d, st), rest)
  {
    assert ([st] + rest)[1..] == rest;
  }

  lemma GuidsJoin(first: seq<Start>, later: seq<Start>)
    ensures GuidsOf(first + later) == GuidsOf(first) + GuidsOf(later)
  {
  }

  // -------------------------------------------------------- starts that leave no trace

  /** A start that dies before it writes anything. */
  function Idler(guid: string): Start {
    Start(guid, "machine-guid", 0, 0, true, false)
  }

  function Idle(guids: seq<string>): seq<Start> {
    if guids == [] then [] else [Idler(guids[0])] + Idle(guids[1..])
  }

  lemma IdlerServesNothing(newId: NewId, d: Disk<Json>, guid: string)
    ensures ServedBy(newId, d, Idler(guid)) == [] && DiskAfter(newId, d, Idler(guid)) == d
  {
  }

  lemma {:induction false} IdleServesNothing(newId: NewId, d: Disk<Json>, guids: seq<string>, rest: seq<Start>)
    ensures Serves(newId, d, Idle(guids) + rest) == Serves(newId, d, rest)
    decreases |guids|
  {
    hide Serves, ServedBy, DiskAfter, Idler;
    if guids == [] {
      assert Idle(guids) + rest == rest;
    } else {
      var others := Idle(guids[1..]) + rest;
      assert Idle(guids) + rest == [Idler(guids[0])] + others;
      ServesFirst(newId, d, Idler(guids[0]), others);
      IdlerServesNothing(newId, d, guids[0]);
      IdleServesNothing(newId, d, guids[1..], rest);
    }
  }

  lemma {:induction false} IdleGuids(guids: seq<string>)
    ensures GuidsOf(Idle(guids)) == guids
  {
    if guids != [] {
      IdleGuids(guids[1..]);
      GuidsJoin([Idler(guids[0])], Idle(guids[1..]));
      assert guids == [guids[0]] + guids[1..];
    }
  }

  // ------------------------------------------------------------------------- climbing

  /** n completed boots of one machine, in the boots after `key`, none of which lives to serve. */
  function Climb(guid: string, key: int, n: nat): (starts: seq<Start>)
    ensures |starts| == n
    decreases n
  {
    if n == 0 then [] else [Landing(guid, "machine-guid", key + 1, false)] + Climb(guid, key + 1, n - 1)
  }

  /** A completed start on a guid that carries the count c serves c, or c + 1 in a new boot. */
  lemma LandingServes(newId: NewId, d: Disk<Json>, st: Start)
    requires newId(st.guid) != "" && Reliable(Loaded(d)) && Derived(newId, Loaded(d)) && st.steps >= COMMITTED
    requires Carried(Loaded(d), st.guid) < ENGINE_BOOTS_MAX
    ensures var c := Carried(Loaded(d), st.guid);
            var boots := Max(1, if PyEq(Get(Prior(Loaded(d)), "boot_key"), JInt(st.key)) then c else c + 1);
            && ServedBy(newId, d, st) == (if st.survives then [Served(newId(st.guid), boots, st.key)] else [])
            && Says(Loaded(DiskAfter(newId, d, st)), State(st.guid, newId(st.guid), st.key, boots))
    ensures Writes(newId, d, st) || Clean(d, ReadDoc) ==> Clean(DiskAfter(newId, d, st), ReadDoc)
  {
    StartLands(newId, d, st);
    PlanGoesOn(newId, d, st);
  }

  /** What the file says when it says an own state. */
  ghost predicate At(newId: NewId, d: Disk<Json>, guid: string, key: int, boots: int) {
    Says(Loaded(d), State(guid, newId(guid), key, boots))
  }

  lemma ClimbStep(newId: NewId, d: Disk<Json>, guid: string, key: int, boots: int)
    requires newId(guid) != "" && At(newId, d, guid, key, boots) && boots < ENGINE_BOOTS_MAX
    ensures var st := Landing(guid, "machine-guid", key + 1, false);
            ServedBy(newId, d, st) == [] && At(newId, DiskAfter(newId, d, st), guid, key + 1, boots + 1)
  {
    SaysCarries(newId, Loaded(d), State(guid, newId(guid), key, boots));
    LandingServes(newId, d, Landing(guid, "machine-guid", key + 1, false));
  }

  lemma {:induction false} ClimbLands(
    newId: NewId, d: Disk<Json>, guid: string, key: int, boots: int, n: nat, rest: seq<Start>)
    returns (top: Disk<Json>)
    requires newId(guid) != "" && At(newId, d, guid, key, boots) && boots + n <= ENGINE_BOOTS_MAX
    ensures At(newId, top, guid, key + n, boots + n)
    ensures Serves(newId, d, Climb(guid, key, n) + rest) == Serves(newId, top, rest)
    decreases n
  {
    hide Serves, GuidsOf, ServedBy, DiskAfter, At;
    if n == 0 {
      top := d;
      assert Climb(guid, key, 0) + rest == rest;
    } else {
      var st, others := Landing(guid, "machine-guid", key + 1, false), Climb(guid, key + 1, n - 1) + rest;
      ClimbStep(newId, d, guid, key, boots);
      assert Climb(guid, key, n) + rest == [st] + others;
      ServesFirst(newId, d, st, others);
      top := ClimbLands(newId, DiskAfter(newId, d, st), guid, key + 1, boots + 1, n - 1, rest);
    }
  }

  function Again(guid: string, n: nat): seq<string> {
    seq(n, _ => guid)
  }

  lemma {:induction false} ClimbGuids(guid: string, key: int, n: nat)
    ensures GuidsOf(Climb(guid, key, n)) == Again(guid, n)
    decreases n
  {
    if n > 0 {
      ClimbGuids(guid, key + 1, n - 1);
      GuidsOfRest(Climb(guid, key, n));
      var guids := GuidsOf(Climb(guid, key, n));
      assert guids == [guids[0]] + guids[1..];
    }
  }

  /** At the ceiling the next start serves boots 1 under the same id, in whatever boot it is. */
  lemma CeilingServesOne(newId: NewId, d: Disk<Json>, guid: string, key: int, st: Start)
    requires newId(guid) != "" && At(newId, d, guid, key, ENGINE_BOOTS_MAX)
    requires st.guid == guid && st.survives && st.steps >= COMMITTED
    ensures ServedBy(newId, d, st) == [Served(newId(guid), 1, st.key)]
  {
    OneMachineStepIff(Loaded(d), State(guid, newId(guid), key, ENGINE_BOOTS_MAX), st.key);
  }

  // ------------------------------------------------- meeting a count that lies ahead

  /** n completed boots of one machine from boot key `key` on, of which the last one serves. */
  function ClimbTo(guid: string, key: int, n: nat): seq<Start>
    requires n >= 1
  {
    if n == 1 then [Landing(guid, "machine-guid", key, true)]
    else [Landing(guid, "machine-guid", key, false)]
         + (Climb(guid, key, n - 2) + [Landing(guid, "machine-guid", key + n - 1, true)])
  }

  lemma ClimbToIsComplete(guid: string, key: int, n: nat)
    requires n >= 1
    ensures |ClimbTo(guid, key, n)| == n && OneMachine(ClimbTo(guid, key, n), guid)
    ensures forall i :: 0 <= i < n ==> ClimbTo(guid, key, n)[i].steps >= COMMITTED
  {
    if n > 1 {
      ClimbCompletes(guid, key, n - 2);
    }
  }

  lemma {:induction false} ClimbCompletes(guid: string, key: int, n: nat)
    ensures forall i :: 0 <= i < n ==> Climb(guid, key, n)[i].guid == guid && Climb(guid, key, n)[i].steps >= COMMITTED
    decreases n
  {
    if n > 0 {
      ClimbCompletes(guid, key + 1, n - 1);
    }
  }

  /** The file can be gone on from in the boot `key`. */
  ghost predicate Continues(newId: NewId, d: Disk<Json>, guid: string, key: int) {
    && newId(guid) != "" && Reliable(Loaded(d)) && Derived(newId, Loaded(d))
    && !PyEq(Get(Prior(Loaded(d)), "boot_key"), JInt(key))
  }

  lemma NextBoot(newId: NewId, d: Disk<Json>, guid: string, key: int, survives: bool)
    requires Continues(newId, d, guid, key) && Carried(Loaded(d), guid) < ENGINE_BOOTS_MAX
    ensures var st, boots := Landing(guid, "machine-guid", key, survives), Carried(Loaded(d), guid) + 1;
            && ServedBy(newId, d, st) == (if survives then [Served(newId(guid), boots, key)] else [])
            && At(newId, DiskAfter(newId, d, st), guid, key, boots)
  {
    LandingServes(newId, d, Landing(guid, "machine-guid", key, survives));
  }

  lemma AtContinues(newId: NewId, d: Disk<Json>, guid: string, key: int, boots: int)
    requires newId(guid) != "" && At(newId, d, guid, key, boots)
    ensures Continues(newId, d, guid, key + 1) && Carried(Loaded(d), guid) == boots
  {
    SaysCarries(newId, Loaded(d), State(guid, newId(guid), key, boots));
  }

  /** The first boot, when it is not the last, and then the climb. */
  lemma FirstThenClimb(newId: NewId, d: Disk<Json>, guid: string, key: int, n: nat, boots: int)
    requires n >= 2 && newId(guid) != "" && boots + n - 1 <= ENGINE_BOOTS_MAX
    requires ServedBy(newId, d, Landing(guid, "machine-guid", key, false)) == []
    requires At(newId, DiskAfter(newId, d, Landing(guid, "machine-guid", key, false)), guid, key, boots)
    ensures Served(newId(guid), boots + n - 1, key + n - 1) in Serves(newId, d, ClimbTo(guid, key, n))
  {
    hide Serves, ServedBy, DiskAfter, Climb, At, Continues, Carried;
    var first, last := Landing(guid, "machine-guid", key, false), Landing(guid, "machine-guid", key + n - 1, true);
    var rest := Climb(guid, key, n - 2) + [last];
    ServesFirst(newId, d, first, rest);
    var top := ClimbLands(newId, DiskAfter(newId, d, first), guid, key, boots, n - 2, [last]);
    AtContinues(newId, top, guid, key + n - 2, boots + n - 2);
    NextBoot(newId, top, guid, key + n - 1, true);
    ServesLast(newId, top, last);
  }

  lemma ClimbToServes(newId: NewId, d: Disk<Json>, guid: string, key: int, n: nat)
    requires Continues(newId, d, guid, key) && n >= 1 && Carried(Loaded(d), guid) + n <= ENGINE_BOOTS_MAX
    ensures Served(newId(guid), Carried(Loaded(d), guid) + n, key + n - 1) in Serves(newId, d, ClimbTo(guid, key, n))
  {
    hide Serves, ServedBy, DiskAfter, At, Carried, Climb, Reliable, Derived;
    if n == 1 {
      NextBoot(newId, d, guid, key, true);
      var st := Landing(guid, "machine-guid", key, true);
      ServesLast(newId, d, st);
      assert ClimbTo(guid, key, 1) == [st];
    } else {
      hide ClimbTo;
      NextBoot(newId, d, guid, key, false);
      FirstThenClimb(newId, d, guid, key, n, Carried(Loaded(d), guid) + 1);
    }
  }

  lemma ShortIsBelowCeiling(newId: NewId, d: Disk<Json>, starts: seq<Start>, guid: string)
    requires CollisionFree(newId) && Reliable(Loaded(d)) && Derived(newId, Loaded(d)) && OneMachine(starts, guid)
    requires Carried(Loaded(d), guid) + |starts| <= ENGINE_BOOTS_MAX
    ensures BelowCeiling(newId, d, starts)
  {
    OneMachineGuids(starts, guid);
    RoomIsBelowCeiling(newId, d, starts);
  }

  /** A pair ahead of the file is met again, in another boot, by boots that go on from the file. */
  lemma AheadIsMet(newId: NewId, d: Disk<Json>, h: Served, guid: string, key: int) returns (more: seq<Start>)
    requires CollisionFree(newId) && Continues(newId, d, guid, key) && h.id == newId(guid) && key > h.key
    requires Carried(Loaded(d), guid) < h.boots <= ENGINE_BOOTS_MAX
    ensures OneMachine(more, guid) && BelowCeiling(newId, d, more) && !AgreesWith(h, Serves(newId, d, more))
  {
    var n := h.boots - Carried(Loaded(d), guid);
    more := ClimbTo(guid, key, n);
    ClimbToIsComplete(guid, key, n);
    ShortIsBelowCeiling(newId, d, more, guid);
    ClimbToServes(newId, d, guid, key, n);
    assert !Compatible(h, Served(newId(guid), h.boots, key + n - 1));
  }

  /** A boot that dies after its save has moved the file over the .bak. */
  function Crash(guid: string, key: int): Start {
    Start(guid, "machine-guid", key, COMMITTED - 1, true, false)
  }

  /** Over a damaged file such a boot leaves nothing. */
  lemma CrashLoses(newId: NewId, d: Disk<Json>, guid: string, key: int)
    requires !Clean(d, ReadDoc) && Continues(newId, d, guid, key)
    ensures var next := DiskAfter(newId, d, Crash(guid, key));
            Loaded(next) == JObj(map[]) && Clean(next, ReadDoc) && ServedBy(newId, d, Crash(guid, key)) == []
  {
    var st := Crash(guid, key);
    var doc := Document(Planned(newId, d, st), st.source).fields;
    assert doc["boot_key"] == JInt(key);
    assert "boot_key" in doc && Writes(newId, d, st);
  }

  /** Whatever was served is met again after a crash over a damaged file: the count starts at 1. */
  lemma LostIsMet(newId: NewId, d: Disk<Json>, h: Served, guid: string, key: int) returns (more: seq<Start>)
    requires CollisionFree(newId) && Continues(newId, d, guid, key) && h.id == newId(guid) && key > h.key
    requires !Clean(d, ReadDoc) && 1 <= h.boots <= ENGINE_BOOTS_MAX && Carried(Loaded(d), guid) < ENGINE_BOOTS_MAX
    ensures OneMachine(more, guid) && BelowCeiling(newId, d, more) && !AgreesWith(h, Serves(newId, d, more))
  {
    var st := Crash(guid, key);
    var next := DiskAfter(newId, d, st);
    CrashLoses(newId, d, guid, key);
    NothingIsNotTaken();
    assert Loaded(next) == JObj(map[]) ==> Carried(Loaded(next), guid) == 0;
    var later := AheadIsMet(newId, next, h, guid, key + 1);
    more := [st] + later;
    hide DiskAfter, Serves, ServedBy, Carried;
    ServesFirst(newId, d, st, later);
    assert more[1..] == later;
  }

  // ------------------------------------------------------------------ a guid that returns

  /** Nothing was ever recorded. */
  predicate NewMachine(d: Disk<Json>) {
    Clean(d, ReadDoc) && !HasIdentity(Loaded(d)) && PriorBoots(Loaded(d)) == 0
  }

  /** A document without an identity is no start's plan. */
  lemma NoIdentityIsNoPlan(doc: Json)
    requires doc.JObj? && (!Get(doc, "engine_id").JStr? || Get(doc, "engine_id").text == "")
    ensures !TakenForPlan(doc) && Reliable(doc)
  {
    forall s: State, source: string | s.id != "" ensures !SameDict(Document(s, source).fields, doc.fields) {
      assert Document(s, source).fields["engine_id"] == JStr(s.id);
    }
  }

  lemma NewMachineIsSteady(newId: NewId, d: Disk<Json>)
    requires NewMachine(d)
    ensures Reliable(Loaded(d)) && Derived(newId, Loaded(d)) && forall g :: Carried(Loaded(d), g) == 0
  {
    NoIdentityIsNoPlan(Loaded(d));
  }

  /** A guid, another one, and the first one again: its count starts over under the id it had. */
  lemma DetourServes(newId: NewId, d: Disk<Json>, a: Start, b: Start, c: Start)
    requires NewMachine(d) && newId(a.guid) != "" && newId(b.guid) != "" && a.guid == c.guid != b.guid
    requires a.steps >= COMMITTED && b.steps >= COMMITTED && c.steps >= COMMITTED && a.survives && c.survives
    ensures var d1 := DiskAfter(newId, d, a);
            var d2 := DiskAfter(newId, d1, b);
            && ServedBy(newId, d, a) == [Served(newId(a.guid), 1, a.key)]
            && ServedBy(newId, d1, b) == (if b.survives then [Served(newId(b.guid), 1, b.key)] else [])
            && ServedBy(newId, d2, c) == [Served(newId(a.guid), 1, c.key)]
  {
    hide Says, DiskAfter, ServedBy, Writes;
    NewMachineIsSteady(newId, d);
    var d1 := DiskAfter(newId, d, a);
    var d2 := DiskAfter(newId, d1, b);
    LandingServes(newId, d, a);
    SaysCarries(newId, Loaded(d1), State(a.guid, newId(a.guid), a.key, 1));
    LandingServes(newId, d1, b);
    SaysCarries(newId, Loaded(d2), State(b.guid, newId(b.guid), b.key, 1));
    LandingServes(newId, d2, c);
  }

  /** A concrete history, without a ceiling and without a crash: the MachineGuid is read, then once it
      cannot be and the hostname stands in for it, then it is read again. */
  lemma HostnameDetourReusesPair(newId: NewId)
    requires CollisionFree(newId)
    ensures Serves(newId, Disk(Missing, Missing, Missing),
                   [Landing("6f1c", "machine-guid", 1, true), Landing("PC", "hostname", 2, true),
                    Landing("6f1c", "machine-guid", 3, true)])
            == [Served(newId("6f1c"), 1, 1), Served(newId("PC"), 1, 2), Served(newId("6f1c"), 1, 3)]
  {
    var d := Disk(Missing, Missing, Missing);
    var a, b := Landing("6f1c", "machine-guid", 1, true), Landing("PC", "hostname", 2, true);
    var c := Landing("6f1c", "machine-guid", 3, true);
    assert a.guid[0] != b.guid[0];
    DetourServes(newId, d, a, b, c);
    hide Serves, ServedBy, DiskAfter;
    ServesFirst(newId, d, a, [b, c]);
    ServesFirst(newId, DiskAfter(newId, d, a), b, [c]);
    ServesLast(newId, DiskAfter(newId, DiskAfter(newId, d, a), b), c);
    assert [a, b, c] == [a] + [b, c] && [b, c] == [b] + [c];
  }

  lemma ServesLast(newId: NewId, d: Disk<Json>, st: Start)
    ensures Serves(newId, d, [st]) == ServedBy(newId, d, st)
  {
    ServesFirst(newId, d, st, []);
    assert [st] + [] == [st];
  }

  lemma ServesTwo(newId: NewId, d: Disk<Json>, a: Start, b: Start)
    ensures Serves(newId, d, [a, b]) == ServedBy(newId, d, a) + ServedBy(newId, DiskAfter(newId, d, a), b)
  {
    ServesFirst(newId, d, a, [b]);
    ServesLast(newId, DiskAfter(newId, d, a), b);
    assert [a, b] == [a] + [b];
  }

  lemma TwoAreBelowCeiling(newId: NewId, d: Disk<Json>, a: Start, b: Start)
    requires DiskAfter(newId, d, a) == d && a.guid == b.guid && Carried(Loaded(d), a.guid) < ENGINE_BOOTS_MAX
    ensures BelowCeiling(newId, d, [a, b])
  {
    hide DiskAfter, Carried;
    assert [a, b][1..] == [b] && [b][1..] == [];
    assert BelowCeiling(newId, d, [b]);
  }

  lemma ReturnReplays(newId: NewId, guids: seq<string>, i: nat, j: nat, k: nat) returns (starts: seq<Start>)
    requires CollisionFree(newId) && i < j < k < |guids| && guids[i] == guids[k] != guids[j]
    ensures GuidsOf(starts) == guids && !AllCompatible(Serves(newId, Disk(Missing, Missing, Missing), starts))
  {
    var d := Disk(Missing, Missing, Missing);
    var a, b := Landing(guids[i], "machine-guid", 1, true), Landing(guids[j], "machine-guid", 2, false);
    var c := Landing(guids[k], "machine-guid", 3, true);
    var afterC := Idle(guids[k + 1..]);
    var afterB := Idle(guids[j + 1..k]) + ([c] + afterC);
    var afterA := Idle(guids[i + 1..j]) + ([b] + afterB);
    starts := Idle(guids[..i]) + ([a] + afterA);
    ReturnGuids(guids, i, j, k, a, b, c);
    DetourServes(newId, d, a, b, c);
    hide Serves, ServedBy, DiskAfter, GuidsOf, Idle;
    var d1 := DiskAfter(newId, d, a);
    var d2 := DiskAfter(newId, d1, b);
    IdleServesNothing(newId, d, guids[..i], [a] + afterA);
    ServesFirst(newId, d, a, afterA);
    IdleServesNothing(newId, d1, guids[i + 1..j], [b] + afterB);
    ServesFirst(newId, d1, b, afterB);
    IdleServesNothing(newId, d2, guids[j + 1..k], [c] + afterC);
    ServesFirst(newId, d2, c, afterC);
    Replayed([], Served(newId(guids[i]), 1, 1), Serves(newId, d1, afterA), Served(newId(guids[i]), 1, 3));
  }

  lemma Replayed(before: seq<Served>, a: Served, later: seq<Served>, b: Served)
    requires b in later && !Compatible(a, b)
    ensures !AllCompatible(before + ([a] + later))
  {
    var all := before + ([a] + later);
    assert all[|before|] == a;
    assert a in all && b in all;
  }

  lemma ReturnGuids(guids: seq<string>, i: nat, j: nat, k: nat, a: Start, b: Start, c: Start)
    requires i < j < k < |guids| && a.guid == guids[i] && b.guid == guids[j] && c.guid == guids[k]
    ensures var afterB := Idle(guids[j + 1..k]) + ([c] + Idle(guids[k + 1..]));
            GuidsOf(Idle(guids[..i]) + ([a] + (Idle(guids[i + 1..j]) + ([b] + afterB)))) == guids
  {
    var t := [c] + Idle(guids[k + 1..]);
    IdleGuids(guids[k + 1..]);
    BlockGuids(guids, j + 1, k, c, Idle(guids[k + 1..]));
    BlockGuids(guids, i + 1, j, b, Idle(guids[j + 1..k]) + t);
    BlockGuids(guids, 0, i, a, Idle(guids[i + 1..j]) + ([b] + (Idle(guids[j + 1..k]) + t)));
    assert guids[0..] == guids && guids[0..i] == guids[..i];
  }

  /** Idle starts up to position `to`, one start there, and starts for the rest. */
  lemma BlockGuids(guids: seq<string>, start: nat, to: nat, st: Start, rest: seq<Start>)
    requires start <= to < |guids| && st.guid == guids[to]
    requires GuidsOf(rest) == guids[to + 1..]
    ensures GuidsOf(Idle(guids[start..to]) + ([st] + rest)) == guids[start..]
  {
    IdleGuids(guids[start..to]);
    GuidsJoin([st], rest);
    GuidsJoin(Idle(guids[start..to]), [st] + rest);
    assert guids[start..] == guids[start..to] + ([guids[to]] + guids[to + 1..]);
  }

  // ------------------------------------------------------- a count that meets its ceiling

  /** A guid that keeps coming: its first boot, a climb to the ceiling, and one boot more. */
  lemma ClimbReplays(newId: NewId, guids: seq<string>, i: nat, k: nat) returns (starts: seq<Start>)
    requires CollisionFree(newId) && NoReturn(guids)
    requires i + ENGINE_BOOTS_MAX <= k < |guids| && guids[i] == guids[k]
    ensures GuidsOf(starts) == guids && !AllCompatible(Serves(newId, Disk(Missing, Missing, Missing), starts))
  {
    var d, g, n := Disk(Missing, Missing, Missing), guids[i], ENGINE_BOOTS_MAX - 1;
    var a, c := Landing(g, "machine-guid", 1, true), Landing(g, "machine-guid", ENGINE_BOOTS_MAX + 1, true);
    var afterC := Idle(guids[i + ENGINE_BOOTS_MAX + 1..]);
    var afterA := Climb(g, 1, n) + ([c] + afterC);
    starts := Idle(guids[..i]) + ([a] + afterA);
    ClimbBlockGuids(guids, i, n, k, a, c);
    NewMachineIsSteady(newId, d);
    LandingServes(newId, d, a);
    hide Serves, ServedBy, DiskAfter, GuidsOf, Idle, Climb, Says;
    var d1 := DiskAfter(newId, d, a);
    IdleServesNothing(newId, d, guids[..i], [a] + afterA);
    ServesFirst(newId, d, a, afterA);
    var top := ClimbLands(newId, d1, g, 1, 1, n, [c] + afterC);
    CeilingServesOne(newId, top, g, 1 + n, c);
    ServesFirst(newId, top, c, afterC);
    Replayed([], Served(newId(g), 1, 1), Serves(newId, d1, afterA), Served(newId(g), 1, ENGINE_BOOTS_MAX + 1));
  }

  /** Between two occurrences of a guid there are only others of it. */
  lemma BlockIsOneGuid(guids: seq<string>, i: nat, n: nat, k: nat)
    requires NoReturn(guids) && i + n + 1 <= k < |guids| && guids[k] == guids[i]
    ensures guids[i + 1..] == Again(guids[i], n) + guids[i + n + 1..] && guids[i + n + 1] == guids[i]
  {
    forall j | i < j < k ensures guids[j] == guids[i] {
    }
    assert guids[i + 1..i + 1 + n] == Again(guids[i], n);
    assert guids[i + 1..] == guids[i + 1..i + 1 + n] + guids[i + 1 + n..];
  }

  lemma ClimbBlockGuids(guids: seq<string>, i: nat, n: nat, k: nat, a: Start, c: Start)
    requires NoReturn(guids) && i + n + 1 <= k < |guids| && guids[k] == guids[i] && a.guid == c.guid == guids[i]
    ensures GuidsOf(Idle(guids[..i]) + ([a] + (Climb(guids[i], 1, n) + ([c] + Idle(guids[i + n + 2..]))))) == guids
  {
    BlockIsOneGuid(guids, i, n, k);
    IdleGuids(guids[i + n + 2..]);
    ClimbGuids(guids[i], 1, n);
    var tail := [c] + Idle(guids[i + n + 2..]);
    assert GuidsOf(tail) == guids[i + n + 1..] by {
      GuidsJoin([c], Idle(guids[i + n + 2..]));
    }
    hide NoReturn, Again, Climb, Idle, GuidsOf;
    GuidsJoin(Climb(guids[i], 1, n), tail);
    BlockGuids(guids, 0, i, a, Climb(guids[i], 1, n) + tail);
    assert guids[0..] == guids && guids[0..i] == guids[..i];
  }

  // --------------------------------------------------------------- the exact conditions

  /** On a machine where nothing was ever recorded, and for any sequence of guids: no history with
      those guids, whatever its boots, restarts and crashes, serves a pair in two boots exactly when no
      guid comes back after another one, and none spans 2^31 - 1 starts or more. */
  lemma NewMachineIsSafeIff(newId: NewId, guids: seq<string>)
    requires CollisionFree(newId)
    ensures (forall d, starts | NewMachine(d) && GuidsOf(starts) == guids ::
               AllCompatible(Serves(newId, d, starts))) <==>
            && NoReturn(guids)
            && forall i, k :: 0 <= i <= k < |guids| && guids[i] == guids[k] ==> k - i < ENGINE_BOOTS_MAX
  {
    var missing: Disk<Json> := Disk(Missing, Missing, Missing);
    assert NewMachine(missing);
    if !NoReturn(guids) {
      var i, j, k :| 0 <= i < j < k < |guids| && guids[i] == guids[k] && guids[j] != guids[i];
      var starts := ReturnReplays(newId, guids, i, j, k);
    } else if i, k :| 0 <= i <= k < |guids| && guids[i] == guids[k] && k - i >= ENGINE_BOOTS_MAX {
      var starts := ClimbReplays(newId, guids, i, k);
    } else {
      forall d, starts | NewMachine(d) && GuidsOf(starts) == guids ensures AllCompatible(Serves(newId, d, starts)) {
        NewMachineIsSteady(newId, d);
        RoomIsBelowCeiling(newId, d, starts);
        PairIsNeverReused(newId, d, starts);
      }
    }
  }

  /** A document that Python takes for a planned one while its count is not the integer it equals: the
      boot on file and the next one both serve boots 1. */
  lemma UnreliableReplays(newId: NewId, d: Disk<Json>) returns (guid: string, starts: seq<Start>)
    requires CollisionFree(newId) && Derived(newId, Loaded(d)) && !Reliable(Loaded(d))
    ensures OneMachine(starts, guid) && Get(Prior(Loaded(d)), "machine_guid") == JStr(guid)
    ensures HasIdentity(Loaded(d)) && BelowCeiling(newId, d, starts) && !AllCompatible(Serves(newId, d, starts))
  {
    var doc := Loaded(d);
    var s: State, source: string :| s.id != "" && PlanState(doc, s.guid, s.key, s.id) == Plan(s, []) &&
                                    SameDict(Document(s, source).fields, doc.fields);
    var a, b := Landing(s.guid, source, s.key, true), Landing(s.guid, source, s.key + 1, true);
    TakenIsUnchanged(newId, d, s, source, a);
    UnreliableServes(newId, d, s, source);
    starts := [a, b];
    guid := s.guid;
    hide Serves, ServedBy, DiskAfter, Carried, PlanState, Reliable, Derived, Document, SameDict;
    TwoAreBelowCeiling(newId, d, a, b);
    ServesTwo(newId, d, a, b);
    Replayed([], Served(s.id, 1, s.key), [Served(s.id, 1, s.key + 1)], Served(s.id, 1, s.key + 1));
  }

  /** A start whose plan is on file serves it and leaves the disk as it is. */
  lemma TakenIsUnchanged(newId: NewId, d: Disk<Json>, s: State, source: string, st: Start)
    requires s.id != "" && PlanState(Loaded(d), s.guid, s.key, s.id) == Plan(s, [])
    requires SameDict(Document(s, source).fields, Loaded(d).fields)
    requires st.guid == s.guid && st.source == source && st.key == s.key && st.survives
    ensures DiskAfter(newId, d, st) == d && ServedBy(newId, d, st) == [Served(s.id, s.boots, s.key)]
    ensures Carried(Loaded(d), s.guid) < ENGINE_BOOTS_MAX && 1 <= s.boots <= ENGINE_BOOTS_MAX
    ensures Derived(newId, Loaded(d)) ==> s.id == newId(s.guid)
    ensures HasIdentity(Loaded(d)) && Get(Prior(Loaded(d)), "machine_guid") == JStr(s.guid)
    ensures PyEq(Get(Prior(Loaded(d)), "boot_key"), JInt(s.key))
  {
    var doc, plan := Loaded(d), Document(s, source).fields;
    assert plan["engine_id"] == JStr(s.id) && plan["machine_guid"] == JStr(s.guid) && plan["boot_key"] == JInt(s.key);
    assert PyEq(plan["boot_key"], doc.fields["boot_key"]);
    assert PyEq(plan["engine_id"], doc.fields["engine_id"]) && PyEq(plan["machine_guid"], doc.fields["machine_guid"]);
    assert Planned(newId, d, st) == s;
  }

  /** A restart serves the pair in the .bak without writing it, a boot dies over the damaged file, and
      the count climbs to that pair again. */
  lemma DamagedReplays(newId: NewId, d: Disk<Json>) returns (guid: string, starts: seq<Start>)
    requires CollisionFree(newId) && Derived(newId, Loaded(d)) && Reliable(Loaded(d))
    requires TakenForPlan(Loaded(d)) && !Clean(d, ReadDoc)
    ensures OneMachine(starts, guid) && Get(Prior(Loaded(d)), "machine_guid") == JStr(guid)
    ensures HasIdentity(Loaded(d)) && BelowCeiling(newId, d, starts) && !AllCompatible(Serves(newId, d, starts))
  {
    var doc := Loaded(d);
    var s: State, source: string :| s.id != "" && PlanState(doc, s.guid, s.key, s.id) == Plan(s, []) &&
                                    SameDict(Document(s, source).fields, doc.fields);
    var a, h := Landing(s.guid, source, s.key, true), Served(s.id, s.boots, s.key);
    TakenIsUnchanged(newId, d, s, source, a);
    assert Continues(newId, d, s.guid, s.key + 1);
    hide Serves, ServedBy, DiskAfter, Carried, PlanState, SameDict, Document;
    hide Reliable, Derived, Continues, TakenForPlan;
    var later := LostIsMet(newId, d, h, s.guid, s.key + 1);
    starts := [a] + later;
    guid := s.guid;
    assert starts[1..] == later;
    ServesFirst(newId, d, a, later);
    var p :| p in Serves(newId, d, later) && !Compatible(h, p);
    Replayed([], h, Serves(newId, d, later), p);
  }

  lemma UnreliableServes(newId: NewId, d: Disk<Json>, s: State, source: string)
    requires !PlainBoots(Loaded(d)) && s.id != "" && SameDict(Document(s, source).fields, Loaded(d).fields)
    ensures Carried(Loaded(d), s.guid) == 0
    ensures var a, b := Landing(s.guid, source, s.key, true), Landing(s.guid, source, s.key + 1, true);
            && ServedBy(newId, d, a) == [Served(s.id, 1, s.key)]
            && ServedBy(newId, DiskAfter(newId, d, a), b) == [Served(s.id, 1, s.key + 1)]
  {
    var doc, plan := Loaded(d), Document(s, source).fields;
    assert plan["engine_id"] == JStr(s.id) && plan["machine_guid"] == JStr(s.guid);
    assert plan["boot_key"] == JInt(s.key) && plan["boots"] == JInt(s.boots);
    assert PyEq(plan["boots"], doc.fields["boots"]) && PyEq(plan["boot_key"], doc.fields["boot_key"]);
    assert PyEq(plan["engine_id"], doc.fields["engine_id"]) && PyEq(plan["machine_guid"], doc.fields["machine_guid"]);
    assert s.boots == 1 && PriorBoots(doc) == 0;
    assert Planned(newId, d, Landing(s.guid, source, s.key, true)) == s;
  }

  /** For any disk at all: over all histories in which no guid returns and no ceiling is met, no pair is
      served in two boots exactly when no start can take the document found for its own plan, or the
      count in it is a plain one and the main file is absent or usable. */
  lemma AnyDiskIsSafeIff(newId: NewId, d: Disk<Json>)
    requires CollisionFree(newId) && Derived(newId, Loaded(d))
    ensures (forall starts | NoReturn(GuidsOf(starts)) && BelowCeiling(newId, d, starts) ::
               AllCompatible(Serves(newId, d, starts))) <==>
            !TakenForPlan(Loaded(d)) || (PlainBoots(Loaded(d)) && Clean(d, ReadDoc))
  {
    if !Reliable(Loaded(d)) {
      var guid, starts := UnreliableReplays(newId, d);
      OneMachineGuids(starts, guid);
    } else if TakenForPlan(Loaded(d)) && !Clean(d, ReadDoc) {
      var guid, starts := DamagedReplays(newId, d);
      OneMachineGuids(starts, guid);
    } else {
      forall starts | NoReturn(GuidsOf(starts)) && BelowCeiling(newId, d, starts)
        ensures AllCompatible(Serves(newId, d, starts))
      {
        PairIsNeverReused(newId, d, starts);
      }
    }
  }

  /** A concrete such file: a hand-edited count of `true`. */
  lemma TrueCountReusesPair(newId: NewId)
    ensures var prev := JObj(map["schema_version" := JInt(2), "machine_guid" := JStr("g"), "engine_id" := JStr("id"),
                                 "boot_key" := JInt(5), "boots" := JBool(true), "identity_source" := JStr("s")]);
            Serves(newId, Disk(Holds(prev), Missing, Missing), [Landing("g", "s", 5, true), Landing("g", "s", 6, true)])
            == [Served("id", 1, 5), Served("id", 1, 6)]
  {
    var prev := JObj(map["schema_version" := JInt(2), "machine_guid" := JStr("g"), "engine_id" := JStr("id"),
                         "boot_key" := JInt(5), "boots" := JBool(true), "identity_source" := JStr("s")]);
    var d: Disk<Json> := Disk(Holds(prev), Missing, Missing);
    assert Loaded(d) == prev;
    UnreliableServes(newId, d, State("g", "id", 5, 1), "s");
    hide Serves, ServedBy, DiskAfter;
    var a, b := Landing("g", "s", 5, true), Landing("g", "s", 6, true);
    ServesFirst(newId, d, a, [b]);
    ServesLast(newId, DiskAfter(newId, d, a), b);
    assert [a, b] == [a] + [b];
  }
}
