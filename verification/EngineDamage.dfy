/** One machine whose state files are damaged or lost between starts: exactly when a pair comes again. */
module EngineDamage {
  import opened Common
  import opened Json
  import opened AtomicStore
  import opened Engine
  import opened EngineRuns
  import opened EngineReplays
  import opened EngineMachine

  /** A start, or damage to one of the two files from outside. */
  datatype Event = Service(st: Start) | Damage(main: bool, lost: bool)

  function After(newId: NewId, d: Disk<Json>, ev: Event): Disk<Json> {
    match ev
    case Service(st) => DiskAfter(newId, d, st)
    case Damage(main, lost) =>
      var ruin := if lost then Missing else Damaged;
      if main then d.(main := ruin) else d.(bak := ruin)
  }

  function ServedIn(newId: NewId, d: Disk<Json>, evs: seq<Event>): seq<Served>
    decreases |evs|
  {
    if evs == [] then []
    else
      (if evs[0].Service? then ServedBy(newId, d, evs[0].st) else [])
      + ServedIn(newId, After(newId, d, evs[0]), evs[1..])
  }

  function DiskIn(newId: NewId, d: Disk<Json>, evs: seq<Event>): Disk<Json>
    decreases |evs|
  {
    if evs == [] then d else DiskIn(newId, After(newId, d, evs[0]), evs[1..])
  }

  predicate OnMachine(evs: seq<Event>, guid: string) {
    forall i :: 0 <= i < |evs| && evs[i].Service? ==> evs[i].st.guid == guid
  }

  /** The document is one that this machine wrote. */
  ghost predicate WrittenHere(newId: NewId, doc: Json, guid: string) {
    exists s :: Says(doc, s) && s.guid == guid && s.id == newId(guid)
  }

  ghost predicate OwnFile(newId: NewId, f: File<Json>, guid: string) {
    f.Holds? && f.value.JObj? ==> WrittenHere(newId, f.value, guid)
  }

  ghost predicate OwnDisk(newId: NewId, d: Disk<Json>, guid: string) {
    OwnFile(newId, d.main, guid) && OwnFile(newId, d.bak, guid)
  }

  /** What a load gives on such a disk: a state of this machine, or nothing. */
  lemma OwnDiskLoads(newId: NewId, d: Disk<Json>, guid: string)
    requires OwnDisk(newId, d, guid)
    ensures WrittenHere(newId, Loaded(d), guid) || Loaded(d) == JObj(map[])
    ensures Reliable(Loaded(d)) && Derived(newId, Loaded(d)) && 0 <= Carried(Loaded(d), guid) <= ENGINE_BOOTS_MAX
  {
    if Loaded(d) == JObj(map[]) {
      assert PlainBoots(Loaded(d));
    } else {
      var s :| Says(Loaded(d), s) && s.guid == guid && s.id == newId(guid);
      SaysCarries(newId, Loaded(d), s);
    }
  }

  /** Every start serves under this machine's id, and leaves its disk its own. */
  lemma StartKeepsOwn(newId: NewId, d: Disk<Json>, st: Start)
    requires OwnDisk(newId, d, st.guid) && newId(st.guid) != ""
    ensures OwnDisk(newId, DiskAfter(newId, d, st), st.guid)
    ensures forall p :: p in ServedBy(newId, d, st) ==> p.id == newId(st.guid) && 1 <= p.boots <= ENGINE_BOOTS_MAX
  {
    OwnDiskLoads(newId, d, st.guid);
    var s := Planned(newId, d, st);
    PlanIsInRange(Loaded(d), st.guid, st.key, newId(st.guid));
    assert s.id == newId(st.guid) by {
      if HasIdentity(Loaded(d)) {
        var t :| Says(Loaded(d), t) && t.guid == st.guid && t.id == newId(st.guid);
      }
    }
    DocumentSays(s, st.source);
    assert WrittenHere(newId, Document(s, st.source), st.guid);
  }

  lemma {:induction false} HistoryKeepsOwn(newId: NewId, d: Disk<Json>, evs: seq<Event>, guid: string)
    requires OwnDisk(newId, d, guid) && newId(guid) != "" && OnMachine(evs, guid)
    ensures OwnDisk(newId, DiskIn(newId, d, evs), guid)
    ensures forall p :: p in ServedIn(newId, d, evs) ==> p.id == newId(guid) && 1 <= p.boots <= ENGINE_BOOTS_MAX
    decreases |evs|
  {
    hide OwnFile, ServedBy, DiskAfter;
    if evs != [] {
      if evs[0].Service? {
        StartKeepsOwn(newId, d, evs[0].st);
      } else {
        DamageKeepsOwn(newId, d, evs[0], guid);
      }
      HistoryKeepsOwn(newId, After(newId, d, evs[0]), evs[1..], guid);
    }
  }

  lemma DamageKeepsOwn(newId: NewId, d: Disk<Json>, ev: Event, guid: string)
    requires OwnDisk(newId, d, guid) && ev.Damage?
    ensures OwnDisk(newId, After(newId, d, ev), guid)
  {
  }

  // ------------------------------------------------------------- what may come after

  /** Any starts on this machine, crashes included, that stay below the ceiling. */
  predicate MayFollow(newId: NewId, d: Disk<Json>, more: seq<Start>, guid: string) {
    OneMachine(more, guid) && BelowCeiling(newId, d, more)
  }

  /** What was served can be neither lost nor met again: each pair is behind the count that a load
      gives, or is the one on file; and the current file is absent or usable, or nothing was served and
      no start can serve without writing first. */
  ghost predicate Safe(d: Disk<Json>, served: seq<Served>, guid: string) {
    && (forall h :: h in served ==> HeldBy(Loaded(d), guid, h))
    && (Clean(d, ReadDoc) || (served == [] && !TakenForPlan(Loaded(d))))
  }

  lemma HeldAgrees(newId: NewId, d: Disk<Json>, h: Served, more: seq<Start>, guid: string)
    requires newId(guid) != "" && OwnDisk(newId, d, guid) && Clean(d, ReadDoc) && MayFollow(newId, d, more, guid)
    requires h.id == newId(guid) && 1 <= h.boots && HeldBy(Loaded(d), guid, h)
    ensures AgreesWith(h, Serves(newId, d, more))
  {
    OwnDiskLoads(newId, d, guid);
    var s :| Says(Loaded(d), s) && s.guid == guid && s.id == newId(guid);
    SaysCarries(newId, Loaded(d), s);
    ServedFollows(newId, d, more, s);
    hide Serves, Says, OwnDisk, MayFollow;
    forall p | p in Serves(newId, d, more) ensures Compatible(h, p) {
      assert Follows(s, p);
    }
  }

  lemma SafeIsEnough(newId: NewId, d: Disk<Json>, served: seq<Served>, more: seq<Start>, guid: string)
    requires newId(guid) != "" && OwnDisk(newId, d, guid) && MayFollow(newId, d, more, guid)
    requires forall h :: h in served ==> h.id == newId(guid) && 1 <= h.boots
    requires AllCompatible(served) && Safe(d, served, guid)
    ensures AllCompatible(served + Serves(newId, d, more))
  {
    OwnDiskLoads(newId, d, guid);
    ServedPairsAdvance(newId, d, more, guid);
    AdvancingIsCompatible(Serves(newId, d, more));
    forall h | h in served ensures AgreesWith(h, Serves(newId, d, more)) {
      HeldAgrees(newId, d, h, more, guid);
    }
    hide Serves, Safe;
    JoinCompatible(served, Serves(newId, d, more));
  }

  lemma JoinCompatible(served: seq<Served>, later: seq<Served>)
    requires AllCompatible(served) && AllCompatible(later) && forall h :: h in served ==> AgreesWith(h, later)
    ensures AllCompatible(served + later)
  {
    var all := served + later;
    forall a, b | a in all && b in all ensures Compatible(a, b) {
      if a in served && b in later {
        assert AgreesWith(a, later);
      } else if b in served && a in later {
        assert AgreesWith(b, later) && Compatible(b, a);
      }
    }
  }

  /** A boot key after the one on file and after another given one. */
  lemma LaterKey(newId: NewId, d: Disk<Json>, other: int, guid: string) returns (key: int)
    requires OwnDisk(newId, d, guid) && newId(guid) != ""
    ensures key > other && Continues(newId, d, guid, key)
  {
    OwnDiskLoads(newId, d, guid);
    if Loaded(d) == JObj(map[]) {
      key := other + 1;
    } else {
      var s :| Says(Loaded(d), s) && s.guid == guid && s.id == newId(guid);
      key := Max(other, s.key) + 1;
    }
  }

  /** A pair with the count on file but of another boot is met again by a restart in the file's boot. */
  lemma SameCountIsMet(newId: NewId, d: Disk<Json>, h: Served, guid: string) returns (more: seq<Start>)
    requires CollisionFree(newId) && OwnDisk(newId, d, guid) && h.id == newId(guid)
    requires 1 <= h.boots == Carried(Loaded(d), guid) < ENGINE_BOOTS_MAX && !HeldBy(Loaded(d), guid, h)
    ensures MayFollow(newId, d, more, guid) && !AgreesWith(h, Serves(newId, d, more))
  {
    OwnDiskLoads(newId, d, guid);
    var s :| Says(Loaded(d), s) && s.guid == guid && s.id == newId(guid);
    var st := Landing(guid, "machine-guid", s.key, true);
    LandingServes(newId, d, st);
    ServesLast(newId, d, st);
    more := [st];
    ShortIsBelowCeiling(newId, d, more, guid);
    assert Served(newId(guid), h.boots, s.key) in Serves(newId, d, more);
  }

  /** A pair that the file does not hold is met again. */
  lemma NotHeldIsMet(newId: NewId, d: Disk<Json>, h: Served, guid: string) returns (more: seq<Start>)
    requires CollisionFree(newId) && OwnDisk(newId, d, guid) && h.id == newId(guid) && 1 <= h.boots <= ENGINE_BOOTS_MAX
    requires Carried(Loaded(d), guid) < ENGINE_BOOTS_MAX && !HeldBy(Loaded(d), guid, h)
    ensures MayFollow(newId, d, more, guid) && !AgreesWith(h, Serves(newId, d, more))
  {
    if h.boots > Carried(Loaded(d), guid) {
      var key := LaterKey(newId, d, h.key, guid);
      more := AheadIsMet(newId, d, h, guid, key);
    } else {
      more := SameCountIsMet(newId, d, h, guid);
    }
  }

  /** Over a damaged file, whatever was served or can still be served from the .bak is met again. */
  lemma DamagedIsMet(newId: NewId, d: Disk<Json>, served: seq<Served>, guid: string) returns (more: seq<Start>)
    requires CollisionFree(newId) && OwnDisk(newId, d, guid) && Carried(Loaded(d), guid) < ENGINE_BOOTS_MAX
    requires forall h :: h in served ==> h.id == newId(guid) && 1 <= h.boots <= ENGINE_BOOTS_MAX
    requires !Clean(d, ReadDoc) && (served != [] || TakenForPlan(Loaded(d)))
    ensures MayFollow(newId, d, more, guid) && !AllCompatible(served + Serves(newId, d, more))
  {
    OwnDiskLoads(newId, d, guid);
    if served != [] {
      var h := served[0];
      var key := LaterKey(newId, d, h.key, guid);
      more := LostIsMet(newId, d, h, guid, key);
      hide Serves;
      Disagree(served, h, Serves(newId, d, more));
    } else {
      var own: string;
      own, more := DamagedReplays(newId, d);
      TakenIsOwn(newId, d, guid, own);
      assert served + Serves(newId, d, more) == Serves(newId, d, more);
    }
  }

  lemma TakenIsOwn(newId: NewId, d: Disk<Json>, guid: string, own: string)
    requires OwnDisk(newId, d, guid) && HasIdentity(Loaded(d)) && Get(Prior(Loaded(d)), "machine_guid") == JStr(own)
    ensures own == guid
  {
    OwnDiskLoads(newId, d, guid);
    var s :| Says(Loaded(d), s) && s.guid == guid && s.id == newId(guid);
  }

  /** Over any history of boots, restarts, crashed saves and damage to either file on one machine, from
      a disk with nothing on it or with what the machine wrote: no further history below the ceiling,
      whatever else happens in it, serves a pair in two boots exactly when none was so far and what was
      served is safe, or the count has met its ceiling already. */
  lemma PairRepeatsIff(newId: NewId, d: Disk<Json>, evs: seq<Event>, guid: string)
    requires CollisionFree(newId) && OwnDisk(newId, d, guid) && OnMachine(evs, guid)
    ensures (forall more | MayFollow(newId, DiskIn(newId, d, evs), more, guid) ::
               AllCompatible(ServedIn(newId, d, evs) + Serves(newId, DiskIn(newId, d, evs), more))) <==>
            && AllCompatible(ServedIn(newId, d, evs))
            && (Safe(DiskIn(newId, d, evs), ServedIn(newId, d, evs), guid) ||
                Carried(Loaded(DiskIn(newId, d, evs)), guid) == ENGINE_BOOTS_MAX)
  {
    HistoryKeepsOwn(newId, d, evs, guid);
    var served, now := ServedIn(newId, d, evs), DiskIn(newId, d, evs);
    OwnDiskLoads(newId, now, guid);
    hide OwnDisk, Serves, ServedIn, DiskIn, MayFollow, Carried;
    if !AllCompatible(served) {
      var more: seq<Start> := NothingMore(newId, now, guid);
      assert served + Serves(newId, now, more) == served;
    } else if Carried(Loaded(now), guid) == ENGINE_BOOTS_MAX {
      forall more | MayFollow(newId, now, more, guid) ensures AllCompatible(served + Serves(newId, now, more)) {
        CeilingEndsIt(newId, now, more, guid);
        assert served + Serves(newId, now, more) == served;
      }
    } else if !Safe(now, served, guid) {
      var more := UnsafeIsMet(newId, now, served, guid);
    } else {
      forall more | MayFollow(newId, now, more, guid) ensures AllCompatible(served + Serves(newId, now, more)) {
        SafeIsEnough(newId, now, served, more, guid);
      }
    }
  }

  lemma UnsafeIsMet(newId: NewId, d: Disk<Json>, served: seq<Served>, guid: string) returns (more: seq<Start>)
    requires CollisionFree(newId) && OwnDisk(newId, d, guid) && Carried(Loaded(d), guid) < ENGINE_BOOTS_MAX
    requires forall h :: h in served ==> h.id == newId(guid) && 1 <= h.boots <= ENGINE_BOOTS_MAX
    requires !Safe(d, served, guid)
    ensures MayFollow(newId, d, more, guid) && !AllCompatible(served + Serves(newId, d, more))
  {
    hide OwnDisk, Serves, MayFollow, HeldBy, Carried, TakenForPlan;
    if h :| h in served && !HeldBy(Loaded(d), guid, h) {
      more := NotHeldIsMet(newId, d, h, guid);
      Disagree(served, h, Serves(newId, d, more));
    } else {
      more := DamagedIsMet(newId, d, served, guid);
    }
  }

  lemma Disagree(served: seq<Served>, h: Served, later: seq<Served>)
    requires h in served && !AgreesWith(h, later)
    ensures !AllCompatible(served + later)
  {
    var p :| p in later && !Compatible(h, p);
    assert h in served + later && p in served + later;
  }

  lemma CeilingEndsIt(newId: NewId, d: Disk<Json>, more: seq<Start>, guid: string)
    requires MayFollow(newId, d, more, guid) && Carried(Loaded(d), guid) == ENGINE_BOOTS_MAX
    ensures Serves(newId, d, more) == []
  {
  }

  lemma NothingMore(newId: NewId, d: Disk<Json>, guid: string) returns (more: seq<Start>)
    ensures MayFollow(newId, d, more, guid) && Serves(newId, d, more) == []
  {
    more := [];
  }

  /** A concrete history: two boots, then the current file is damaged, and the third boot serves the
      second one's pair. */
  lemma DamageReplays(newId: NewId)
    requires CollisionFree(newId)
    ensures ServedIn(newId, Disk(Missing, Missing, Missing),
                     [Service(Landing("g", "s", 1, true)), Service(Landing("g", "s", 2, true)), Damage(true, false),
                      Service(Landing("g", "s", 3, true))])
            == [Served(newId("g"), 1, 1), Served(newId("g"), 2, 2), Served(newId("g"), 2, 3)]
  {
    var d0: Disk<Json> := Disk(Missing, Missing, Missing);
    var a, b, c := Landing("g", "s", 1, true), Landing("g", "s", 2, true), Landing("g", "s", 3, true);
    var id := newId("g");
    var one, two := Document(State("g", id, 1, 1), "s"), Document(State("g", id, 2, 2), "s");
    var d1: Disk<Json> := Disk(Holds(one), Missing, Missing);
    FreshBoot(newId, d0, a, 1);
    FreshBoot(newId, d1, b, 2);
    var d2: Disk<Json> := Disk(Holds(two), Holds(one), Missing);
    assert DiskAfter(newId, d0, a) == d1 && DiskAfter(newId, d1, b) == d2;
    var d3: Disk<Json> := Disk(Damaged, Holds(one), Missing);
    FreshBoot(newId, d3, c, 2);
    hide ServedBy, DiskAfter;
    var evs := [Service(a), Service(b), Damage(true, false), Service(c)];
    assert After(newId, d2, evs[2]) == d3;
    assert evs[1..][1..][1..] == [evs[3]] && [evs[3]][1..] == [];
    assert ServedIn(newId, d3, [evs[3]]) == ServedBy(newId, d3, c) by {
      assert ServedIn(newId, After(newId, d3, evs[3]), []) == [];
    }
  }

  /** A concrete history with a crash over the damage: a boot, a restart under another source that
      copies its state into the .bak, damage, a boot that dies, and a boot that starts over at 1. */
  lemma CrashOverDamageReplays(newId: NewId)
    requires CollisionFree(newId)
    ensures ServedIn(newId, Disk(Missing, Missing, Missing),
                     [Service(Landing("g", "s", 1, true)), Service(Landing("g", "t", 1, true)), Damage(true, false),
                      Service(Crash("g", 2)), Service(Landing("g", "s", 3, true))])
            == [Served(newId("g"), 1, 1), Served(newId("g"), 1, 1), Served(newId("g"), 1, 3)]
  {
    var d0: Disk<Json> := Disk(Missing, Missing, Missing);
    var a, b := Landing("g", "s", 1, true), Landing("g", "t", 1, true);
    var c, e := Crash("g", 2), Landing("g", "s", 3, true);
    var id := newId("g");
    var one, other := Document(State("g", id, 1, 1), "s"), Document(State("g", id, 1, 1), "t");
    var d1: Disk<Json> := Disk(Holds(one), Missing, Missing);
    FreshBoot(newId, d0, a, 1);
    OtherSource(newId, d1, b);
    var d2: Disk<Json> := Disk(Holds(other), Holds(one), Missing);
    assert DiskAfter(newId, d0, a) == d1 && DiskAfter(newId, d1, b) == d2;
    var d3: Disk<Json> := Disk(Damaged, Holds(one), Missing);
    DocumentSays(State("g", id, 1, 1), "s");
    SaysCarries(newId, one, State("g", id, 1, 1));
    CrashLoses(newId, d3, "g", 2);
    var d4 := DiskAfter(newId, d3, c);
    FreshBoot(newId, d4, e, 1);
    hide ServedBy, DiskAfter;
    var evs := [Service(a), Service(b), Damage(true, false), Service(c), Service(e)];
    assert After(newId, d2, evs[2]) == d3;
    assert evs[1..][1..][1..][1..] == [evs[4]] && [evs[4]][1..] == [];
    assert ServedIn(newId, d4, [evs[4]]) == ServedBy(newId, d4, e) by {
      assert ServedIn(newId, After(newId, d4, evs[4]), []) == [];
    }
    assert ServedIn(newId, d3, evs[3..]) == ServedIn(newId, d4, [evs[4]]) by {
      assert evs[3..][1..] == [evs[4]];
    }
    assert evs[1..][1..][1..] == evs[3..];
  }

  /** A restart in the same boot whose guid comes from another source rewrites the file. */
  lemma OtherSource(newId: NewId, d: Disk<Json>, st: Start)
    requires st == Landing("g", "t", 1, true) && newId("g") != ""
    requires Loaded(d) == Document(State("g", newId("g"), 1, 1), "s")
    ensures ServedBy(newId, d, st) == [Served(newId("g"), 1, 1)]
    ensures DiskAfter(newId, d, st) == AfterSteps(d, Document(State("g", newId("g"), 1, 1), "t"), COMMITTED, true)
  {
    assert Planned(newId, d, st) == State("g", newId("g"), 1, 1);
    assert Document(Planned(newId, d, st), "t").fields["identity_source"] == JStr("t");
    assert "t"[0] != "s"[0];
  }

  /** A start in a new boot on a disk that holds nothing, or the boot before. */
  lemma FreshBoot(newId: NewId, d: Disk<Json>, st: Start, boots: int)
    requires st.guid == "g" && st.steps == COMMITTED && st.bakOk && st.survives && newId("g") != ""
    requires (boots == 1 && Loaded(d) == JObj(map[])) ||
             (boots == 2 && st.key > 1 && Loaded(d) == Document(State("g", newId("g"), 1, 1), "s"))
    ensures ServedBy(newId, d, st) == [Served(newId("g"), boots, st.key)]
    ensures var doc := Document(State("g", newId("g"), st.key, boots), st.source);
            DiskAfter(newId, d, st) == AfterSteps(d, doc, COMMITTED, true)
  {
    assert "boot_key" in Document(Planned(newId, d, st), st.source).fields;
  }
}
