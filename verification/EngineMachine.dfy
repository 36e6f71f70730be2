/** Starts on one machine: the pairs served never go backwards, and move on with every boot. */
module EngineMachine {
  import opened Json
  import opened AtomicStore
  import opened Engine
  import opened EngineRuns
  import opened EngineReplays

  ghost predicate Follows(s: State, h: Served) {
    h.id == s.id && h.boots >= s.boots && (h.key != s.key ==> h.boots > s.boots)
  }

  ghost predicate AllFollow(s: State, pairs: seq<Served>) {
    forall p :: p in pairs ==> Follows(s, p)
  }

  /** One start on the machine itself moves the file from state s to a state s' that follows it,
      and s' is what it serves, if it serves. */
  lemma StartFollows(newId: NewId, d: Disk<Json>, starts: seq<Start>, s: State) returns (s': State)
    requires starts != [] && SavesAreSafe(d, starts) && Says(Loaded(d), s) && s.boots < ENGINE_BOOTS_MAX
    requires starts[0].guid == s.guid && newId(s.guid) != ""
    ensures var next := DiskAfter(newId, d, starts[0]); SavesAreSafe(next, starts[1..]) && Says(Loaded(next), s')
    ensures s'.guid == s.guid && Follows(s, Served(s'.id, s'.boots, s'.key)) && s'.boots <= s.boots + 1
    ensures starts[0].key == s.key ==> s' == s
    ensures ServedBy(newId, d, starts[0]) in {[], [Served(s'.id, s'.boots, s'.key)]}
  {
    var st := starts[0];
    SaysCount(Loaded(d), s);
    StartLands(newId, d, st);
    s' := if Lands(newId, d, st) then Planned(newId, d, st) else s;
  }

  lemma FollowsOn(s: State, s': State, pairs: seq<Served>)
    requires Follows(s, Served(s'.id, s'.boots, s'.key)) && AllFollow(s', pairs)
    ensures AllFollow(s, pairs)
  {
  }

  /** Below the ceiling every pair served follows what the file said: the id stays, the count never
      decreases, and it is larger in every boot but the file's own. */
  lemma {:induction false} ServedFollows(newId: NewId, d: Disk<Json>, starts: seq<Start>, s: State)
    requires SavesAreSafe(d, starts) && Says(Loaded(d), s) && newId(s.guid) != ""
    requires OneMachine(starts, s.guid) && BelowCeiling(newId, d, starts)
    ensures AllFollow(s, Serves(newId, d, starts))
    decreases |starts|
  {
    if starts != [] {
      hide Says;
      assert s.boots < ENGINE_BOOTS_MAX by { SaysCount(Loaded(d), s); }
      var next := DiskAfter(newId, d, starts[0]);
      var s' := StartFollows(newId, d, starts, s);
      ServedFollows(newId, next, starts[1..], s');
      FollowsOn(s, s', Serves(newId, next, starts[1..]));
    }
  }

  lemma SaysCount(doc: Json, s: State)
    requires Says(doc, s)
    ensures Carried(doc, s.guid) == s.boots && Reliable(doc)
  {
  }

  /** b may be served after a: the same id, a count that is not smaller, and larger in another boot. */
  predicate Advances(a: Served, b: Served) {
    a.id == b.id && a.boots <= b.boots && (a.key != b.key ==> a.boots < b.boots)
  }

  ghost predicate AllAdvance(pairs: seq<Served>) {
    forall i, j :: 0 <= i < j < |pairs| ==> Advances(pairs[i], pairs[j])
  }

  lemma FirstAdvances(own: seq<Served>, rest: seq<Served>, s: State)
    requires AllAdvance(rest) && AllFollow(s, rest) && own in {[], [Served(s.id, s.boots, s.key)]}
    ensures AllAdvance(own + rest)
  {
    var all := own + rest;
    forall i, j | 0 <= i < j < |all| ensures Advances(all[i], all[j]) {
      if i < |own| {
        assert rest[j - |own|] in rest;
      } else {
        assert Advances(rest[i - |own|], rest[j - |own|]);
      }
    }
  }

  /** A start that may find anything on file, while nothing was served: what was landed is safe. */
  lemma FirstLanding(newId: NewId, d: Disk<Json>, starts: seq<Start>)
    requires starts != [] && newId(starts[0].guid) != "" && Reliable(Loaded(d)) && Dependable(d, starts)
    ensures var next := DiskAfter(newId, d, starts[0]);
            && Reliable(Loaded(next)) && Dependable(next, starts[1..])
            && (Lands(newId, d, starts[0]) ==>
                  Says(Loaded(next), Planned(newId, d, starts[0])) && SavesAreSafe(next, starts[1..]))
  {
    var st := starts[0];
    StartLands(newId, d, st);
    NothingIsNotTaken();
    if !Writes(newId, d, st) {
      UnchangedIsTaken(newId, d, st);
    }
    hide Planned, PlanState, Document, AfterSteps, SameDict, Says, TakenForPlan, PlainBoots;
  }

  /** From a file with a plain count, or with nothing that a start can take for its own plan (nothing at
      all and another machine's identity included): the pairs a machine serves never go backwards, and
      move on strictly from one boot to another. */
  lemma {:induction false} ServedPairsAdvance(newId: NewId, d: Disk<Json>, starts: seq<Start>, guid: string)
    requires Reliable(Loaded(d)) && Dependable(d, starts) && newId(guid) != ""
    requires OneMachine(starts, guid) && BelowCeiling(newId, d, starts)
    ensures AllAdvance(Serves(newId, d, starts))
    decreases |starts|
  {
    if starts != [] {
      var st, next := starts[0], DiskAfter(newId, d, starts[0]);
      FirstLanding(newId, d, starts);
      ServedPairsAdvance(newId, next, starts[1..], guid);
      if Lands(newId, d, st) {
        var s := Planned(newId, d, st);
        PlanIsInRange(Loaded(d), st.guid, st.key, newId(st.guid));
        ServedFollows(newId, next, starts[1..], s);
        FirstAdvances(ServedBy(newId, d, st), Serves(newId, next, starts[1..]), s);
      }
    }
  }

  ghost predicate OneBoot(starts: seq<Start>, key: int) {
    forall i :: 0 <= i < |starts| ==> starts[i].key == key
  }

  lemma {:induction false} RestartsServeTheFile(newId: NewId, d: Disk<Json>, starts: seq<Start>, s: State)
    requires SavesAreSafe(d, starts) && Says(Loaded(d), s) && newId(s.guid) != ""
    requires OneMachine(starts, s.guid) && OneBoot(starts, s.key) && BelowCeiling(newId, d, starts)
    ensures forall p :: p in Serves(newId, d, starts) ==> p == Served(s.id, s.boots, s.key)
    decreases |starts|
  {
    if starts != [] {
      hide Says;
      assert s.boots < ENGINE_BOOTS_MAX by { SaysCount(Loaded(d), s); }
      var s' := StartFollows(newId, d, starts, s);
      RestartsServeTheFile(newId, DiskAfter(newId, d, starts[0]), starts[1..], s);
    }
  }

  /** Within one boot all the restarts of a machine serve one pair, whatever it found on file and
      wherever their saves die. */
  lemma {:induction false} RestartsServeOnePair(
    newId: NewId, d: Disk<Json>, starts: seq<Start>, guid: string, key: int, p: Served, q: Served)
    requires Reliable(Loaded(d)) && Dependable(d, starts) && newId(guid) != ""
    requires OneMachine(starts, guid) && OneBoot(starts, key) && BelowCeiling(newId, d, starts)
    requires p in Serves(newId, d, starts) && q in Serves(newId, d, starts)
    ensures p == q
    decreases |starts|
  {
    var st, next := starts[0], DiskAfter(newId, d, starts[0]);
    FirstLanding(newId, d, starts);
    if Lands(newId, d, st) {
      PlanIsInRange(Loaded(d), st.guid, st.key, newId(st.guid));
      RestartsServeTheFile(newId, next, starts[1..], Planned(newId, d, st));
    } else {
      RestartsServeOnePair(newId, next, starts[1..], guid, key, p, q);
    }
  }

  /** Below the ceiling each start adds at most one to the count carried. */
  lemma CarriedGrowsByOne(newId: NewId, d: Disk<Json>, st: Start)
    requires Reliable(Loaded(d)) && newId(st.guid) != "" && Carried(Loaded(d), st.guid) < ENGINE_BOOTS_MAX
    ensures Reliable(Loaded(DiskAfter(newId, d, st)))
    ensures Carried(Loaded(DiskAfter(newId, d, st)), st.guid) <= Carried(Loaded(d), st.guid) + 1
  {
    StartLands(newId, d, st);
    if Lands(newId, d, st) {
      SaysCount(Loaded(DiskAfter(newId, d, st)), Planned(newId, d, st));
    }
  }

  /** A machine this far from the ceiling does not meet it. */
  lemma {:induction false} FarFromCeiling(newId: NewId, d: Disk<Json>, starts: seq<Start>, guid: string)
    requires Reliable(Loaded(d)) && newId(guid) != "" && OneMachine(starts, guid)
    requires Carried(Loaded(d), guid) + |starts| <= ENGINE_BOOTS_MAX
    ensures BelowCeiling(newId, d, starts)
    decreases |starts|
  {
    if starts != [] {
      CarriedGrowsByOne(newId, d, starts[0]);
      FarFromCeiling(newId, DiskAfter(newId, d, starts[0]), starts[1..], guid);
    }
  }

  // ----------------------------------------------------------------- and only then

  /** A climb of `up` boots, one boot more that serves, and `pad` starts that do nothing. */
  function ClimbAndServe(guid: string, key: int, up: nat, pad: nat): seq<Start> {
    Climb(guid, key, up) + ([Landing(guid, "machine-guid", key + up + 1, true)] + Idle(Again(guid, pad)))
  }

  lemma ClimbIsOneMachine(guid: string, key: int, up: nat, pad: nat)
    ensures |ClimbAndServe(guid, key, up, pad)| == up + 1 + pad && OneMachine(ClimbAndServe(guid, key, up, pad), guid)
  {
    var last, idle := Landing(guid, "machine-guid", key + up + 1, true), Idle(Again(guid, pad));
    IdleGuids(Again(guid, pad));
    ClimbGuids(guid, key, up);
    GuidsJoin([last], idle);
    GuidsJoin(Climb(guid, key, up), [last] + idle);
    var starts := ClimbAndServe(guid, key, up, pad);
    forall i | 0 <= i < |starts| ensures starts[i].guid == guid {
      assert GuidsOf(starts)[i] == guid;
    }
  }

  /** Over the ceiling: boots 1 under the same id. */
  lemma ClimbServesOne(
    newId: NewId, d: Disk<Json>, guid: string, key: int, boots: int, up: nat, last: Start, rest: seq<Start>)
    requires newId(guid) != "" && At(newId, d, guid, key, boots) && boots + up == ENGINE_BOOTS_MAX
    requires last.guid == guid && last.survives && last.steps >= COMMITTED
    ensures Served(newId(guid), 1, last.key) in Serves(newId, d, Climb(guid, key, up) + ([last] + rest))
  {
    hide Serves, ServedBy, DiskAfter, Climb, At;
    var top := ClimbLands(newId, d, guid, key, boots, up, [last] + rest);
    CeilingServesOne(newId, top, guid, key + up, last);
    ServesFirst(newId, top, last, rest);
    assert Serves(newId, top, [last] + rest)[0] == Served(newId(guid), 1, last.key);
  }

  lemma ClimbAndServeServesOne(newId: NewId, d: Disk<Json>, guid: string, key: int, boots: int, up: nat, pad: nat)
    requires newId(guid) != "" && At(newId, d, guid, key, boots) && boots + up == ENGINE_BOOTS_MAX
    ensures Served(newId(guid), 1, key + up + 1) in Serves(newId, d, ClimbAndServe(guid, key, up, pad))
  {
    hide Serves, Climb, Idle, Again, At;
    var last := Landing(guid, "machine-guid", key + up + 1, true);
    ClimbServesOne(newId, d, guid, key, boots, up, last, Idle(Again(guid, pad)));
  }

  lemma SaysAt(newId: NewId, d: Disk<Json>, s: State)
    requires Says(Loaded(d), s) && s.id == newId(s.guid)
    ensures At(newId, d, s.guid, s.key, s.boots) && newId(s.guid) != "" && 1 <= s.boots <= ENGINE_BOOTS_MAX
  {
  }

  lemma ClimbRegresses(newId: NewId, d: Disk<Json>, s: State, n: nat) returns (starts: seq<Start>)
    requires Says(Loaded(d), s) && s.id == newId(s.guid) && n > 0 && s.boots + n > ENGINE_BOOTS_MAX
    ensures |starts| == n && OneMachine(starts, s.guid) && !AllFollow(s, Serves(newId, d, starts))
  {
    hide Says, At, Serves, ClimbAndServe, OneMachine;
    SaysAt(newId, d, s);
    var up: nat := ENGINE_BOOTS_MAX - s.boots;
    starts := ClimbAndServe(s.guid, s.key, up, n - up - 1);
    ClimbIsOneMachine(s.guid, s.key, up, n - up - 1);
    ClimbAndServeServesOne(newId, d, s.guid, s.key, s.boots, up, n - up - 1);
    assert !Follows(s, Served(newId(s.guid), 1, s.key + up + 1));
  }

  /** For any file that says a state of this machine and any number of starts: over all histories of n
      starts, with crashes at any step, the pairs served follow the file and advance exactly when there
      are no starts, or the count cannot pass its ceiling in them. */
  lemma HistoriesAdvanceIff(newId: NewId, d: Disk<Json>, s: State, n: nat)
    requires Clean(d, ReadDoc) && Says(Loaded(d), s) && s.id == newId(s.guid)
    ensures (forall starts | OneMachine(starts, s.guid) && |starts| == n ::
               AllFollow(s, Serves(newId, d, starts)) && AllAdvance(Serves(newId, d, starts))) <==>
            n == 0 || s.boots + n <= ENGINE_BOOTS_MAX
  {
    SaysCount(Loaded(d), s);
    if n > 0 && s.boots + n > ENGINE_BOOTS_MAX {
      var starts := ClimbRegresses(newId, d, s, n);
    } else {
      forall starts | OneMachine(starts, s.guid) && |starts| == n
        ensures AllFollow(s, Serves(newId, d, starts)) && AllAdvance(Serves(newId, d, starts))
      {
        if n > 0 {
          FarFromCeiling(newId, d, starts, s.guid);
          ServedFollows(newId, d, starts, s);
          ServedPairsAdvance(newId, d, starts, s.guid);
        }
      }
    }
  }

  lemma AdvancingIsCompatible(pairs: seq<Served>)
    requires AllAdvance(pairs)
    ensures AllCompatible(pairs)
  {
    forall a, b | a in pairs && b in pairs ensures Compatible(a, b) {
      var i :| 0 <= i < |pairs| && pairs[i] == a;
      var j :| 0 <= j < |pairs| && pairs[j] == b;
      assert i < j ==> Advances(a, b);
      assert j < i ==> Advances(b, a);
    }
  }

  /** For any disk of this machine, or without an identity: over all histories below the ceiling, the
      pairs served advance exactly when no start can take the document found for its own plan, or the
      count in it is a plain one and the main file is absent or usable. */
  lemma MachineAdvancesIff(newId: NewId, d: Disk<Json>, guid: string)
    requires CollisionFree(newId) && Derived(newId, Loaded(d))
    requires HasIdentity(Loaded(d)) ==> Get(Prior(Loaded(d)), "machine_guid") == JStr(guid)
    ensures (forall starts | OneMachine(starts, guid) && BelowCeiling(newId, d, starts) ::
               AllAdvance(Serves(newId, d, starts))) <==>
            !TakenForPlan(Loaded(d)) || (PlainBoots(Loaded(d)) && Clean(d, ReadDoc))
  {
    if !Reliable(Loaded(d)) || (TakenForPlan(Loaded(d)) && !Clean(d, ReadDoc)) {
      var own: string, starts: seq<Start>;
      if !Reliable(Loaded(d)) {
        own, starts := UnreliableReplays(newId, d);
      } else {
        own, starts := DamagedReplays(newId, d);
      }
      if AllAdvance(Serves(newId, d, starts)) {
        AdvancingIsCompatible(Serves(newId, d, starts));
      }
    } else {
      forall starts | OneMachine(starts, guid) && BelowCeiling(newId, d, starts)
        ensures AllAdvance(Serves(newId, d, starts))
      {
        ServedPairsAdvance(newId, d, starts, guid);
      }
    }
  }

  /** Pairs that go on from a count n found on file in the boot of `key`. */
  ghost predicate GoOnFrom(n: nat, doc: Json, id: string, pairs: seq<Served>)
    requires doc.JObj?
  {
    forall p :: p in pairs ==>
      p.id == id && p.boots >= n && (!PyEq(Get(doc, "boot_key"), JInt(p.key)) ==> p.boots > n)
  }

  /** A file from before identities were written down, with a count n: over all histories of one machine
      below the ceiling, every pair served has at least that count, and a larger one in every boot but
      the file's own. */
  lemma {:induction false} UpgradedHistoryGoesOn(
    newId: NewId, d: Disk<Json>, starts: seq<Start>, guid: string, n: nat)
    requires newId(guid) != "" && SavesAreSafe(d, starts)
    requires !Get(Loaded(d), "engine_id").JStr? || Get(Loaded(d), "engine_id").text == ""
    requires Get(Loaded(d), "boots") == JInt(n)
    requires OneMachine(starts, guid) && BelowCeiling(newId, d, starts)
    ensures GoOnFrom(n, Loaded(d), newId(guid), Serves(newId, d, starts))
    decreases |starts|
  {
    if starts != [] {
      var st, doc, next := starts[0], Loaded(d), DiskAfter(newId, d, starts[0]);
      UpgradeLands(newId, d, starts, n);
      if Lands(newId, d, st) {
        ServedFollows(newId, next, starts[1..], Planned(newId, d, st));
      } else {
        UpgradedHistoryGoesOn(newId, next, starts[1..], guid, n);
      }
    }
  }

  lemma UpgradeLands(newId: NewId, d: Disk<Json>, starts: seq<Start>, n: nat)
    requires starts != [] && newId(starts[0].guid) != "" && SavesAreSafe(d, starts)
    requires !Get(Loaded(d), "engine_id").JStr? || Get(Loaded(d), "engine_id").text == ""
    requires Get(Loaded(d), "boots") == JInt(n) && Carried(Loaded(d), starts[0].guid) < ENGINE_BOOTS_MAX
    ensures var st, next, s := starts[0], DiskAfter(newId, d, starts[0]), Planned(newId, d, starts[0]);
            && SavesAreSafe(next, starts[1..])
            && (Lands(newId, d, st) ==> Says(Loaded(next), s))
            && (!Lands(newId, d, st) ==> Loaded(next) == Loaded(d))
            && s.guid == st.guid && s.id == newId(st.guid) && s.key == st.key && s.boots >= n
            && (!PyEq(Get(Loaded(d), "boot_key"), JInt(st.key)) ==> s.boots > n)
  {
    var st := starts[0];
    NoIdentityIsNoPlan(Loaded(d));
    StartLands(newId, d, st);
    UpgradeKeepsCount(Loaded(d), st.guid, st.key, newId(st.guid));
    if !Writes(newId, d, st) {
      UnchangedIsTaken(newId, d, st);
    }
  }
}
