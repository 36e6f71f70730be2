/** The SNMPv3 engine identity: engineID and snmpEngineBoots, planned at each service start and
    persisted before they are served. */
module Engine {
  import opened Common
  import opened Json
  import opened AtomicStore

  /** RFC 3414 section 2.2: snmpEngineBoots stops here. */
  const ENGINE_BOOTS_MAX := 2147483647

  datatype State = State(guid: string, id: string, key: int, boots: int)

  /** _new_engine_id: the engineID derived from a machine's guid. Its hash is a parameter. */
  type NewId = string -> string

  datatype Reason = NoIdentity | Renamed | Cloned | Ceiling

  datatype Plan = Plan(state: State, reasons: seq<Reason>)

  /** A JSON true is not a count. */
  function Whole(j: Json): int {
    if j.JInt? then j.n else 0
  }

  function Prior(prev: Json): (doc: Json)
    ensures doc.JObj?
  {
    if prev.JObj? then prev else JObj(map[])
  }

  function PriorBoots(prev: Json): nat {
    Max(0, Whole(Get(Prior(prev), "boots")))
  }

  predicate HasIdentity(prev: Json) {
    var id := Get(Prior(prev), "engine_id");
    id.JStr? && id.text != ""
  }

  /** Decides what the state file should contain next: pure, without clock or disk. */
  function PlanState(prev: Json, guid: string, key: int, freshId: string): Plan {
    var doc := Prior(prev);
    var boots := PriorBoots(prev);
    var (id, counted, reasons) :=
      if !HasIdentity(prev) then (freshId, boots, [NoIdentity])
      else if !PyEq(Get(doc, "machine_guid"), JStr(guid)) then
        (freshId, 0, [if PyEq(Get(doc, "identity_source"), JStr("hostname")) then Renamed else Cloned])
      else if boots >= ENGINE_BOOTS_MAX then (freshId, 0, [Ceiling])
      else (Get(doc, "engine_id").text, boots, []);
    var stepped := if !PyEq(Get(doc, "boot_key"), JInt(key)) then counted + 1 else counted;
    Plan(State(guid, id, key, Max(1, Min(stepped, ENGINE_BOOTS_MAX))), reasons)
  }

  /** The document written to disk; it records where the machine's identity came from. */
  function Document(s: State, source: string): Json {
    JObj(map["schema_version" := JInt(2), "machine_guid" := JStr(s.guid), "engine_id" := JStr(s.id),
             "boot_key" := JInt(s.key), "boots" := JInt(s.boots), "identity_source" := JStr(source)])
  }

  /** A usable state file is a JSON object. */
  function ReadDoc(j: Json): Option<Json> {
    if j.JObj? then Some(j) else None
  }

  function Loaded(d: Disk<Json>): (doc: Json)
    ensures doc.JObj?
  {
    var r := Load(d, ReadDoc);
    if r.Some? then r.value else JObj(map[])
  }

  /** Whether the planned document differs from the one on file. */
  predicate Differs(doc: Json, prev: Json)
    requires doc.JObj? && prev.JObj?
  {
    !SameDict(doc.fields, prev.fields)
  }

  /** What is served when the identity could not be persisted. */
  function Volatile(newId: NewId, guid: string): State {
    State(guid, newId(guid), 0, 1)
  }

  /** The engine as the service holds it: its file, and the state resolved once per process. */
  class EngineService {
    const file: StateFile<Json>
    var cache: Option<State>

    constructor (file: StateFile<Json>)
      ensures this.file == file && cache == None
    {
      this.file := file;
      cache := None;
    }

    /** Resolves the identity. After `steps` steps of persisting it the process may die, or the write may
        raise: then a volatile identity is served, at boots 1, for as long as the process lives. */
    method Resolve(newId: NewId, guid: string, source: string, key: int, steps: nat, bakOk: bool, raises: bool)
      returns (r: Option<State>)
      modifies this, file
      ensures old(cache).Some? ==> r == old(cache) == cache && file.disk == old(file.disk)
      ensures old(cache) == None ==>
                var prev := Loaded(old(file.disk));
                var s := PlanState(prev, guid, key, newId(guid)).state;
                if !Differs(Document(s, source), prev) then
                  file.disk == old(file.disk) && r == cache == Some(s)
                else
                  && file.disk == AfterSteps(old(file.disk), Document(s, source), steps, bakOk)
                  && r == cache ==
                       if steps >= COMMITTED then Some(s)
                       else if raises then Some(State(guid, newId(guid), 0, 1)) else None
    {
      if cache.Some? {
        return cache;
      }
      var found := file.LoadState(ReadDoc);
      var prev := if found.Some? then found.value else JObj(map[]);
      var plan := PlanState(prev, guid, key, newId(guid));
      var doc := Document(plan.state, source);
      if Differs(doc, prev) {
        var committed := file.Save(doc, steps, bakOk);
        if !committed {
          if raises {
            cache := Some(Volatile(newId, guid));
          }
          return cache;
        }
      }
      cache := Some(plan.state);
      return cache;
    }
  }

  // ------------------------------------------------------------------ one start

  /** The file says exactly this state, up to what Python compares as equal. */
  ghost predicate Says(doc: Json, s: State) {
    && doc.JObj?
    && s.id != "" && 1 <= s.boots <= ENGINE_BOOTS_MAX
    && Get(doc, "engine_id") == JStr(s.id)
    && Get(doc, "machine_guid") == JStr(s.guid)
    && PyEq(Get(doc, "boot_key"), JInt(s.key))
    && Get(doc, "boots") == JInt(s.boots)
  }

  lemma DocumentSays(s: State, source: string)
    requires s.id != "" && 1 <= s.boots <= ENGINE_BOOTS_MAX
    ensures Says(Document(s, source), s)
  {
  }

  /** From any prior document at all, the planned count is in the range RFC 3414 allows, and the
      identity and boot key are those of this machine and this boot. */
  lemma PlanIsInRange(prev: Json, guid: string, key: int, freshId: string)
    requires freshId != ""
    ensures var s := PlanState(prev, guid, key, freshId).state;
            1 <= s.boots <= ENGINE_BOOTS_MAX && s.guid == guid && s.key == key && s.id != ""
  {
  }

  /** A restart within one boot, below the ceiling, keeps the pair, and does not touch the file
      when the identity's source is unchanged too. */
  lemma RestartKeepsPair(prev: Json, s: State, source: string, freshId: string)
    requires Says(prev, s) && s.boots < ENGINE_BOOTS_MAX
    ensures PlanState(prev, s.guid, s.key, freshId) == Plan(s, [])
    ensures prev == Document(s, source) ==> !Differs(Document(s, source), prev)
  {
  }

  /** On one machine the fresh id is the old one, since it is derived from the same MachineGuid.
      A start then serves a pair that does not fall behind, and that moves on when the boot key
      changes, exactly when the count on file is below the ceiling. At the ceiling it serves
      boots 1 under the same id. */
  lemma OneMachineStepIff(prev: Json, s: State, key: int)
    requires Says(prev, s)
    ensures var next := PlanState(prev, s.guid, key, s.id).state;
            && next.id == s.id
            && (next.boots >= s.boots && (key != s.key ==> next.boots > s.boots) <==> s.boots < ENGINE_BOOTS_MAX)
            && (s.boots < ENGINE_BOOTS_MAX ==> next.boots == s.boots + if key != s.key then 1 else 0)
            && (s.boots == ENGINE_BOOTS_MAX ==> next.boots == 1)
  {
  }

  /** A concrete regress: a machine at the last count but one serves the ceiling at its next boot
      and boots 1, under the same id, at the boot after that. */
  lemma CeilingRegresses()
    ensures var first := PlanState(Document(State("g", "id", 5, ENGINE_BOOTS_MAX - 1), "machine-guid"), "g", 6, "id");
            var second := PlanState(Document(first.state, "machine-guid"), "g", 7, "id");
            && first == Plan(State("g", "id", 6, ENGINE_BOOTS_MAX), [])
            && second == Plan(State("g", "id", 7, 1), [Ceiling])
  {
    DocumentSays(State("g", "id", 5, ENGINE_BOOTS_MAX - 1), "machine-guid");
    DocumentSays(State("g", "id", 6, ENGINE_BOOTS_MAX), "machine-guid");
  }

  // ----------------------------------------------------------------- the plan by cases

  /** The count a document is read for: any other kind of value, and a negative number, counts as 0. */
  function CountOf(boots: Json): nat {
    if boots.JInt? && boots.n >= 0 then boots.n else 0
  }

  /** A file without an identity keeps its count: the next boot adds one to it, a restart does not. */
  lemma UpgradeKeepsCount(prev: Json, guid: string, key: int, freshId: string)
    requires prev.JObj? && (!Get(prev, "engine_id").JStr? || Get(prev, "engine_id").text == "")
    ensures var n := CountOf(Get(prev, "boots"));
            var step := if PyEq(Get(prev, "boot_key"), JInt(key)) then 0 else 1;
            PlanState(prev, guid, key, freshId) ==
              Plan(State(guid, freshId, key, Max(1, Min(n + step, 2147483647))), [NoIdentity])
  {
  }

  /** An identity made for another guid is replaced, at boots 1; it was a rename exactly when the file
      says that the guid came from the hostname. */
  lemma ForeignGuidStartsOver(prev: Json, guid: string, key: int, freshId: string)
    requires prev.JObj? && Get(prev, "engine_id").JStr? && Get(prev, "engine_id").text != ""
    requires Get(prev, "machine_guid") != JStr(guid)
    ensures PlanState(prev, guid, key, freshId) ==
            Plan(State(guid, freshId, key, 1),
                 [if Get(prev, "identity_source") == JStr("hostname") then Renamed else Cloned])
  {
  }

  /** An identity made for this guid is kept with its count until that reaches the ceiling. */
  lemma OwnGuidGoesOn(prev: Json, guid: string, key: int, freshId: string)
    requires prev.JObj? && Get(prev, "engine_id").JStr? && Get(prev, "engine_id").text != ""
    requires Get(prev, "machine_guid") == JStr(guid)
    ensures var n := CountOf(Get(prev, "boots"));
            var step := if PyEq(Get(prev, "boot_key"), JInt(key)) then 0 else 1;
            PlanState(prev, guid, key, freshId) ==
              if n >= 2147483647 then Plan(State(guid, freshId, key, 1), [Ceiling])
              else Plan(State(guid, Get(prev, "engine_id").text, key, Max(1, n + step)), [])
  {
  }

  /** What is not an object counts as a file that says nothing. */
  lemma NoObjectSaysNothing(prev: Json, guid: string, key: int, freshId: string)
    requires !prev.JObj?
    ensures PlanState(prev, guid, key, freshId) == Plan(State(guid, freshId, key, 1), [NoIdentity])
  {
  }

  /** The source that is recorded with an identity is what tells a rename from a clone later. */
  lemma RecordedSourceDecides(s: State, source: string, guid: string, key: int, freshId: string)
    requires s.id != "" && guid != s.guid
    ensures PlanState(Document(s, source), guid, key, freshId) ==
            Plan(State(guid, freshId, key, 1), [if source == "hostname" then Renamed else Cloned])
  {
    ForeignGuidStartsOver(Document(s, source), guid, key, freshId);
    assert Get(Document(s, source), "identity_source") == JStr(source);
  }
}
