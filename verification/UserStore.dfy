/** The SNMPv3 user store: its document, its load with fallback, and unattended provisioning. */
module UserStore {
  import opened Common
  import opened Json
  import opened AtomicStore

  datatype User = User(name: string, auth: string, priv: string, authKey: Bytes, privKey: Bytes)

  const MIN_PASSPHRASE := 12
  const DEFAULT_AUTH := "SHA-256"
  const DEFAULT_PRIV := "AES-128"

  // --------------------------------------------------------------------- algorithms

  datatype Algorithms = Accepted(warned: bool) | RefusedAuth | RefusedPriv | UnknownAuth | UnknownPriv

  /** Refused names come before unknown ones, and authentication before privacy. */
  function CheckAlgorithms(auth: Json, priv: Json): Algorithms {
    if auth in {JStr("MD5"), JStr("SHA"), JStr("SHA-1")} then RefusedAuth
    else if priv in {JStr("DES"), JStr("3DES")} then RefusedPriv
    else if auth !in {JStr("SHA-224"), JStr("SHA-256"), JStr("SHA-384"), JStr("SHA-512")} then UnknownAuth
    else if priv !in {JStr("AES-128"), JStr("AES-192"), JStr("AES-256")} then UnknownPriv
    else Accepted(priv in {JStr("AES-192"), JStr("AES-256")})
  }

  // ------------------------------------------------------------------ hexadecimal

  function HexDigit(n: nat): char
    requires n < 16
  {
    if n < 10 then ('0' as int + n) as char else ('a' as int + n - 10) as char
  }

  function Hex(b: Bytes): string {
    if b == [] then "" else [HexDigit(b[0] / 16), HexDigit(b[0] % 16)] + Hex(b[1..])
  }

  function Digit(c: char): (d: Option<nat>)
    ensures d.Some? ==> d.value < 16
  {
    if '0' <= c <= '9' then Some(c as int - '0' as int)
    else if 'a' <= c <= 'f' then Some(c as int - 'a' as int + 10)
    else if 'A' <= c <= 'F' then Some(c as int - 'A' as int + 10)
    else None
  }

  predicate IsSpace(c: char) {
    c == ' ' || 9 <= c as int <= 13
  }

  /** bytes.fromhex: pairs of digits, with white space allowed between the pairs. */
  function FromHex(s: string): Option<Bytes> {
    if s == "" then Some([])
    else if IsSpace(s[0]) then FromHex(s[1..])
    else if |s| < 2 then None
    else
      var high :- Digit(s[0]);
      var low :- Digit(s[1]);
      var rest :- FromHex(s[2..]);
      Some([high * 16 + low] + rest)
  }

  lemma HexPair(x: Byte, tail: string, rest: Bytes)
    requires FromHex(tail) == Some(rest)
    ensures FromHex([HexDigit(x / 16), HexDigit(x % 16)] + tail) == Some([x] + rest)
  {
    var s := [HexDigit(x / 16), HexDigit(x % 16)] + tail;
    assert s[2..] == tail;
    assert Digit(s[0]) == Some(x / 16) && Digit(s[1]) == Some(x % 16) && !IsSpace(s[0]);
  }

  lemma {:induction false} HexRoundTrip(b: Bytes)
    ensures FromHex(Hex(b)) == Some(b)
  {
    if b != [] {
      HexRoundTrip(b[1..]);
      HexPair(b[0], Hex(b[1..]), b[1..]);
      assert b == [b[0]] + b[1..];
    }
  }

  lemma HexIsInjective(a: Bytes, b: Bytes)
    requires Hex(a) == Hex(b)
    ensures a == b
  {
    HexRoundTrip(a);
    HexRoundTrip(b);
  }

  // ------------------------------------------------------------------- the document

  function UserEntry(u: User): Json {
    JObj(map["name" := JStr(u.name), "auth" := JStr(u.auth), "priv" := JStr(u.priv),
             "auth_key" := JStr(Hex(u.authKey)), "priv_key" := JStr(Hex(u.privKey))])
  }

  function UserEntries(users: seq<User>): (entries: seq<Json>)
    ensures |entries| == |users|
  {
    seq(|users|, i requires 0 <= i < |users| => UserEntry(users[i]))
  }

  function StoreDocument(engineId: Bytes, users: seq<User>): Json {
    JObj(map["schema_version" := JInt(1), "engine_id" := JStr(Hex(engineId)), "users" := JArr(UserEntries(users))])
  }

  datatype Problem = NotAnObjectStore | OtherEngine | NotAnObject | Skipped

  datatype Parsed = Parsed(users: seq<User>, problems: seq<Problem>)

  /** One entry: a user, or the reason it is skipped. */
  function ParseEntry(e: Json): Option<User> {
    if !e.JObj? then None else
    var name := Get(e, "name");
    if !name.JStr? || name.text == "" then None else
    if !CheckAlgorithms(Get(e, "auth"), Get(e, "priv")).Accepted? then None else
    var authKey, privKey := Get(e, "auth_key"), Get(e, "priv_key");
    if !authKey.JStr? || !privKey.JStr? then None else
    var a :- FromHex(authKey.text);
    var p :- FromHex(privKey.text);
    Some(User(name.text, Get(e, "auth").text, Get(e, "priv").text, a, p))
  }

  function Complaint(e: Json): Problem {
    if e.JObj? then Skipped else NotAnObject
  }

  function ParseEntries(entries: seq<Json>): Parsed {
    if entries == [] then Parsed([], []) else
    var front := ParseEntries(entries[..|entries| - 1]);
    var e := entries[|entries| - 1];
    match ParseEntry(e)
    case Some(u) => Parsed(front.users + [u], front.problems)
    case None => Parsed(front.users, front.problems + [Complaint(e)])
  }

  /** What `data.get("users") or []` iterates over: a list's items, an object's keys, a string's
      characters. Keys and characters are strings, and none of them is a user entry. None stands for
      the TypeError of a value that cannot be iterated over: true, or a number other than zero. */
  function Listed(users: Json): Option<seq<Json>> {
    match users
    case JArr(items) => Some(items)
    case JObj(fields) => Some(seq(|fields|, _ => JStr("")))
    case JStr(text) => Some(seq(|text|, i requires 0 <= i < |text| => JStr([text[i]])))
    case _ => if Numeric(users) in {None, Some(0.0)} then Some([]) else None
  }

  function ParseStore(raw: Json, engineId: Bytes): Option<Parsed> {
    if !raw.JObj? then Some(Parsed([], [NotAnObjectStore]))
    else if Get(raw, "engine_id") != JStr(Hex(engineId)) then Some(Parsed([], [OtherEngine]))
    else
      var entries :- Listed(Get(raw, "users"));
      Some(ParseEntries(entries))
  }

  /** The parser, building its two lists entry by entry; None when it raises. */
  method StoreFromJson(raw: Json, engineId: Bytes) returns (r: Option<Parsed>)
    ensures r == ParseStore(raw, engineId)
  {
    if !raw.JObj? {
      return Some(Parsed([], [NotAnObjectStore]));
    }
    if Get(raw, "engine_id") != JStr(Hex(engineId)) {
      return Some(Parsed([], [OtherEngine]));
    }
    var listed := Listed(Get(raw, "users"));
    if listed == None {
      return None;
    }
    var entries, users, problems := listed.value, [], [];
    for k := 0 to |entries|
      invariant Parsed(users, problems) == ParseEntries(entries[..k])
    {
      assert entries[..k + 1][..k] == entries[..k];
      if !entries[k].JObj? {
        problems := problems + [NotAnObject];
        continue;
      }
      var parsed := ParseEntry(entries[k]);
      match parsed {
        case Some(u) => users := users + [u];
        case None => problems := problems + [Skipped];
      }
    }
    assert entries[..|entries|] == entries;
    return Some(Parsed(users, problems));
  }

  // -------------------------------------------------------------------- save and load

  /** A document is an answer when it yields users, or was understood and holds none. The parser's
      TypeError (an inner None) is not caught, so it is an answer too. */
  function Usable(raw: Json, engineId: Bytes): Option<Option<seq<User>>> {
    match ParseStore(raw, engineId)
    case None => Some(None)
    case Some(p) => if p.users != [] || p.problems == [] then Some(Some(p.users)) else None
  }

  /** The users a load gives; None when it raises. */
  function LoadUsers(d: Disk<Json>, engineId: Bytes): Option<seq<User>> {
    var r := Load(d, raw => Usable(raw, engineId));
    if r.Some? then r.value else Some([])
  }

  /** Tries the store, then its .bak; with neither there are no users. */
  method LoadStore(file: StateFile<Json>, engineId: Bytes) returns (users: Option<seq<User>>)
    ensures users == LoadUsers(file.disk, engineId)
  {
    var candidates := [file.disk.main, file.disk.bak];
    for i := 0 to |candidates|
      invariant forall j :: 0 <= j < i ==> Read(candidates[j], raw => Usable(raw, engineId)) == None
    {
      if candidates[i].Holds? {
        assert i == 1 ==> Read(candidates[0], raw => Usable(raw, engineId)) == None;
        var p := StoreFromJson(candidates[i].value, engineId);
        if p == None {
          assert Usable(candidates[i].value, engineId) == Some(None);
          return None;
        }
        if p.value.users != [] || p.value.problems == [] {
          assert Usable(candidates[i].value, engineId) == Some(Some(p.value.users));
          return Some(p.value.users);
        }
      }
    }
    assert Read(candidates[0], raw => Usable(raw, engineId)) == None;
    assert Read(candidates[1], raw => Usable(raw, engineId)) == None;
    return Some([]);
  }

  /** A user the loader does not skip. */
  predicate ValidUser(u: User) {
    u.name != "" && CheckAlgorithms(JStr(u.auth), JStr(u.priv)).Accepted?
  }

  predicate AllValid(users: seq<User>) {
    forall i :: 0 <= i < |users| ==> ValidUser(users[i])
  }

  function ValidOnly(users: seq<User>): seq<User> {
    if users == [] then [] else
    var front, u := ValidOnly(users[..|users| - 1]), users[|users| - 1];
    if ValidUser(u) then front + [u] else front
  }

  lemma EntryRoundTrip(u: User)
    ensures ParseEntry(UserEntry(u)) == if ValidUser(u) then Some(u) else None
  {
    HexRoundTrip(u.authKey);
    HexRoundTrip(u.privKey);
  }

  /** One more user written is one more entry parsed. */
  lemma EntriesSnoc(front: seq<User>, u: User)
    ensures UserEntries(front + [u]) == UserEntries(front) + [UserEntry(u)]
    ensures var before, after := ParseEntries(UserEntries(front)), ParseEntries(UserEntries(front + [u]));
            after == if ValidUser(u) then Parsed(before.users + [u], before.problems)
                     else Parsed(before.users, before.problems + [Skipped])
  {
    var entries := UserEntries(front + [u]);
    assert entries[..|front|] == UserEntries(front);
    EntryRoundTrip(u);
    hide ParseEntry, ValidUser;
  }

  lemma {:induction false} EntriesRoundTrip(users: seq<User>)
    ensures ParseEntries(UserEntries(users)).users == ValidOnly(users)
    ensures ParseEntries(UserEntries(users)).problems == [] <==> AllValid(users)
  {
    hide ParseEntry, ValidUser;
    if users != [] {
      var front, u := users[..|users| - 1], users[|users| - 1];
      EntriesRoundTrip(front);
      EntriesSnoc(front, u);
      assert users == front + [u];
      hide ParseEntries;
    }
  }

  lemma {:induction false} AllValidStay(users: seq<User>)
    requires AllValid(users)
    ensures ValidOnly(users) == users
  {
    if users != [] {
      AllValidStay(users[..|users| - 1]);
      assert users == users[..|users| - 1] + [users[|users| - 1]];
    }
  }

  lemma {:induction false} NoneValid(users: seq<User>)
    ensures ValidOnly(users) == [] <==> forall i :: 0 <= i < |users| ==> !ValidUser(users[i])
  {
    if users != [] {
      NoneValid(users[..|users| - 1]);
    }
  }

  /** A stored document is an answer for its own engine when it holds no user at all, or a valid
      one; and it is never one for another engine. */
  lemma DocumentUsable(engineId: Bytes, users: seq<User>, reader: Bytes)
    ensures Usable(StoreDocument(engineId, users), reader) ==
            if reader == engineId && (users == [] || ValidOnly(users) != []) then Some(Some(ValidOnly(users))) else None
  {
    var doc := StoreDocument(engineId, users);
    assert Get(doc, "engine_id") == JStr(Hex(engineId)) && Get(doc, "users") == JArr(UserEntries(users));
    if reader != engineId && Hex(reader) == Hex(engineId) {
      HexIsInjective(reader, engineId);
    }
    EntriesRoundTrip(users);
    NoneValid(users);
    assert users != [] && AllValid(users) ==> ValidUser(users[0]);
  }

  /** A save of valid users loads back exactly, the empty list included, whatever the .bak holds. */
  lemma SaveThenLoad(d: Disk<Json>, engineId: Bytes, users: seq<User>, bakOk: bool)
    requires AllValid(users)
    ensures LoadUsers(AfterSteps(d, StoreDocument(engineId, users), COMMITTED, bakOk), engineId) == Some(users)
  {
    DocumentUsable(engineId, users, engineId);
    AllValidStay(users);
    NoneValid(users);
    assert users != [] ==> ValidUser(users[0]);
  }

  /** A saved list loads back as its valid users, whatever was on disk before, exactly when it is
      empty or has a valid user: a list of invalid users only lets the previous store come back. */
  lemma SaveThenLoadIff(engineId: Bytes, users: seq<User>)
    ensures (forall d, bakOk ::
               LoadUsers(AfterSteps(d, StoreDocument(engineId, users), COMMITTED, bakOk), engineId) ==
               Some(ValidOnly(users))) <==>
            users == [] || ValidOnly(users) != []
  {
    if users != [] && ValidOnly(users) == [] {
      var d, before := PreviousStoreComesBack(engineId, users);
      assert LoadUsers(AfterSteps(d, StoreDocument(engineId, users), COMMITTED, true), engineId) == Some(before);
    } else {
      DocumentUsable(engineId, users, engineId);
    }
  }

  /** A save of an unusable document lets what was current before it come back. */
  lemma UnusableFallsBack(before: Json, doc: Json, engineId: Bytes, users: seq<User>) returns (d: Disk<Json>)
    requires Usable(before, engineId) == Some(Some(users)) && Usable(doc, engineId) == None
    ensures LoadUsers(AfterSteps(d, doc, COMMITTED, true), engineId) == Some(users)
  {
    hide Usable;
    d := Disk(Holds(before), Missing, Missing);
  }

  lemma PreviousStoreComesBack(engineId: Bytes, users: seq<User>) returns (d: Disk<Json>, before: seq<User>)
    requires users != [] && ValidOnly(users) == []
    ensures before != []
    ensures LoadUsers(AfterSteps(d, StoreDocument(engineId, users), COMMITTED, true), engineId) == Some(before)
  {
    before := [User("u", DEFAULT_AUTH, DEFAULT_PRIV, [], [])];
    assert Usable(StoreDocument(engineId, before), engineId) == Some(Some(before)) by {
      AllValidStay(before);
      DocumentUsable(engineId, before, engineId);
    }
    assert Usable(StoreDocument(engineId, users), engineId) == None by {
      DocumentUsable(engineId, users, engineId);
    }
    hide Usable, StoreDocument;
    d := UnusableFallsBack(StoreDocument(engineId, before), StoreDocument(engineId, users), engineId, before);
  }

  /** What the save of a disk keeps as its .bak. */
  function Kept(d: Disk<Json>, bakOk: bool): File<Json> {
    if d.main.Missing? || !bakOk then d.bak else d.main
  }

  /** Another engine gets none of the users just saved: only what an older copy in the .bak holds for
      that engine. So it gets none exactly when that copy is no answer for it, or an empty one. */
  lemma OtherEngineGetsNoneIff(d: Disk<Json>, engineId: Bytes, reader: Bytes, users: seq<User>, bakOk: bool)
    requires reader != engineId
    ensures var older := Read(Kept(d, bakOk), raw => Usable(raw, reader));
            var got := LoadUsers(AfterSteps(d, StoreDocument(engineId, users), COMMITTED, bakOk), reader);
            && got == (if older.Some? then older.value else Some([]))
            && (got == Some([]) <==> older in {None, Some(Some([]))})
  {
    DocumentUsable(engineId, users, reader);
  }

  /** A concrete such copy: the store of one engine is saved over that of another, and the other engine
      still loads its own user. */
  lemma OlderEngineStillLoads()
    ensures var u := User("u", DEFAULT_AUTH, DEFAULT_PRIV, [1], [2]);
            var d: Disk<Json> := Disk(Holds(StoreDocument([7], [u])), Missing, Missing);
            LoadUsers(AfterSteps(d, StoreDocument([8], []), COMMITTED, true), [7]) == Some([u])
  {
    var users := [User("u", DEFAULT_AUTH, DEFAULT_PRIV, [1], [2])];
    var d: Disk<Json> := Disk(Holds(StoreDocument([7], users)), Missing, Missing);
    AllValidStay(users);
    DocumentUsable([7], users, [7]);
    hide StoreDocument, Usable;
    OtherEngineGetsNoneIff(d, [8], [7], [], true);
  }

  // -------------------------------------------------------------------- provisioning

  /** An entry of the provisioning file; a name has been stripped of white space. */
  datatype Entry = Entry(name: string, auth: Option<string>, priv: Option<string>, authPass: string, privPass: string)

  type Localize = (string, string, string, string, Bytes) -> (Bytes, Bytes)

  function AuthOf(e: Entry): string {
    if e.auth.Some? then e.auth.value else DEFAULT_AUTH
  }

  function PrivOf(e: Entry): string {
    if e.priv.Some? then e.priv.value else DEFAULT_PRIV
  }

  /** The user an entry describes, or None when the entry is refused. */
  function UserOf(e: Entry, localize: Localize, engineId: Bytes): Option<User> {
    if e.name == "" then None
    else if !CheckAlgorithms(JStr(AuthOf(e)), JStr(PrivOf(e))).Accepted? then None
    else if |e.authPass| < MIN_PASSPHRASE || |e.privPass| < MIN_PASSPHRASE then None
    else if e.authPass == e.privPass then None
    else
      var keys := localize(AuthOf(e), PrivOf(e), e.authPass, e.privPass, engineId);
      Some(User(e.name, AuthOf(e), PrivOf(e), keys.0, keys.1))
  }

  /** Assignment to a dict: a known name keeps its place, a new one goes to the end. */
  function Put(users: seq<User>, u: User): seq<User> {
    if users == [] then [u]
    else if users[0].name == u.name then [u] + users[1..]
    else [users[0]] + Put(users[1..], u)
  }

  function PutAll(users: seq<User>, more: seq<User>): seq<User>
    decreases |more|
  {
    if more == [] then users else PutAll(Put(users, more[0]), more[1..])
  }

  /** The users the entries describe, in order. */
  function Accept(entries: seq<Entry>, localize: Localize, engineId: Bytes): seq<User> {
    if entries == [] then [] else
    match UserOf(entries[0], localize, engineId)
    case Some(u) => [u] + Accept(entries[1..], localize, engineId)
    case None => Accept(entries[1..], localize, engineId)
  }

  /** The store's users after provisioning. */
  function Provision(existing: seq<User>, entries: seq<Entry>, localize: Localize, engineId: Bytes): seq<User> {
    PutAll(PutAll([], existing), Accept(entries, localize, engineId))
  }

  /** The entries before the first that is not an object: `entry.get` raises there. */
  function Readable(entries: seq<Option<Entry>>): seq<Entry> {
    if entries == [] || entries[0] == None then [] else [entries[0].value] + Readable(entries[1..])
  }

  /** What consuming a file returns and leaves on disk. */
  datatype Consumed = Consumed(added: nat, disk: Disk<Json>)

  /** Load, merge, save when something was added. An entry that is not an object (None), or a store that
      cannot be iterated over, ends it without a save. */
  function Consume(d: Disk<Json>, entries: seq<Option<Entry>>, localize: Localize, engineId: Bytes,
                   steps: nat, bakOk: bool): Consumed {
    match LoadUsers(d, engineId)
    case None => Consumed(0, d)
    case Some(existing) =>
      var read := Readable(entries);
      var accepted := Accept(read, localize, engineId);
      if accepted == [] || |read| != |entries| then Consumed(|accepted|, d)
      else
        var doc := StoreDocument(engineId, Provision(existing, read, localize, engineId));
        Consumed(|accepted|, AfterSteps(d, doc, steps, bakOk))
  }

  /** Consumes a provisioning file. */
  method ConsumeProvisioning(file: StateFile<Json>, entries: seq<Option<Entry>>, localize: Localize, engineId: Bytes,
                             steps: nat, bakOk: bool) returns (added: nat)
    modifies file
    ensures Consumed(added, file.disk) == Consume(old(file.disk), entries, localize, engineId, steps, bakOk)
  {
    added := 0;
    var existing := LoadStore(file, engineId);
    if existing == None {
      return;
    }
    var byName := PutAll([], existing.value);
    ghost var read := Readable(entries);
    for k := 0 to |entries|
      invariant file.disk == old(file.disk)
      invariant k <= |read| && forall j :: 0 <= j < k ==> entries[j].Some?
      invariant PutAll(byName, Accept(read[k..], localize, engineId)) ==
                Provision(existing.value, read, localize, engineId)
      invariant added + |Accept(read[k..], localize, engineId)| == |Accept(read, localize, engineId)|
    {
      ReadableReaches(entries, k);
      if entries[k] == None {
        assert read[k..] == [];
        return;
      }
      assert read[k..][1..] == read[k + 1..];
      match UserOf(entries[k].value, localize, engineId) {
        case Some(u) =>
          AcceptCons(read[k..], localize, engineId);
          byName := Put(byName, u);
          added := added + 1;
        case None =>
      }
    }
    ReadableReaches(entries, |entries|);
    assert read[|entries|..] == [];
    if added > 0 {
      var _ := file.Save(StoreDocument(engineId, byName), steps, bakOk);
    }
  }

  lemma {:induction false} ReadableReaches(entries: seq<Option<Entry>>, k: nat)
    requires k <= |entries| && forall j :: 0 <= j < k ==> entries[j].Some?
    ensures k <= |Readable(entries)| <= |entries|
    ensures k < |entries| && entries[k] == None ==> |Readable(entries)| == k
    ensures k < |entries| && entries[k].Some? ==>
              k < |Readable(entries)| && Readable(entries)[k] == entries[k].value
    decreases k
  {
    ReadableIsShorter(entries);
    if k > 0 {
      ReadableReaches(entries[1..], k - 1);
    }
  }

  lemma {:induction false} ReadableIsShorter(entries: seq<Option<Entry>>)
    ensures |Readable(entries)| <= |entries|
  {
    if entries != [] {
      ReadableIsShorter(entries[1..]);
    }
  }

  lemma AcceptCons(entries: seq<Entry>, localize: Localize, engineId: Bytes)
    requires entries != [] && UserOf(entries[0], localize, engineId).Some?
    ensures Accept(entries, localize, engineId) ==
            [UserOf(entries[0], localize, engineId).value] + Accept(entries[1..], localize, engineId)
    ensures Accept(entries, localize, engineId)[1..] == Accept(entries[1..], localize, engineId)
  {
  }

  function Find(users: seq<User>, name: string): Option<User> {
    if users == [] then None
    else if users[0].name == name then Some(users[0])
    else Find(users[1..], name)
  }

  /** The last user of that name. */
  function FindLast(users: seq<User>, name: string): Option<User> {
    if users == [] then None
    else if users[|users| - 1].name == name then Some(users[|users| - 1])
    else FindLast(users[..|users| - 1], name)
  }

  ghost predicate Distinct(users: seq<User>) {
    forall i, j :: 0 <= i < j < |users| ==> users[i].name != users[j].name
  }

  lemma {:induction false} FindIn(users: seq<User>, name: string)
    ensures Find(users, name).Some? <==> exists i :: 0 <= i < |users| && users[i].name == name
    ensures Find(users, name).Some? ==> Find(users, name).value in users && Find(users, name).value.name == name
  {
    if users != [] && users[0].name != name {
      FindIn(users[1..], name);
      if i :| 0 <= i < |users| && users[i].name == name {
        assert users[1..][i - 1].name == name;
      }
    }
  }

  lemma {:induction false} PutFinds(users: seq<User>, u: User, name: string)
    ensures Find(Put(users, u), name) == if name == u.name then Some(u) else Find(users, name)
  {
    if users != [] && users[0].name != u.name {
      PutFinds(users[1..], u, name);
    }
  }

  lemma {:induction false} PutKeepsDistinct(users: seq<User>, u: User)
    requires Distinct(users)
    ensures Distinct(Put(users, u))
    ensures forall x :: x in Put(users, u) ==> x == u || x in users
  {
    if users != [] && users[0].name != u.name {
      PutKeepsDistinct(users[1..], u);
      var rest := Put(users[1..], u);
      forall j | 0 <= j < |rest| ensures rest[j].name != users[0].name {
        assert rest[j] in rest;
      }
    }
  }

  lemma {:induction false} FindLastFirst(users: seq<User>, name: string)
    requires users != []
    ensures FindLast(users, name) ==
            if FindLast(users[1..], name).Some? then FindLast(users[1..], name)
            else if users[0].name == name then Some(users[0]) else None
    decreases |users|
  {
    var n := |users| - 1;
    if n > 0 && users[n].name != name {
      FindLastFirst(users[..n], name);
      assert users[..n][1..] == users[1..][..n - 1];
    }
  }

  /** The last one put under a name wins; names not put keep what they had. */
  lemma {:induction false} PutAllFinds(users: seq<User>, more: seq<User>, name: string)
    ensures Find(PutAll(users, more), name) ==
            if FindLast(more, name).Some? then FindLast(more, name) else Find(users, name)
    decreases |more|
  {
    if more != [] {
      PutAllFinds(Put(users, more[0]), more[1..], name);
      PutFinds(users, more[0], name);
      FindLastFirst(more, name);
    }
  }

  lemma {:induction false} PutAllKeepsDistinct(users: seq<User>, more: seq<User>)
    requires Distinct(users)
    ensures Distinct(PutAll(users, more))
    ensures forall x :: x in PutAll(users, more) ==> x in users || x in more
    decreases |more|
  {
    if more != [] {
      PutKeepsDistinct(users, more[0]);
      PutAllKeepsDistinct(Put(users, more[0]), more[1..]);
    }
  }

  /** Users the file does not name are kept as they were; for a name it does, its last valid entry
      wins. */
  lemma ProvisioningMerges(existing: seq<User>, entries: seq<Entry>, localize: Localize, engineId: Bytes, name: string)
    ensures var accepted := Accept(entries, localize, engineId);
            Find(Provision(existing, entries, localize, engineId), name) ==
              if FindLast(accepted, name).Some? then FindLast(accepted, name) else FindLast(existing, name)
  {
    PutAllFinds(PutAll([], existing), Accept(entries, localize, engineId), name);
    PutAllFinds([], existing, name);
  }

  ghost predicate SameNames(a: seq<User>, b: seq<User>) {
    |a| == |b| && forall i :: 0 <= i < |a| ==> a[i].name == b[i].name
  }

  lemma {:induction false} PutKnownKeepsNames(users: seq<User>, u: User)
    requires Find(users, u.name).Some?
    ensures SameNames(users, Put(users, u))
  {
    if users[0].name != u.name {
      PutKnownKeepsNames(users[1..], u);
    }
  }

  lemma {:induction false} PutAllKnownKeepsNames(users: seq<User>, more: seq<User>)
    requires forall i :: 0 <= i < |more| ==> Find(users, more[i].name).Some?
    ensures SameNames(users, PutAll(users, more))
    decreases |more|
  {
    if more != [] {
      PutKnownKeepsNames(users, more[0]);
      forall i | 0 <= i < |more| - 1 ensures Find(Put(users, more[0]), more[1..][i].name).Some? {
        PutFinds(users, more[0], more[i + 1].name);
      }
      PutAllKnownKeepsNames(Put(users, more[0]), more[1..]);
    }
  }

  lemma {:induction false} FindAt(users: seq<User>, i: nat)
    requires Distinct(users) && i < |users|
    ensures Find(users, users[i].name) == Some(users[i])
  {
    if i > 0 {
      FindAt(users[1..], i - 1);
    }
  }

  /** Distinct lists with the same names in the same places and the same user under each name. */
  lemma SameByName(a: seq<User>, b: seq<User>)
    requires Distinct(a) && Distinct(b) && SameNames(a, b)
    requires forall i :: 0 <= i < |a| ==> Find(a, a[i].name) == Find(b, a[i].name)
    ensures a == b
  {
    forall i | 0 <= i < |a| ensures a[i] == b[i] {
      FindAt(a, i);
      FindAt(b, i);
    }
  }

  lemma {:induction false} LastIsFound(users: seq<User>, i: nat)
    requires i < |users|
    ensures FindLast(users, users[i].name).Some?
    decreases |users|
  {
    var n := |users| - 1;
    if users[n].name != users[i].name {
      LastIsFound(users[..n], i);
    }
  }

  /** A list of distinct names survives being rebuilt as a dict. */
  lemma {:induction false} PutNewAppends(users: seq<User>, u: User)
    requires Find(users, u.name) == None
    ensures Put(users, u) == users + [u]
  {
    if users != [] {
      PutNewAppends(users[1..], u);
    }
  }

  lemma {:induction false} RebuildIsIdentity(front: seq<User>, back: seq<User>)
    requires Distinct(front + back)
    ensures PutAll(front, back) == front + back
    decreases |back|
  {
    if back == [] {
      assert front + back == front;
    } else {
      FindIn(front, back[0].name);
      forall i | 0 <= i < |front| ensures front[i].name != back[0].name {
        assert (front + back)[i].name != (front + back)[|front|].name;
      }
      PutNewAppends(front, back[0]);
      assert (front + [back[0]]) + back[1..] == front + back;
      RebuildIsIdentity(front + [back[0]], back[1..]);
    }
  }

  /** A roll-out that is re-run converges: consuming the same file again changes nothing. */
  lemma ProvisioningIsIdempotent(existing: seq<User>, entries: seq<Entry>, localize: Localize, engineId: Bytes)
    ensures var once := Provision(existing, entries, localize, engineId);
            Provision(once, entries, localize, engineId) == once
  {
    var accepted := Accept(entries, localize, engineId);
    var once := Provision(existing, entries, localize, engineId);
    PutAllKeepsDistinct([], existing);
    PutAllKeepsDistinct(PutAll([], existing), accepted);
    assert [] + once == once;
    RebuildIsIdentity([], once);
    forall i | 0 <= i < |accepted| ensures Find(once, accepted[i].name).Some? {
      LastIsFound(accepted, i);
      PutAllFinds(PutAll([], existing), accepted, accepted[i].name);
    }
    var twice := PutAll(once, accepted);
    PutAllKnownKeepsNames(once, accepted);
    PutAllKeepsDistinct(once, accepted);
    forall i | 0 <= i < |once| ensures Find(once, once[i].name) == Find(twice, once[i].name) {
      PutAllFinds(PutAll([], existing), accepted, once[i].name);
      PutAllFinds(once, accepted, once[i].name);
    }
    SameByName(once, twice);
  }

  lemma {:induction false} AcceptedAreValid(entries: seq<Entry>, localize: Localize, engineId: Bytes)
    ensures AllValid(Accept(entries, localize, engineId))
  {
    if entries != [] {
      AcceptedAreValid(entries[1..], localize, engineId);
    }
  }

  lemma {:induction false} ParsedAreValid(entries: seq<Json>)
    ensures AllValid(ParseEntries(entries).users)
  {
    if entries != [] {
      ParsedAreValid(entries[..|entries| - 1]);
    }
  }

  lemma UsableAreValid(raw: Json, engineId: Bytes)
    ensures Usable(raw, engineId).Some? && Usable(raw, engineId).value.Some? ==>
              AllValid(Usable(raw, engineId).value.value)
  {
    if raw.JObj? && Listed(Get(raw, "users")).Some? {
      ParsedAreValid(Listed(Get(raw, "users")).value);
    }
  }

  lemma LoadedAreValid(d: Disk<Json>, engineId: Bytes)
    requires LoadUsers(d, engineId).Some?
    ensures AllValid(LoadUsers(d, engineId).value)
  {
    if d.main.Holds? {
      UsableAreValid(d.main.value, engineId);
    }
    if d.bak.Holds? {
      UsableAreValid(d.bak.value, engineId);
    }
  }

  /** Whatever is on disk, nobody loads with a broken or unknown algorithm: such a user is dropped and
      not downgraded. */
  lemma LoadedUsersAreStrong(d: Disk<Json>, engineId: Bytes, u: User)
    requires LoadUsers(d, engineId).Some? && u in LoadUsers(d, engineId).value
    ensures u.name != ""
    ensures u.auth in {"SHA-224", "SHA-256", "SHA-384", "SHA-512"} && u.priv in {"AES-128", "AES-192", "AES-256"}
  {
    LoadedAreValid(d, engineId);
    var users := LoadUsers(d, engineId).value;
    var i :| 0 <= i < |users| && users[i] == u;
    assert ValidUser(users[i]);
  }

  /** After provisioning was saved, the next start loads exactly the merged users. */
  lemma ProvisionedUsersLoad(d: Disk<Json>, entries: seq<Entry>, localize: Localize, engineId: Bytes, bakOk: bool)
    requires LoadUsers(d, engineId).Some?
    ensures var merged := Provision(LoadUsers(d, engineId).value, entries, localize, engineId);
            LoadUsers(AfterSteps(d, StoreDocument(engineId, merged), COMMITTED, bakOk), engineId) == Some(merged)
  {
    var existing, accepted := LoadUsers(d, engineId).value, Accept(entries, localize, engineId);
    var merged := Provision(existing, entries, localize, engineId);
    LoadedAreValid(d, engineId);
    AcceptedAreValid(entries, localize, engineId);
    PutAllKeepsDistinct([], existing);
    PutAllKeepsDistinct(PutAll([], existing), accepted);
    forall i | 0 <= i < |merged| ensures ValidUser(merged[i]) {
      assert merged[i] in merged;
    }
    SaveThenLoad(d, engineId, merged, bakOk);
  }

  /** Every user counted is one that the next load gives: for each name, its last valid entry. */
  ghost predicate CountedAreStored(c: Consumed, accepted: seq<User>, engineId: Bytes) {
    && LoadUsers(c.disk, engineId).Some?
    && forall name :: FindLast(accepted, name).Some? ==>
         Find(LoadUsers(c.disk, engineId).value, name) == FindLast(accepted, name)
  }

  lemma SavedAreStored(d: Disk<Json>, entries: seq<Option<Entry>>, localize: Localize, engineId: Bytes, bakOk: bool)
    requires LoadUsers(d, engineId).Some? && |Readable(entries)| == |entries|
    ensures CountedAreStored(Consume(d, entries, localize, engineId, COMMITTED, bakOk),
                             Accept(Readable(entries), localize, engineId), engineId)
  {
    var existing, read := LoadUsers(d, engineId).value, Readable(entries);
    ProvisionedUsersLoad(d, read, localize, engineId, bakOk);
    forall name | FindLast(Accept(read, localize, engineId), name).Some?
      ensures Find(Provision(existing, read, localize, engineId), name) ==
              FindLast(Accept(read, localize, engineId), name)
    {
      ProvisioningMerges(existing, read, localize, engineId, name);
    }
    hide Provision, LoadUsers, StoreDocument, AfterSteps;
  }

  lemma NoStoreNoUsers(entries: seq<Option<Entry>>, localize: Localize, engineId: Bytes)
    requires |Readable(entries)| != |entries| && Accept(Readable(entries), localize, engineId) != []
    ensures var d: Disk<Json> := Disk(Missing, Missing, Missing);
            LoadUsers(d, engineId) == Some([]) &&
            !CountedAreStored(Consume(d, entries, localize, engineId, COMMITTED, true),
                              Accept(Readable(entries), localize, engineId), engineId)
  {
    LastIsFound(Accept(Readable(entries), localize, engineId), 0);
  }

  /** Over every store that loads, with a save that completes: the users counted are all stored exactly
      when every entry is an object, or none before the first that is not was accepted. */
  lemma CountedAreStoredIff(entries: seq<Option<Entry>>, localize: Localize, engineId: Bytes)
    ensures (forall d, bakOk | LoadUsers(d, engineId).Some? ::
               CountedAreStored(Consume(d, entries, localize, engineId, COMMITTED, bakOk),
                                Accept(Readable(entries), localize, engineId), engineId)) <==>
            None !in entries || Accept(Readable(entries), localize, engineId) == []
  {
    ReadableStops(entries);
    if |Readable(entries)| == |entries| {
      forall d, bakOk | LoadUsers(d, engineId).Some?
        ensures CountedAreStored(Consume(d, entries, localize, engineId, COMMITTED, bakOk),
                                 Accept(Readable(entries), localize, engineId), engineId)
      {
        SavedAreStored(d, entries, localize, engineId, bakOk);
      }
    } else if Accept(Readable(entries), localize, engineId) != [] {
      NoStoreNoUsers(entries, localize, engineId);
    }
  }

  lemma {:induction false} ReadableStops(entries: seq<Option<Entry>>)
    ensures |Readable(entries)| == |entries| <==> None !in entries
  {
    if entries != [] && entries[0].Some? {
      ReadableStops(entries[1..]);
      assert entries == [entries[0]] + entries[1..];
    }
  }

  /** A concrete file: one valid user, and an entry that is not an object. One user is counted, and the
      store stays empty. */
  lemma OneBadEntryStoresNothing(localize: Localize)
    ensures var e := Entry("u", None, None, "a passphrase", "another one!");
            var d: Disk<Json> := Disk(Missing, Missing, Missing);
            Consume(d, [Some(e), None], localize, [7], COMMITTED, true) == Consumed(1, d)
  {
    var e := Entry("u", None, None, "a passphrase", "another one!");
    var entries := [Some(e), None];
    assert entries[1..] == [None];
    assert Readable(entries) == [e] by { assert Readable([None]) == []; }
    assert e.authPass[0] == 'a' && e.authPass[1] != e.privPass[1];
    assert [e][1..] == [] && |Accept([e], localize, [7])| == 1;
  }

  // --------------------------------------------------------------- what one entry stores

  /** An entry that is accepted: it has a name, an authentication and a privacy algorithm out of those
      below (SHA-256 and AES-128 when it names none), and two different passphrases of 12 or more. */
  predicate Provisionable(e: Entry) {
    && e.name != ""
    && (e.auth.Some? ==> e.auth.value in {"SHA-224", "SHA-256", "SHA-384", "SHA-512"})
    && (e.priv.Some? ==> e.priv.value in {"AES-128", "AES-192", "AES-256"})
    && |e.authPass| >= 12 && |e.privPass| >= 12 && e.authPass != e.privPass
  }

  /** The user of an entry: its own algorithms, and each localized key in its own place. */
  function Provisioned(e: Entry, localize: Localize, engineId: Bytes): User {
    var auth := match e.auth case None => "SHA-256" case Some(a) => a;
    var priv := match e.priv case None => "AES-128" case Some(p) => p;
    var (authKey, privKey) := localize(auth, priv, e.authPass, e.privPass, engineId);
    User(e.name, auth, priv, authKey, privKey)
  }

  lemma UserOfIff(e: Entry, localize: Localize, engineId: Bytes)
    ensures UserOf(e, localize, engineId) ==
            if Provisionable(e) then Some(Provisioned(e, localize, engineId)) else None
  {
  }

  /** Over any store that loads, a file of one entry with a completed save: the entry is counted, and the
      next load holds under its name exactly the user it describes, if it is accepted; otherwise nothing
      is counted and nothing changes. */
  lemma OneEntryIsStoredIff(d: Disk<Json>, e: Entry, localize: Localize, engineId: Bytes, bakOk: bool)
    requires LoadUsers(d, engineId).Some?
    ensures var c := Consume(d, [Some(e)], localize, engineId, COMMITTED, bakOk);
            && (c.added == 1 <==> Provisionable(e))
            && (!Provisionable(e) ==> c == Consumed(0, d))
            && (Provisionable(e) ==>
                  && LoadUsers(c.disk, engineId).Some?
                  && Provisioned(e, localize, engineId) in LoadUsers(c.disk, engineId).value
                  && forall u :: u in LoadUsers(c.disk, engineId).value && u.name == e.name ==>
                       u == Provisioned(e, localize, engineId))
  {
    UserOfIff(e, localize, engineId);
    var existing := LoadUsers(d, engineId).value;
    assert [Some(e)][1..] == [] && [e][1..] == [];
    assert Readable([Some(e)]) == [e];
    if Provisionable(e) {
      var u := Provisioned(e, localize, engineId);
      assert Accept([e], localize, engineId) == [u];
      ProvisionedUsersLoad(d, [e], localize, engineId, bakOk);
      OneIsMerged(existing, e, localize, engineId);
    } else {
      assert Accept([e], localize, engineId) == [];
    }
  }

  lemma OneIsMerged(existing: seq<User>, e: Entry, localize: Localize, engineId: Bytes)
    requires Accept([e], localize, engineId) == [Provisioned(e, localize, engineId)]
    ensures var merged, u := Provision(existing, [e], localize, engineId), Provisioned(e, localize, engineId);
            u in merged && forall x :: x in merged && x.name == e.name ==> x == u
  {
    var merged, u := Provision(existing, [e], localize, engineId), Provisioned(e, localize, engineId);
    ProvisioningMerges(existing, [e], localize, engineId, e.name);
    FindIn(merged, e.name);
    PutAllKeepsDistinct([], existing);
    PutAllKeepsDistinct(PutAll([], existing), [u]);
    forall x | x in merged && x.name == e.name ensures x == u {
      var i :| 0 <= i < |merged| && merged[i] == x;
      FindAt(merged, i);
    }
  }

  /** Every pair of names, and what it is told. */
  lemma AlgorithmsByCases(auth: Json, priv: Json)
    ensures var weakAuth, weakPriv := {JStr("MD5"), JStr("SHA"), JStr("SHA-1")}, {JStr("DES"), JStr("3DES")};
            var sha := {JStr("SHA-224"), JStr("SHA-256"), JStr("SHA-384"), JStr("SHA-512")};
            var aes := {JStr("AES-128"), JStr("AES-192"), JStr("AES-256")};
            var r := CheckAlgorithms(auth, priv);
            && (r.Accepted? <==> auth in sha && priv in aes)
            && (r.Accepted? ==> (r.warned <==> priv != JStr("AES-128")))
            && (r.RefusedAuth? <==> auth in weakAuth)
            && (r.RefusedPriv? <==> auth !in weakAuth && priv in weakPriv)
            && (r.UnknownAuth? <==> auth !in weakAuth + sha && priv !in weakPriv)
  {
  }

  // ------------------------------------------------------------- what one document holds

  /** A stored entry is a user exactly when it is an object with a non-empty name, accepted algorithms and
      two keys in hexadecimal. */
  lemma EntryIsUserIff(e: Json, u: User)
    ensures ParseEntry(e) == Some(u) <==>
            && e.JObj? && Get(e, "name") == JStr(u.name) && u.name != ""
            && Get(e, "auth") == JStr(u.auth) && u.auth in {"SHA-224", "SHA-256", "SHA-384", "SHA-512"}
            && Get(e, "priv") == JStr(u.priv) && u.priv in {"AES-128", "AES-192", "AES-256"}
            && Get(e, "auth_key").JStr? && FromHex(Get(e, "auth_key").text) == Some(u.authKey)
            && Get(e, "priv_key").JStr? && FromHex(Get(e, "priv_key").text) == Some(u.privKey)
  {
  }

  /** One bad entry does not take the good ones with it: a document of this engine gives its users, and it
      is no answer only when there is none and something was wrong. */
  lemma GoodEntriesAreKept(raw: Json, engineId: Bytes, entries: seq<Json>)
    requires raw.JObj? && Get(raw, "engine_id") == JStr(Hex(engineId)) && Get(raw, "users") == JArr(entries)
    ensures Usable(raw, engineId) ==
            if ParseEntries(entries).users == [] && entries != [] then None
            else Some(Some(ParseEntries(entries).users))
    ensures forall u :: u in ParseEntries(entries).users <==> exists e :: e in entries && ParseEntry(e) == Some(u)
  {
    EntriesCount(entries);
    UsersAreParsed(entries);
  }

  lemma {:induction false} EntriesCount(entries: seq<Json>)
    ensures |ParseEntries(entries).users| + |ParseEntries(entries).problems| == |entries|
  {
    if entries != [] {
      EntriesCount(entries[..|entries| - 1]);
    }
  }

  lemma {:induction false} UsersAreParsed(entries: seq<Json>)
    ensures forall u :: u in ParseEntries(entries).users <==> exists e :: e in entries && ParseEntry(e) == Some(u)
  {
    if entries != [] {
      var front, last := entries[..|entries| - 1], entries[|entries| - 1];
      UsersAreParsed(front);
      assert entries == front + [last];
      hide ParseEntry;
    }
  }

  lemma {:induction false} NoUserFromOddEntries(entries: seq<Json>)
    requires forall e :: e in entries ==> !e.JObj?
    ensures ParseEntries(entries).users == []
  {
    if entries != [] {
      NoUserFromOddEntries(entries[..|entries| - 1]);
      assert entries[|entries| - 1] in entries;
    }
  }

  /** What stands in place of a list: nothing at all (a missing field, null, false, a zero, an empty string
      or object) is an empty store, a string or an object is damage, true or another number raises. */
  lemma OddUsersFields(raw: Json, engineId: Bytes)
    requires raw.JObj? && Get(raw, "engine_id") == JStr(Hex(engineId)) && !Get(raw, "users").JArr?
    ensures var f := Get(raw, "users");
            Usable(raw, engineId) ==
              if f in {JNull, JBool(false), JInt(0), JFloat(0.0), JStr(""), JObj(map[])} then Some(Some([]))
              else if f.JStr? || f.JObj? then None
              else Some(None)
  {
    var f := Get(raw, "users");
    if f.JStr? || f.JObj? {
      var listed := Listed(f).value;
      EntriesCount(listed);
      assert ParseEntries(listed).users == [] by { NoUserFromOddEntries(listed); }
      if f.JObj? && f.fields != map[] {
        var k :| k in f.fields;
        assert k in f.fields.Keys;
      }
    }
  }

  lemma PairReads(c: char, d: char, high: nat, low: nat)
    requires high < 16 && low < 16 && Digit(c) == Some(high) && Digit(d) == Some(low) && !IsSpace(c)
    ensures FromHex([c, d]) == Some([high * 16 + low])
  {
    assert [c, d][2..] == "" && FromHex("") == Some([]);
    var x: Byte := high * 16 + low;
    assert [x] + [] == [x];
  }

  lemma OnePairIsWritten(high: nat, low: nat)
    requires high < 16 && low < 16
    ensures Hex([high * 16 + low]) == [HexDigit(high), HexDigit(low)]
  {
    var x: Byte := high * 16 + low;
    assert [x][1..] == [] && Hex([]) == "" && x / 16 == high && x % 16 == low;
  }

  /** Lower-case digits, the high one first; upper case is read too, and white space between bytes, but
      not within one. */
  lemma HexByCases(high: nat, low: nat, tail: string)
    requires high < 16 && low < 16
    ensures var digits, upper := "0123456789abcdef", "0123456789ABCDEF";
            && Hex([high * 16 + low]) == [digits[high], digits[low]]
            && FromHex([upper[high], upper[low]]) == Some([high * 16 + low])
            && FromHex([' '] + tail) == FromHex(tail)
            && FromHex([digits[high], ' '] + tail) == None && FromHex([digits[high]]) == None
  {
    var digits, upper := "0123456789abcdef", "0123456789ABCDEF";
    assert HexDigit(high) == digits[high] && HexDigit(low) == digits[low];
    OnePairIsWritten(high, low);
    assert Digit(upper[high]) == Some(high) && Digit(upper[low]) == Some(low) && !IsSpace(upper[high]);
    PairReads(upper[high], upper[low], high, low);
    assert Digit(digits[high]) == Some(high) && !IsSpace(digits[high]);
    assert ([' '] + tail)[1..] == tail;
  }

  /** Six kinds of white space are skipped in front of a pair; anything else that is no hexadecimal digit
      spoils the whole string. */
  lemma HexCharacters(c: char, tail: string)
    ensures FromHex([c] + tail) ==
            if c in {' ', '\t', '\n', '\r', 11 as char, 12 as char} then FromHex(tail)
            else if c in "0123456789abcdefABCDEF" then FromHex([c] + tail)
            else None
  {
    var s := [c] + tail;
    assert s[1..] == tail;
    if IsSpace(c) {
      assert c as int in {9, 10, 11, 12, 13, 32};
    } else if Digit(c).Some? {
      DigitsAreListed(c);
    }
  }

  lemma DigitsAreListed(c: char)
    requires Digit(c).Some?
    ensures c in "0123456789abcdefABCDEF"
  {
    var digits := "0123456789abcdefABCDEF";
    var n := Digit(c).value;
    assert digits[if c <= 'F' && n >= 10 then n + 6 else n] == c;
  }

  /** The document under its field names, as it is read by hand and by other programs. */
  lemma FieldsWritten(engineId: Bytes, users: seq<User>, k: nat)
    requires k < |users|
    ensures var doc, u := StoreDocument(engineId, users), users[k];
            && doc.fields.Keys == {"schema_version", "engine_id", "users"}
            && doc.fields["schema_version"] == JInt(1) && doc.fields["engine_id"] == JStr(Hex(engineId))
            && doc.fields["users"].JArr? && |doc.fields["users"].items| == |users|
            && doc.fields["users"].items[k] ==
               JObj(map["name" := JStr(u.name), "auth" := JStr(u.auth), "auth_key" := JStr(Hex(u.authKey)),
                        "priv" := JStr(u.priv), "priv_key" := JStr(Hex(u.privKey))])
  {
  }
}
