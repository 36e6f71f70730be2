/** Whole runs of the gate: packets from many sources, interleaved with periodic prunes. */
module PreAuthRuns {
  import opened Common
  import opened PreAuth

  datatype Event = Packet(data: Bytes, src: Source, now: real) | Tick(now: real)

  /** Times do not decrease, starting from `since`. */
  predicate Timed(events: seq<Event>, since: real) {
    events == [] || (since <= events[0].now && Timed(events[1..], events[0].now))
  }

  function Step(cfg: Config, table: Table, e: Event): Table {
    match e
    case Packet(data, src, now) => CheckTable(cfg, table, data, src, now)
    case Tick(now) => Pruned(table, now)
  }

  function TableAfter(cfg: Config, table: Table, events: seq<Event>): Table
    decreases |events|
  {
    if events == [] then table else TableAfter(cfg, Step(cfg, table, events[0]), events[1..])
  }

  /** The verdicts on the packets of one source, in a run with everyone's packets. */
  function VerdictsFor(cfg: Config, table: Table, src: Source, events: seq<Event>): seq<Verdict>
    decreases |events|
  {
    if events == [] then [] else
    var e := events[0];
    var rest := VerdictsFor(cfg, Step(cfg, table, e), src, events[1..]);
    if e.Packet? && e.src == src then [CheckVerdict(cfg, table, e.data, src, e.now)] + rest else rest
  }

  /** The table had room for every packet of this source that needed an entry. */
  predicate AlwaysRoom(cfg: Config, table: Table, src: Source, events: seq<Event>)
    decreases |events|
  {
    events == [] ||
    var e := events[0];
    && (e.Packet? && e.src == src && !Screened(cfg, e.data, src) ==> !NoRoom(table, src, e.now))
    && AlwaysRoom(cfg, Step(cfg, table, e), src, events[1..])
  }

  // ------------------------------------------------------------ the ideal limiter

  /** One source's ideal bucket: full until it is first used, and never deleted. */
  function IdealRefill(cfg: Config, b: Option<Bucket>, now: real): Bucket {
    match b
    case None => Bucket(cfg.burst, now)
    case Some(bucket) => Refill(cfg, bucket, now)
  }

  function IdealSpend(cfg: Config, b: Option<Bucket>, now: real): Bucket {
    var full := IdealRefill(cfg, b, now);
    if full.tokens >= 1.0 then full.(tokens := full.tokens - 1.0) else full
  }

  function IdealVerdict(cfg: Config, b: Option<Bucket>, data: Bytes, src: Source, now: real): Verdict {
    if !IpAllowed(cfg, src) then Dropped(Acl)
    else if |data| > cfg.maxBytes then Dropped(Oversize)
    else if IdealRefill(cfg, b, now).tokens < 1.0 then Dropped(RateLimit)
    else if !TlvSane(data) then Dropped(Malformed)
    else Passed
  }

  /** The ideal limiter's verdicts; it sees nothing but the source's own packets. */
  function IdealFor(cfg: Config, b: Option<Bucket>, src: Source, events: seq<Event>): seq<Verdict>
    decreases |events|
  {
    if events == [] then [] else
    var e := events[0];
    if e.Packet? && e.src == src then
      var next := if Screened(cfg, e.data, src) then b else Some(IdealSpend(cfg, b, e.now));
      [IdealVerdict(cfg, b, e.data, src, e.now)] + IdealFor(cfg, next, src, events[1..])
    else IdealFor(cfg, b, src, events[1..])
  }

  /** A burst of at least one packet that refills completely within the idle period. */
  predicate RefillsWhileIdle(cfg: Config) {
    1.0 <= cfg.burst <= cfg.ratePps * 300.0
  }

  // ------------------------------------------------------ pruning is unobservable

  /** The gate's entry is the ideal bucket; where the gate has none, the ideal bucket is untouched
      or has been idle long enough to be full again. */
  ghost predicate Matches(cfg: Config, table: Table, src: Source, b: Option<Bucket>, now: real) {
    && (b.Some? ==> 0.0 <= b.value.tokens && b.value.last <= now)
    && (src in table ==> b == Some(table[src]))
    && (src !in table && b.Some? ==> now - b.value.last > IDLE_SECONDS)
  }

  lemma RateIsPositive(cfg: Config)
    requires RefillsWhileIdle(cfg)
    ensures cfg.ratePps > 0.0
  {
  }

  lemma ProductIsNonNegative(a: real, b: real)
    requires a >= 0.0 && b >= 0.0
    ensures a * b >= 0.0
  {
  }

  lemma RefillBy(cfg: Config, b: Bucket, now: real, gap: real, gained: real)
    requires now - b.last == gap && gap > 0.0 && gap * cfg.ratePps == gained
    ensures Refill(cfg, b, now) == Bucket(if cfg.burst <= b.tokens + gained then cfg.burst else b.tokens + gained, now)
  {
  }

  lemma RefillIsNonNegative(cfg: Config, b: Bucket, now: real)
    requires RefillsWhileIdle(cfg) && 0.0 <= b.tokens && b.last <= now
    ensures 0.0 <= Refill(cfg, b, now).tokens && Refill(cfg, b, now).last == now
  {
    RateIsPositive(cfg);
    var gap := now - b.last;
    ProductIsNonNegative(gap, cfg.ratePps);
    if gap > 0.0 {
      RefillBy(cfg, b, now, gap, gap * cfg.ratePps);
    }
  }

  lemma IdleIsFull(cfg: Config, b: Bucket, now: real)
    requires RefillsWhileIdle(cfg) && 0.0 <= b.tokens && now - b.last > IDLE_SECONDS
    ensures Refill(cfg, b, now) == Bucket(cfg.burst, now)
  {
    RateIsPositive(cfg);
    var gap := now - b.last;
    LongerGainsMore(gap, IDLE_SECONDS, cfg.ratePps);
    RefillBy(cfg, b, now, gap, gap * cfg.ratePps);
  }

  lemma LongerGainsMore(long: real, short: real, rate: real)
    requires long >= short && rate >= 0.0
    ensures long * rate >= short * rate
  {
    ProductIsNonNegative(long - short, rate);
  }

  /** One packet of the source: the same verdict, and the match is kept. */
  lemma PacketMatches(cfg: Config, table: Table, b: Option<Bucket>, data: Bytes, src: Source, since: real, now: real)
    requires RefillsWhileIdle(cfg) && Matches(cfg, table, src, b, since) && since <= now
    requires !Screened(cfg, data, src) ==> !NoRoom(table, src, now)
    ensures CheckVerdict(cfg, table, data, src, now) == IdealVerdict(cfg, b, data, src, now)
    ensures var next := if Screened(cfg, data, src) then b else Some(IdealSpend(cfg, b, now));
            Matches(cfg, CheckTable(cfg, table, data, src, now), src, next, now)
  {
    if b.Some? {
      RefillIsNonNegative(cfg, b.value, now);
      if src !in table {
        IdleIsFull(cfg, b.value, now);
      }
    }
  }

  /** A packet of another source, or a prune, does not disturb the match. */
  lemma OthersMatch(cfg: Config, table: Table, b: Option<Bucket>, e: Event, src: Source, since: real)
    requires Matches(cfg, table, src, b, since) && since <= e.now
    requires !(e.Packet? && e.src == src)
    ensures Matches(cfg, Step(cfg, table, e), src, b, e.now)
  {
  }

  lemma {:induction false} RunMatches(
    cfg: Config, table: Table, b: Option<Bucket>, src: Source, events: seq<Event>, since: real)
    requires RefillsWhileIdle(cfg) && Timed(events, since) && Matches(cfg, table, src, b, since)
    requires AlwaysRoom(cfg, table, src, events)
    ensures VerdictsFor(cfg, table, src, events) == IdealFor(cfg, b, src, events)
    decreases |events|
  {
    if events != [] {
      var e := events[0];
      if e.Packet? && e.src == src {
        PacketMatches(cfg, table, b, e.data, src, since, e.now);
        var next := if Screened(cfg, e.data, src) then b else Some(IdealSpend(cfg, b, e.now));
        RunMatches(cfg, Step(cfg, table, e), next, src, events[1..], e.now);
      } else {
        OthersMatch(cfg, table, b, e, src, since);
        RunMatches(cfg, Step(cfg, table, e), b, src, events[1..], e.now);
      }
    }
  }

  /** The packets of one source. */
  function Own(events: seq<Event>, src: Source): seq<Event> {
    if events == [] then []
    else if events[0].Packet? && events[0].src == src then [events[0]] + Own(events[1..], src)
    else Own(events[1..], src)
  }

  lemma {:induction false} IdealSeesOnlyOwn(cfg: Config, b: Option<Bucket>, src: Source, events: seq<Event>)
    ensures IdealFor(cfg, b, src, Own(events, src)) == IdealFor(cfg, b, src, events)
    decreases |events|
  {
    if events != [] {
      var e := events[0];
      var spends := e.Packet? && e.src == src && !Screened(cfg, e.data, src);
      var next := if spends then Some(IdealSpend(cfg, b, e.now)) else b;
      IdealSeesOnlyOwn(cfg, next, src, events[1..]);
      if e.Packet? && e.src == src {
        assert ([e] + Own(events[1..], src))[1..] == Own(events[1..], src);
      }
    }
  }

  lemma {:induction false} OwnIsTimed(events: seq<Event>, src: Source, early: real, since: real)
    requires Timed(events, since) && early <= since
    ensures Timed(Own(events, src), early)
    decreases |events|
  {
    if events != [] {
      if events[0].Packet? && events[0].src == src {
        OwnIsTimed(events[1..], src, events[0].now, events[0].now);
      } else {
        OwnIsTimed(events[1..], src, early, events[0].now);
      }
    }
  }

  /** With a single source the table holds at most one entry, so there is always room. */
  lemma {:induction false} AloneThereIsRoom(cfg: Config, table: Table, src: Source, events: seq<Event>)
    requires table.Keys <= {src}
    ensures AlwaysRoom(cfg, table, src, Own(events, src))
    decreases |events|
  {
    SingleEntry(table, src);
    if events != [] {
      var e := events[0];
      if e.Packet? && e.src == src {
        AloneThereIsRoom(cfg, Step(cfg, table, e), src, events[1..]);
        assert ([e] + Own(events[1..], src))[1..] == Own(events[1..], src);
      } else {
        AloneThereIsRoom(cfg, table, src, events[1..]);
      }
    }
  }

  lemma SingleEntry(table: Table, src: Source)
    requires table.Keys <= {src}
    ensures |table| <= 1
  {
    if src in table {
      assert table.Keys == {src};
    } else {
      assert table.Keys == {};
    }
  }

  /** Sources do not interfere: what a source is told in any interleaved run, with prunes at any
      moments, is what it is told when it is alone. */
  lemma SourcesDoNotInterfere(cfg: Config, src: Source, events: seq<Event>, since: real)
    requires RefillsWhileIdle(cfg) && Timed(events, since) && AlwaysRoom(cfg, map[], src, events)
    ensures VerdictsFor(cfg, map[], src, events) == VerdictsFor(cfg, map[], src, Own(events, src))
    ensures VerdictsFor(cfg, map[], src, events) == IdealFor(cfg, None, src, events)
  {
    RunMatches(cfg, map[], None, src, events, since);
    OwnIsTimed(events, src, since, since);
    AloneThereIsRoom(cfg, map[], src, events);
    RunMatches(cfg, map[], None, src, Own(events, src), since);
    IdealSeesOnlyOwn(cfg, None, src, events);
  }

  // ------------------------------------------------------------- when there is room

  /** The sources that send at least one allowed packet of an acceptable size. */
  function ScreenedIn(cfg: Config, events: seq<Event>): set<Source> {
    if events == [] then {}
    else if events[0].Packet? && !Screened(cfg, events[0].data, events[0].src) then
      {events[0].src} + ScreenedIn(cfg, events[1..])
    else ScreenedIn(cfg, events[1..])
  }

  lemma {:induction false} SubsetIsSmaller(a: set<Source>, b: set<Source>)
    requires a <= b
    ensures |a| <= |b|
  {
    if a != {} {
      var x :| x in a;
      SubsetIsSmaller(a - {x}, b - {x});
    }
  }

  /** With at most 4096 such sources in all, a source that is not in the table finds room. */
  lemma StrangerFindsRoom(table: Table, sources: set<Source>, src: Source, now: real)
    requires table.Keys <= sources && src in sources && |sources| <= MAX_TRACKED_SOURCES
    ensures !NoRoom(table, src, now)
  {
    if src !in table {
      SubsetIsSmaller(MadeRoom(table, src, now).Keys, sources - {src});
    }
  }

  lemma {:induction false} FewSourcesHaveRoom(
    cfg: Config, table: Table, sources: set<Source>, src: Source, events: seq<Event>)
    requires table.Keys <= sources && ScreenedIn(cfg, events) <= sources && |sources| <= MAX_TRACKED_SOURCES
    ensures AlwaysRoom(cfg, table, src, events)
    decreases |events|
  {
    if events != [] {
      var e := events[0];
      if e.Packet? && !Screened(cfg, e.data, e.src) {
        StrangerFindsRoom(table, sources, e.src, e.now);
      }
      FewSourcesHaveRoom(cfg, Step(cfg, table, e), sources, src, events[1..]);
    }
  }

  /** While at most 4096 sources get past the allow-list and the size cap, nothing about the table is
      observable: every source is told what the ideal limiter tells it, and what it is told alone. */
  lemma FewSourcesDoNotInterfere(cfg: Config, src: Source, events: seq<Event>, since: real)
    requires RefillsWhileIdle(cfg) && Timed(events, since) && |ScreenedIn(cfg, events)| <= 4096
    ensures VerdictsFor(cfg, map[], src, events) == VerdictsFor(cfg, map[], src, Own(events, src))
    ensures VerdictsFor(cfg, map[], src, events) == IdealFor(cfg, None, src, events)
  {
    FewSourcesHaveRoom(cfg, map[], ScreenedIn(cfg, events), src, events);
    SourcesDoNotInterfere(cfg, src, events, since);
  }

  // ----------------------------------------------------- and only then is it so

  /** Over every timed run in which the table has room, the gate answers like the ideal limiter. */
  ghost predicate Unobservable(cfg: Config, src: Source) {
    forall events, since ::
      Timed(events, since) && AlwaysRoom(cfg, map[], src, events) ==>
        VerdictsFor(cfg, map[], src, events) == IdealFor(cfg, None, src, events)
  }

  ghost predicate Tells(cfg: Config, table: Table, b: Option<Bucket>, src: Source, events: seq<Event>, since: real) {
    && Timed(events, since) && AlwaysRoom(cfg, table, src, events)
    && VerdictsFor(cfg, table, src, events) != IdealFor(cfg, b, src, events)
  }

  /** A packet on which both agree can be put before a run that tells them apart. */
  lemma Prepend(cfg: Config, table: Table, b: Option<Bucket>, src: Source, now: real, since: real, later: seq<Event>)
    requires IpAllowed(cfg, src) && since <= now && |table| <= 1
    requires CheckVerdict(cfg, table, [], src, now) == IdealVerdict(cfg, b, [], src, now)
    requires Tells(cfg, CheckTable(cfg, table, [], src, now), Some(IdealSpend(cfg, b, now)), src, later, now)
    ensures Tells(cfg, table, b, src, [Packet([], src, now)] + later, since)
  {
    var events := [Packet([], src, now)] + later;
    assert events[1..] == later;
    var v := CheckVerdict(cfg, table, [], src, now);
    assert VerdictsFor(cfg, table, src, events) ==
           [v] + VerdictsFor(cfg, CheckTable(cfg, table, [], src, now), src, later);
    assert IdealFor(cfg, b, src, events) == [v] + IdealFor(cfg, Some(IdealSpend(cfg, b, now)), src, later);
    assert VerdictsFor(cfg, table, src, events)[1..] != IdealFor(cfg, b, src, events)[1..];
  }

  /** One packet on which they differ tells them apart. */
  lemma TellsAtOnce(cfg: Config, table: Table, b: Option<Bucket>, src: Source, now: real, since: real)
    requires IpAllowed(cfg, src) && since <= now && |table| <= 1
    requires CheckVerdict(cfg, table, [], src, now) != IdealVerdict(cfg, b, [], src, now)
    ensures Tells(cfg, table, b, src, [Packet([], src, now)], since)
  {
    var events := [Packet([], src, now)];
    assert events[1..] == [];
    assert VerdictsFor(cfg, table, src, events)[0] != IdealFor(cfg, b, src, events)[0];
  }

  /** Both sides have a token: spend it. */
  lemma SpendNow(cfg: Config, src: Source, gate: real, ideal: real, t: real, later: seq<Event>)
    requires IpAllowed(cfg, src) && gate >= 1.0 && ideal >= 1.0
    requires Tells(cfg, map[src := Bucket(gate - 1.0, t)], Some(Bucket(ideal - 1.0, t)), src, later, t)
    ensures Tells(cfg, map[src := Bucket(gate, t)], Some(Bucket(ideal, t)), src, [Packet([], src, t)] + later, t)
  {
    var table := map[src := Bucket(gate, t)];
    SingleEntry(table, src);
    assert CheckTable(cfg, table, [], src, t) == map[src := Bucket(gate - 1.0, t)];
    Prepend(cfg, table, Some(Bucket(ideal, t)), src, t, t, later);
  }

  /** Both sides wait until they have exactly one token, and spend it. */
  lemma SpendLater(cfg: Config, src: Source, tokens: real, t: real, now: real, gap: real, later: seq<Event>)
    requires IpAllowed(cfg, src) && tokens < 1.0 <= cfg.burst
    requires now - t == gap && gap > 0.0 && gap * cfg.ratePps == 1.0 - tokens
    requires Tells(cfg, map[src := Bucket(0.0, now)], Some(Bucket(0.0, now)), src, later, now)
    ensures Tells(cfg, map[src := Bucket(tokens, t)], Some(Bucket(tokens, t)), src, [Packet([], src, now)] + later, t)
  {
    var table := map[src := Bucket(tokens, t)];
    SingleEntry(table, src);
    RefillBy(cfg, Bucket(tokens, t), now, gap, 1.0 - tokens);
    assert CheckTable(cfg, table, [], src, now) == map[src := Bucket(0.0, now)];
    Prepend(cfg, table, Some(Bucket(tokens, t)), src, now, t, later);
  }

  /** The gate's side reaches one token, the ideal side does not. */
  lemma SurplusShows(cfg: Config, src: Source, gate: real, ideal: real, t: real, now: real, gap: real)
    requires IpAllowed(cfg, src) && cfg.burst >= 1.0 && 0.0 <= ideal < gate && ideal < 1.0
    requires now - t == gap && if gate >= 1.0 then gap == 0.0 else gap > 0.0 && gap * cfg.ratePps == 1.0 - gate
    ensures Tells(cfg, map[src := Bucket(gate, t)], Some(Bucket(ideal, t)), src, [Packet([], src, now)], t)
  {
    var table := map[src := Bucket(gate, t)];
    SingleEntry(table, src);
    if gap > 0.0 {
      RefillBy(cfg, Bucket(gate, t), now, gap, 1.0 - gate);
      RefillBy(cfg, Bucket(ideal, t), now, gap, 1.0 - gate);
    }
    TellsAtOnce(cfg, table, Some(Bucket(ideal, t)), src, now, t);
  }

  /** More tokens on the gate's side show: spend until the ideal bucket is below one, then wait
      until the gate's bucket reaches one. */
  lemma {:induction false} SurplusTells(cfg: Config, src: Source, gate: real, ideal: real, t: real)
    returns (events: seq<Event>)
    requires IpAllowed(cfg, src) && cfg.burst >= 1.0 && cfg.ratePps > 0.0 && 0.0 <= ideal < gate <= cfg.burst
    ensures Tells(cfg, map[src := Bucket(gate, t)], Some(Bucket(ideal, t)), src, events, t)
    decreases ideal.Floor
  {
    if ideal >= 1.0 {
      var later := SurplusTells(cfg, src, gate - 1.0, ideal - 1.0, t);
      SpendNow(cfg, src, gate, ideal, t, later);
      events := [Packet([], src, t)] + later;
    } else if gate >= 1.0 {
      SurplusShows(cfg, src, gate, ideal, t, t, 0.0);
      events := [Packet([], src, t)];
    } else {
      var gap := WaitFor(1.0 - gate, cfg.ratePps);
      var now := t + gap;
      SurplusShows(cfg, src, gate, ideal, t, now, gap);
      events := [Packet([], src, now)];
    }
  }

  /** The time in which `amount` tokens are refilled. */
  lemma WaitFor(amount: real, rate: real) returns (gap: real)
    requires amount > 0.0 && rate > 0.0
    ensures gap > 0.0 && gap * rate == amount
  {
    gap := amount / rate;
  }

  lemma TickBefore(cfg: Config, b: Bucket, src: Source, now: real, since: real, later: seq<Event>)
    requires since <= now && now - b.last > IDLE_SECONDS
    requires Tells(cfg, map[], Some(b), src, later, now)
    ensures Tells(cfg, map[src := b], Some(b), src, [Tick(now)] + later, since)
  {
    var events := [Tick(now)] + later;
    assert events[1..] == later;
    assert Pruned(map[src := b], now) == map[];
  }

  lemma SlowerThanIdle(gap: real, rate: real, gained: real, idleGain: real)
    requires rate > 0.0 && gap * rate == gained && IDLE_SECONDS * rate == idleGain && gained > idleGain
    ensures gap > IDLE_SECONDS
  {
    if gap <= IDLE_SECONDS {
      LongerGainsMore(IDLE_SECONDS, gap, rate);
      assert false;
    }
  }

  lemma Midpoint(low: real, high: real) returns (mid: real)
    requires low < high
    ensures low < mid < high
  {
    mid := (low + high) / 2.0;
  }

  /** A wait that is longer than the idle period and too short to fill an empty bucket. */
  lemma IdleButNotFull(cfg: Config) returns (gap: real, level: real)
    requires cfg.ratePps > 0.0 && cfg.burst > cfg.ratePps * IDLE_SECONDS
    ensures gap > IDLE_SECONDS && gap * cfg.ratePps == level && 0.0 < level < cfg.burst
  {
    var idleGain := IDLE_SECONDS * cfg.ratePps;
    ProductIsNonNegative(IDLE_SECONDS, cfg.ratePps);
    level := Midpoint(idleGain, cfg.burst);
    gap := WaitFor(level, cfg.ratePps);
    SlowerThanIdle(gap, cfg.ratePps, level, idleGain);
  }

  /** From an empty bucket: prune it just before it would be full again. */
  lemma EmptyTells(cfg: Config, src: Source, t: real) returns (events: seq<Event>)
    requires IpAllowed(cfg, src) && cfg.ratePps > 0.0
    requires cfg.burst >= 1.0 && cfg.burst > cfg.ratePps * IDLE_SECONDS
    ensures Tells(cfg, map[src := Bucket(0.0, t)], Some(Bucket(0.0, t)), src, events, t)
  {
    hide Tells, Refill, IpAllowed;
    var gap, level := IdleButNotFull(cfg);
    var now := t + gap;
    RefillBy(cfg, Bucket(0.0, t), now, gap, level);
    events := PrunedTells(cfg, src, Bucket(0.0, t), now, level);
    TickBefore(cfg, Bucket(0.0, t), src, now, t, events);
    events := [Tick(now)] + events;
  }

  /** The gate has forgotten the bucket, and the ideal one is not full. */
  lemma PrunedTells(cfg: Config, src: Source, b: Bucket, now: real, level: real) returns (events: seq<Event>)
    requires IpAllowed(cfg, src) && cfg.ratePps > 0.0 && 0.0 < level < cfg.burst && 1.0 <= cfg.burst
    requires Refill(cfg, b, now) == Bucket(level, now)
    ensures Tells(cfg, map[], Some(b), src, events, now)
  {
    if level < 1.0 {
      TellsAtOnce(cfg, map[], Some(b), src, now, now);
      events := [Packet([], src, now)];
    } else {
      events := SurplusTells(cfg, src, cfg.burst - 1.0, level - 1.0, now);
      Prepend(cfg, map[], Some(b), src, now, now, events);
      events := [Packet([], src, now)] + events;
    }
  }

  /** From any bucket: spend whole tokens, then wait for one more and spend it. */
  lemma {:induction false} AnyLevelTells(cfg: Config, src: Source, tokens: real, t: real) returns (events: seq<Event>)
    requires IpAllowed(cfg, src) && cfg.ratePps > 0.0 && 0.0 <= tokens <= cfg.burst
    requires cfg.burst >= 1.0 && cfg.burst > cfg.ratePps * IDLE_SECONDS
    ensures Tells(cfg, map[src := Bucket(tokens, t)], Some(Bucket(tokens, t)), src, events, t)
    decreases tokens.Floor
  {
    if tokens == 0.0 {
      events := EmptyTells(cfg, src, t);
    } else if tokens >= 1.0 {
      var later := AnyLevelTells(cfg, src, tokens - 1.0, t);
      SpendNow(cfg, src, tokens, tokens, t, later);
      events := [Packet([], src, t)] + later;
    } else {
      var gap := WaitFor(1.0 - tokens, cfg.ratePps);
      var now := t + gap;
      var later := EmptyTells(cfg, src, now);
      SpendLater(cfg, src, tokens, t, now, gap, later);
      events := [Packet([], src, now)] + later;
    }
  }

  /** Without refill: once a bucket is spent, only deleting it lets the source through again. */
  lemma {:induction false} NoRefillTells(cfg: Config, src: Source, tokens: real, t: real) returns (events: seq<Event>)
    requires IpAllowed(cfg, src) && cfg.ratePps <= 0.0 && 0.0 <= tokens
    ensures Tells(cfg, map[src := Bucket(tokens, t)], Some(Bucket(tokens, t)), src, events, t)
    decreases tokens.Floor
  {
    if tokens >= 1.0 {
      var later := NoRefillTells(cfg, src, tokens - 1.0, t);
      SpendNow(cfg, src, tokens, tokens, t, later);
      events := [Packet([], src, t)] + later;
    } else {
      var now := t + 301.0;
      ProductIsNonNegative(301.0, -cfg.ratePps);
      RefillBy(cfg, Bucket(tokens, t), now, 301.0, 301.0 * cfg.ratePps);
      TellsAtOnce(cfg, map[], Some(Bucket(tokens, t)), src, now, now);
      TickBefore(cfg, Bucket(tokens, t), src, now, t, [Packet([], src, now)]);
      events := [Tick(now)] + [Packet([], src, now)];
    }
  }

  /** Any other rate and burst: a run that tells the gate and the ideal limiter apart. */
  lemma OtherwiseTells(cfg: Config, src: Source) returns (events: seq<Event>)
    requires IpAllowed(cfg, src) && !RefillsWhileIdle(cfg)
    ensures Tells(cfg, map[], None, src, events, 0.0)
  {
    hide Tells, IpAllowed;
    if cfg.burst < 1.0 {
      TellsAtOnce(cfg, map[], None, src, 0.0, 0.0);
      events := [Packet([], src, 0.0)];
    } else {
      if cfg.ratePps > 0.0 {
        events := AnyLevelTells(cfg, src, cfg.burst - 1.0, 0.0);
      } else {
        events := NoRefillTells(cfg, src, cfg.burst - 1.0, 0.0);
      }
      Prepend(cfg, map[], None, src, 0.0, 0.0, events);
      events := [Packet([], src, 0.0)] + events;
    }
  }

  /** For any rate and any burst, and any source the allow-list lets in: pruning is unobservable
      exactly when the burst is at least one packet and refills within the idle period. */
  lemma PruningIsUnobservableIff(cfg: Config, src: Source)
    requires IpAllowed(cfg, src)
    ensures Unobservable(cfg, src) <==> RefillsWhileIdle(cfg)
  {
    if RefillsWhileIdle(cfg) {
      forall events, since | Timed(events, since) && AlwaysRoom(cfg, map[], src, events)
        ensures VerdictsFor(cfg, map[], src, events) == IdealFor(cfg, None, src, events)
      {
        RunMatches(cfg, map[], None, src, events, since);
      }
    } else {
      var events := OtherwiseTells(cfg, src);
    }
  }
}
