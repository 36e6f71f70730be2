/** What the gate bounds over whole runs: rates, the source table, the counters, the outer TLV. */
module PreAuthBounds {
  import opened Common
  import opened Bits
  import opened Wire
  import opened BerDecoder
  import opened WireRoundTrip
  import opened PreAuth
  import opened PreAuthRuns

  // ------------------------------------------------------------------ the rate bound

  /** The verdicts of packets that got past the rate step. */
  predicate Admitted(v: Verdict) {
    v == Passed || v == Dropped(Malformed)
  }

  function CountAdmitted(verdicts: seq<Verdict>): nat {
    if verdicts == [] then 0 else (if Admitted(verdicts[0]) then 1 else 0) + CountAdmitted(verdicts[1..])
  }

  /** No bucket is in debt, over its ceiling, or ahead of time. */
  ghost predicate Sound(cfg: Config, table: Table, now: real) {
    forall s :: s in table ==> 0.0 <= table[s].tokens <= cfg.burst && table[s].last <= now
  }

  /** What the source could still send at `now`; a source without a bucket could send a burst. */
  function Allowance(cfg: Config, table: Table, src: Source, now: real): real {
    if src in table then Refill(cfg, table[src], now).tokens else cfg.burst
  }

  lemma Distribute(a: real, b: real, rate: real)
    ensures (a + b) * rate == a * rate + b * rate
  {
  }

  lemma NothingTimes(a: real, b: real)
    requires a == 0.0
    ensures a * b == 0.0
  {
    assert 0.0 * b == 0.0;
  }

  /** A bucket after `gap` seconds, in which it gained `gained` tokens. */
  lemma RefillAfter(cfg: Config, b: Bucket, now: real, gap: real, gained: real)
    requires now - b.last == gap >= 0.0 && gap * cfg.ratePps == gained && b.tokens <= cfg.burst
    ensures Refill(cfg, b, now) == Bucket(if cfg.burst <= b.tokens + gained then cfg.burst else b.tokens + gained, now)
  {
    if gap > 0.0 {
      RefillBy(cfg, b, now, gap, gained);
    } else {
      NothingTimes(gap, cfg.ratePps);
    }
  }

  /** Waiting adds at most rate * time to the allowance. */
  lemma AllowanceGrows(cfg: Config, table: Table, src: Source, since: real, now: real)
    requires RefillsWhileIdle(cfg) && Sound(cfg, table, since) && since <= now
    ensures Allowance(cfg, table, src, now) <= Allowance(cfg, table, src, since) + (now - since) * cfg.ratePps
    ensures Sound(cfg, table, now)
  {
    RateIsPositive(cfg);
    var wait := now - since;
    ProductIsNonNegative(wait, cfg.ratePps);
    if src in table {
      var b := table[src];
      var gap := since - b.last;
      Distribute(gap, wait, cfg.ratePps);
      RefillAfter(cfg, b, since, gap, gap * cfg.ratePps);
      RefillAfter(cfg, b, now, gap + wait, (gap + wait) * cfg.ratePps);
    }
  }

  /** A prune forgets only sources whose allowance is a full burst anyway. */
  lemma PruneKeepsAllowance(cfg: Config, table: Table, src: Source, now: real)
    requires RefillsWhileIdle(cfg) && Sound(cfg, table, now)
    ensures Sound(cfg, Pruned(table, now), now)
    ensures Allowance(cfg, Pruned(table, now), src, now) == Allowance(cfg, table, src, now)
  {
    if src in table && src !in Pruned(table, now) {
      IdleIsFull(cfg, table[src], now);
    }
  }

  /** Spending: an admitted packet costs one, a refused one nothing. */
  lemma SpendingCosts(cfg: Config, table: Table, src: Source, now: real)
    requires RefillsWhileIdle(cfg) && Sound(cfg, table, now)
    ensures var b := Spent(cfg, table, src, now);
            && 0.0 <= b.tokens <= cfg.burst && b.last == now
            && b.tokens + (if RateAllows(cfg, table, src, now) then 1.0 else 0.0) == Allowance(cfg, table, src, now)
  {
    if src in table {
      RefillIsNonNegative(cfg, table[src], now);
    }
  }

  lemma FreshAllowance(cfg: Config, table: Table, src: Source, now: real)
    requires src in table && table[src].last == now
    ensures Allowance(cfg, table, src, now) == table[src].tokens
  {
  }

  function Cost(cfg: Config, table: Table, e: Event, src: Source): real {
    if e.Packet? && e.src == src && Admitted(CheckVerdict(cfg, table, e.data, src, e.now)) then 1.0 else 0.0
  }

  /** The bucket written by a rate check: the source pays, and nobody else does. */
  lemma WriteCosts(cfg: Config, table: Table, who: Source, src: Source, now: real)
    requires RefillsWhileIdle(cfg) && Sound(cfg, table, now)
    ensures var next := table[who := Spent(cfg, table, who, now)];
            var cost := if who == src && RateAllows(cfg, table, src, now) then 1.0 else 0.0;
            Sound(cfg, next, now) && Allowance(cfg, next, src, now) + cost == Allowance(cfg, table, src, now)
  {
    SpendingCosts(cfg, table, who, now);
    if who == src {
      FreshAllowance(cfg, table[who := Spent(cfg, table, who, now)], src, now);
    }
  }

  lemma CheckCosts(cfg: Config, table: Table, e: Event, src: Source)
    requires RefillsWhileIdle(cfg) && Sound(cfg, table, e.now) && e.Packet?
    ensures Sound(cfg, Step(cfg, table, e), e.now)
    ensures Allowance(cfg, Step(cfg, table, e), src, e.now) + Cost(cfg, table, e, src)
            <= Allowance(cfg, table, src, e.now)
  {
    var room := MadeRoom(table, e.src, e.now);
    PruneKeepsAllowance(cfg, table, src, e.now);
    assert Spent(cfg, room, e.src, e.now) == Spent(cfg, table, e.src, e.now);
    assert RateAllows(cfg, room, e.src, e.now) == RateAllows(cfg, table, e.src, e.now);
    WriteCosts(cfg, room, e.src, src, e.now);
  }

  lemma StepCosts(cfg: Config, table: Table, e: Event, src: Source, since: real)
    requires RefillsWhileIdle(cfg) && Sound(cfg, table, since) && since <= e.now
    ensures Sound(cfg, Step(cfg, table, e), e.now)
    ensures Allowance(cfg, Step(cfg, table, e), src, e.now) + Cost(cfg, table, e, src)
            <= Allowance(cfg, table, src, since) + (e.now - since) * cfg.ratePps
  {
    AllowanceGrows(cfg, table, src, since, e.now);
    if e.Packet? {
      CheckCosts(cfg, table, e, src);
    } else {
      PruneKeepsAllowance(cfg, table, src, e.now);
    }
  }

  lemma CountStep(cfg: Config, table: Table, src: Source, events: seq<Event>)
    requires events != []
    ensures CountAdmitted(VerdictsFor(cfg, table, src, events)) as real ==
            Cost(cfg, table, events[0], src)
            + CountAdmitted(VerdictsFor(cfg, Step(cfg, table, events[0]), src, events[1..])) as real
  {
    var e := events[0];
    var rest := VerdictsFor(cfg, Step(cfg, table, e), src, events[1..]);
    if e.Packet? && e.src == src {
      assert ([CheckVerdict(cfg, table, e.data, src, e.now)] + rest)[1..] == rest;
    }
  }

  lemma AllowanceIsNonNegative(cfg: Config, table: Table, src: Source, now: real)
    requires RefillsWhileIdle(cfg) && Sound(cfg, table, now)
    ensures 0.0 <= Allowance(cfg, table, src, now) <= cfg.burst
  {
    if src in table {
      SpendingCosts(cfg, table, src, now);
    }
  }

  lemma {:induction false} AdmittedWithinAllowance(
    cfg: Config, table: Table, src: Source, events: seq<Event>, since: real, until: real)
    requires RefillsWhileIdle(cfg) && Sound(cfg, table, since) && Timed(events, since) && since <= until
    requires forall i :: 0 <= i < |events| ==> events[i].now <= until
    ensures CountAdmitted(VerdictsFor(cfg, table, src, events)) as real
            <= Allowance(cfg, table, src, since) + (until - since) * cfg.ratePps
    decreases |events|
  {
    if events == [] {
      AllowanceIsNonNegative(cfg, table, src, since);
      RateIsPositive(cfg);
      ProductIsNonNegative(until - since, cfg.ratePps);
    } else {
      var e := events[0];
      StepCosts(cfg, table, e, src, since);
      AdmittedWithinAllowance(cfg, Step(cfg, table, e), src, events[1..], e.now, until);
      Distribute(e.now - since, until - e.now, cfg.ratePps);
      assert (e.now - since) + (until - e.now) == until - since;
      CountStep(cfg, table, src, events);
    }
  }

  lemma {:induction false} RunIsSound(cfg: Config, table: Table, events: seq<Event>, since: real, until: real)
    requires RefillsWhileIdle(cfg) && Sound(cfg, table, since) && Timed(events, since) && since <= until
    requires forall i :: 0 <= i < |events| ==> events[i].now <= until
    ensures Sound(cfg, TableAfter(cfg, table, events), until)
    decreases |events|
  {
    if events == [] {
      AllowanceGrows(cfg, table, "", since, until);
    } else {
      StepCosts(cfg, table, events[0], "", since);
      RunIsSound(cfg, Step(cfg, table, events[0]), events[1..], events[0].now, until);
    }
  }

  /** In any window of any run, whatever other sources do and whenever the table is pruned, at most
      burst + rate * length packets of one source get past the rate step. */
  lemma WindowIsBounded(
    cfg: Config, src: Source, before: seq<Event>, window: seq<Event>, t0: real, since: real, until: real)
    requires RefillsWhileIdle(cfg) && t0 <= since <= until
    requires Timed(before, t0) && (forall i :: 0 <= i < |before| ==> before[i].now <= since)
    requires Timed(window, since) && (forall i :: 0 <= i < |window| ==> window[i].now <= until)
    ensures CountAdmitted(VerdictsFor(cfg, TableAfter(cfg, map[], before), src, window)) as real
            <= cfg.burst + (until - since) * cfg.ratePps
  {
    RunIsSound(cfg, map[], before, t0, since);
    AdmittedWithinAllowance(cfg, TableAfter(cfg, map[], before), src, window, since, until);
    AllowanceIsNonNegative(cfg, TableAfter(cfg, map[], before), src, since);
  }

  // ------------------------------------------------------------------ the source table

  lemma PrunedIsSmaller(table: Table, now: real)
    ensures Pruned(table, now).Keys <= table.Keys && |Pruned(table, now)| <= |table|
  {
    SubsetIsSmaller(Pruned(table, now).Keys, table.Keys);
  }

  lemma InsertGrowsByOne(table: Table, src: Source, b: Bucket)
    ensures |table[src := b]| == |table| + if src in table then 0 else 1
  {
    assert table[src := b].Keys == table.Keys + {src};
  }

  /** The table never holds more than 4096 sources. */
  lemma {:induction false} TableIsBounded(cfg: Config, table: Table, events: seq<Event>)
    requires |table| <= 4096
    ensures |TableAfter(cfg, table, events)| <= 4096
    decreases |events|
  {
    if events != [] {
      var e := events[0];
      PrunedIsSmaller(table, e.now);
      if e.Packet? {
        InsertGrowsByOne(MadeRoom(table, e.src, e.now), e.src, Spent(cfg, table, e.src, e.now));
      }
      TableIsBounded(cfg, Step(cfg, table, e), events[1..]);
    }
  }

  /** Only sources that sent an allowed packet of an acceptable size ever get an entry. */
  lemma {:induction false} OnlyScreenedInGetEntries(cfg: Config, table: Table, events: seq<Event>, s: Source)
    requires s in TableAfter(cfg, table, events) && s !in table
    ensures s in ScreenedIn(cfg, events)
    decreases |events|
  {
    if events != [] {
      var e := events[0];
      if s !in Step(cfg, table, e) {
        OnlyScreenedInGetEntries(cfg, Step(cfg, table, e), events[1..], s);
      }
    }
  }

  /** A source that was rate-checked at `seen` keeps its entry for the idle period, whatever the
      other sources do, and none of its packets meets a full table in that time. */
  lemma {:induction false} KnownSourceIsNeverTurnedAway(
    cfg: Config, table: Table, src: Source, events: seq<Event>, seen: real, since: real)
    requires src in table && seen <= table[src].last <= since && Timed(events, since)
    requires forall i :: 0 <= i < |events| ==> events[i].now <= seen + 300.0
    ensures AlwaysRoom(cfg, table, src, events)
    ensures Dropped(SourceTableFull) !in VerdictsFor(cfg, table, src, events)
    ensures src in TableAfter(cfg, table, events)
    decreases |events|
  {
    if events != [] {
      var e := events[0];
      var next := Step(cfg, table, e);
      assert src in next && seen <= next[src].last <= e.now;
      KnownSourceIsNeverTurnedAway(cfg, next, src, events[1..], seen, e.now);
    }
  }

  /** Right after a packet was rate-checked, the source is known and its bucket is current. */
  lemma RateCheckedIsKnown(cfg: Config, table: Table, data: Bytes, src: Source, now: real)
    requires !Screened(cfg, data, src) && !NoRoom(table, src, now)
    requires src in table ==> table[src].last <= now
    ensures var next := CheckTable(cfg, table, data, src, now);
            src in next && next[src].last == now
  {
  }

  /** A source whose packet was rate-checked meets no full table for the next 300 seconds, whatever the
      other sources send and whenever the table is pruned. */
  lemma RateCheckedSourceKeepsRoom(cfg: Config, table: Table, data: Bytes, src: Source, now: real, later: seq<Event>)
    requires !Screened(cfg, data, src) && !NoRoom(table, src, now) && (src in table ==> table[src].last <= now)
    requires Timed(later, now) && forall i :: 0 <= i < |later| ==> later[i].now <= now + 300.0
    ensures Dropped(SourceTableFull) !in VerdictsFor(cfg, CheckTable(cfg, table, data, src, now), src, later)
  {
    RateCheckedIsKnown(cfg, table, data, src, now);
    KnownSourceIsNeverTurnedAway(cfg, CheckTable(cfg, table, data, src, now), src, later, now, now);
  }

  // -------------------------------------------------------------------- the counters

  /** The counters after a run of packets and prunes, as the object keeps them. */
  function CountersAfter(cfg: Config, table: Table, counters: Counters, events: seq<Event>): Counters
    decreases |events|
  {
    if events == [] then counters else
    var e := events[0];
    var next := if e.Packet? then counters.Bump(CheckVerdict(cfg, table, e.data, e.src, e.now)) else counters;
    CountersAfter(cfg, Step(cfg, table, e), next, events[1..])
  }

  /** The verdicts of a run, on everyone's packets. */
  function Verdicts(cfg: Config, table: Table, events: seq<Event>): seq<Verdict>
    decreases |events|
  {
    if events == [] then [] else
    var e := events[0];
    var rest := Verdicts(cfg, Step(cfg, table, e), events[1..]);
    if e.Packet? then [CheckVerdict(cfg, table, e.data, e.src, e.now)] + rest else rest
  }

  function Packets(events: seq<Event>): nat {
    if events == [] then 0 else (if events[0].Packet? then 1 else 0) + Packets(events[1..])
  }

  lemma BumpCounts(c: Counters, w: Verdict, v: Verdict)
    ensures c.Bump(w).Of(v) == c.Of(v) + if v == w then 1 else 0
    ensures c.Bump(w).Total() == c.Total() + 1
  {
  }

  /** Over any run each counter grows by the number of calls that had its own verdict. */
  lemma {:induction false} CountersCountVerdicts(
    cfg: Config, table: Table, c: Counters, events: seq<Event>, v: Verdict)
    ensures CountersAfter(cfg, table, c, events).Of(v) == c.Of(v) + multiset(Verdicts(cfg, table, events))[v]
    decreases |events|
  {
    if events != [] {
      var e := events[0];
      var rest := Verdicts(cfg, Step(cfg, table, e), events[1..]);
      if e.Packet? {
        var w := CheckVerdict(cfg, table, e.data, e.src, e.now);
        BumpCounts(c, w, v);
        CountersCountVerdicts(cfg, Step(cfg, table, e), c.Bump(w), events[1..], v);
        assert multiset([w] + rest) == multiset{w} + multiset(rest);
      } else {
        CountersCountVerdicts(cfg, Step(cfg, table, e), c, events[1..], v);
      }
    }
  }

  /** Over any run the counters together grow by the number of packets; prunes count nothing. */
  lemma {:induction false} CountersSumToCalls(cfg: Config, table: Table, c: Counters, events: seq<Event>)
    ensures CountersAfter(cfg, table, c, events).Total() == c.Total() + Packets(events)
    decreases |events|
  {
    if events != [] {
      var e := events[0];
      if e.Packet? {
        var w := CheckVerdict(cfg, table, e.data, e.src, e.now);
        BumpCounts(c, w, w);
        CountersSumToCalls(cfg, Step(cfg, table, e), c.Bump(w), events[1..]);
      } else {
        CountersSumToCalls(cfg, Step(cfg, table, e), c, events[1..]);
      }
    }
  }

  // -------------------------------------------------------------------- the outer TLV

  /** The gate's test holds exactly when X.690 reads the datagram as one SEQUENCE, of a definite
      length in at most four length octets, that fills it completely. */
  lemma TlvSaneIff(data: Bytes)
    ensures TlvSane(data) <==>
            && |data| >= 2 && data[0] == 0x30 && data[1] <= 0x84
            && DecodeElement(data).Some? && DecodeElement(data).value.rest == []
  {
    if |data| >= 2 && data[0] == 0x30 && 0x80 < data[1] <= 0x84 && |data| >= 2 + (data[1] - 0x80) {
      SliceShifts(data, data[1] - 0x80);
    }
  }

  lemma SliceShifts(data: Bytes, n: nat)
    requires 2 + n <= |data|
    ensures data[1..][1..1 + n] == data[2..2 + n] && data[1..][1 + n..] == data[2 + n..]
  {
  }

  /** A SEQUENCE the encoder builds passes exactly when its content is shorter than 2^32 octets, and
      that content is what a decoder reads. */
  lemma BuiltSequencesPassIff(content: Bytes)
    requires |content| <= MAX_BYTES
    ensures TlvSane(Tlv(TAG_SEQUENCE, content)) <==> |content| < 0x1_0000_0000
    ensures DecodeElement(Tlv(TAG_SEQUENCE, content)) == Some(Element(TAG_SEQUENCE, content, []))
  {
    var data := Tlv(TAG_SEQUENCE, content);
    ElementRoundTrip(TAG_SEQUENCE, content, []);
    assert data + [] == data;
    LengthOctetsFit(|content|);
    Pow2Values();
    BitLengthIsLeast(|content|, 32);
    assert data[1] == EncodeLength(|content|)[0];
    TlvSaneIff(data);
  }

  // -------------------------------------------------------------------- the allow-list

  lemma QuotientIsBlock(a: nat, q: nat, size: nat)
    requires size >= 1
    ensures a / size == q <==> q * size <= a < (q + 1) * size
  {
    var r := a % size;
    assert a == (a / size) * size + r && 0 <= r < size;
    if a / size < q {
      assert (a / size + 1) * size <= q * size;
    } else if a / size > q {
      assert (q + 1) * size <= (a / size) * size;
    }
  }

  lemma SameQuotient(a: nat, b: nat, size: nat)
    requires size >= 1
    ensures a / size == b / size <==> b / size * size <= a < b / size * size + size
  {
    var q := b / size;
    QuotientIsBlock(a, q, size);
    assert (q + 1) * size == q * size + size;
  }

  /** A listed network lets in exactly the addresses of its own version in one aligned block, the
      block that holds the network's own base address. */
  lemma NetworkIsBlock(net: Network, a: Address)
    requires net.prefix <= Width(net.base)
    ensures var size := Pow2(Width(net.base) - net.prefix);
            var first := net.base.bits / size * size;
            Contains(net, a) <==> a.V4? == net.base.V4? && first <= a.bits < first + size
  {
    hide Pow2;
    if a.V4? == net.base.V4? {
      var size := Pow2(Width(net.base) - net.prefix);
      SameQuotient(a.bits, net.base.bits, size);
    }
  }

  /** The address lies in the aligned block of a network of its own version. */
  predicate InBlock(net: Network, a: Address) {
    var width := if net.base.V4? then 32 else 128;
    && a.V4? == net.base.V4? && net.prefix <= width
    && var size := Pow2(width - net.prefix);
       var first := net.base.bits / size * size;
       first <= a.bits < first + size
  }

  lemma LoopbackBlock(bits: nat)
    ensures bits / Pow2(24) == 127 <==> 0x7F00_0000 <= bits < 0x8000_0000
  {
    Pow2Step24(0);
    assert Pow2(24) == 0x100_0000;
  }

  /** A packet is refused by the allow-list exactly when its source is no address, or one that is
      neither a loopback address (127.0.0.0/8 or ::1) nor in the block of a listed network. */
  lemma AclRefusesIff(cfg: Config, table: Table, data: Bytes, src: Source, now: real)
    ensures CheckVerdict(cfg, table, data, src, now) == Dropped(Acl) <==>
            match cfg.parse(src)
            case None => true
            case Some(a) =>
              && !(a.V4? && 0x7F00_0000 <= a.bits < 0x8000_0000) && !(a.V6? && a.bits == 1)
              && forall i :: 0 <= i < |cfg.allowedNetworks| ==> !InBlock(cfg.allowedNetworks[i], a)
  {
    if cfg.parse(src).Some? {
      var a := cfg.parse(src).value;
      LoopbackBlock(a.bits);
      forall i | 0 <= i < |cfg.allowedNetworks|
        ensures Contains(cfg.allowedNetworks[i], a) <==> InBlock(cfg.allowedNetworks[i], a)
      {
        ContainsIff(cfg.allowedNetworks[i], a);
      }
      hide Contains, InBlock, IsLoopback;
      assert IsLoopback(a) <==> (a.V4? && 0x7F00_0000 <= a.bits < 0x8000_0000) || (a.V6? && a.bits == 1) by {
        LoopbackIff(a);
      }
    }
  }

  lemma LoopbackIff(a: Address)
    ensures IsLoopback(a) <==> (a.V4? && 0x7F00_0000 <= a.bits < 0x8000_0000) || (a.V6? && a.bits == 1)
  {
    LoopbackBlock(a.bits);
    hide Pow2;
  }

  lemma ContainsIff(net: Network, a: Address)
    ensures Contains(net, a) <==> InBlock(net, a)
  {
    hide Pow2;
    if net.prefix <= Width(net.base) {
      NetworkIsBlock(net, a);
    }
  }

  /** An empty allow-list refuses every source that is not a loopback address. */
  lemma EmptyListDenies(cfg: Config, table: Table, data: Bytes, src: Source, now: real)
    requires cfg.allowedNetworks == [] && cfg.parse(src).Some?
    ensures var a := cfg.parse(src).value;
            CheckVerdict(cfg, table, data, src, now) == Dropped(Acl) <==>
            !(a.V4? && 0x7F00_0000 <= a.bits < 0x8000_0000) && !(a.V6? && a.bits == 1)
  {
    AclRefusesIff(cfg, table, data, src, now);
  }

  // ------------------------------------------------------------- the order of the defence

  /** The tokens of a known source at `now`: what it had, refilled at the rate up to the burst. */
  function TokensAt(cfg: Config, b: Bucket, now: real): real {
    if now <= b.last then b.tokens
    else if cfg.burst <= b.tokens + (now - b.last) * cfg.ratePps then cfg.burst
    else b.tokens + (now - b.last) * cfg.ratePps
  }

  /** A source that is not known finds no room exactly when the table is full of sources that were used
      within the last 300 seconds. */
  lemma NoRoomIff(table: Table, src: Source, now: real)
    requires |table| <= 4096
    ensures NoRoom(table, src, now) <==>
            src !in table && |table| == 4096 && forall s :: s in table ==> now - table[s].last <= 300.0
  {
    if forall s :: s in table ==> now - table[s].last <= 300.0 {
      assert Pruned(table, now) == table;
    } else {
      var s :| s in table && now - table[s].last > 300.0;
      SubsetIsSmaller(Pruned(table, now).Keys, table.Keys - {s});
    }
  }

  /** Behind the allow-list each defence speaks only when those before it let the packet through: the
      size, the room for a source that is not known, its tokens, the outer element. */
  lemma DefencesInOrder(cfg: Config, table: Table, data: Bytes, src: Source, now: real)
    requires |table| <= 4096
    ensures var v := CheckVerdict(cfg, table, data, src, now);
            v == Dropped(Acl) || v ==
              if |data| > cfg.maxBytes then Dropped(Oversize)
              else if src !in table && |table| == 4096 && forall s :: s in table ==> now - table[s].last <= 300.0 then
                Dropped(SourceTableFull)
              else if src in table && TokensAt(cfg, table[src], now) < 1.0 then Dropped(RateLimit)
              else if !DecodesAlone(data) then Dropped(Malformed)
              else Passed
  {
    TlvSaneIff(data);
    NoRoomIff(table, src, now);
    hide TlvSane, IpAllowed, DecodeElement, NoRoom;
  }

  /** The table after a packet, by its verdict. One turned away by the allow-list or for its size leaves
      it alone; a full table first drops the sources idle for more than 300 seconds; and the source's own
      bucket, refilled, gives up a token when it holds one, whatever the packet looks like. */
  lemma TableByVerdict(cfg: Config, table: Table, data: Bytes, src: Source, now: real)
    ensures var v := CheckVerdict(cfg, table, data, src, now);
            var kept := if src in table || |table| < 4096 then table
                        else map s | s in table && now - table[s].last <= 300.0 :: table[s];
            CheckTable(cfg, table, data, src, now) ==
              if v == Dropped(Acl) || v == Dropped(Oversize) then table
              else if v == Dropped(SourceTableFull) then kept
              else if src !in table then kept[src := Bucket(cfg.burst - 1.0, now)]
              else
                var has := TokensAt(cfg, table[src], now);
                var used := if now <= table[src].last then table[src].last else now;
                kept[src := Bucket(if has >= 1.0 then has - 1.0 else has, used)]
  {
    hide TlvSane, IpAllowed;
  }

  /** X.690 reads the bytes as one SEQUENCE, of a definite length in at most four length octets, that
      fills them completely. */
  predicate DecodesAlone(data: Bytes) {
    && |data| >= 2 && data[0] == 0x30 && data[1] <= 0x84
    && DecodeElement(data).Some? && DecodeElement(data).value.rest == []
  }
}
