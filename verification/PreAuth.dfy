/** The gate in front of the decoder: allow-list, size cap, token bucket per source, outer TLV. */
module PreAuth {
  import opened Common
  import opened Bits

  const MAX_TRACKED_SOURCES := 4096
  const IDLE_SECONDS := 300.0

  type Source = string

  datatype Address = V4(bits: nat) | V6(bits: nat)

  /** A network: the addresses of one version whose first `prefix` bits are those of `base`. */
  datatype Network = Network(base: Address, prefix: nat)

  /** Reading an address from its text is a parameter; None is text that is not an address. */
  datatype Config = Config(parse: Source -> Option<Address>, allowedNetworks: seq<Network>,
                           ratePps: real, burst: real, maxBytes: nat)

  datatype Reason = Acl | Oversize | RateLimit | Malformed | SourceTableFull

  datatype Verdict = Passed | Dropped(reason: Reason)

  datatype Bucket = Bucket(tokens: real, last: real)

  datatype Counters = Counters(acl: nat, oversize: nat, rateLimit: nat, malformed: nat, tableFull: nat, passed: nat)
  {
    function Bump(v: Verdict): Counters {
      match v
      case Passed => this.(passed := passed + 1)
      case Dropped(Acl) => this.(acl := acl + 1)
      case Dropped(Oversize) => this.(oversize := oversize + 1)
      case Dropped(RateLimit) => this.(rateLimit := rateLimit + 1)
      case Dropped(Malformed) => this.(malformed := malformed + 1)
      case Dropped(SourceTableFull) => this.(tableFull := tableFull + 1)
    }

    function Of(v: Verdict): nat {
      match v
      case Passed => passed
      case Dropped(Acl) => acl
      case Dropped(Oversize) => oversize
      case Dropped(RateLimit) => rateLimit
      case Dropped(Malformed) => malformed
      case Dropped(SourceTableFull) => tableFull
    }

    function Total(): nat {
      acl + oversize + rateLimit + malformed + tableFull + passed
    }
  }

  type Table = map<Source, Bucket>

  // ---------------------------------------------------------------- pure decisions

  predicate IsLoopback(a: Address) {
    match a
    case V4(bits) => bits / Pow2(24) == 127
    case V6(bits) => bits == 1
  }

  function Width(a: Address): nat {
    if a.V4? then 32 else 128
  }

  predicate Contains(net: Network, a: Address) {
    && net.base.V4? == a.V4?
    && net.prefix <= Width(a)
    && a.bits / Pow2(Width(a) - net.prefix) == net.base.bits / Pow2(Width(a) - net.prefix)
  }

  /** An address is allowed when it is a loopback address or lies in a listed network; an empty
      list therefore denies every other source. */
  predicate IpAllowed(cfg: Config, src: Source) {
    match cfg.parse(src)
    case None => false
    case Some(a) => IsLoopback(a) || exists i :: 0 <= i < |cfg.allowedNetworks| && Contains(cfg.allowedNetworks[i], a)
  }

  /** The rough check of the outer element, without parsing what is inside. */
  predicate TlvSane(data: Bytes) {
    if |data| < 2 || data[0] != 0x30 then false
    else if data[1] < 0x80 then data[1] == |data| - 2
    else
      var n := data[1] % 0x80;
      n != 0 && n <= 4 && |data| >= 2 + n && Number(data[2..2 + n], 256) == |data| - (2 + n)
  }

  // ------------------------------------------------------------------- the table

  /** A bucket as it stands at `now`: refilled when time has passed since it was last used. */
  function Refill(cfg: Config, b: Bucket, now: real): Bucket {
    var elapsed := now - b.last;
    if elapsed > 0.0 then
      var filled := b.tokens + elapsed * cfg.ratePps;
      Bucket(if cfg.burst <= filled then cfg.burst else filled, now)
    else b
  }

  /** Whether the source may send now. */
  predicate RateAllows(cfg: Config, table: Table, src: Source, now: real) {
    src !in table || Refill(cfg, table[src], now).tokens >= 1.0
  }

  /** The source's bucket after the rate check. */
  function Spent(cfg: Config, table: Table, src: Source, now: real): Bucket {
    if src !in table then Bucket(cfg.burst - 1.0, now)
    else
      var b := Refill(cfg, table[src], now);
      if b.tokens >= 1.0 then b.(tokens := b.tokens - 1.0) else b
  }

  /** The sources that a prune keeps: those used within the last idle period. */
  function Pruned(table: Table, now: real): Table {
    map s | s in table && now - table[s].last <= IDLE_SECONDS :: table[s]
  }

  /** Whether a packet of this length is turned away before the table is looked at. */
  predicate Screened(cfg: Config, data: Bytes, src: Source) {
    !IpAllowed(cfg, src) || |data| > cfg.maxBytes
  }

  /** The table after making room for a source it does not know. */
  function MadeRoom(table: Table, src: Source, now: real): Table {
    if src !in table && |table| >= MAX_TRACKED_SOURCES then Pruned(table, now) else table
  }

  predicate NoRoom(table: Table, src: Source, now: real) {
    src !in table && |MadeRoom(table, src, now)| >= MAX_TRACKED_SOURCES
  }

  function CheckVerdict(cfg: Config, table: Table, data: Bytes, src: Source, now: real): Verdict {
    if !IpAllowed(cfg, src) then Dropped(Acl)
    else if |data| > cfg.maxBytes then Dropped(Oversize)
    else if NoRoom(table, src, now) then Dropped(SourceTableFull)
    else if !RateAllows(cfg, table, src, now) then Dropped(RateLimit)
    else if !TlvSane(data) then Dropped(Malformed)
    else Passed
  }

  function CheckTable(cfg: Config, table: Table, data: Bytes, src: Source, now: real): Table {
    if Screened(cfg, data, src) then table
    else if NoRoom(table, src, now) then MadeRoom(table, src, now)
    else MadeRoom(table, src, now)[src := Spent(cfg, table, src, now)]
  }

  // ------------------------------------------------------------------- the object

  class PreAuthGate {
    const cfg: Config
    var buckets: Table
    var counters: Counters

    constructor (cfg: Config)
      ensures this.cfg == cfg && buckets == map[] && counters == Counters(0, 0, 0, 0, 0, 0)
    {
      this.cfg := cfg;
      buckets := map[];
      counters := Counters(0, 0, 0, 0, 0, 0);
    }

    /** The token bucket: refill, then spend one token if there is one. */
    method RateOk(src: Source, now: real) returns (ok: bool)
      modifies this`buckets
      ensures ok == RateAllows(cfg, old(buckets), src, now)
      ensures buckets == old(buckets)[src := Spent(cfg, old(buckets), src, now)]
    {
      if src !in buckets {
        buckets := buckets[src := Bucket(cfg.burst - 1.0, now)];
        return true;
      }
      var b := buckets[src];
      var elapsed := now - b.last;
      if elapsed > 0.0 {
        var filled := b.tokens + elapsed * cfg.ratePps;
        b := Bucket(if cfg.burst <= filled then cfg.burst else filled, now);
      }
      if b.tokens >= 1.0 {
        buckets := buckets[src := b.(tokens := b.tokens - 1.0)];
        return true;
      }
      buckets := buckets[src := b];
      return false;
    }

    /** Drops the buckets that have been idle too long, and says how many they were. */
    method Prune(now: real) returns (removed: nat)
      modifies this`buckets
      ensures buckets == Pruned(old(buckets), now)
      ensures forall s :: s in buckets <==> s in old(buckets) && now - old(buckets)[s].last <= 300.0
      ensures forall s :: s in buckets ==> buckets[s] == old(buckets)[s]
      ensures removed == |old(buckets)| - |buckets|
    {
      var stale := set s | s in buckets && now - buckets[s].last > IDLE_SECONDS;
      removed := |stale|;
      assert stale <= buckets.Keys && (buckets - stale).Keys == buckets.Keys - stale;
      buckets := buckets - stale;
    }

    /** The order of the steps is the order of the defence. */
    method Check(data: Bytes, src: Source, now: real) returns (v: Verdict)
      modifies this`buckets, this`counters
      ensures v == CheckVerdict(cfg, old(buckets), data, src, now)
      ensures buckets == CheckTable(cfg, old(buckets), data, src, now)
      ensures counters == old(counters).Bump(v)
      ensures v == Passed ==> counters == old(counters).(passed := old(counters).passed + 1)
      ensures v == Dropped(Acl) ==> counters == old(counters).(acl := old(counters).acl + 1)
      ensures v == Dropped(Oversize) ==> counters == old(counters).(oversize := old(counters).oversize + 1)
      ensures v == Dropped(RateLimit) ==> counters == old(counters).(rateLimit := old(counters).rateLimit + 1)
      ensures v == Dropped(Malformed) ==> counters == old(counters).(malformed := old(counters).malformed + 1)
      ensures v == Dropped(SourceTableFull) ==> counters == old(counters).(tableFull := old(counters).tableFull + 1)
    {
      if !IpAllowed(cfg, src) {
        counters := counters.(acl := counters.acl + 1);
        return Dropped(Acl);
      }
      if |data| > cfg.maxBytes {
        counters := counters.(oversize := counters.oversize + 1);
        return Dropped(Oversize);
      }
      if src !in buckets && |buckets| >= MAX_TRACKED_SOURCES {
        var _ := Prune(now);
        if |buckets| >= MAX_TRACKED_SOURCES {
          counters := counters.(tableFull := counters.tableFull + 1);
          return Dropped(SourceTableFull);
        }
      }
      var ok := RateOk(src, now);
      if !ok {
        counters := counters.(rateLimit := counters.rateLimit + 1);
        return Dropped(RateLimit);
      }
      if !TlvSane(data) {
        counters := counters.(malformed := counters.malformed + 1);
        return Dropped(Malformed);
      }
      counters := counters.(passed := counters.passed + 1);
      return Passed;
    }
  }
}
