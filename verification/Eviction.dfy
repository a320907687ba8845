/**
 Keeping the index under its budget: sample entries from shards known to hold some, pick
 the best victim for the policy, forget it, until usage is at the target.
 */
module Eviction {
  import opened Bytes
  import opened Memory

  datatype Policy = AllKeysLRU | VolatileLRU | AllKeysLFU | VolatileLFU | AllKeysRandom | VolatileRandom | VolatileTTL

  predicate VolatileOnly(p: Policy) { p.VolatileLRU? || p.VolatileLFU? || p.VolatileRandom? || p.VolatileTTL? }

  const NEVER_IDLE := 0xFFFF_FFFF

  datatype Candidate = Candidate(db: nat, key: bytes, idle: nat, freq: nat, exp: int)

  const LRU_BITS := 0x100_0000

  /** Ticks since the last access on a 24-bit clock. */
  function Idle(now: nat, clock: nat): nat { (now - clock) % LRU_BITS }

  // ---------- one shard ----------

  /** A candidate's figures are its entry's; an expired entry counts as idle longest. */
  predicate Measured(c: Candidate, e: Ent, now: int, clock: nat)
  {
    && c.exp == e.exp
    && (if Expired(e, now) then c.idle == NEVER_IDLE && c.freq == 0 else c.idle == Idle(clock, e.clock) && c.freq == e.freq)
  }

  /** pickFromShard: the first entry, in whatever order the map yields them, that is
      expired or allowed. */
  method PickFromShard(m: map<bytes, Ent>, db: nat, now: int, clock: nat, volatileOnly: bool)
    returns (c: Option<Candidate>)
    ensures c.Some? ==> c.value.db == db && c.value.key in m && Measured(c.value, m[c.value.key], now, clock)
    ensures c.Some? && volatileOnly ==> m[c.value.key].exp != 0
    ensures c.None? ==> forall k | k in m :: volatileOnly && m[k].exp == 0
  {
    var todo := m.Keys;
    while todo != {}
      invariant todo <= m.Keys
      invariant forall k | k in m && k !in todo :: volatileOnly && m[k].exp == 0
    {
      var key :| key in todo;
      todo := todo - {key};
      var e := m[key];
      if Expired(e, now) { return Some(Candidate(db, key, NEVER_IDLE, 0, e.exp)); }
      if volatileOnly && e.exp == 0 { continue; }
      return Some(Candidate(db, key, Idle(clock, e.clock), e.freq, e.exp));
    }
    return None;
  }

  // ---------- a sample ----------

  /** A sampled candidate is an entry that may be evicted. */
  ghost predicate Real(d: Dict, c: Candidate, now: int, clock: nat, volatileOnly: bool)
    reads d
  {
    && c.db < d.count && d.Get(c.db, c.key).Some? && Measured(c, d.Get(c.db, c.key).value, now, clock)
    && (volatileOnly ==> c.exp != 0)
  }

  ghost predicate HasEntries(d: Dict, db: nat)
    reads d
  {
    exists k :: d.Get(db, k).Some?
  }

  lemma DrawnShard(d: Dict, db: nat, p: nat)
    requires d.Valid() && db < d.count && p < |d.dbs[db].nonEmpty|
    ensures d.dbs[db].nonEmpty[p] < |d.dbs[db].maps| && d.dbs[db].maps[d.dbs[db].nonEmpty[p]] != map[]
    ensures forall k | k in d.dbs[db].maps[d.dbs[db].nonEmpty[p]] ::
              d.Get(db, k) == Some(d.dbs[db].maps[d.dbs[db].nonEmpty[p]][k])
  {
    var s := d.dbs[db];
    assert ShardsOk(s, d.n, d.shardOf);
    var i := s.nonEmpty[p];
    assert i in s.pos;
    assert InPlace(s.maps[i], i, d.shardOf);
  }

  lemma NothingListed(d: Dict, db: nat)
    requires d.Valid() && db < d.count && d.dbs[db].nonEmpty == []
    ensures !HasEntries(d, db)
  {
    var s := d.dbs[db];
    assert ShardsOk(s, d.n, d.shardOf);
    forall k ensures d.Get(db, k) == None {
      assert d.shardOf(k) !in s.pos;
    }
  }

  /** The draws from one database; where the random draw falls is up to rand. */
  method SampleDb(d: Dict, db: nat, n: nat, now: int, clock: nat, volatileOnly: bool, rand: nat -> nat)
    returns (out: seq<Candidate>)
    requires d.Valid() && db < d.count && n > 0
    ensures forall c | c in out :: Real(d, c, now, clock, volatileOnly)
    ensures !volatileOnly && HasEntries(d, db) ==> out != []
  {
    hide Real, HasEntries;
    out := [];
    for r := 0 to n
      invariant forall c | c in out :: Real(d, c, now, clock, volatileOnly)
      invariant r > 0 && !volatileOnly && HasEntries(d, db) ==> out != []
    {
      var listed := d.dbs[db].nonEmpty;
      if |listed| == 0 {
        NothingListed(d, db);
        return;
      }
      var p := rand(r) % |listed|;
      DrawnShard(d, db, p);
      var m := d.dbs[db].maps[listed[p]];
      var c := PickFromShard(m, db, now, clock, volatileOnly);
      if c.Some? {
        IsReal(d, c.value, now, clock, volatileOnly, m);
        out := out + [c.value];
      } else {
        SomeKey(m);
      }
    }
  }

  lemma SomeKey(m: map<bytes, Ent>)
    requires m != map[]
    ensures exists k :: k in m
  {
    assert m.Keys != {};
  }

  lemma IsReal(d: Dict, c: Candidate, now: int, clock: nat, volatileOnly: bool, m: map<bytes, Ent>)
    requires c.key in m && Measured(c, m[c.key], now, clock) && (volatileOnly ==> m[c.key].exp != 0) && c.db < d.count
    requires d.Get(c.db, c.key) == Some(m[c.key])
    ensures Real(d, c, now, clock, volatileOnly)
  {}

  /** sample: over all databases. While any database has an entry, an all-keys policy
      always finds a candidate. */
  method Sample(d: Dict, n: nat, now: int, clock: nat, volatileOnly: bool, rand: (nat, nat) -> nat)
    returns (out: seq<Candidate>)
    requires d.Valid()
    ensures forall c | c in out :: Real(d, c, now, clock, volatileOnly)
    ensures !volatileOnly && (exists db :: 0 <= db < d.count && HasEntries(d, db)) ==> out != []
  {
    hide Real, HasEntries;
    var rounds := if n <= 0 then 5 else n;
    out := [];
    for db := 0 to d.count
      invariant forall c | c in out :: Real(d, c, now, clock, volatileOnly)
      invariant !volatileOnly && (exists x :: 0 <= x < db && HasEntries(d, x)) ==> out != []
    {
      var cs := SampleDb(d, db, rounds, now, clock, volatileOnly, r => rand(db, r));
      out := out + cs;
    }
  }

  // ---------- the victim ----------

  /** a is at least as good a victim as b. */
  predicate NoWorse(p: Policy, a: Candidate, b: Candidate)
  {
    match p
    case AllKeysLRU => a.idle >= b.idle
    case VolatileLRU => a.idle >= b.idle
    case AllKeysLFU => a.freq <= b.freq
    case VolatileLFU => a.freq <= b.freq
    case VolatileTTL => b.exp == 0 || (a.exp != 0 && a.exp <= b.exp)
    case _ => true
  }

  /** What the best candidate is, in terms of the entries: accessed no later than any other
      under LRU, while no clock has gone round; used no more often under LFU; the next to
      expire under TTL. Expired entries go first. */
  lemma VictimMeans(p: Policy, a: Candidate, b: Candidate, x: Ent, y: Ent, now: int, clock: nat)
    requires NoWorse(p, a, b) && Measured(a, x, now, clock) && Measured(b, y, now, clock)
    ensures (p == AllKeysLRU || p == VolatileLRU) && x.clock <= clock < x.clock + LRU_BITS && y.clock <= clock < y.clock + LRU_BITS ==>
              Expired(x, now) || (!Expired(y, now) && x.clock <= y.clock)
    ensures p == AllKeysLFU || p == VolatileLFU ==> Expired(x, now) || Expired(y, now) || x.freq <= y.freq
    ensures p == VolatileTTL && y.exp != 0 ==> x.exp != 0 && x.exp <= y.exp
  {}

  /** pick: the best of the sample for the policy. */
  method Pick(samples: seq<Candidate>, p: Policy) returns (best: Candidate)
    requires samples != []
    ensures best in samples && forall c | c in samples :: NoWorse(p, best, c)
  {
    best := samples[0];
    for i := 1 to |samples|
      invariant best in samples && forall j | 0 <= j < i :: NoWorse(p, best, samples[j])
    {
      var c := samples[i];
      match p
      case AllKeysLRU => if c.idle > best.idle { best := c; }
      case VolatileLRU => if c.idle > best.idle { best := c; }
      case AllKeysLFU => if c.freq < best.freq { best := c; }
      case VolatileLFU => if c.freq < best.freq { best := c; }
      case VolatileTTL => if c.exp != 0 && (best.exp == 0 || c.exp < best.exp) { best := c; }
      case AllKeysRandom =>
      case VolatileRandom =>
    }
  }

  lemma SmallIsPositive(key: bytes, inline: bytes)
    ensures |key| + |inline| + ENTRY_BASE_SIZE < U32 ==> EntryMem(key, inline) > 0
  {}

  lemma Footprint(d: Dict, db: nat, k: bytes)
    requires d.Valid() && db < d.count && d.Get(db, k).Some?
    ensures d.Get(db, k).value.size == EntryMem(k, d.Get(db, k).value.inline)
  {
    PlacesOk(d.dbs[db], d.n, d.shardOf);
  }

  /** What one eviction does: one entry is gone, usage fell by its size, and under a
      volatile policy the entry had an expiry. */
  twostate predicate Evicted(d: Dict, p: Policy, c: Candidate)
    reads d
  {
    && c.db < d.count && old(d.Get(c.db, c.key)).Some? && d.Get(c.db, c.key) == None
    && d.used == old(d.used) - old(d.Get(c.db, c.key)).value.size
    && (VolatileOnly(p) ==> old(d.Get(c.db, c.key)).value.exp != 0)
    && forall db, k | db != c.db || k != c.key :: d.Get(db, k) == old(d.Get(db, k))
  }

  /** evictOne with persistent data left alone. */
  method EvictOne(d: Dict, p: Policy, n: nat, now: int, clock: nat, rand: (nat, nat) -> nat)
    returns (ok: bool, ghost victim: Candidate, ghost sampled: seq<Candidate>)
    requires d.Valid()
    modifies d
    ensures d.Valid()
    ensures ok ==> victim in sampled && forall c | c in sampled ::
                     NoWorse(p, victim, c) && old(Real(d, c, now, clock, VolatileOnly(p)))
    ensures ok ==> Evicted(d, p, victim)
    ensures ok && |victim.key| + |old(d.Get(victim.db, victim.key)).value.inline| + ENTRY_BASE_SIZE < U32 ==> d.used < old(d.used)
    ensures !ok ==> d.dbs == old(d.dbs) && d.used == old(d.used)
    ensures !ok && !VolatileOnly(p) ==> forall db | 0 <= db < d.count :: !HasEntries(d, db)
  {
    hide HasEntries, EntryMem, ShardsOk, Sum;
    victim, sampled := Candidate(0, [], 0, 0, 0), [];
    var samples := Sample(d, n, now, clock, VolatileOnly(p), rand);
    if samples == [] { return false, victim, []; }
    sampled := samples;
    var best := Pick(samples, p);
    assert Real(d, best, now, clock, VolatileOnly(p));
    victim := best;
    Footprint(d, best.db, best.key);
    SmallIsPositive(best.key, d.Get(best.db, best.key).value.inline);
    var gone := d.Delete(best.db, best.key);
    return true, victim, samples;
  }

  const ROUND_LIMIT := 64

  /** The policies that may evict any key. */
  predicate AllKeys(p: Policy) { p in {AllKeysLRU, AllKeysLFU, AllKeysRandom} }

  /** MaybeEvict: entries only disappear, never one without an expiry under a volatile
      policy; and unless time runs out, an all-keys policy ends at the target, after
      sixty-four evictions, or with nothing left. */
  method MaybeEvict(d: Dict, p: Policy, n: nat, target: int, now: int, clock: nat, rand: (nat, nat, nat) -> nat,
                    late: nat -> bool)
    returns (evicted: nat)
    requires d.Valid()
    modifies d
    ensures d.Valid() && evicted <= ROUND_LIMIT && d.used <= old(d.used)
    ensures forall db, k :: d.Get(db, k) == old(d.Get(db, k)) || d.Get(db, k) == None
    ensures !AllKeys(p) ==>
              forall db, k | old(d.Get(db, k)).Some? && old(d.Get(db, k)).value.exp == 0 :: d.Get(db, k) == old(d.Get(db, k))
    ensures AllKeys(p) && (forall r :: !late(r)) ==>
              d.used <= target || evicted == ROUND_LIMIT || forall db | 0 <= db < d.count :: !HasEntries(d, db)
  {
    hide HasEntries, ShardsOk, Sum, At;
    evicted := 0;
    if d.used <= target { return; }
    for r := 0 to ROUND_LIMIT
      invariant d.Valid() && evicted == r && d.used <= old(d.used)
      invariant forall db, k :: d.Get(db, k) == old(d.Get(db, k)) || d.Get(db, k) == None
      invariant VolatileOnly(p) ==>
                  forall db, k | old(d.Get(db, k)).Some? && old(d.Get(db, k)).value.exp == 0 :: d.Get(db, k) == old(d.Get(db, k))
    {
      if d.used <= target || late(r) { return; }
      var ok, victim, sampled := EvictOne(d, p, n, now, clock, (db, i) => rand(r, db, i));
      if !ok { return; }
      evicted := evicted + 1;
    }
  }
}
