/**
 The in-memory index: databases split into shards, the list of shards that hold entries,
 and a running estimate of the bytes in use. Eviction samples from that list.
 */
module Memory {
  import opened Bytes

  const ENTRY_BASE_SIZE := 64

  /** One index entry; size is its estimated footprint. */
  datatype Ent = Ent(typ: byte, exp: int, inline: bytes, counter: bool, size: nat, clock: nat, freq: nat, version: nat)

  /** entryMem, in 32 bits. */
  function EntryMem(key: bytes, inline: bytes): nat { (ENTRY_BASE_SIZE + |key| + |inline|) % U32 }

  /** The shards of a database, those that hold entries, and where each is listed. */
  datatype Shards = Shards(maps: seq<map<bytes, Ent>>, nonEmpty: seq<nat>, pos: map<nat, nat>)

  // ---------- the list of shards that hold entries ----------

  /** nonEmpty and pos are inverse to each other. */
  ghost predicate Inverse(nonEmpty: seq<nat>, pos: map<nat, nat>)
  {
    && (forall p | 0 <= p < |nonEmpty| :: nonEmpty[p] in pos && pos[nonEmpty[p]] == p)
    && (forall i | i in pos :: pos[i] < |nonEmpty| && nonEmpty[pos[i]] == i)
  }

  function TrackInsert(d: Shards, i: nat): Shards
  {
    if i in d.pos then d else d.(pos := d.pos[i := |d.nonEmpty|], nonEmpty := d.nonEmpty + [i])
  }

  /** The last listed shard takes the place of the one that leaves. */
  function TrackEmpty(d: Shards, i: nat): Shards
    requires i in d.pos ==> d.pos[i] < |d.nonEmpty|
  {
    if i !in d.pos then d else
    var p, last := d.pos[i], |d.nonEmpty| - 1;
    var moved := d.nonEmpty[last];
    d.(nonEmpty := d.nonEmpty[p := moved][..last], pos := d.pos[moved := p] - {i})
  }

  lemma InsertInverse(d: Shards, i: nat)
    requires Inverse(d.nonEmpty, d.pos)
    ensures Inverse(TrackInsert(d, i).nonEmpty, TrackInsert(d, i).pos)
    ensures TrackInsert(d, i).pos.Keys == d.pos.Keys + {i}
  {}

  lemma EmptyInverse(d: Shards, i: nat)
    requires Inverse(d.nonEmpty, d.pos)
    ensures Inverse(TrackEmpty(d, i).nonEmpty, TrackEmpty(d, i).pos)
    ensures TrackEmpty(d, i).pos.Keys == d.pos.Keys - {i}
  {
    if i in d.pos {
      var p, last := d.pos[i], |d.nonEmpty| - 1;
      var moved := d.nonEmpty[last];
      var d' := TrackEmpty(d, i);
      assert moved in d.pos && d.pos[moved] == last;
      forall q | 0 <= q < |d'.nonEmpty| ensures d'.nonEmpty[q] in d'.pos && d'.pos[d'.nonEmpty[q]] == q {
        if q != p { assert d'.nonEmpty[q] == d.nonEmpty[q]; }
      }
    }
  }

  // ---------- sizes ----------

  ghost function ShardSize(m: map<bytes, Ent>): nat
  {
    if m == map[] then 0 else
    var k :| k in m;
    m[k].size + ShardSize(m - {k})
  }

  lemma {:induction false} BytesSplit(m: map<bytes, Ent>, k: bytes)
    requires k in m
    ensures ShardSize(m) == m[k].size + ShardSize(m - {k})
    decreases |m|
  {
    var x :| x in m && ShardSize(m) == m[x].size + ShardSize(m - {x});
    if x != k {
      BytesSplit(m - {x}, k);
      BytesSplit(m - {k}, x);
      assert m - {x} - {k} == m - {k} - {x};
    }
  }

  lemma BytesPut(m: map<bytes, Ent>, k: bytes, e: Ent)
    ensures ShardSize(m[k := e]) == ShardSize(m) + e.size - (if k in m then m[k].size else 0)
  {
    BytesSplit(m[k := e], k);
    if k in m {
      BytesSplit(m, k);
      assert m[k := e] - {k} == m - {k};
    } else {
      assert m[k := e] - {k} == m;
    }
  }

  ghost function AllBytes(ms: seq<map<bytes, Ent>>): nat
  {
    if ms == [] then 0 else AllBytes(ms[..|ms| - 1]) + ShardSize(ms[|ms| - 1])
  }

  lemma {:induction false} AllBytesPut(ms: seq<map<bytes, Ent>>, i: nat, m: map<bytes, Ent>)
    requires i < |ms|
    ensures AllBytes(ms[i := m]) == AllBytes(ms) + ShardSize(m) - ShardSize(ms[i])
    ensures ShardSize(ms[i]) <= AllBytes(ms)
  {
    var last := |ms| - 1;
    if i == last {
      assert ms[i := m][..last] == ms[..last];
    } else {
      assert ms[i := m][..last] == ms[..last][i := m];
      AllBytesPut(ms[..last], i, m);
    }
  }

  ghost function Sum(dbs: seq<Shards>): nat
  {
    if dbs == [] then 0 else Sum(dbs[..|dbs| - 1]) + AllBytes(dbs[|dbs| - 1].maps)
  }

  lemma {:induction false} SumPut(dbs: seq<Shards>, i: nat, d: Shards)
    requires i < |dbs|
    ensures Sum(dbs[i := d]) == Sum(dbs) + AllBytes(d.maps) - AllBytes(dbs[i].maps)
    ensures AllBytes(dbs[i].maps) <= Sum(dbs)
  {
    var last := |dbs| - 1;
    if i == last {
      assert dbs[i := d][..last] == dbs[..last];
    } else {
      assert dbs[i := d][..last] == dbs[..last][i := d];
      SumPut(dbs[..last], i, d);
    }
  }

  // ---------- one database ----------

  /** Every entry is in its key's shard with its right size, and exactly the shards that
      hold entries are listed. */
  ghost predicate ShardsOk(d: Shards, n: nat, shardOf: bytes -> nat)
  {
    && |d.maps| == n && Inverse(d.nonEmpty, d.pos)
    && (forall i :: i in d.pos <==> 0 <= i < n && d.maps[i] != map[])
    && (forall i | 0 <= i < n :: InPlace(d.maps[i], i, shardOf))
  }

  ghost predicate InPlace(m: map<bytes, Ent>, i: nat, shardOf: bytes -> nat)
  {
    forall k | k in m :: shardOf(k) == i && m[k].size == EntryMem(k, m[k].inline)
  }

  function Fresh(n: nat): Shards { Shards(seq(n, _ => map[]), [], map[]) }

  lemma FreshOk(n: nat, shardOf: bytes -> nat)
    ensures ShardsOk(Fresh(n), n, shardOf) && AllBytes(Fresh(n).maps) == 0
  {
    NoBytes(Fresh(n).maps);
  }

  lemma {:induction false} NoBytes(ms: seq<map<bytes, Ent>>)
    requires forall i | 0 <= i < |ms| :: ms[i] == map[]
    ensures AllBytes(ms) == 0
  {
    if ms != [] { NoBytes(ms[..|ms| - 1]); }
  }

  function At(d: Shards, i: nat, key: bytes): Option<Ent>
  {
    if i < |d.maps| && key in d.maps[i] then Some(d.maps[i][key]) else None
  }

  /** Storing an entry in shard i, and listing the shard. */
  function Inserted(d: Shards, i: nat, key: bytes, e: Ent): Shards
    requires i < |d.maps|
  {
    TrackInsert(d.(maps := d.maps[i := d.maps[i][key := e]]), i)
  }

  /** Removing an entry, and unlisting the shard when it is left empty. */
  function Removed(d: Shards, i: nat, key: bytes): Shards
    requires i < |d.maps| && (i in d.pos ==> d.pos[i] < |d.nonEmpty|)
  {
    var d1 := d.(maps := d.maps[i := d.maps[i] - {key}]);
    if d1.maps[i] == map[] then TrackEmpty(d1, i) else d1
  }

  lemma InsertOk(d: Shards, n: nat, shardOf: bytes -> nat, key: bytes, e: Ent)
    requires ShardsOk(d, n, shardOf) && shardOf(key) < n && e.size == EntryMem(key, e.inline)
    ensures var i := shardOf(key);
            && ShardsOk(Inserted(d, i, key, e), n, shardOf)
            && AllBytes(Inserted(d, i, key, e).maps) ==
               AllBytes(d.maps) + e.size - (if key in d.maps[i] then d.maps[i][key].size else 0)
  {
    hide Inverse, ShardSize, AllBytes, EntryMem, TrackInsert;
    var i := shardOf(key);
    var d' := Inserted(d, i, key, e);
    InsertSame(d.(maps := d.maps[i := d.maps[i][key := e]]), i);
    InsertInverse(d.(maps := d.maps[i := d.maps[i][key := e]]), i);
    BytesPut(d.maps[i], key, e);
    AllBytesPut(d.maps, i, d.maps[i][key := e]);
    forall j: nat ensures j in d'.pos <==> 0 <= j < n && d'.maps[j] != map[] { StillListed(d, i, key, e, n, j); }
    assert InPlace(d.maps[i], i, shardOf);
  }

  lemma StillListed(d: Shards, i: nat, key: bytes, e: Ent, n: nat, j: nat)
    requires |d.maps| == n && i < n && (forall x :: x in d.pos <==> 0 <= x < n && d.maps[x] != map[])
    ensures var d' := Inserted(d, i, key, e);
            j in d'.pos <==> 0 <= j < n && d'.maps[j] != map[]
  {
    assert key in d.maps[i][key := e];
  }

  predicate Listed(d: Shards, i: nat) { i in d.pos ==> d.pos[i] < |d.nonEmpty| }

  lemma ListedIs(d: Shards, i: nat)
    requires Inverse(d.nonEmpty, d.pos)
    ensures Listed(d, i)
  {}

  lemma RemoveOk(d: Shards, n: nat, shardOf: bytes -> nat, key: bytes)
    requires ShardsOk(d, n, shardOf) && shardOf(key) < n && key in d.maps[shardOf(key)]
    ensures Listed(d, shardOf(key))
    ensures var i := shardOf(key);
            && ShardsOk(Removed(d, i, key), n, shardOf)
            && AllBytes(Removed(d, i, key).maps) == AllBytes(d.maps) - d.maps[i][key].size
            && d.maps[i][key].size <= AllBytes(d.maps)
  {
    hide Inverse, ShardSize, AllBytes, InPlace, TrackEmpty;
    var i := shardOf(key);
    ListedIs(d, i);
    var m := d.maps[i] - {key};
    var d1 := d.(maps := d.maps[i := m]);
    var d' := Removed(d, i, key);
    EmptyInverse(d1, i);
    EmptyMaps(d1, i);
    BytesSplit(d.maps[i], key);
    AllBytesPut(d.maps, i, m);
    SmallerInPlace(d.maps[i], m, i, shardOf);
    assert d'.maps == d1.maps;
    forall j: nat ensures j in d'.pos <==> 0 <= j < n && d'.maps[j] != map[] {
      assert j in d.pos <==> 0 <= j < n && d.maps[j] != map[];
    }
  }

  lemma EmptyMaps(d: Shards, i: nat)
    requires i in d.pos ==> d.pos[i] < |d.nonEmpty|
    ensures TrackEmpty(d, i).maps == d.maps
  {}

  lemma SmallerInPlace(m: map<bytes, Ent>, m': map<bytes, Ent>, i: nat, shardOf: bytes -> nat)
    requires InPlace(m, i, shardOf) && m'.Keys <= m.Keys && forall k | k in m' :: m'[k] == m[k]
    ensures InPlace(m', i, shardOf)
  {}

  /** Dict.Rename between two shards lists the target only when the source keeps entries. */
  function Moved(d: Shards, i: nat, src: bytes, j: nat, dst: bytes, e: Ent): Shards
    requires i < |d.maps| && j < |d.maps| && Listed(d, i)
  {
    var maps := d.maps[i := d.maps[i] - {src}];
    var d1 := d.(maps := maps[j := maps[j][dst := e]]);
    if d1.maps[i] == map[] then TrackEmpty(d1, i) else TrackInsert(d1, j)
  }

  /** The list stays right exactly when the source shard keeps an entry or the target
      shard had one. */
  lemma MovedListsExactly(d: Shards, n: nat, i: nat, src: bytes, j: nat, dst: bytes, e: Ent)
    requires |d.maps| == n && i < n && j < n && i != j && src in d.maps[i] && Inverse(d.nonEmpty, d.pos)
    requires forall x :: x in d.pos <==> 0 <= x < n && d.maps[x] != map[]
    ensures Listed(d, i)
    ensures (forall x :: x in Moved(d, i, src, j, dst, e).pos <==> 0 <= x < n && Moved(d, i, src, j, dst, e).maps[x] != map[])
            <==> d.maps[i] - {src} != map[] || d.maps[j] != map[]
  {
    hide Inverse, TrackEmpty, TrackInsert;
    ListedIs(d, i);
    var maps := d.maps[i := d.maps[i] - {src}];
    var d1 := d.(maps := maps[j := maps[j][dst := e]]);
    var d' := Moved(d, i, src, j, dst, e);
    EmptyInverse(d1, i);
    EmptyMaps(d1, i);
    InsertInverse(d1, j);
    InsertSame(d1, j);
    assert dst in d1.maps[j];
    assert d'.maps == d1.maps;
    if d.maps[i] - {src} == map[] && d.maps[j] == map[] {
      assert j !in d'.pos && d'.maps[j] != map[];
    } else {
      forall x: nat ensures x in d'.pos <==> 0 <= x < n && d'.maps[x] != map[] {
        assert x in d.pos <==> 0 <= x < n && d.maps[x] != map[];
      }
    }
  }

  lemma InsertSame(d: Shards, i: nat)
    ensures TrackInsert(d, i).maps == d.maps
  {}

  // ---------- the dict ----------

  predicate Expired(e: Ent, now: int) { e.exp != 0 && e.exp <= now }

  /** newEntry: small values are kept inline. */
  function NewEnt(key: bytes, typ: byte, exp: int, payload: bytes, inlineMax: nat, clock: nat): Ent
  {
    var inline := if 0 < |payload| <= inlineMax then payload else [];
    Ent(typ, exp, inline, false, EntryMem(key, inline), clock, 5, 1)
  }

  class Dict {
    var dbs: seq<Shards>
    var used: int
    const count: nat
    const n: nat
    const inlineMax: nat
    const shardOf: bytes -> nat

    /** Usage is the sum of the entry sizes, and every database is in order. */
    ghost predicate Valid()
      reads this
    {
      && |dbs| == count && used == Sum(dbs)
      && (forall db | 0 <= db < count :: ShardsOk(dbs[db], n, shardOf))
      && (forall k: bytes :: shardOf(k) < n)
    }

    constructor (count: nat, n: nat, inlineMax: nat, shardOf: bytes -> nat)
      requires forall k: bytes :: shardOf(k) < n
      ensures Valid() && this.count == count && this.n == n && this.inlineMax == inlineMax && this.shardOf == shardOf
      ensures forall db | 0 <= db < count :: dbs[db] == Fresh(n)
    {
      this.count, this.n, this.inlineMax, this.shardOf := count, n, inlineMax, shardOf;
      this.dbs, this.used := seq(count, _ => Fresh(n)), 0;
      new;
      FreshOk(n, shardOf);
      NoSum(dbs, n);
    }

    function Get(db: nat, key: bytes): Option<Ent>
      reads this
    {
      if db < |dbs| then At(dbs[db], shardOf(key), key) else None
    }

    /** Put e under key, keeping usage, places and the shard list right. */
    method Store(db: nat, key: bytes, e: Ent)
      requires Valid() && db < count && e.size == EntryMem(key, e.inline)
      modifies this
      ensures Valid() && dbs == old(dbs)[db := Inserted(old(dbs)[db], shardOf(key), key, e)]
      ensures used == old(used) + e.size - (match old(Get(db, key)) case None => 0 case Some(was) => was.size)
      ensures Get(db, key) == Some(e)
      ensures forall db', key' | db' != db || key' != key :: Get(db', key') == old(Get(db', key'))
    {
      hide ShardsOk, Sum, AllBytes, TrackInsert, EntryMem;
      PlacesOk(dbs[db], n, shardOf);
      var i := shardOf(key);
      var d := dbs[db];
      InsertOk(d, n, shardOf, key, e);
      SumPut(dbs, db, Inserted(d, i, key, e));
      InsertMaps(d, i, key, e);
      used := used + e.size - (if key in d.maps[i] then d.maps[i][key].size else 0);
      d := d.(maps := d.maps[i := d.maps[i][key := e]]);
      dbs := dbs[db := TrackInsert(d, i)];
    }

    /** Delete: the entry goes, and its shard leaves the list when it was the last one. */
    method Delete(db: nat, key: bytes) returns (gone: Option<Ent>)
      requires Valid() && db < count
      modifies this
      ensures Valid() && gone == old(Get(db, key)) && Get(db, key) == None
      ensures used == old(used) - (match gone case None => 0 case Some(e) => e.size)
      ensures forall db', key' | db' != db || key' != key :: Get(db', key') == old(Get(db', key'))
      ensures gone.None? ==> dbs == old(dbs)
    {
      hide ShardsOk, Sum, AllBytes, TrackEmpty, EntryMem;
      PlacesOk(dbs[db], n, shardOf);
      var i := shardOf(key);
      var d := dbs[db];
      if key !in d.maps[i] { return None; }
      var e := d.maps[i][key];
      RemoveOk(d, n, shardOf, key);
      SumPut(dbs, db, Removed(d, i, key));
      EmptyMaps(d.(maps := d.maps[i := d.maps[i] - {key}]), i);
      d := d.(maps := d.maps[i := d.maps[i] - {key}]);
      used := used - e.size;
      if |d.maps[i]| == 0 {
        assert d.maps[i] == map[];
        d := TrackEmpty(d, i);
      }
      dbs := dbs[db := d];
      return Some(e);
    }

    /** Lookup: an expired entry is dropped and reported missing. */
    method Lookup(db: nat, key: bytes, now: int) returns (e: Option<Ent>)
      requires Valid() && db < count
      modifies this
      ensures Valid()
      ensures e == (match old(Get(db, key)) case None => None case Some(x) => if Expired(x, now) then None else Some(x))
      ensures Get(db, key) == e
      ensures forall db', key' | db' != db || key' != key :: Get(db', key') == old(Get(db', key'))
    {
      hide ShardsOk, Sum;
      PlacesOk(dbs[db], n, shardOf);
      var i := shardOf(key);
      if key !in dbs[db].maps[i] { return None; }
      var x := dbs[db].maps[i][key];
      if Expired(x, now) {
        var _ := Delete(db, key);
        return None;
      }
      return Some(x);
    }

    /** Set: an overwrite keeps the access history and counts the version up. */
    method Set(db: nat, key: bytes, typ: byte, exp: int, payload: bytes, clock: nat)
      requires Valid() && db < count
      modifies this
      ensures Valid()
      ensures var e := NewEnt(key, typ, exp, payload, inlineMax, clock);
              Get(db, key) == Some(match old(Get(db, key))
                                   case None => e
                                   case Some(was) => e.(clock := was.clock, freq := was.freq, version := was.version + 1))
      ensures forall db', key' | db' != db || key' != key :: Get(db', key') == old(Get(db', key'))
    {
      hide ShardsOk, Sum, EntryMem;
      PlacesOk(dbs[db], n, shardOf);
      var i := shardOf(key);
      var e := NewEnt(key, typ, exp, payload, inlineMax, clock);
      if key in dbs[db].maps[i] {
        var was := dbs[db].maps[i][key];
        e := e.(clock := was.clock, freq := was.freq, version := was.version + 1);
      }
      Store(db, key, e);
    }

    /** SetCounter: an existing entry keeps its footprint and is only flagged. */
    method SetCounter(db: nat, key: bytes, exp: int, clock: nat)
      requires Valid() && db < count
      modifies this
      ensures Valid()
      ensures Get(db, key) == Some(match old(Get(db, key))
                                   case None => NewEnt(key, 0, exp, [], inlineMax, clock).(counter := true)
                                   case Some(was) => was.(counter := true, exp := exp, version := was.version + 1))
      ensures old(Get(db, key)).Some? ==> used == old(used)
      ensures forall db', key' | db' != db || key' != key :: Get(db', key') == old(Get(db', key'))
    {
      hide ShardsOk, Sum, EntryMem;
      PlacesOk(dbs[db], n, shardOf);
      var i := shardOf(key);
      if key in dbs[db].maps[i] {
        var was := dbs[db].maps[i][key];
        Store(db, key, was.(counter := true, exp := exp, version := was.version + 1));
        return;
      }
      Store(db, key, NewEnt(key, 0, exp, [], inlineMax, clock).(counter := true));
    }

    /** SetExpiry: only a live entry gets the new expiry; an expired one is dropped. */
    method SetExpiry(db: nat, key: bytes, exp: int, now: int) returns (ok: bool)
      requires Valid() && db < count
      modifies this
      ensures Valid() && ok == (old(Get(db, key)).Some? && !Expired(old(Get(db, key)).value, now))
      ensures Get(db, key) == if ok then Some(old(Get(db, key)).value.(exp := exp)) else None
      ensures forall db', key' | db' != db || key' != key :: Get(db', key') == old(Get(db', key'))
    {
      hide ShardsOk, Sum, EntryMem;
      PlacesOk(dbs[db], n, shardOf);
      var i := shardOf(key);
      if key !in dbs[db].maps[i] { return false; }
      var e := dbs[db].maps[i][key];
      if Expired(e, now) {
        var _ := Delete(db, key);
        return false;
      }
      Store(db, key, e.(exp := exp));
      return true;
    }

    /** Flush: the database starts over and usage is counted afresh. */
    method Flush(db: nat)
      requires Valid() && db < count
      modifies this
      ensures Valid() && dbs == old(dbs)[db := Fresh(n)]
    {
      hide ShardsOk, AllBytes;
      FreshOk(n, shardOf);
      dbs := dbs[db := Fresh(n)];
      used := 0;
      for x := 0 to count
        invariant dbs == old(dbs)[db := Fresh(n)] && used == Sum(dbs[..x])
      {
        var b := CountShards(dbs[x].maps);
        assert dbs[..x + 1][..x] == dbs[..x];
        used := used + b;
      }
      assert dbs[..count] == dbs;
    }
  }

  lemma NoSum(dbs: seq<Shards>, n: nat)
    requires forall db | 0 <= db < |dbs| :: dbs[db] == Fresh(n)
    ensures Sum(dbs) == 0
  {
    if dbs != [] {
      NoSum(dbs[..|dbs| - 1], n);
      NoBytes(Fresh(n).maps);
    }
  }

  lemma PlacesOk(d: Shards, n: nat, shardOf: bytes -> nat)
    requires ShardsOk(d, n, shardOf)
    ensures |d.maps| == n && forall i | 0 <= i < n :: Listed(d, i)
    ensures forall k | shardOf(k) < n && k in d.maps[shardOf(k)] ::
              d.maps[shardOf(k)][k].size == EntryMem(k, d.maps[shardOf(k)][k].inline)
  {
    forall k | shardOf(k) < n && k in d.maps[shardOf(k)]
      ensures d.maps[shardOf(k)][k].size == EntryMem(k, d.maps[shardOf(k)][k].inline)
    {
      assert InPlace(d.maps[shardOf(k)], shardOf(k), shardOf);
    }
  }

  lemma InsertMaps(d: Shards, i: nat, key: bytes, e: Ent)
    requires i < |d.maps|
    ensures Inserted(d, i, key, e).maps == d.maps[i := d.maps[i][key := e]]
  {}

  /** recomputeUsed over one database. */
  method CountShards(ms: seq<map<bytes, Ent>>) returns (total: nat)
    ensures total == AllBytes(ms)
  {
    hide ShardSize;
    total := 0;
    for i := 0 to |ms|
      invariant total == AllBytes(ms[..i])
    {
      var b := CountMap(ms[i]);
      assert ms[..i + 1][..i] == ms[..i];
      total := total + b;
    }
    assert ms[..|ms|] == ms;
  }

  method CountMap(m: map<bytes, Ent>) returns (total: nat)
    ensures total == ShardSize(m)
  {
    total := 0;
    var rest := m;
    while rest != map[]
      invariant total + ShardSize(rest) == ShardSize(m)
      decreases |rest|
    {
      var k :| k in rest;
      BytesSplit(rest, k);
      total := total + rest[k].size;
      rest := rest - {k};
    }
  }
}
