/** The sharded dict refines the map of the data path. */
module Caching {
  /*
   The data path keeps its cache as one map from keys to entries. The dict keeps sharded
   maps, sizes, access history and versions. What a caller sees of an entry is the same in
   both after every operation the store makes.
   */
  import opened Bytes
  import opened Layout
  import opened Codec
  import opened Records
  import opened Strings
  import Memory

  /** The part of a dict entry the data path uses. */
  predicate Same(x: Memory.Ent, y: Entry)
  {
    x.typ == y.typ && x.exp == y.exp && x.inline == y.inline && x.counter == y.counter
  }

  ghost predicate ShowsAt(got: Option<Memory.Ent>, d: Cache, k: Key)
  {
    match got
    case None => k !in d
    case Some(x) => k in d && Same(x, d[k])
  }

  function GetIn(dbs: seq<Memory.Shards>, shardOf: bytes -> nat, k: Key): Option<Memory.Ent>
  {
    if k.db < |dbs| then Memory.At(dbs[k.db], shardOf(k.name), k.name) else None
  }

  ghost predicate ShowsIn(dbs: seq<Memory.Shards>, shardOf: bytes -> nat, d: Cache)
  {
    forall k: Key :: ShowsAt(GetIn(dbs, shardOf, k), d, k)
  }

  ghost predicate Shows(m: Memory.Dict, d: Cache)
    reads m
  {
    ShowsIn(m.dbs, m.shardOf, d)
  }

  /** Only what the dict has under k changed. */
  ghost predicate OnlyAt(dbs1: seq<Memory.Shards>, dbs0: seq<Memory.Shards>, shardOf: bytes -> nat, k: Key)
  {
    forall k': Key | k' != k :: GetIn(dbs1, shardOf, k') == GetIn(dbs0, shardOf, k')
  }

  lemma OneKey(dbs1: seq<Memory.Shards>, dbs0: seq<Memory.Shards>, shardOf: bytes -> nat, d0: Cache, d1: Cache, k: Key)
    requires ShowsIn(dbs0, shardOf, d0) && OnlyAt(dbs1, dbs0, shardOf, k) && ShowsAt(GetIn(dbs1, shardOf, k), d1, k)
    requires d1 - {k} == d0 - {k}
    ensures ShowsIn(dbs1, shardOf, d1)
  {
    hide GetIn;
    forall k': Key ensures ShowsAt(GetIn(dbs1, shardOf, k'), d1, k') {
      if k' != k {
        assert ShowsAt(GetIn(dbs0, shardOf, k'), d0, k');
        assert k' in d1 - {k} <==> k' in d0 - {k};
        assert k' in d1 ==> (d1 - {k})[k'] == (d0 - {k})[k'];
      }
    }
  }

  lemma ShownAt(dbs: seq<Memory.Shards>, shardOf: bytes -> nat, d: Cache, k: Key)
    requires ShowsIn(dbs, shardOf, d)
    ensures ShowsAt(GetIn(dbs, shardOf, k), d, k)
  {}

  /** Dict.Set is the map update of the data path. */
  method SetEntry(m: Memory.Dict, k: Key, r: Record, clock: nat, ghost d: Cache)
    requires m.Valid() && k.db < m.count && Shows(m, d)
    modifies m
    ensures m.Valid() && Shows(m, d[k := NewEntry(r, m.inlineMax)])
  {
    hide ShowsIn, Memory.ShardsOk, Memory.Sum, Memory.At, Memory.EntryMem;
    ghost var dbs0 := m.dbs;
    m.Set(k.db, k.name, r.typ, r.exp, r.payload, clock);
    forall k': Key | k' != k ensures GetIn(m.dbs, m.shardOf, k') == GetIn(dbs0, m.shardOf, k') {
      assert (k'.db != k.db || k'.name != k.name) && m.Get(k'.db, k'.name) == old(m.Get(k'.db, k'.name));
    }
    OneKey(m.dbs, dbs0, m.shardOf, d, d[k := NewEntry(r, m.inlineMax)], k);
  }

  /** Dict.SetCounter flags the entry or makes one. */
  method FlagCounter(m: Memory.Dict, k: Key, exp: i64, clock: nat, ghost d: Cache)
    requires m.Valid() && k.db < m.count && Shows(m, d)
    modifies m
    ensures m.Valid() && Shows(m, WithCounter(d, k, exp))
  {
    hide ShowsIn, Memory.ShardsOk, Memory.Sum, Memory.At, Memory.EntryMem;
    ghost var dbs0 := m.dbs;
    ShownAt(dbs0, m.shardOf, d, k);
    m.SetCounter(k.db, k.name, exp, clock);
    forall k': Key | k' != k ensures GetIn(m.dbs, m.shardOf, k') == GetIn(dbs0, m.shardOf, k') {
      assert (k'.db != k.db || k'.name != k.name) && m.Get(k'.db, k'.name) == old(m.Get(k'.db, k'.name));
    }
    OneKey(m.dbs, dbs0, m.shardOf, d, WithCounter(d, k, exp), k);
  }

  /** Dict.Lookup answers as the map does and forgets what has expired. */
  method LookUp(m: Memory.Dict, k: Key, now: i64, ghost d: Cache) returns (e: Option<Memory.Ent>)
    requires m.Valid() && k.db < m.count && Shows(m, d)
    modifies m
    ensures m.Valid() && Shows(m, if k in d && Expired(d[k].exp, now) then d - {k} else d)
    ensures e.Some? <==> k in d && !Expired(d[k].exp, now)
    ensures e.Some? ==> Same(e.value, d[k])
  {
    hide ShowsIn, Memory.ShardsOk, Memory.Sum, Memory.At, Memory.EntryMem;
    ghost var dbs0 := m.dbs;
    ShownAt(dbs0, m.shardOf, d, k);
    e := m.Lookup(k.db, k.name, now);
    forall k': Key | k' != k ensures GetIn(m.dbs, m.shardOf, k') == GetIn(dbs0, m.shardOf, k') {
      assert (k'.db != k.db || k'.name != k.name) && m.Get(k'.db, k'.name) == old(m.Get(k'.db, k'.name));
    }
    OneKey(m.dbs, dbs0, m.shardOf, d, if k in d && Expired(d[k].exp, now) then d - {k} else d, k);
  }

  /** Dict.Delete, and with it any eviction. */
  method Drop(m: Memory.Dict, k: Key, ghost d: Cache)
    requires m.Valid() && k.db < m.count && Shows(m, d)
    modifies m
    ensures m.Valid() && Shows(m, d - {k})
  {
    hide ShowsIn, Memory.ShardsOk, Memory.Sum, Memory.At, Memory.EntryMem;
    ghost var dbs0 := m.dbs;
    var _ := m.Delete(k.db, k.name);
    forall k': Key | k' != k ensures GetIn(m.dbs, m.shardOf, k') == GetIn(dbs0, m.shardOf, k') {
      assert (k'.db != k.db || k'.name != k.name) && m.Get(k'.db, k'.name) == old(m.Get(k'.db, k'.name));
    }
    OneKey(m.dbs, dbs0, m.shardOf, d, d - {k}, k);
  }

  function Victims(ks: seq<Key>): set<Key> { set k | k in ks }

  method DropAll(m: Memory.Dict, victims: seq<Key>, ghost d: Cache)
    requires m.Valid() && Shows(m, d) && forall k | k in victims :: k.db < m.count
    modifies m
    ensures m.Valid() && Shows(m, d - Victims(victims))
  {
    hide ShowsIn, Memory.ShardsOk, Memory.Sum;
    assert d - Victims(victims[..0]) == d;
    for i := 0 to |victims|
      invariant m.Valid() && Shows(m, d - Victims(victims[..i]))
    {
      assert Victims(victims[..i + 1]) == Victims(victims[..i]) + {victims[i]} by {
        assert victims[..i + 1] == victims[..i] + [victims[i]];
      }
      assert d - Victims(victims[..i]) - {victims[i]} == d - Victims(victims[..i + 1]);
      Drop(m, victims[i], d - Victims(victims[..i]));
    }
    assert victims[..|victims|] == victims;
  }
}
