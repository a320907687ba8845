/**
 Records, the expiry index and the cache, as relations between values: what a user
 key's record is, when the expiry segment is exact, and when the cache agrees with
 the engine. The store's methods are proved against these. The invariant says that the
 segment has one entry for every stored expiry and no other, and that a cached entry
 carries the stored type, expiry and value unless it is flagged as a counter.
 */
module Records {
  import opened Bytes
  import opened Layout
  import opened Codec
  import opened Engine
  import opened Merge

  /** A cache entry: metadata plus the value when it is small. */
  datatype Entry = Entry(typ: byte, exp: i64, inline: bytes, counter: bool)

  type Cache = map<Key, Entry>

  function RecAt(e: Db, k: Key): Option<Record>
  {
    if DataKey(k) in e then DecodeValue(e[DataKey(k)]) else None
  }

  predicate Expired(exp: i64, now: i64) { exp != 0 && exp <= now }

  /** What a read must return: the stored record unless its expiry has passed. */
  function Live(e: Db, now: i64, k: Key): Option<Record>
  {
    match RecAt(e, k)
    case Some(r) => if Expired(r.exp, now) then None else Some(r)
    case None => None
  }

  function StoredExpiry(e: Db, k: Key): i64
  {
    if RecAt(e, k).Some? then RecAt(e, k).value.exp else 0
  }

  /** The expire segment holds one entry for k when its record has an expiry, at that
      time, and no other. */
  ghost predicate KeyExact(e: Db, k: Key, dbs: nat)
  {
    && (DataKey(k) in e ==> RecAt(e, k).Some? && k.db < dbs)
    && forall t: i64 :: ExpireKey(t, k) in e <==> t != 0 && RecAt(e, k).Some? && RecAt(e, k).value.exp == t
  }

  ghost predicate IndexExact(e: Db, dbs: nat)
  {
    && (forall k: Key :: KeyExact(e, k, dbs))
    && (forall x :: x in e && x != [] && x[0] == SEG_EXPIRE ==> |x| >= 11)
  }

  ghost predicate EntryOk(e: Db, d: Cache, k: Key)
  {
    k in d ==>
      && RecAt(e, k).Some?
      && RecAt(e, k).value.exp == d[k].exp
      && (!d[k].counter ==> RecAt(e, k).value.typ == d[k].typ)
      && (!d[k].counter && d[k].inline != [] ==> RecAt(e, k).value.payload == d[k].inline)
  }

  ghost predicate CacheOk(e: Db, d: Cache) { forall k: Key :: EntryOk(e, d, k) }

  ghost predicate Inv(e: Db, d: Cache, dbs: nat) { IndexExact(e, dbs) && CacheOk(e, d) }

  lemma InvHasIndex(e: Db, d: Cache, dbs: nat)
    requires Inv(e, d, dbs)
    ensures IndexExact(e, dbs)
  {}

  // ---------- counters the engine has not folded ----------

  /** The records a read of a counter key folds, oldest first: an earlier value, if there
      was one, and the operands appended since. A key without an entry was written plainly. */
  type Pending = map<Key, seq<bytes>>

  /** The engine shows the fold of k's records. */
  ghost predicate PendingAt(e: Db, p: Pending, k: Key)
  {
    k in p ==> p[k] != [] && AllCountable(p[k]) && DataKey(k) in e && e[DataKey(k)] == Folded(p[k])
  }

  ghost predicate PendOk(e: Db, p: Pending) { forall k: Key :: PendingAt(e, p, k) }

  /** A write to one user key supersedes its operands and no others. */
  lemma Supersede(e1: Db, e0: Db, p: Pending, k: Key)
    requires OnlyTouches(e1, e0, k) && PendOk(e0, p)
    ensures PendOk(e1, p - {k})
  {
    hide OnlyTouches, DataKey, Folded, AllCountable, ElemsOf, ExpireKey;
    forall k': Key ensures PendingAt(e1, p - {k}, k') {
      assert PendingAt(e0, p, k');
      if k' != k { OtherKeysKept(e1, e0, k, k'); }
    }
  }

  lemma NotPending(e: Db, d: Cache, p: Pending, k: Key, dbs: nat)
    requires Inv(e, d, dbs) && PendOk(e, p) && RecAt(e, k) == None
    ensures k !in p
  {
    hide Folded, AllCountable;
    assert KeyExact(e, k, dbs) && PendingAt(e, p, k);
  }

  /** newEntry: a value is kept inline when it is non-empty and small enough. */
  function NewEntry(r: Record, inlineMax: nat): Entry
  {
    Entry(r.typ, r.exp, if 0 < |r.payload| <= inlineMax then r.payload else [], false)
  }

  // ---------- batches ----------

  /** putValueBatch: the value, and the index entry moved when the expiry changes. */
  function PutBatch(k: Key, r: Record, prev: i64): seq<Op>
  {
    [Put(DataKey(k), EncodeValue(r))]
    + (if prev != 0 && prev != r.exp then [Del(ExpireKey(prev, k))] else [])
    + (if r.exp != 0 && r.exp != prev then [Put(ExpireKey(r.exp, k), [])] else [])
  }

  /** deleteExpired and the end of deleteKey: the record and its index entry. */
  function DropBatch(k: Key, prev: i64): seq<Op>
  {
    [Del(DataKey(k))] + (if prev != 0 then [Del(ExpireKey(prev, k))] else [])
  }

  lemma {:induction false} ApplyAppend(e: Db, a: seq<Op>, b: seq<Op>)
    ensures Apply(e, a + b) == Apply(Apply(e, a), b)
    decreases |b|
  {
    if b == [] {
      assert a + b == a;
    } else {
      assert (a + b)[..|a + b| - 1] == a + b[..|b| - 1];
      ApplyAppend(e, a, b[..|b| - 1]);
    }
  }

  lemma Apply1(e: Db, op: Op)
    ensures Apply(e, [op]) == ApplyOp(e, op)
  {
    assert [op][..0] == [];
  }

  function Indexed(e: Db, k: Key, prev: i64, exp: i64): Db
  {
    var e1 := if prev != 0 && prev != exp then e - {ExpireKey(prev, k)} else e;
    if exp != 0 && exp != prev then e1[ExpireKey(exp, k) := []] else e1
  }

  lemma PutBatchIs(e: Db, k: Key, r: Record, prev: i64)
    ensures Apply(e, PutBatch(k, r, prev)) == Indexed(e[DataKey(k) := EncodeValue(r)], k, prev, r.exp)
  {
    var a := [Put(DataKey(k), EncodeValue(r))];
    var b := if prev != 0 && prev != r.exp then [Del(ExpireKey(prev, k))] else [];
    var c := if r.exp != 0 && r.exp != prev then [Put(ExpireKey(r.exp, k), [])] else [];
    ApplyAppend(e, a + b, c);
    ApplyAppend(e, a, b);
    Apply1(e, a[0]);
    if b != [] { Apply1(Apply(e, a), b[0]); }
    if c != [] { Apply1(Apply(Apply(e, a), b), c[0]); }
  }

  lemma DropBatchIs(e: Db, k: Key, prev: i64)
    ensures Apply(e, DropBatch(k, prev)) ==
            if prev != 0 then e - {DataKey(k)} - {ExpireKey(prev, k)} else e - {DataKey(k)}
  {
    Apply1(e, Del(DataKey(k)));
    if prev != 0 { ApplySnoc(e, [Del(DataKey(k))], Del(ExpireKey(prev, k))); }
  }

  lemma OwnKeysApart(k: Key, t: i64)
    ensures DataKey(k) != ExpireKey(t, k)
  {
    TaggedParts(SEG_DATA, k);
    ExpireParts(t, k);
  }

  ghost predicate SameButRecord(e1: Db, e0: Db, k: Key, s: i64, t: i64)
  {
    forall x :: x != DataKey(k) && x != ExpireKey(s, k) && x != ExpireKey(t, k) ==> SameAt(e1, e0, x)
  }

  lemma RecordKeysOwned(e1: Db, e0: Db, k: Key, s: i64, t: i64)
    requires SameButRecord(e1, e0, k, s, t)
    ensures OnlyTouches(e1, e0, k)
  {
    hide Owned, ExpireKey, DataKey, SameAt;
    OwnedExpire(s, k);
    OwnedExpire(t, k);
    OwnedRecord(k);
  }

  lemma OwnedRecord(k: Key)
    ensures Owned(DataKey(k), k)
  {}

  lemma RecordKeysOnly(e1: Db, e0: Db, k: Key, s: i64, t: i64)
    requires SameButRecord(e1, e0, k, s, t)
    ensures OnlyTouches(e1, e0, k)
    ensures ElemsOf(e1, k) == ElemsOf(e0, k)
  {
    hide SameButRecord, OnlyTouches, Sub, ElemPrefix;
    RecordKeysOwned(e1, e0, k, s, t);
    RecordKeysNoElem(e1, e0, k, s, t, SEG_HASH);
    RecordKeysNoElem(e1, e0, k, s, t, SEG_LIST);
    RecordKeysNoElem(e1, e0, k, s, t, SEG_SET);
    RecordKeysNoElem(e1, e0, k, s, t, SEG_ZSET_M);
    RecordKeysNoElem(e1, e0, k, s, t, SEG_ZSET_S);
  }

  lemma RecordKeysNoElem(e1: Db, e0: Db, k: Key, s: i64, t: i64, seg: byte)
    requires SameButRecord(e1, e0, k, s, t)
    requires IsSeg(seg)
    ensures Sub(e1, ElemPrefix(seg, k)) == Sub(e0, ElemPrefix(seg, k))
  {
    var p := ElemPrefix(seg, k);
    forall x: bytes ensures SameAt(e1, e0, p + x) {
      FirstByte(seg, k, p + x);
      TaggedParts(SEG_DATA, k);
      ExpireParts(s, k);
      ExpireParts(t, k);
    }
  }

  lemma PutTouches(e: Db, k: Key, r: Record, prev: i64)
    ensures var e' := Apply(e, PutBatch(k, r, prev));
            && OnlyTouches(e', e, k)
            && ElemsOf(e', k) == ElemsOf(e, k)
  {
    hide Apply, PutBatch, OnlyTouches, ElemsOf, DataKey, ExpireKey, EncodeValue;
    var e' := Apply(e, PutBatch(k, r, prev));
    PutBatchIs(e, k, r, prev);
    assert SameButRecord(e', e, k, prev, r.exp);
    RecordKeysOnly(e', e, k, prev, r.exp);
  }

  /** Writing a record with the expiry it had before keeps the index exact. */
  lemma PutKeepsExact(e: Db, k: Key, r: Record, dbs: nat)
    requires KeyExact(e, k, dbs) && k.db < dbs
    ensures var e' := Apply(e, PutBatch(k, r, StoredExpiry(e, k)));
            RecAt(e', k) == Some(r) && KeyExact(e', k, dbs)
  {
    var prev := StoredExpiry(e, k);
    var e' := Apply(e, PutBatch(k, r, prev));
    PutBatchIs(e, k, r, prev);
    OwnKeysApart(k, prev);
    OwnKeysApart(k, r.exp);
    ValueRoundTrip(r);
    forall t: i64 ensures ExpireKey(t, k) in e' <==> t != 0 && r.exp == t {
      OwnKeysApart(k, t);
      if ExpireKey(t, k) == ExpireKey(prev, k) { ExpireInjective(t, k, prev, k); }
      if ExpireKey(t, k) == ExpireKey(r.exp, k) { ExpireInjective(t, k, r.exp, k); }
    }
  }

  lemma DropTouches(e: Db, k: Key, prev: i64)
    ensures var e' := Apply(e, DropBatch(k, prev));
            && OnlyTouches(e', e, k)
            && ElemsOf(e', k) == ElemsOf(e, k)
  {
    hide Apply, DropBatch, OnlyTouches, ElemsOf, DataKey, ExpireKey;
    var e' := Apply(e, DropBatch(k, prev));
    DropBatchIs(e, k, prev);
    assert SameButRecord(e', e, k, prev, prev);
    RecordKeysOnly(e', e, k, prev, prev);
  }

  /** Records and index entries are no element keys, of any user key. */
  lemma DropKeepsElems(e: Db, k: Key, prev: i64, k': Key)
    ensures ElemsOf(Apply(e, DropBatch(k, prev)), k') == ElemsOf(e, k')
  {
    hide Apply, DropBatch, ExpireKey, DataKey;
    var e' := Apply(e, DropBatch(k, prev));
    DropBatchIs(e, k, prev);
    RecordIsNoElem(e', e, k, prev, SEG_HASH, k');
    RecordIsNoElem(e', e, k, prev, SEG_LIST, k');
    RecordIsNoElem(e', e, k, prev, SEG_SET, k');
    RecordIsNoElem(e', e, k, prev, SEG_ZSET_M, k');
    RecordIsNoElem(e', e, k, prev, SEG_ZSET_S, k');
  }

  lemma RecordIsNoElem(e1: Db, e0: Db, k: Key, t: i64, seg: byte, k': Key)
    requires IsSeg(seg) && (e1 == e0 - {DataKey(k)} - {ExpireKey(t, k)} || e1 == e0 - {DataKey(k)})
    ensures Sub(e1, ElemPrefix(seg, k')) == Sub(e0, ElemPrefix(seg, k'))
  {
    hide ElemPrefix;
    TaggedParts(SEG_DATA, k);
    ExpireParts(t, k);
    forall x ensures ElemPrefix(seg, k') + x != DataKey(k) && ElemPrefix(seg, k') + x != ExpireKey(t, k) {
      FirstByte(seg, k', ElemPrefix(seg, k') + x);
    }
  }

  lemma DropKeepsExact(e: Db, k: Key, dbs: nat)
    requires KeyExact(e, k, dbs)
    ensures var e' := Apply(e, DropBatch(k, StoredExpiry(e, k)));
            RecAt(e', k) == None && KeyExact(e', k, dbs)
  {
    var prev := StoredExpiry(e, k);
    var e' := Apply(e, DropBatch(k, prev));
    DropBatchIs(e, k, prev);
    OwnKeysApart(k, prev);
    forall t: i64 ensures ExpireKey(t, k) !in e' {
      OwnKeysApart(k, t);
      if ExpireKey(t, k) in e { assert t == prev != 0; }
    }
  }

  // ---------- steps that touch one key ----------

  lemma OthersSameRecord(e1: Db, e0: Db, k: Key, k': Key)
    requires OnlyTouches(e1, e0, k) && k' != k
    ensures RecAt(e1, k') == RecAt(e0, k')
  {
    OtherKeysKept(e1, e0, k, k');
  }

  /** Enough to look at the one key a step touches. */
  lemma InvStep(e1: Db, d1: Cache, e0: Db, d0: Cache, k: Key, dbs: nat)
    requires Inv(e0, d0, dbs) && OnlyTouches(e1, e0, k)
    requires KeyExact(e1, k, dbs) && EntryOk(e1, d1, k)
    requires forall k' :: k' in d1 && k' != k ==> k' in d0 && d1[k'] == d0[k']
    ensures Inv(e1, d1, dbs)
  {
    forall k': Key ensures KeyExact(e1, k', dbs) && EntryOk(e1, d1, k') {
      if k' != k {
        OtherKeysKept(e1, e0, k, k');
        assert KeyExact(e0, k', dbs) && EntryOk(e0, d0, k');
      }
    }
    forall x | x in e1 && x != [] && x[0] == SEG_EXPIRE ensures |x| >= 11 {
      if Owned(x, k) { NoElemAt(k, x); TaggedParts(SEG_DATA, k); }
    }
  }

  lemma OthersSameLive(e1: Db, e0: Db, k: Key, now: i64)
    requires OnlyTouches(e1, e0, k)
    ensures forall k' :: k' != k ==> Live(e1, now, k') == Live(e0, now, k')
  {
    forall k' | k' != k ensures Live(e1, now, k') == Live(e0, now, k') { OthersSameRecord(e1, e0, k, k'); }
  }
}
