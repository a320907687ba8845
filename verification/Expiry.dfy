/**
 The active expiry cycle and the startup scan. The expire segment is ordered by time,
 so a cycle is a bounded walk from its front; because the index is exact, what the
 walk removes is always a time-ordered prefix of the due keys and nothing else. Startup
 drops what is due and fills the cache with the rest, and no read sees a difference.
 */
module Expiry {
  import opened Bytes
  import opened Layout
  import opened Codec
  import opened Engine
  import opened Records
  import opened Merge
  import opened Decimal
  import opened DataPath

  const EXPIRE_LO: bytes := [SEG_EXPIRE]
  const EXPIRE_HI: Option<bytes> := Some([SEG_EXPIRE + 1])

  ghost predicate SameElems(e1: Db, e0: Db) { forall k: Key :: ElemsOf(e1, k) == ElemsOf(e0, k) }

  /** The records of `gone` were removed; every other record and all elements are as before. */
  ghost predicate Gone(e1: Db, e0: Db, gone: set<Key>)
  {
    && (forall k: Key :: RecAt(e1, k) == if k in gone then None else RecAt(e0, k))
    && SameElems(e1, e0)
  }

  predicate Due(e: Db, now: i64, k: Key) { RecAt(e, k).Some? && Expired(RecAt(e, k).value.exp, now) }

  ghost predicate AllDue(e: Db, now: i64, ks: set<Key>) { forall k | k in ks :: Due(e, now, k) }

  /** No record outside `ks` expires before one inside. */
  ghost predicate TimePrefix(e: Db, ks: set<Key>)
  {
    forall k, k' :: k in ks && StoredExpiry(e, k') != 0 && StoredExpiry(e, k') < StoredExpiry(e, k) ==> k' in ks
  }

  lemma ExpireBounds()
    ensures Successor(EXPIRE_LO) == EXPIRE_HI
  {
    var p := EXPIRE_LO;
    assert p[..|p| - 1] + [p[|p| - 1] + 1] == [SEG_EXPIRE + 1];
  }

  /** What an index key in the scan of the expire segment stands for. */
  lemma IndexEntry(e: Db, dbs: nat, x: bytes)
    requires IndexExact(e, dbs) && x in e && InRange(x, EXPIRE_LO, EXPIRE_HI)
    ensures DecodeExpireKey(x).Some?
    ensures var (t, k) := DecodeExpireKey(x).value;
            x == ExpireKey(t, k) && t != 0 && k.db < dbs && RecAt(e, k).Some? && RecAt(e, k).value.exp == t
  {
    PrefixRange(EXPIRE_LO, x);
    ExpireBounds();
    assert x[0] == EXPIRE_LO[0];
    ExpireDecodeEncode(x);
    var (t, k) := DecodeExpireKey(x).value;
    assert KeyExact(e, k, dbs);
  }

  lemma IndexHas(e: Db, dbs: nat, k: Key)
    requires IndexExact(e, dbs) && StoredExpiry(e, k) != 0
    ensures ExpireKey(StoredExpiry(e, k), k) in e
    ensures InRange(ExpireKey(StoredExpiry(e, k), k), EXPIRE_LO, EXPIRE_HI)
  {
    var x := ExpireKey(StoredExpiry(e, k), k);
    assert KeyExact(e, k, dbs);
    ExpireParts(StoredExpiry(e, k), k);
    assert EXPIRE_LO <= x;
    PrefixRange(EXPIRE_LO, x);
    ExpireBounds();
  }

  /** Removing one more due record from a partly reaped engine. */
  lemma ReapStep(e0: Db, batch: seq<Op>, d: Cache, gone: set<Key>, k: Key, dbs: nat)
    requires Inv(Apply(e0, batch), d, dbs) && Gone(Apply(e0, batch), e0, gone)
    requires k !in gone && RecAt(e0, k).Some?
    ensures var e' := Apply(e0, batch + DropBatch(k, StoredExpiry(e0, k)));
            Inv(e', d - {k}, dbs) && Gone(e', e0, gone + {k})
  {
    hide Apply, DropBatch, RecAt, OnlyTouches, ElemsOf;
    var e1 := Apply(e0, batch);
    ApplyAppend(e0, batch, DropBatch(k, StoredExpiry(e0, k)));
    assert RecAt(e1, k) == RecAt(e0, k);
    SameStoredExpiry(e1, e0, k);
    DropInv(e1, d, k, dbs);
    var e' := Apply(e1, DropBatch(k, StoredExpiry(e0, k)));
    forall k': Key ensures RecAt(e', k') == if k' in gone + {k} then None else RecAt(e0, k') {
      if k' != k { OthersSameRecord(e', e1, k, k'); }
    }
    forall k': Key ensures ElemsOf(e', k') == ElemsOf(e0, k') { DropKeepsElems(e1, k, StoredExpiry(e0, k), k'); }
  }

  lemma SameStoredExpiry(e1: Db, e0: Db, k: Key)
    requires RecAt(e1, k) == RecAt(e0, k)
    ensures StoredExpiry(e1, k) == StoredExpiry(e0, k)
  {}

  /** Operands of records that stay still fold to what the engine shows. */
  lemma GonePending(e1: Db, e0: Db, p: Pending, gone: set<Key>)
    requires Gone(e1, e0, gone) && PendOk(e0, p)
    ensures PendOk(e1, p - gone)
  {
    hide SameElems, AllCountable, DataKey, EncodeValue;
    forall k: Key ensures PendingAt(e1, p - gone, k) {
      assert PendingAt(e0, p, k);
      if k in p && k !in gone {
        FoldedDecodes(p[k]);
        ValueDecodeEncode(e0[DataKey(k)]);
        assert RecAt(e1, k) == RecAt(e0, k);
        ValueDecodeEncode(e1[DataKey(k)]);
      }
    }
  }

  lemma GoneKeepsLive(e1: Db, e0: Db, gone: set<Key>, now: i64)
    requires Gone(e1, e0, gone) && AllDue(e0, now, gone)
    ensures forall k :: Live(e1, now, k) == Live(e0, now, k)
  {
    hide RecAt;
    forall k ensures Live(e1, now, k) == Live(e0, now, k) {
      if k in gone { assert Due(e0, now, k); }
    }
  }

  /** The keys behind a stretch of index keys. */
  ghost function KeysOf(xs: seq<bytes>): set<Key>
    requires forall x | x in xs :: DecodeExpireKey(x).Some?
  {
    if xs == [] then {} else KeysOf(xs[..|xs| - 1]) + {DecodeExpireKey(xs[|xs| - 1]).value.1}
  }

  lemma {:induction false} InKeysOf(xs: seq<bytes>, k: Key)
    requires forall x | x in xs :: DecodeExpireKey(x).Some?
    ensures k in KeysOf(xs) <==> exists i :: 0 <= i < |xs| && DecodeExpireKey(xs[i]).value.1 == k
  {
    if xs != [] {
      var front := xs[..|xs| - 1];
      InKeysOf(front, k);
      assert forall i | 0 <= i < |front| :: front[i] == xs[i];
    }
  }

  /** A front part of the scan covers a time-ordered prefix of the expiring keys. */
  lemma ScanIsTimed(e: Db, dbs: nat, xs: seq<bytes>, n: nat)
    requires IndexExact(e, dbs) && IsScan(e, EXPIRE_LO, EXPIRE_HI, xs) && n <= |xs|
    ensures forall x | x in xs :: DecodeExpireKey(x).Some?
    ensures TimePrefix(e, KeysOf(xs[..n]))
  {
    hide RecAt, DecodeExpireKey, InRange;
    forall x | x in xs ensures DecodeExpireKey(x).Some? { IndexEntry(e, dbs, x); }
    forall k, k' | k in KeysOf(xs[..n]) && StoredExpiry(e, k') != 0 && StoredExpiry(e, k') < StoredExpiry(e, k)
      ensures k' in KeysOf(xs[..n])
    {
      InKeysOf(xs[..n], k);
      var i :| 0 <= i < n && DecodeExpireKey(xs[..n][i]).value.1 == k;
      EarlierInScan(e, dbs, xs, i, k, k');
      var j :| 0 <= j < i && xs[j] == ExpireKey(StoredExpiry(e, k'), k');
      ExpireRoundTrip(StoredExpiry(e, k'), k');
      assert xs[..n][j] == xs[j];
      InKeysOf(xs[..n], k');
    }
  }

  lemma EarlierInScan(e: Db, dbs: nat, xs: seq<bytes>, i: nat, k: Key, k': Key)
    requires IndexExact(e, dbs) && IsScan(e, EXPIRE_LO, EXPIRE_HI, xs) && i < |xs|
    requires DecodeExpireKey(xs[i]).Some? && DecodeExpireKey(xs[i]).value.1 == k
    requires StoredExpiry(e, k') != 0 && StoredExpiry(e, k') < StoredExpiry(e, k)
    ensures exists j :: 0 <= j < i && xs[j] == ExpireKey(StoredExpiry(e, k'), k')
  {
    hide RecAt, DecodeExpireKey, InRange;
    var y := ExpireKey(StoredExpiry(e, k'), k');
    IndexHas(e, dbs, k');
    assert y in xs;
    var j :| 0 <= j < |xs| && xs[j] == y;
    IndexEntryExpiry(e, dbs, xs[i]);
    ExpireKeysByTime(StoredExpiry(e, k'), k', StoredExpiry(e, k), k);
    LessIrreflexive(y);
    if i < j { LessAsymmetric(xs[i], xs[j]); }
  }

  lemma IndexEntryExpiry(e: Db, dbs: nat, x: bytes)
    requires IndexExact(e, dbs) && x in e && InRange(x, EXPIRE_LO, EXPIRE_HI)
    ensures DecodeExpireKey(x).Some?
    ensures var (t, k) := DecodeExpireKey(x).value;
            x == ExpireKey(t, k) && t != 0 && t == StoredExpiry(e, k) && k.db < dbs && RecAt(e, k).Some?
  {
    IndexEntry(e, dbs, x);
  }

  /** Past the first index key that is not due, nothing is due. */
  lemma RestNotDue(e: Db, dbs: nat, xs: seq<bytes>, n: nat, now: i64, k: Key)
    requires IndexExact(e, dbs) && IsScan(e, EXPIRE_LO, EXPIRE_HI, xs) && n <= |xs|
    requires forall x | x in xs :: DecodeExpireKey(x).Some?
    requires n < |xs| ==> DecodeExpireKey(xs[n]).value.0 > now
    requires Due(e, now, k)
    ensures k in KeysOf(xs[..n])
  {
    hide DecodeExpireKey, InRange;
    var y := ExpireKey(StoredExpiry(e, k), k);
    IndexHas(e, dbs, k);
    assert y in xs;
    var j :| 0 <= j < |xs| && xs[j] == y;
    ExpireRoundTrip(StoredExpiry(e, k), k);
    if n <= j {
      IndexEntryExpiry(e, dbs, xs[n]);
      var (t, kn) := DecodeExpireKey(xs[n]).value;
      ExpireKeysByTime(StoredExpiry(e, k), k, t, kn);
      LessIrreflexive(y);
      if n < j { LessAsymmetric(xs[n], xs[j]); }
      assert false;
    }
    assert xs[..n][j] == y;
    InKeysOf(xs[..n], k);
  }

  /** Each user key has at most one index key, so the walk meets it once. */
  lemma FreshKey(e: Db, dbs: nat, xs: seq<bytes>, i: nat)
    requires IndexExact(e, dbs) && IsScan(e, EXPIRE_LO, EXPIRE_HI, xs) && i < |xs|
    requires forall x | x in xs :: DecodeExpireKey(x).Some?
    ensures DecodeExpireKey(xs[i]).value.1 !in KeysOf(xs[..i])
    ensures KeysOf(xs[..i + 1]) == KeysOf(xs[..i]) + {DecodeExpireKey(xs[i]).value.1}
  {
    hide RecAt, DecodeExpireKey, InRange;
    var k := DecodeExpireKey(xs[i]).value.1;
    assert xs[..i + 1][..i] == xs[..i];
    IndexEntryExpiry(e, dbs, xs[i]);
    InKeysOf(xs[..i], k);
    forall j | 0 <= j < i ensures DecodeExpireKey(xs[..i][j]).value.1 != k {
      assert xs[..i][j] == xs[j] && Less(xs[j], xs[i]);
      LessIrreflexive(xs[i]);
      IndexEntryExpiry(e, dbs, xs[j]);
    }
  }

  /** The state of a cycle after i index keys. */
  ghost predicate Reaping(s: Store, batch: seq<Op>, xs: seq<bytes>, i: nat, reaped: set<Key>)
    requires forall x | x in xs :: DecodeExpireKey(x).Some?
    reads s
  {
    && i <= |xs|
    && Inv(Apply(s.eng, batch), s.dict, s.dbs)
    && Gone(Apply(s.eng, batch), s.eng, reaped)
    && reaped == KeysOf(xs[..i]) && |reaped| == i
    && AllDue(s.eng, s.now, reaped)
    && Apply(s.eng, batch).Keys <= s.eng.Keys
  }

  lemma ReapNext(s: Store, batch: seq<Op>, xs: seq<bytes>, i: nat, reaped: set<Key>)
    requires IndexExact(s.eng, s.dbs) && IsScan(s.eng, EXPIRE_LO, EXPIRE_HI, xs)
    requires forall x | x in xs :: DecodeExpireKey(x).Some?
    requires i < |xs| && Reaping(s, batch, xs, i, reaped)
    requires DecodeExpireKey(xs[i]).value.0 <= s.now
    ensures var k := DecodeExpireKey(xs[i]).value.1;
            var e' := Apply(s.eng, batch + [Del(DataKey(k)), Del(xs[i])]);
            && Inv(e', s.dict - {k}, s.dbs) && Gone(e', s.eng, reaped + {k})
            && reaped + {k} == KeysOf(xs[..i + 1]) && |reaped + {k}| == i + 1
            && AllDue(s.eng, s.now, reaped + {k}) && e'.Keys <= s.eng.Keys
  {
    hide Inv, PendOk, Gone, Apply, RecAt, DecodeExpireKey, InRange, KeysOf, IndexExact;
    var (t, k) := DecodeExpireKey(xs[i]).value;
    IndexEntryExpiry(s.eng, s.dbs, xs[i]);
    FreshKey(s.eng, s.dbs, xs, i);
    ReapStep(s.eng, batch, s.dict, reaped, k, s.dbs);
    assert DropBatch(k, t) == [Del(DataKey(k)), Del(xs[i])];
    ReapDue(s.eng, s.now, k, t);
    DeletesShrink(s.eng, batch, DataKey(k), xs[i]);
  }

  lemma DeletesShrink(e: Db, batch: seq<Op>, x: bytes, y: bytes)
    ensures Apply(e, batch + [Del(x), Del(y)]).Keys <= Apply(e, batch).Keys
  {
    assert batch + [Del(x), Del(y)] == batch + [Del(x)] + [Del(y)];
    ApplySnoc(e, batch + [Del(x)], Del(y));
    ApplySnoc(e, batch, Del(x));
  }

  lemma ReapDue(e: Db, now: i64, k: Key, t: i64)
    requires RecAt(e, k).Some? && t == StoredExpiry(e, k) && t != 0 && t <= now
    ensures Due(e, now, k)
  {}

  lemma NothingReaped(s: Store, xs: seq<bytes>)
    requires s.Valid() && forall x | x in xs :: DecodeExpireKey(x).Some?
    ensures Reaping(s, [], xs, 0, {}) && IndexExact(s.eng, s.dbs)
  {}

  /** Cycle: walk the expire segment from its front, stage the deletion of due records
      and their index entries, stop at the first key that is not due or at the limit
      (the batch size or the time budget, whichever comes first), commit once. The
      source also skips index keys that do not decode or name an unknown database;
      the index being exact, there are none. */
  method Cycle(s: Store, limit: nat) returns (collected: nat, ghost reaped: set<Key>)
    requires s.Valid()
    modifies s`eng, s`dict, s`pend
    ensures s.Valid()
    ensures AllDue(old(s.eng), s.now, reaped) && TimePrefix(old(s.eng), reaped)
    ensures Gone(s.eng, old(s.eng), reaped)
    ensures collected == |reaped| <= limit
    ensures collected < limit ==> forall k :: Due(old(s.eng), s.now, k) ==> k in reaped
    ensures s.eng.Keys <= old(s.eng).Keys && s.pend == old(s.pend) - reaped
  {
    hide Inv, PendOk, Gone, Apply, DecodeExpireKey, InRange, KeysOf, AllDue, TimePrefix, IndexExact, Due, IsScan;
    var xs := ScanRange(s.eng, EXPIRE_LO, EXPIRE_HI);
    ScanDecodes(s, xs);
    NothingReaped(s, xs);
    var batch := [];
    collected, reaped := 0, {};
    assert s.pend - reaped == s.pend;
    while collected < |xs| && collected < limit && DecodeExpireKey(xs[collected]).value.0 <= s.now
      invariant collected <= limit
      invariant s.eng == old(s.eng) && s.pend == old(s.pend) - reaped
      invariant Reaping(s, batch, xs, collected, reaped)
    {
      var k := DecodeExpireKey(xs[collected]).value.1;
      ReapNext(s, batch, xs, collected, reaped);
      batch := batch + [Del(DataKey(k)), Del(xs[collected])];
      s.dict := s.dict - {k};
      assert old(s.pend) - reaped - {k} == old(s.pend) - (reaped + {k});
      s.pend := s.pend - {k};
      reaped := reaped + {k};
      collected := collected + 1;
    }
    ScanIsTimed(s.eng, s.dbs, xs, collected);
    if collected < limit {
      forall k | Due(s.eng, s.now, k) ensures k in reaped {
        RestNotDue(s.eng, s.dbs, xs, collected, s.now, k);
      }
    }
    GonePending(Apply(s.eng, batch), s.eng, old(s.pend), reaped);
    s.eng := Apply(s.eng, batch);
  }

  lemma ScanDecodes(s: Store, xs: seq<bytes>)
    requires s.Valid() && IsScan(s.eng, EXPIRE_LO, EXPIRE_HI, xs)
    ensures forall x | x in xs :: DecodeExpireKey(x).Some?
  {
    forall x | x in xs ensures DecodeExpireKey(x).Some? { IndexEntry(s.eng, s.dbs, x); }
  }

  /** Repeated cycles at one time remove every due record and nothing else. */
  method ReapAll(s: Store, limit: nat) returns (total: nat, ghost reaped: set<Key>)
    requires s.Valid() && limit > 0
    modifies s`eng, s`dict, s`pend
    ensures s.Valid()
    ensures forall k :: k in reaped <==> Due(old(s.eng), s.now, k)
    ensures Gone(s.eng, old(s.eng), reaped) && total == |reaped|
  {
    hide RecAt, Inv, PendOk, TimePrefix;
    total, reaped := 0, {};
    var more := true;
    while more
      invariant s.Valid() && Gone(s.eng, old(s.eng), reaped) && total == |reaped|
      invariant AllDue(old(s.eng), s.now, reaped)
      invariant !more ==> forall k :: Due(old(s.eng), s.now, k) ==> k in reaped
      decreases more, |s.eng|
    {
      label L:
      var n, more_reaped := Cycle(s, limit);
      GoneTwice(s.eng, old@L(s.eng), old(s.eng), reaped, more_reaped, s.now);
      if n > 0 { FewerKeys(s.eng, old@L(s.eng), s.dict, more_reaped, s.now, s.dbs); }
      total, reaped := total + n, reaped + more_reaped;
      more := n > 0;
    }
  }

  lemma FewerKeys(e1: Db, e0: Db, d: Cache, gone: set<Key>, now: i64, dbs: nat)
    requires Inv(e1, d, dbs) && Gone(e1, e0, gone) && AllDue(e0, now, gone) && gone != {}
    requires e1.Keys <= e0.Keys
    ensures |e1| < |e0|
  {
    hide SameElems, DataKey, DecodeValue, ExpireKey;
    var k :| k in gone;
    assert Due(e0, now, k) && KeyExact(e1, k, dbs);
    Fewer(e1, e0, DataKey(k));
  }

  lemma Fewer(e1: Db, e0: Db, x: bytes)
    requires e1.Keys <= e0.Keys && x in e0 && x !in e1
    ensures |e1| < |e0|
  {
    assert x in e0.Keys - e1.Keys;
    assert |e0.Keys - e1.Keys| + |e1.Keys| == |e0.Keys| by { assert e0.Keys == (e0.Keys - e1.Keys) + e1.Keys; }
  }

  lemma GoneTwice(e2: Db, e1: Db, e0: Db, a: set<Key>, b: set<Key>, now: i64)
    requires Gone(e1, e0, a) && Gone(e2, e1, b) && AllDue(e1, now, b)
    ensures Gone(e2, e0, a + b) && a !! b && |a + b| == |a| + |b|
    ensures AllDue(e0, now, b)
    ensures forall k :: Due(e0, now, k) && k !in a ==> Due(e1, now, k)
  {
    hide RecAt;
    forall k | k in b ensures k !in a && Due(e0, now, k) { assert Due(e1, now, k); }
    assert |a + b| == |a| + |b|;
  }

  // ---------- startup ----------

  /** A data key met while scanning one database. */
  lemma DataEntry(e: Db, dbs: nat, db: u16, x: bytes)
    requires IndexExact(e, dbs) && x in e && InRange(x, DataPrefix(db), Successor(DataPrefix(db)))
    ensures x == DataKey(Key(db, KeyFromDataKey(x))) && RecAt(e, Key(db, KeyFromDataKey(x))).Some?
  {
    var p := DataPrefix(db);
    PrefixRange(p, x);
    assert |p| == 3 && x == p + x[3..];
    var k := Key(db, KeyFromDataKey(x));
    assert KeyExact(e, k, dbs);
  }

  lemma DataInScan(e: Db, db: u16, k: Key)
    requires DataKey(k) in e && k.db == db
    ensures InRange(DataKey(k), DataPrefix(db), Successor(DataPrefix(db)))
  {
    assert DataKey(k) == DataPrefix(db) + k.name;
    PrefixRange(DataPrefix(db), DataKey(k));
  }

  /** Keys the startup scan has passed: those of earlier databases, and in the current
      one those among the first i data keys. */
  ghost predicate Passed(k: Key, db: nat, xs: seq<bytes>)
  {
    k.db < db || (k.db == db && DataKey(k) in xs)
  }

  /** Every stored key passed so far was either admitted to the cache or staged for
      removal because it is due. */
  ghost predicate Loading(s: Store, batch: seq<Op>, gone: set<Key>, db: nat, xs: seq<bytes>)
    reads s
  {
    && Inv(Apply(s.eng, batch), s.dict, s.dbs) && Gone(Apply(s.eng, batch), s.eng, gone)
    && AllDue(s.eng, s.now, gone) && s.dict.Keys !! gone
    && (forall k :: k in s.dict || k in gone <==> RecAt(s.eng, k).Some? && Passed(k, db, xs))
    && (forall k | k in s.dict :: !Due(s.eng, s.now, k))
  }

  lemma AdmitInv(e: Db, d: Cache, k: Key, r: Record, inlineMax: nat, dbs: nat)
    requires Inv(e, d, dbs) && RecAt(e, k) == Some(r)
    ensures Inv(e, d[k := NewEntry(r, inlineMax)], dbs)
  {
    hide IndexExact;
    var d' := d[k := NewEntry(r, inlineMax)];
    forall k': Key ensures EntryOk(e, d', k') { assert EntryOk(e, d, k'); }
  }

  lemma LoadNext(s: Store, batch: seq<Op>, gone: set<Key>, db: u16, xs: seq<bytes>, i: nat)
    requires IndexExact(s.eng, s.dbs) && i < |xs|
    requires IsScan(s.eng, DataPrefix(db), Successor(DataPrefix(db)), xs)
    requires Loading(s, batch, gone, db, xs[..i])
    ensures var k := Key(db, KeyFromDataKey(xs[i]));
            && xs[i] == DataKey(k) && RecAt(s.eng, k).Some? && k !in gone && k !in s.dict
            && RecAt(Apply(s.eng, batch), k) == RecAt(s.eng, k)
            && forall k' :: Passed(k', db, xs[..i + 1]) <==> Passed(k', db, xs[..i]) || k' == k
  {
    hide Apply, RecAt, Inv, PendOk, InRange, IndexExact, DataKey;
    var k := Key(db, KeyFromDataKey(xs[i]));
    DataEntry(s.eng, s.dbs, db, xs[i]);
    assert xs[..i + 1] == xs[..i] + [xs[i]];
    LessIrreflexive(xs[i]);
    assert xs[i] !in xs[..i] by {
      forall j | 0 <= j < i ensures xs[..i][j] != xs[i] { assert xs[..i][j] == xs[j] && Less(xs[j], xs[i]); }
    }
    forall k' ensures DataKey(k') == xs[i] <==> k' == k {
      if DataKey(k') == DataKey(k) { DataKeyInjective(k', k); }
    }
  }

  lemma DataKeyInjective(k: Key, k': Key)
    requires DataKey(k) == DataKey(k')
    ensures k == k'
  {
    TaggedInjective(SEG_DATA, k, SEG_DATA, k');
  }

  /** One database of the startup scan. */
  method LoadDb(s: Store, db: u16, batch0: seq<Op>, ghost gone0: set<Key>)
    returns (batch: seq<Op>, ghost gone: set<Key>)
    requires IndexExact(s.eng, s.dbs) && Loading(s, batch0, gone0, db, []) && s.pend.Keys !! gone0
    modifies s`dict, s`pend
    ensures Loading(s, batch, gone, db + 1, []) && s.pend == old(s.pend) - gone && gone0 <= gone
  {
    hide Apply, RecAt, Inv, PendOk, InRange, Gone, AllDue, DataKey, ExpireKey, IndexExact, IsScan, KeyFromDataKey, DecodeValue;
    batch, gone := batch0, gone0;
    assert s.pend - gone0 == s.pend;
    var xs := ScanRange(s.eng, DataPrefix(db), Successor(DataPrefix(db)));
    for i := 0 to |xs|
      invariant Loading(s, batch, gone, db, xs[..i]) && s.pend == old(s.pend) - gone && gone0 <= gone
    {
      LoadNext(s, batch, gone, db, xs, i);
      var k := Key(db, KeyFromDataKey(xs[i]));
      ValueAt(s.eng, k);
      var r := DecodeValue(s.eng[xs[i]]).value;
      if Expired(r.exp, s.now) {
        ReapStep(s.eng, batch, s.dict, gone, k, s.dbs);
        assert s.dict - {k} == s.dict;
        assert DropBatch(k, StoredExpiry(s.eng, k)) == [Del(DataKey(k)), Del(ExpireKey(r.exp, k))];
        batch := batch + [Del(DataKey(k)), Del(ExpireKey(r.exp, k))];
        DueMore(s.eng, s.now, gone, k);
        assert old(s.pend) - gone - {k} == old(s.pend) - (gone + {k});
        s.pend := s.pend - {k};
        gone := gone + {k};
      } else {
        AdmitInv(Apply(s.eng, batch), s.dict, k, r, s.inlineMax, s.dbs);
        s.dict := s.dict[k := NewEntry(r, s.inlineMax)];
      }
    }
    assert xs[..|xs|] == xs;
    LoadedDb(s, batch, gone, db, xs);
  }

  lemma ValueAt(e: Db, k: Key)
    requires RecAt(e, k).Some?
    ensures DataKey(k) in e && DecodeValue(e[DataKey(k)]) == RecAt(e, k)
  {}

  lemma DueMore(e: Db, now: i64, gone: set<Key>, k: Key)
    requires AllDue(e, now, gone) && Due(e, now, k)
    ensures AllDue(e, now, gone + {k})
  {}

  lemma LoadedDb(s: Store, batch: seq<Op>, gone: set<Key>, db: u16, xs: seq<bytes>)
    requires IndexExact(s.eng, s.dbs)
    requires IsScan(s.eng, DataPrefix(db), Successor(DataPrefix(db)), xs)
    requires Loading(s, batch, gone, db, xs)
    ensures Loading(s, batch, gone, db + 1, [])
  {
    hide Apply, Inv, PendOk, Gone, InRange, AllDue;
    forall k | RecAt(s.eng, k).Some? ensures Passed(k, db + 1, []) <==> Passed(k, db, xs) {
      if k.db == db { DataInScan(s.eng, db, k); }
    }
  }

  /** loadAll: after startup every live record is in the cache, every due record is
      gone, and no read sees a difference. */
  method LoadAll(s: Store)
    requires s.Valid() && s.dict == map[] && s.dbs <= U16
    modifies s`eng, s`dict, s`pend
    ensures s.Valid()
    ensures forall k :: k in s.dict <==> Live(old(s.eng), s.now, k).Some?
    ensures forall k :: RecAt(s.eng, k) == Live(old(s.eng), s.now, k)
    ensures SameElems(s.eng, old(s.eng))
    ensures forall k | k in s.pend :: k in old(s.pend) && s.pend[k] == old(s.pend)[k]
  {
    hide Apply, RecAt, Inv, PendOk, Gone, AllDue, IndexExact, Loading, SameElems;
    var batch := [];
    ghost var gone := {};
    assert s.pend - gone == s.pend;
    NothingLoaded(s);
    for db := 0 to s.dbs
      invariant s.eng == old(s.eng) && Loading(s, batch, gone, db, []) && s.pend == old(s.pend) - gone
    {
      ghost var was := gone;
      batch, gone := LoadDb(s, db, batch, gone);
      assert old(s.pend) - was - gone == old(s.pend) - gone;
    }
    AllLoaded(s, batch, gone);
    GonePending(Apply(s.eng, batch), s.eng, old(s.pend), gone) by { LoadingGone(s, batch, gone, s.dbs, []); }
    s.eng := Apply(s.eng, batch);
  }

  lemma LoadingGone(s: Store, batch: seq<Op>, gone: set<Key>, db: nat, xs: seq<bytes>)
    requires Loading(s, batch, gone, db, xs)
    ensures Gone(Apply(s.eng, batch), s.eng, gone)
  {}

  lemma NothingLoaded(s: Store)
    requires s.Valid() && s.dict == map[]
    ensures Loading(s, [], {}, 0, []) && IndexExact(s.eng, s.dbs)
  {}

  lemma AllLoaded(s: Store, batch: seq<Op>, gone: set<Key>)
    requires IndexExact(s.eng, s.dbs) && Loading(s, batch, gone, s.dbs, [])
    ensures Inv(Apply(s.eng, batch), s.dict, s.dbs)
    ensures forall k :: k in s.dict <==> Live(s.eng, s.now, k).Some?
    ensures forall k :: RecAt(Apply(s.eng, batch), k) == Live(s.eng, s.now, k)
    ensures SameElems(Apply(s.eng, batch), s.eng)
  {
    hide Apply, Inv, PendOk, SameElems;
    forall k
      ensures k in s.dict <==> Live(s.eng, s.now, k).Some?
      ensures RecAt(Apply(s.eng, batch), k) == Live(s.eng, s.now, k)
    {
      assert KeyExact(s.eng, k, s.dbs);
      if k in gone { assert Due(s.eng, s.now, k); }
    }
  }

  /** Dropping what is due changes no live record. */
  lemma LoadedKeepsLive(e1: Db, e0: Db, now: i64)
    requires forall k :: RecAt(e1, k) == Live(e0, now, k)
    ensures forall k :: Live(e1, now, k) == Live(e0, now, k)
  {}

  /** With an exact index, the expire segment holds exactly the pairs of expiry and key of
      the stored records that have an expiry. */
  lemma SegmentExactly(e: Db, dbs: nat, x: bytes)
    requires IndexExact(e, dbs) && x != [] && x[0] == SEG_EXPIRE
    ensures x in e <==> exists k :: StoredExpiry(e, k) != 0 && x == ExpireKey(StoredExpiry(e, k), k)
  {
    hide RecAt, ExpireKey;
    if x in e {
      ExpireDecodeEncode(x);
      var (t, k) := DecodeExpireKey(x).value;
      assert KeyExact(e, k, dbs);
      assert StoredExpiry(e, k) == t;
    }
    if k :| StoredExpiry(e, k) != 0 && x == ExpireKey(StoredExpiry(e, k), k) {
      assert KeyExact(e, k, dbs);
    }
  }
}
