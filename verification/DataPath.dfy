/**
 The store's data path: an engine, a cache that may drop anything at any time, and a
 clock. Reads go through the cache; every write keeps the record, the time-ordered
 expiry index and the cache entry in step. Aggregates build on the same primitives:
 range deletes over element segments, and frames that say what a write leaves alone.
 */
module DataPath {
  import opened Bytes
  import opened Layout
  import opened Codec
  import opened Engine
  import opened Records
  import opened Merge

  /** The engine after a read of k: a record past its expiry is removed on the way. */
  function Settled(e: Db, now: i64, k: Key): Db
  {
    if RecAt(e, k).Some? && Expired(RecAt(e, k).value.exp, now)
    then Apply(e, DropBatch(k, RecAt(e, k).value.exp)) else e
  }

  /** Removing the record removes its operands. */
  function SettledPending(e: Db, now: i64, k: Key, p: Pending): Pending
  {
    if RecAt(e, k).Some? && Expired(RecAt(e, k).value.exp, now) then p - {k} else p
  }

  lemma SettledOk(e: Db, now: i64, k: Key, dbs: nat)
    requires IndexExact(e, dbs)
    ensures OnlyTouches(Settled(e, now, k), e, k)
    ensures KeyExact(Settled(e, now, k), k, dbs)
    ensures RecAt(Settled(e, now, k), k) == Live(e, now, k)
    ensures ElemsOf(Settled(e, now, k), k) == ElemsOf(e, k)
  {
    assert KeyExact(e, k, dbs);
    if RecAt(e, k).Some? && Expired(RecAt(e, k).value.exp, now) {
      DropTouches(e, k, RecAt(e, k).value.exp);
      DropKeepsExact(e, k, dbs);
    }
  }

  /** Lazy removal of an expired record is invisible. */
  lemma SettledInvisible(e: Db, now: i64, k: Key, dbs: nat, k': Key)
    requires IndexExact(e, dbs)
    ensures Live(Settled(e, now, k), now, k') == Live(e, now, k')
  {
    SettledOk(e, now, k, dbs);
    if k' != k { OthersSameRecord(Settled(e, now, k), e, k, k'); }
  }

  /** dropElemsBatch: range deletes over the element segments of a type. */
  function DropElemsBatch(k: Key, typ: byte): seq<Op>
  {
    if typ == TYPE_HASH then [DelAll(SEG_HASH, k)]
    else if typ == TYPE_LIST then [DelAll(SEG_LIST, k)]
    else if typ == TYPE_SET then [DelAll(SEG_SET, k)]
    else if typ == TYPE_ZSET then [DelAll(SEG_ZSET_M, k), DelAll(SEG_ZSET_S, k)]
    else []
  }

  function DelAll(seg: byte, k: Key): Op
  {
    DelRange(ElemPrefix(seg, k), Successor(ElemPrefix(seg, k)))
  }

  /** Only k's elements change: its record and index entry stay, and other keys. */
  ghost predicate ElemsOnly(e1: Db, e0: Db, k: Key)
  {
    && OnlyTouches(e1, e0, k)
    && SameAt(e1, e0, DataKey(k)) && (forall t: i64 :: SameAt(e1, e0, ExpireKey(t, k)))
  }

  /** A change confined to one element segment of k leaves the rest of k alone. */
  lemma ElemWriteFrame(e1: Db, e0: Db, seg: byte, k: Key)
    requires IsSeg(seg)
    requires forall x :: !(ElemPrefix(seg, k) <= x) ==> SameAt(e1, e0, x)
    ensures ElemsOnly(e1, e0, k)
    ensures ElemsOf(e1, k) == With(ElemsOf(e0, k), seg, Sub(e1, ElemPrefix(seg, k)))
  {
    ElemWriteRecord(e1, e0, seg, k);
    if seg != SEG_HASH { SubOtherSegment(e1, e0, ElemPrefix(seg, k), ElemPrefix(SEG_HASH, k)); }
    if seg != SEG_LIST { SubOtherSegment(e1, e0, ElemPrefix(seg, k), ElemPrefix(SEG_LIST, k)); }
    if seg != SEG_SET { SubOtherSegment(e1, e0, ElemPrefix(seg, k), ElemPrefix(SEG_SET, k)); }
    if seg != SEG_ZSET_M { SubOtherSegment(e1, e0, ElemPrefix(seg, k), ElemPrefix(SEG_ZSET_M, k)); }
    if seg != SEG_ZSET_S { SubOtherSegment(e1, e0, ElemPrefix(seg, k), ElemPrefix(SEG_ZSET_S, k)); }
  }

  lemma ElemWriteRecord(e1: Db, e0: Db, seg: byte, k: Key)
    requires IsSeg(seg)
    requires forall x :: !(ElemPrefix(seg, k) <= x) ==> SameAt(e1, e0, x)
    ensures ElemsOnly(e1, e0, k)
  {
    TaggedParts(SEG_DATA, k);
    if ElemPrefix(seg, k) <= DataKey(k) { FirstByte(seg, k, DataKey(k)); }
    forall t: i64 ensures SameAt(e1, e0, ExpireKey(t, k)) {
      ExpireParts(t, k);
      if ElemPrefix(seg, k) <= ExpireKey(t, k) { FirstByte(seg, k, ExpireKey(t, k)); }
    }
  }

  /** A range delete over one element segment empties it and nothing else. */
  lemma DelAllEffect(e: Db, seg: byte, k: Key)
    requires IsSeg(seg)
    ensures ElemsOnly(ApplyOp(e, DelAll(seg, k)), e, k)
    ensures ElemsOf(ApplyOp(e, DelAll(seg, k)), k) == With(ElemsOf(e, k), seg, map[])
  {
    SubDelRange(e, ElemPrefix(seg, k));
    ElemWriteFrame(ApplyOp(e, DelAll(seg, k)), e, seg, k);
  }

  /** The elements left when those of `typ` are dropped. */
  function Cleared(el: Elems, typ: byte): Elems
  {
    if typ == TYPE_HASH then el.(hash := map[])
    else if typ == TYPE_LIST then el.(list := map[])
    else if typ == TYPE_SET then el.(members := map[])
    else if typ == TYPE_ZSET then el.(scores := map[], byScore := map[])
    else el
  }

  /** A string has no element keys to delete. */
  lemma StringKeeps(e: Db, k: Key)
    ensures ElemsOnly(e, e, k) && Cleared(ElemsOf(e, k), TYPE_STRING) == ElemsOf(e, k)
  {
    hide ElemsOf, Owned;
  }

  lemma ElemsOnlyTouches(e1: Db, e0: Db, k: Key)
    requires ElemsOnly(e1, e0, k)
    ensures OnlyTouches(e1, e0, k)
  {
    hide ElemsOf, Owned;
  }

  lemma TouchesTransitive(e2: Db, e1: Db, e0: Db, k: Key)
    requires OnlyTouches(e2, e1, k) && OnlyTouches(e1, e0, k)
    ensures OnlyTouches(e2, e0, k)
  {
    forall x | !Owned(x, k) ensures SameAt(e2, e0, x) {
      assert SameAt(e2, e1, x) && SameAt(e1, e0, x);
    }
  }

  lemma ElemsOnlyTransitive(e2: Db, e1: Db, e0: Db, k: Key)
    requires ElemsOnly(e2, e1, k) && ElemsOnly(e1, e0, k)
    ensures ElemsOnly(e2, e0, k)
  {
    TouchesTransitive(e2, e1, e0, k);
    forall t: i64 ensures SameAt(e2, e0, ExpireKey(t, k)) {
      assert SameAt(e2, e1, ExpireKey(t, k)) && SameAt(e1, e0, ExpireKey(t, k));
    }
  }

  lemma DropElemsEffect(e: Db, k: Key, typ: byte)
    ensures ElemsOnly(Apply(e, DropElemsBatch(k, typ)), e, k)
    ensures ElemsOf(Apply(e, DropElemsBatch(k, typ)), k) == Cleared(ElemsOf(e, k), typ)
  {
    hide Owned, ApplyOp, Sub, InRange, ElemPrefix;
    var b := DropElemsBatch(k, typ);
    if typ == TYPE_ZSET {
      var e1 := ApplyOp(e, b[0]);
      Apply1(e, b[0]);
      ApplySnoc(e, [b[0]], b[1]);
      DelAllEffect(e, SEG_ZSET_M, k);
      DelAllEffect(e1, SEG_ZSET_S, k);
      ElemsOnlyTransitive(ApplyOp(e1, b[1]), e1, e, k);
    } else if b != [] {
      Apply1(e, b[0]);
      DelAllEffect(e, if typ == TYPE_HASH then SEG_HASH else if typ == TYPE_LIST then SEG_LIST else SEG_SET, k);
    }
  }

  /** Element writes leave the record layer as it was. */
  lemma ElemsOnlyInv(e1: Db, d: Cache, e0: Db, k: Key, dbs: nat)
    requires Inv(e0, d, dbs) && ElemsOnly(e1, e0, k)
    ensures Inv(e1, d, dbs) && RecAt(e1, k) == RecAt(e0, k)
  {
    hide OnlyTouches, ExpireKey, DataKey, DecodeValue;
    assert KeyExact(e0, k, dbs) && EntryOk(e0, d, k);
    InvStep(e1, d, e0, d, k, dbs);
  }

  lemma ElemsOnlyPending(e1: Db, e0: Db, p: Pending, k: Key)
    requires PendOk(e0, p) && ElemsOnly(e1, e0, k)
    ensures PendOk(e1, p)
  {
    hide OnlyTouches, ExpireKey, DataKey, Folded, AllCountable, ElemsOf;
    forall k': Key ensures PendingAt(e1, p, k') {
      assert PendingAt(e0, p, k');
      if k' != k { OtherKeysKept(e1, e0, k, k'); }
    }
  }

  /** The invariant after a record is dropped. */
  lemma DropInv(e: Db, d: Cache, k: Key, dbs: nat)
    requires Inv(e, d, dbs)
    ensures var e' := Apply(e, DropBatch(k, StoredExpiry(e, k)));
            && Inv(e', d - {k}, dbs) && RecAt(e', k) == None && OnlyTouches(e', e, k)
  {
    hide OnlyTouches, Apply, DropBatch, ElemsOf;
    assert KeyExact(e, k, dbs);
    DropTouches(e, k, StoredExpiry(e, k));
    DropKeepsExact(e, k, dbs);
    InvStep(Apply(e, DropBatch(k, StoredExpiry(e, k))), d - {k}, e, d, k, dbs);
  }

  /** The invariant after a value write followed by the cache update. */
  lemma PutInv(e: Db, d: Cache, k: Key, r: Record, inlineMax: nat, dbs: nat)
    requires Inv(e, d, dbs) && k.db < dbs
    ensures var e' := Apply(e, PutBatch(k, r, StoredExpiry(e, k)));
            && Inv(e', d[k := NewEntry(r, inlineMax)], dbs)
            && RecAt(e', k) == Some(r) && OnlyTouches(e', e, k)
  {
    hide OnlyTouches, Apply, PutBatch, ElemsOf;
    assert KeyExact(e, k, dbs);
    PutTouches(e, k, r, StoredExpiry(e, k));
    PutKeepsExact(e, k, r, dbs);
    InvStep(Apply(e, PutBatch(k, r, StoredExpiry(e, k))), d[k := NewEntry(r, inlineMax)], e, d, k, dbs);
  }

  class Store {
    var eng: Db
    var dict: Cache
    var now: i64
    var pend: Pending
    const inlineMax: nat
    const dbs: nat

    ghost predicate Valid()
      reads this
    {
      Inv(eng, dict, dbs) && now >= 0 && PendOk(eng, pend)
    }

    /** Opening over what a previous run left behind, unfolded operands included, with a
        cold cache. */
    constructor (e: Db, p: Pending, inlineMax: nat, dbs: nat, now: i64)
      requires IndexExact(e, dbs) && PendOk(e, p) && now >= 0
      ensures Valid() && eng == e && pend == p && dict == map[]
      ensures this.inlineMax == inlineMax && this.dbs == dbs && this.now == now
    {
      this.eng := e;
      this.dict := map[];
      this.pend := p;
      this.now := now;
      this.inlineMax := inlineMax;
      this.dbs := dbs;
    }

    // ---------- cache primitives ----------

    /** Dict.Lookup: an expired entry is dropped and reported absent. */
    method Lookup(k: Key) returns (r: Option<Entry>)
      requires Valid()
      modifies this`dict
      ensures Valid()
      ensures r == if k in old(dict) && !Expired(old(dict)[k].exp, now) then Some(old(dict)[k]) else None
    {
      if k !in dict { return None; }
      var e := dict[k];
      if Expired(e.exp, now) {
        Forget(k);
        return None;
      }
      return Some(e);
    }

    /** Dict.Delete, which is also all that a persist-mode eviction does. */
    method Forget(k: Key)
      requires Valid()
      modifies this`dict
      ensures Valid() && dict == old(dict) - {k}
    {
      dict := dict - {k};
      forall k': Key ensures EntryOk(eng, dict, k') { assert EntryOk(eng, old(dict), k'); }
    }

    /** Evictor rounds remove whatever victims the policy samples. */
    method Evict(victims: set<Key>)
      requires Valid()
      modifies this`dict
      ensures Valid() && dict == old(dict) - victims
    {
      dict := dict - victims;
      forall k': Key ensures EntryOk(eng, dict, k') { assert EntryOk(eng, old(dict), k'); }
    }

    // ---------- reads ----------

    /** getTyped: the cached value when there is one, else the engine's record; the
        result is the live record as if the cache did not exist. */
    method GetTyped(k: Key) returns (r: Option<Record>)
      requires Valid()
      modifies this`eng, this`dict, this`pend
      ensures Valid()
      ensures r == Live(old(eng), now, k)
      ensures eng == Settled(old(eng), now, k) && pend == SettledPending(old(eng), now, k, old(pend))
      ensures RecAt(eng, k) == r
    {
      hide PendOk, Owned, Sub, DropBatch, Apply, ExpireKey, ElemPrefix;
      SettledOk(eng, now, k, dbs);
      assert EntryOk(eng, dict, k) && KeyExact(eng, k, dbs);
      var wasCounter := false;
      var found := Lookup(k);
      if found.Some? {
        var e := found.value;
        if e.counter {
          wasCounter := true;
        } else if e.inline != [] {
          return Some(Record(e.typ, e.exp, e.inline));
        }
      }
      if DataKey(k) !in eng { return None; }
      var rec := DecodeValue(eng[DataKey(k)]).value;
      if Expired(rec.exp, now) {
        DeleteExpired(k, rec.exp);
        return None;
      }
      if wasCounter { SetCounter(k, rec.exp); } else { Admit(k, rec); }
      return Some(rec);
    }

    method DeleteExpired(k: Key, exp: i64)
      requires Valid() && RecAt(eng, k).Some? && exp == RecAt(eng, k).value.exp
      modifies this`eng, this`dict, this`pend
      ensures Valid() && eng == Apply(old(eng), DropBatch(k, exp)) && dict == old(dict) - {k} && pend == old(pend) - {k}
    {
      hide Inv, PendOk, OnlyTouches, Apply, ExpireKey, DataKey;
      dict := dict - {k};
      var batch := [Del(DataKey(k))];
      if exp != 0 { batch := batch + [Del(ExpireKey(exp, k))]; }
      assert batch == DropBatch(k, exp);
      DropInv(eng, old(dict), k, dbs);
      Supersede(Apply(eng, batch), eng, pend, k);
      eng := Apply(eng, batch);
      pend := pend - {k};
    }

    /** Dict.Set of the value that is stored. */
    method Admit(k: Key, r: Record)
      requires Valid() && RecAt(eng, k) == Some(r)
      modifies this`dict
      ensures Valid() && dict == old(dict)[k := NewEntry(r, inlineMax)]
    {
      dict := dict[k := NewEntry(r, inlineMax)];
      forall k': Key ensures EntryOk(eng, dict, k') { assert EntryOk(eng, old(dict), k'); }
    }

    /** Dict.SetCounter: metadata only; an existing entry keeps its stale inline value
        but the flag makes readers ignore it. */
    method SetCounter(k: Key, exp: i64)
      requires Valid() && RecAt(eng, k).Some? && RecAt(eng, k).value.exp == exp
      modifies this`dict
      ensures Valid()
      ensures k in dict && dict[k].counter && dict - {k} == old(dict) - {k}
    {
      var e := if k in dict then dict[k].(counter := true, exp := exp) else Entry(TYPE_STRING, exp, [], true);
      dict := dict[k := e];
      forall k': Key ensures EntryOk(eng, dict, k') { assert EntryOk(eng, old(dict), k'); }
    }

    /** oldExpiry: the cache's expiry when present, else the engine's. */
    method OldExpiry(k: Key) returns (t: i64)
      requires Valid()
      modifies this`dict
      ensures Valid() && t == StoredExpiry(eng, k)
    {
      assert EntryOk(eng, dict, k) && KeyExact(eng, k, dbs);
      var found := Lookup(k);
      if found.Some? { return found.value.exp; }
      if DataKey(k) !in eng { return 0; }
      return DecodeValue(eng[DataKey(k)]).value.exp;
    }

    // ---------- writes ----------

    /** putValue: value and index in one batch, then the cache. */
    method PutValue(k: Key, r: Record, prev: i64)
      requires Valid() && prev == StoredExpiry(eng, k) && k.db < dbs
      modifies this`eng, this`dict, this`pend
      ensures Valid()
      ensures eng == Apply(old(eng), PutBatch(k, r, prev))
      ensures RecAt(eng, k) == Some(r) && OnlyTouches(eng, old(eng), k) && pend == old(pend) - {k}
    {
      hide Inv, PendOk, OnlyTouches, Apply, ExpireKey, DataKey, EncodeValue;
      var batch := [Put(DataKey(k), EncodeValue(r))];
      if prev != 0 && prev != r.exp { batch := batch + [Del(ExpireKey(prev, k))]; }
      if r.exp != 0 && r.exp != prev { batch := batch + [Put(ExpireKey(r.exp, k), [])]; }
      assert batch == PutBatch(k, r, prev);
      PutInv(eng, dict, k, r, inlineMax, dbs);
      Supersede(Apply(eng, batch), eng, pend, k);
      eng := Apply(eng, batch);
      pend := pend - {k};
      dict := dict[k := NewEntry(r, inlineMax)];
    }

    method DropElems(k: Key, typ: byte)
      requires Valid()
      modifies this`eng
      ensures Valid() && ElemsOnly(eng, old(eng), k)
      ensures ElemsOf(eng, k) == Cleared(ElemsOf(old(eng), k), typ)
    {
      hide Inv, PendOk, ElemsOnly, ElemsOf, Apply;
      DropElemsEffect(eng, k, typ);
      ElemsOnlyInv(Apply(eng, DropElemsBatch(k, typ)), dict, eng, k, dbs);
      ElemsOnlyPending(Apply(eng, DropElemsBatch(k, typ)), eng, pend, k);
      eng := Apply(eng, DropElemsBatch(k, typ));
    }

    /** deleteKeyLocked: elements, cache entry, record and index entry. */
    method DeleteKey(k: Key) returns (found: bool)
      requires Valid()
      modifies this`eng, this`dict, this`pend
      ensures Valid()
      ensures found == Live(old(eng), now, k).Some?
      ensures RecAt(eng, k) == None && OnlyTouches(eng, old(eng), k) && pend == old(pend) - {k}
      ensures ElemsOf(eng, k) ==
              if found then Cleared(ElemsOf(old(eng), k), Live(old(eng), now, k).value.typ)
              else ElemsOf(old(eng), k)
    {
      hide Owned, Sub, DropBatch, Apply, ExpireKey, ElemPrefix, PendOk, EntryOk, KeyExact;
      SettledOk(eng, now, k, dbs);
      var r := GetTyped(k);
      if r == None {
        NotPending(eng, dict, pend, k, dbs);
        return false;
      }
      ghost var e0 := eng;
      ClearKey(k, r.value.typ);
      TouchesTransitive(eng, e0, old(eng), k);
      return true;
    }

    /** A live key's elements, unless it is a string, then its record. */
    method ClearKey(k: Key, typ: byte)
      requires Valid()
      modifies this`eng, this`dict, this`pend
      ensures Valid() && RecAt(eng, k) == None && OnlyTouches(eng, old(eng), k) && pend == old(pend) - {k}
      ensures ElemsOf(eng, k) == Cleared(ElemsOf(old(eng), k), typ)
    {
      hide OnlyTouches, ElemsOnly, ElemsOf, DropBatch, Apply, Inv, PendOk, RecAt, Cleared;
      StringKeeps(eng, k);
      if typ != TYPE_STRING { DropElems(k, typ); }
      ghost var e1 := eng;
      ElemsOnlyTouches(e1, old(eng), k);
      var prev := OldExpiry(k);
      DropRecord(k, prev);
      DropTouches(e1, k, prev);
      TouchesTransitive(eng, e1, old(eng), k);
    }

    /** The tail of deleteKeyLocked: two engine deletes after the cache delete. */
    method DropRecord(k: Key, prev: i64)
      requires Valid() && prev == StoredExpiry(eng, k)
      modifies this`eng, this`dict, this`pend
      ensures Valid() && eng == Apply(old(eng), DropBatch(k, prev)) && RecAt(eng, k) == None && pend == old(pend) - {k}
    {
      hide Inv, PendOk, OnlyTouches, Apply, ExpireKey, DataKey;
      DropInv(eng, dict, k, dbs);
      DropBatchIs(eng, k, prev);
      Supersede(Apply(eng, DropBatch(k, prev)), eng, pend, k);
      pend := pend - {k};
      dict := dict - {k};
      eng := eng - {DataKey(k)};
      if prev != 0 { eng := eng - {ExpireKey(prev, k)}; }
    }
  }
}
