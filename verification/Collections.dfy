/**
 Aggregates as values: the plain collection a key stands for, its two stored shapes,
 and batches of element writes seen through what they leave under the key.
 */
module Collections {
  import opened Bytes
  import opened Scores
  import opened Layout
  import opened Codec
  import opened Sequences
  import opened Engine
  import opened Records
  import opened DataPath

  const INLINE_MAX_ENTRIES: nat := 128
  const INLINE_MAX_VALUE: nat := 64

  /** The collections without positions; lists have their own module. */
  datatype Coll =
    | Hash(h: map<bytes, bytes>)
    | Members(s: set<bytes>)
    | ZSet(z: map<bytes, u64>)

  function TypeOf(c: Coll): byte
  {
    match c case Hash(_) => TYPE_HASH case Members(_) => TYPE_SET case ZSet(_) => TYPE_ZSET
  }

  function Empty(typ: byte): Coll
  {
    if typ == TYPE_HASH then Hash(map[]) else if typ == TYPE_SET then Members({}) else ZSet(map[])
  }

  function Size(c: Coll): nat
  {
    match c case Hash(h) => |h| case Members(s) => |s| case ZSet(z) => |z|
  }

  /** Names fit the 16-bit length fields of the inline form, and scores are neither NaN
      nor negative zero. */
  ghost predicate WellFormed(c: Coll)
  {
    match c
    case Hash(h) => forall f | f in h :: |f| < U16
    case Members(s) => forall m | m in s :: |m| < U16
    case ZSet(z) => forall m | m in z :: |m| < U16 && Plain(z[m])
  }

  // ---------- the sparse form ----------

  function ScoreBytes(score: u64): bytes { BE(EncodeScore(score), 8) }

  function ScoreMap(z: map<bytes, u64>): map<bytes, bytes> { map m | m in z :: ScoreBytes(z[m]) }

  function IndexKeys(z: map<bytes, u64>): set<bytes> { set m | m in z :: ScoreBytes(z[m]) + m }

  function IndexMap(z: map<bytes, u64>): map<bytes, bytes> { map x | x in IndexKeys(z) :: [] }

  function MemberMap(s: set<bytes>): map<bytes, bytes> { map m | m in s :: [] }

  /** The element keys of a sparse collection, segment by segment. */
  function ElemsFor(c: Coll): Elems
  {
    match c
    case Hash(h) => NO_ELEMS.(hash := h)
    case Members(s) => NO_ELEMS.(members := MemberMap(s))
    case ZSet(z) => NO_ELEMS.(scores := ScoreMap(z), byScore := IndexMap(z))
  }

  lemma IndexKeyParts(s: u64, m: bytes, s': u64, m': bytes)
    ensures ScoreBytes(s) + m == ScoreBytes(s') + m' <==> s == s' && m == m'
  {
    var a, b := ScoreBytes(s) + m, ScoreBytes(s') + m';
    assert a[..8] == ScoreBytes(s) && a[8..] == m && b[..8] == ScoreBytes(s') && b[8..] == m';
    Order64(EncodeScore(s), EncodeScore(s'), [], []);
    ScoreBijection(s);
    ScoreBijection(s');
  }

  /** The score an index key spells, as ScoreOf reads it back. */
  function ScoreIn(x: bytes): u64
    requires |x| >= 8
  {
    Read64(x, 0);
    DecodeScore(FromBE(x[0..8]))
  }

  lemma ScoreInKey(s: u64, m: bytes)
    ensures ScoreIn(ScoreBytes(s) + m) == s && (ScoreBytes(s) + m)[8..] == m
  {
    assert (ScoreBytes(s) + m)[0..8] == ScoreBytes(s);
    BE64(EncodeScore(s));
    ScoreBijection(s);
  }

  lemma KeyOfScore(x: bytes)
    requires |x| >= 8
    ensures x == ScoreBytes(ScoreIn(x)) + x[8..]
  {
    Read64(x, 0);
    ScoreBijection(FromBE(x[0..8]));
    EncodeDecode(x[0..8]);
    assert x == x[0..8] + x[8..];
  }

  /** An index key belongs to the set exactly when its member has the score it spells. */
  lemma IndexAt(z: map<bytes, u64>, x: bytes)
    ensures x in IndexMap(z) <==> |x| >= 8 && x[8..] in z && z[x[8..]] == ScoreIn(x)
  {
    hide ScoreBytes, ScoreIn;
    if x in IndexKeys(z) {
      var m :| m in z && x == ScoreBytes(z[m]) + m;
      assert |ScoreBytes(z[m])| == 8 by { ScoreWidth(z[m]); }
      ScoreInKey(z[m], m);
    }
    if |x| >= 8 && x[8..] in z && z[x[8..]] == ScoreIn(x) { KeyOfScore(x); }
  }

  lemma ScoreWidth(s: u64)
    ensures |ScoreBytes(s)| == 8
  {}

  lemma InIndex(z: map<bytes, u64>, s: u64, m: bytes)
    ensures ScoreBytes(s) + m in IndexMap(z) <==> m in z && z[m] == s
  {
    ScoreWidth(s);
    IndexAt(z, ScoreBytes(s) + m);
    ScoreInKey(s, m);
  }

  /** Moving a member's score in the index: the old entry goes, the new one comes. */
  lemma IndexSet(z: map<bytes, u64>, m: bytes, s: u64)
    ensures IndexMap(z[m := s]) ==
            (if m in z then IndexMap(z) - {ScoreBytes(z[m]) + m} else IndexMap(z))[ScoreBytes(s) + m := []]
  {
    hide ScoreBytes, ScoreIn, IndexKeys;
    var z' := z[m := s];
    var want := (if m in z then IndexMap(z) - {ScoreBytes(z[m]) + m} else IndexMap(z))[ScoreBytes(s) + m := []];
    forall x ensures x in IndexMap(z') <==> x in want {
      IndexAt(z', x);
      IndexAt(z, x);
      ScoreInKey(s, m);
      ScoreWidth(s);
      if |x| >= 8 { KeyOfScore(x); }
      if m in z { ScoreInKey(z[m], m); ScoreWidth(z[m]); }
    }
  }

  lemma IndexRemove(z: map<bytes, u64>, m: bytes)
    requires m in z
    ensures IndexMap(z - {m}) == IndexMap(z) - {ScoreBytes(z[m]) + m}
  {
    hide ScoreBytes, ScoreIn, IndexKeys;
    var z' := z - {m};
    var want := IndexMap(z) - {ScoreBytes(z[m]) + m};
    forall x ensures x in IndexMap(z') <==> x in want {
      IndexAt(z', x);
      IndexAt(z, x);
      ScoreInKey(z[m], m);
      if |x| >= 8 { KeyOfScore(x); }
    }
  }

  // ---------- the inline form ----------

  function ParseColl(typ: byte, data: bytes): Option<Coll>
  {
    if typ == TYPE_HASH then match ParseHash(data) case None => None case Some(h) => Some(Hash(h))
    else if typ == TYPE_SET then match ParseSet(data) case None => None case Some(s) => Some(Members(s))
    else if typ == TYPE_ZSET then match ParseZSet(data) case None => None case Some(z) => Some(ZSet(z))
    else None
  }

  ghost predicate FitsInline(c: Coll)
  {
    Size(c) <= INLINE_MAX_ENTRIES && (c.Hash? ==> forall f | f in c.h :: |c.h[f]| <= INLINE_MAX_VALUE)
  }

  // ---------- what a key holds ----------

  /** A payload and element keys store `c`: everything inline and no element keys, or a
      header and exactly one set of element keys. */
  ghost predicate Shape(payload: bytes, c: Coll, el: Elems)
  {
    match DecodeObjectHeader(payload)
    case None => false
    case Some(Inline(_, data)) => ParseColl(TypeOf(c), data) == Some(c) && el == NO_ELEMS
    case Some(Sparse(_, _, _)) => el == ElemsFor(c)
  }

  /** A sparse header counts the elements, in 32 bits. */
  ghost predicate CountOk(payload: bytes, c: Coll)
  {
    IsSparse(payload) ==> DecodeObjectHeader(payload).value.count == Size(c) % U32
  }

  predicate IsSparse(payload: bytes)
  {
    DecodeObjectHeader(payload).Some? && DecodeObjectHeader(payload).value.Sparse?
  }

  /** The plain state of one key. */
  datatype State = Absent | Str(r: Record) | Agg(c: Coll) | Lst(xs: seq<bytes>, top: nat)

  ghost predicate Holds(e: Db, now: i64, k: Key, st: State)
  {
    match st
    case Absent => Live(e, now, k) == None && ElemsOf(e, k) == NO_ELEMS
    case Str(r) => Live(e, now, k) == Some(r) && r.typ == TYPE_STRING && ElemsOf(e, k) == NO_ELEMS
    case Agg(c) =>
      && Live(e, now, k).Some?
      && Live(e, now, k).value.typ == TypeOf(c) && Live(e, now, k).value.exp == 0
      && Shape(Live(e, now, k).value.payload, c, ElemsOf(e, k))
      && WellFormed(c)
    case Lst(xs, top) =>
      && Live(e, now, k).Some?
      && Live(e, now, k).value.typ == TYPE_LIST && Live(e, now, k).value.exp == 0
      && ListShape(Live(e, now, k).value.payload, xs, top, ElemsOf(e, k))
  }

  /** The header of the collection under k counts its elements. */
  ghost predicate Tallied(e: Db, now: i64, k: Key, st: State)
  {
    st.Agg? && Live(e, now, k).Some? ==> CountOk(Live(e, now, k).value.payload, st.c)
  }

  /** The count a sparse header gives; none for a key stored otherwise. */
  function HeaderCount(e: Db, now: i64, k: Key): Option<nat>
  {
    var live := Live(e, now, k);
    if live.Some? && IsSparse(live.value.payload) then Some(DecodeObjectHeader(live.value.payload).value.count) else None
  }

  lemma HeaderTallies(e: Db, now: i64, k: Key, c: Coll)
    requires Live(e, now, k).Some? && (HeaderCount(e, now, k).Some? ==> HeaderCount(e, now, k).value == Size(c) % U32)
    ensures Tallied(e, now, k, Agg(c))
  {
    hide Live, DecodeObjectHeader;
  }

  lemma TalliedSame(e1: Db, e0: Db, now: i64, k: Key, st: State)
    requires Live(e1, now, k) == Live(e0, now, k)
    ensures Tallied(e1, now, k, st) == Tallied(e0, now, k, st)
  {}

  /** The score index of a sorted set and its member index agree, entry by entry, and
      both are empty while the set is inline or absent. */
  lemma DoubleIndex(e: Db, now: i64, k: Key, st: State, score: u64, m: bytes)
    requires Holds(e, now, k, st)
    ensures ScoreKey(k, score, m) in e <==>
              ElemKey(SEG_ZSET_M, k, m) in e && e[ElemKey(SEG_ZSET_M, k, m)] == ScoreBytes(score)
    ensures ScoreKey(k, score, m) in e ==> st.Agg? && st.c.ZSet? && m in st.c.z && st.c.z[m] == score
  {
    hide ScoreBytes, ElemKey, ScoreKey, IndexMap, ScoreMap, Holds, ElemsOf;
    ZSetElemAt(e, k, score, m);
    ZSetElems(e, now, k, st);
    if st.Agg? && st.c.ZSet? {
      InIndex(st.c.z, score, m);
      ScoreMapAt(st.c.z, score, m);
    }
  }

  lemma ZSetElemAt(e: Db, k: Key, score: u64, m: bytes)
    ensures ScoreKey(k, score, m) in e <==> ScoreBytes(score) + m in ElemsOf(e, k).byScore
    ensures ElemKey(SEG_ZSET_M, k, m) in e <==> m in ElemsOf(e, k).scores
    ensures m in ElemsOf(e, k).scores ==> e[ElemKey(SEG_ZSET_M, k, m)] == ElemsOf(e, k).scores[m]
  {
    ScoreKeyIs(k, score, m);
  }

  lemma ZSetElems(e: Db, now: i64, k: Key, st: State)
    requires Holds(e, now, k, st)
    ensures var el := ElemsOf(e, k);
            || (el.scores == map[] && el.byScore == map[])
            || (st.Agg? && st.c.ZSet? && el.scores == ScoreMap(st.c.z) && el.byScore == IndexMap(st.c.z))
  {
    hide ElemsOf, Live, DecodeObjectHeader, ParseColl, IndexMap, ScoreMap;
  }

  lemma ScoreMapAt(z: map<bytes, u64>, score: u64, m: bytes)
    ensures m in ScoreMap(z) <==> m in z
    ensures m in z ==> (ScoreMap(z)[m] == ScoreBytes(score) <==> z[m] == score)
  {
    if m in z { IndexKeyParts(z[m], m, score, m); }
  }

  lemma ScoreKeyIs(k: Key, score: u64, m: bytes)
    ensures ScoreKey(k, score, m) == ElemPrefix(SEG_ZSET_S, k) + (ScoreBytes(score) + m)
  {}

  // ---------- staged element writes ----------

  /** Once applied, the batch leaves `el` under k and touches nothing else. */
  ghost predicate Staged(e: Db, ops: seq<Op>, k: Key, el: Elems)
  {
    ElemsOnly(Apply(e, ops), e, k) && ElemsOf(Apply(e, ops), k) == el
  }

  function Part(el: Elems, seg: byte): map<bytes, bytes>
    requires IsSeg(seg)
  {
    if seg == SEG_HASH then el.hash else if seg == SEG_LIST then el.list else if seg == SEG_SET then el.members
    else if seg == SEG_ZSET_M then el.scores else el.byScore
  }

  lemma StagedNone(e: Db, k: Key)
    ensures Staged(e, [], k, ElemsOf(e, k))
  {
    hide Owned, ExpireKey, Sub;
  }

  lemma StagedPut(e: Db, ops: seq<Op>, k: Key, el: Elems, seg: byte, x: bytes, v: bytes)
    requires Staged(e, ops, k, el) && IsSeg(seg)
    ensures Staged(e, ops + [Put(ElemKey(seg, k, x), v)], k, With(el, seg, Part(el, seg)[x := v]))
  {
    hide Apply, ElemPrefix, ElemsOnly, Sub;
    var e1 := Apply(e, ops);
    var p := ElemPrefix(seg, k);
    var e2 := e1[p + x := v];
    ApplySnoc(e, ops, Put(p + x, v));
    SubPut(e1, p, x, v);
    assert forall y :: !(p <= y) ==> SameAt(e2, e1, y);
    ElemWriteFrame(e2, e1, seg, k);
    ElemsOnlyTransitive(e2, e1, e, k);
  }

  lemma StagedDel(e: Db, ops: seq<Op>, k: Key, el: Elems, seg: byte, x: bytes)
    requires Staged(e, ops, k, el) && IsSeg(seg)
    ensures Staged(e, ops + [Del(ElemKey(seg, k, x))], k, With(el, seg, Part(el, seg) - {x}))
  {
    hide Apply, ElemPrefix, ElemsOnly, Sub;
    var e1 := Apply(e, ops);
    var p := ElemPrefix(seg, k);
    var e2 := e1 - {p + x};
    ApplySnoc(e, ops, Del(p + x));
    SubDel(e1, p, x);
    assert forall y :: !(p <= y) ==> SameAt(e2, e1, y);
    ElemWriteFrame(e2, e1, seg, k);
    ElemsOnlyTransitive(e2, e1, e, k);
  }

  /** Committing staged elements together with the record. */
  lemma Commit(e: Db, d: Cache, ops: seq<Op>, k: Key, el: Elems, r: Record, inlineMax: nat, dbs: nat)
    requires Inv(e, d, dbs) && k.db < dbs && Staged(e, ops, k, el)
    ensures var e' := Apply(e, ops + PutBatch(k, r, StoredExpiry(e, k)));
            && Inv(e', d[k := NewEntry(r, inlineMax)], dbs) && OnlyTouches(e', e, k)
            && RecAt(e', k) == Some(r) && ElemsOf(e', k) == el
  {
    hide Apply, PutBatch, Inv, PendOk, RecAt, OnlyTouches, ElemsOf;
    var e1 := Apply(e, ops);
    ApplyAppend(e, ops, PutBatch(k, r, StoredExpiry(e, k)));
    ElemsOnlyInv(e1, d, e, k, dbs);
    PutInv(e1, d, k, r, inlineMax, dbs);
    PutTouches(e1, k, r, StoredExpiry(e, k));
    TouchesTransitive(Apply(e1, PutBatch(k, r, StoredExpiry(e, k))), e1, e, k);
  }
}
