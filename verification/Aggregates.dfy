/**
 Loading and saving aggregates: a collection is read from whichever form it is stored
 in and written back in the form it should have, moving between the two or writing
 only what changed, always as one atomic batch with its record. Staged batches are
 described by the elements they leave, so promotion, demotion, differences and in-place
 writes share one argument.
 */
module Aggregates {
  import opened Bytes
  import opened Scores
  import opened Layout
  import opened Codec
  import opened Engine
  import opened Records
  import opened DataPath
  import opened Collections

  /** The in-memory view of an aggregate: its collection, the snapshot it was loaded
      with, and how it is stored. */
  datatype View = View(present: bool, sparse: bool, exp: i64, coll: Coll, orig: Coll)

  datatype LoadResult = Loaded(a: View) | WrongType

  predicate IsCollType(typ: byte) { typ in {TYPE_HASH, TYPE_SET, TYPE_ZSET} }

  // ---------- scans ----------

  lemma ScanUnder(e: Db, p: bytes, ks: seq<bytes>)
    requires IsScan(e, p, Successor(p), ks)
    ensures forall k :: k in ks <==> k in e && p <= k
    ensures AllUnder(e, p, ks)
  {
    forall k ensures InRange(k, p, Successor(p)) <==> p <= k { PrefixRange(p, k); }
    forall i | 0 <= i < |ks| ensures ks[i] in e && p <= ks[i] { assert ks[i] in ks; }
  }

  ghost predicate AllUnder(e: Db, p: bytes, ks: seq<bytes>)
  {
    forall i | 0 <= i < |ks| :: ks[i] in e && p <= ks[i]
  }

  /** What the first i scanned keys contribute, with the prefix cut off. */
  ghost function Cut(e: Db, p: bytes, ks: seq<bytes>): map<bytes, bytes>
    requires AllUnder(e, p, ks)
  {
    if ks == [] then map[] else Cut(e, p, ks[..|ks| - 1])[ks[|ks| - 1][|p|..] := e[ks[|ks| - 1]]]
  }

  lemma {:induction false} CutAt(e: Db, p: bytes, ks: seq<bytes>, x: bytes)
    requires AllUnder(e, p, ks)
    ensures x in Cut(e, p, ks) <==> p + x in ks
    ensures x in Cut(e, p, ks) ==> p + x in e && Cut(e, p, ks)[x] == e[p + x]
  {
    if ks != [] {
      var front, last := ks[..|ks| - 1], ks[|ks| - 1];
      CutAt(e, p, front, x);
      assert ks == front + [last];
      assert last == p + last[|p|..];
      assert p + x == last <==> x == last[|p|..];
    }
  }

  lemma CutIsSub(e: Db, p: bytes, ks: seq<bytes>)
    requires AllUnder(e, p, ks) && forall k :: k in ks <==> k in e && p <= k
    ensures Cut(e, p, ks) == Sub(e, p)
  {
    forall x ensures x in Cut(e, p, ks) <==> x in Sub(e, p) { CutAt(e, p, ks, x); }
    forall x | x in Sub(e, p) ensures Cut(e, p, ks)[x] == Sub(e, p)[x] { CutAt(e, p, ks, x); }
  }

  method ScanHash(e: Db, k: Key) returns (out: map<bytes, bytes>)
    ensures out == ElemsOf(e, k).hash
  {
    out := ScanPrefix(e, ElemPrefix(SEG_HASH, k));
  }

  method ScanSet(e: Db, k: Key) returns (out: set<bytes>)
    ensures out == ElemsOf(e, k).members.Keys
  {
    var m := ScanPrefix(e, ElemPrefix(SEG_SET, k));
    out := m.Keys;
  }

  /** The iterator callback: cut the prefix off each key and record the value. */
  method ScanPrefix(e: Db, p: bytes) returns (out: map<bytes, bytes>)
    ensures out == Sub(e, p)
  {
    hide Sub;
    var ks := ScanRange(e, p, Successor(p));
    ScanUnder(e, p, ks);
    out := map[];
    for i := 0 to |ks|
      invariant out == Cut(e, p, ks[..i])
    {
      assert ks[..i + 1][..i] == ks[..i];
      out := out[ks[i][|p|..] := e[ks[i]]];
    }
    assert ks[..|ks|] == ks;
    CutIsSub(e, p, ks);
  }

  function ReadScore(v: bytes): u64
    requires |v| >= 8
  {
    Read64(v, 0);
    DecodeScore(FromBE(v[0..8]))
  }

  /** scanZSet skips values too short to be scores. */
  function ReadScores(m: map<bytes, bytes>): map<bytes, u64>
  {
    map x | x in m && |m[x]| >= 8 :: ReadScore(m[x])
  }

  lemma ReadScoreMap(z: map<bytes, u64>)
    ensures ReadScores(ScoreMap(z)) == z
  {
    forall m | m in z ensures |ScoreBytes(z[m])| == 8 && ReadScore(ScoreBytes(z[m])) == z[m] {
      ScoreInKey(z[m], []);
      assert ScoreBytes(z[m]) + [] == ScoreBytes(z[m]);
    }
  }

  method ScanZSet(e: Db, k: Key) returns (out: map<bytes, u64>)
    ensures out == ReadScores(ElemsOf(e, k).scores)
  {
    var m := ScanPrefix(e, ElemPrefix(SEG_ZSET_M, k));
    out := ReadScores(m);
  }

  // ---------- load ----------

  /** What k's record and elements look like for a loaded view. */
  ghost predicate Matches(e: Db, k: Key, a: View)
  {
    && a.exp == StoredExpiry(e, k) == 0
    && TypeOf(a.coll) == TypeOf(a.orig)
    && ElemsOf(e, k) == (if a.sparse then ElemsFor(a.orig) else NO_ELEMS)
  }

  lemma SettledHolds(e: Db, now: i64, k: Key, dbs: nat, st: State)
    requires IndexExact(e, dbs) && Holds(e, now, k, st)
    ensures Holds(Settled(e, now, k), now, k, st) && RecAt(Settled(e, now, k), k) == Live(e, now, k)
    ensures Live(Settled(e, now, k), now, k) == Live(e, now, k)
    ensures OnlyTouches(Settled(e, now, k), e, k)
  {
    hide Settled, Live, Shape, OnlyTouches, WellFormed, ElemsOf;
    SettledOk(e, now, k, dbs);
    SettledInvisible(e, now, k, dbs, k);
  }

  /** loadAgg: whatever form the collection is stored in, the view holds exactly it. */
  method LoadAgg(s: Store, k: Key, typ: byte, ghost st: State) returns (r: LoadResult)
    requires s.Valid() && IsCollType(typ) && Holds(s.eng, s.now, k, st)
    modifies s`eng, s`dict, s`pend
    ensures s.Valid() && OnlyTouches(s.eng, old(s.eng), k) && Holds(s.eng, s.now, k, st)
    ensures Live(s.eng, s.now, k) == old(Live(s.eng, s.now, k))
    ensures match st
            case Absent => r == Loaded(View(false, false, 0, Empty(typ), Empty(typ)))
            case Str(_) => r == WrongType
            case Lst(_, _) => r == WrongType
            case Agg(c) =>
              if TypeOf(c) == typ then r.Loaded? && r.a.present && r.a.coll == r.a.orig == c else r == WrongType
    ensures r.Loaded? ==> Matches(s.eng, k, r.a)
  {
    hide OnlyTouches, Settled, Inv, PendOk, ElemsOf, ParseHash, ParseSet, ParseZSet, DecodeObjectHeader, WellFormed;
    SettledHolds(s.eng, s.now, k, s.dbs, st) by { InvHasIndex(s.eng, s.dict, s.dbs); }
    var g := s.GetTyped(k);
    if g.None? { return Loaded(View(false, false, 0, Empty(typ), Empty(typ))); }
    if g.value.typ != typ { return WrongType; }
    var obj := DecodeObjectHeader(g.value.payload).value;
    var c: Coll;
    if obj.Sparse? {
      c := ScanColl(s.eng, k, typ, st.c);
    } else {
      c := DecodeColl(obj.data, typ);
    }
    return Loaded(View(true, obj.Sparse?, g.value.exp, c, c));
  }

  method ScanColl(e: Db, k: Key, typ: byte, ghost c: Coll) returns (r: Coll)
    requires IsCollType(typ) && TypeOf(c) == typ && ElemsOf(e, k) == ElemsFor(c)
    ensures r == c
  {
    hide ElemsOf, ScoreMap, IndexMap, ReadScores;
    if typ == TYPE_HASH {
      var h := ScanHash(e, k);
      return Hash(h);
    } else if typ == TYPE_SET {
      var m := ScanSet(e, k);
      assert MemberMap(c.s).Keys == c.s;
      return Members(m);
    } else {
      ReadScoreMap(c.z);
      var z := ScanZSet(e, k);
      return ZSet(z);
    }
  }

  method DecodeColl(data: bytes, typ: byte) returns (r: Coll)
    requires IsCollType(typ) && ParseColl(typ, data).Some?
    ensures ParseColl(typ, data) == Some(r)
  {
    if typ == TYPE_HASH {
      var h := DecodeHashInline(data);
      return Hash(h.value);
    } else if typ == TYPE_SET {
      var m := DecodeSetInline(data);
      return Members(m.value);
    } else {
      var z := DecodeZSetInline(data);
      return ZSet(z.value);
    }
  }

  /** aggEncoding: only the header, for writes that must not load the collection. */
  datatype Encoding = NoKey | Other | Enc(obj: Object, exp: i64)

  lemma HeaderFits(payload: bytes)
    ensures IsSparse(payload) ==> DecodeObjectHeader(payload).value.count < U32
  {
    hide FromTwosComplement;
    if IsSparse(payload) {
      Widths();
      FromBEBound(payload[1..5]);
    }
  }

  method AggEncoding(s: Store, k: Key, typ: byte, ghost st: State) returns (r: Encoding)
    requires s.Valid() && IsCollType(typ) && Holds(s.eng, s.now, k, st)
    modifies s`eng, s`dict, s`pend
    ensures s.Valid() && OnlyTouches(s.eng, old(s.eng), k) && Holds(s.eng, s.now, k, st)
    ensures Live(s.eng, s.now, k) == old(Live(s.eng, s.now, k))
    ensures match st
            case Absent => r == NoKey
            case Str(_) => r == Other
            case Lst(_, _) => r == Other
            case Agg(c) =>
              if TypeOf(c) == typ then r.Enc? && r.exp == 0 else r == Other
    ensures r.Enc? && r.obj.Sparse? ==>
              st.Agg? && ElemsOf(s.eng, k) == ElemsFor(st.c) && StoredExpiry(s.eng, k) == 0
    ensures r.Enc? ==> HeaderCount(s.eng, s.now, k) == if r.obj.Sparse? then Some(r.obj.count) else None
    ensures r.Enc? && r.obj.Sparse? ==> r.obj.count < U32
    ensures r.Enc? && r.obj.Sparse? && Tallied(s.eng, s.now, k, st) ==> r.obj.count == Size(st.c) % U32
  {
    hide OnlyTouches, Settled, Inv, PendOk, ElemsOf, ParseColl, DecodeObjectHeader, WellFormed, ElemsFor;
    SettledHolds(s.eng, s.now, k, s.dbs, st) by { InvHasIndex(s.eng, s.dict, s.dbs); }
    var g := s.GetTyped(k);
    if g.None? { return NoKey; }
    if g.value.typ != typ { return Other; }
    HeaderFits(g.value.payload);
    return Enc(DecodeObjectHeader(g.value.payload).value, g.value.exp);
  }

  // ---------- the inline form ----------

  /** sortedKeys: the names of a collection once each, in byte order. */
  method SortedNames(names: set<bytes>) returns (ks: seq<bytes>)
    ensures Ascending(ks) && (forall n :: n in ks <==> n in names) && |ks| == |names|
  {
    ks := [];
    var todo := names;
    while todo != {}
      invariant todo <= names && |ks| == |names| - |todo|
      invariant Ascending(ks) && forall n :: n in ks <==> n in names - todo
      invariant forall n, n' | n in ks && n' in todo :: Less(n, n')
    {
      var m := Least(todo);
      forall n, n' | n in ks + [m] && n' in todo - {m} ensures Less(n, n') {}
      ks := ks + [m];
      todo := todo - {m};
    }
  }

  lemma AscendingDistinct(ks: seq<bytes>)
    requires Ascending(ks)
    ensures forall i, j | 0 <= i < j < |ks| :: ks[i] != ks[j]
  {
    forall i, j | 0 <= i < j < |ks| ensures ks[i] != ks[j] { LessIrreflexive(ks[i]); }
  }

  /** encodeInline, decoded again, is the collection. */
  method EncodeInline(c: Coll) returns (payload: bytes)
    requires WellFormed(c) && FitsInline(c)
    ensures Shape(payload, c, NO_ELEMS) && !IsSparse(payload)
  {
    hide ParseHash, ParseSet, ParseZSet, HashBody, SetBody, ZSetBody, DecodeObjectHeader, ElemsFor, Ascending;
    match c
    case Hash(h) =>
      var fields := SortedNames(h.Keys);
      AscendingDistinct(fields);
      payload := EncodeHashInline(fields, h);
      InlineHeader(|fields|, HashBody(fields, h));
      HashInlineRoundTrip(fields, h);
    case Members(m) =>
      var members := SortedNames(m);
      payload := EncodeSetInline(members);
      InlineHeader(|members|, SetBody(members));
      SetInlineRoundTrip(members);
      assert (set x | x in members) == m;
    case ZSet(z) =>
      var members := SortedNames(z.Keys);
      AscendingDistinct(members);
      payload := EncodeZSetInline(members, z);
      InlineHeader(|members|, ZSetBody(members, z));
      ZSetInlineRoundTrip(members, z);
  }

  /** fitsInline: the count, and for hashes the size of every value. */
  method CheckFitsInline(c: Coll) returns (r: bool)
    ensures r == FitsInline(c)
  {
    if Size(c) > INLINE_MAX_ENTRIES { return false; }
    if !c.Hash? { return true; }
    var todo := c.h.Keys;
    while todo != {}
      invariant todo <= c.h.Keys
      invariant forall f | f in c.h.Keys - todo :: |c.h[f]| <= INLINE_MAX_VALUE
    {
      var f :| f in todo;
      if |c.h[f]| > INLINE_MAX_VALUE { return false; }
      todo := todo - {f};
    }
    return true;
  }

  // ---------- element batches ----------

  /** writeElemsBatch for a hash or set: one Put per element over an empty segment. */
  method WritePairs(ghost e: Db, k: Key, seg: byte, m: map<bytes, bytes>, ops0: seq<Op>, ghost el0: Elems)
    returns (ops: seq<Op>)
    requires IsSeg(seg) && Staged(e, ops0, k, el0) && Part(el0, seg) == map[]
    ensures Staged(e, ops, k, With(el0, seg, m))
  {
    hide Staged, ElemKey, With, Part;
    ops := ops0;
    var todo := m.Keys;
    ghost var done: map<bytes, bytes> := map[];
    WithSame(el0, seg);
    while todo != {}
      invariant todo <= m.Keys && done == map x | x in m.Keys - todo :: m[x]
      invariant Staged(e, ops, k, With(el0, seg, done))
    {
      var f :| f in todo;
      StagedPut(e, ops, k, With(el0, seg, done), seg, f, m[f]);
      WithTwice(el0, seg, done, done[f := m[f]]);
      ops := ops + [Put(ElemKey(seg, k, f), m[f])];
      todo := todo - {f};
      done := done[f := m[f]];
    }
    assert done == m;
  }

  /** diffElemsBatch, first loop: delete the elements that went. */
  method DropGone(ghost e: Db, k: Key, seg: byte, orig: map<bytes, bytes>, keep: set<bytes>, ghost el: Elems)
    returns (ops: seq<Op>)
    requires IsSeg(seg) && ElemsOf(e, k) == el && Part(el, seg) == orig
    ensures Staged(e, ops, k, With(el, seg, map x | x in orig && x in keep :: orig[x]))
  {
    hide Staged, ElemKey, ElemsOf, With, Part;
    ops := [];
    StagedNone(e, k);
    ghost var cur := orig;
    WithSame(el, seg);
    var todo := orig.Keys;
    while todo != {}
      invariant todo <= orig.Keys && Staged(e, ops, k, With(el, seg, cur))
      invariant cur == map x | x in orig && (x in keep || x in todo) :: orig[x]
    {
      var f :| f in todo;
      todo := todo - {f};
      if f !in keep {
        StagedDel(e, ops, k, With(el, seg, cur), seg, f);
        WithTwice(el, seg, cur, cur - {f});
        ops := ops + [Del(ElemKey(seg, k, f))];
        cur := cur - {f};
      }
    }
    assert cur == map x | x in orig && x in keep :: orig[x];
  }

  /** diffElemsBatch for a hash or set: delete what went, put what is new or changed. */
  method DiffPairs(ghost e: Db, k: Key, seg: byte, orig: map<bytes, bytes>, m: map<bytes, bytes>, ghost el: Elems)
    returns (ops: seq<Op>)
    requires IsSeg(seg) && ElemsOf(e, k) == el && Part(el, seg) == orig
    ensures Staged(e, ops, k, With(el, seg, m))
  {
    hide Staged, ElemKey, ElemsOf, With, Part;
    ops := DropGone(e, k, seg, orig, m.Keys, el);
    ghost var cur := map x | x in orig && x in m.Keys :: orig[x];
    var todo := m.Keys;
    while todo != {}
      invariant todo <= m.Keys && Staged(e, ops, k, With(el, seg, cur))
      invariant forall x :: x in cur <==> x in m && (x in orig || x !in todo)
      invariant forall x :: x in cur ==> cur[x] == if x in todo then orig[x] else m[x]
    {
      var f :| f in todo;
      todo := todo - {f};
      if !(f in orig && orig[f] == m[f]) {
        StagedPut(e, ops, k, With(el, seg, cur), seg, f, m[f]);
        WithTwice(el, seg, cur, cur[f := m[f]]);
        ops := ops + [Put(ElemKey(seg, k, f), m[f])];
        cur := cur[f := m[f]];
      }
    }
    assert cur == m;
  }

  // ---------- sorted sets: two indexes ----------

  /** Staging one member's score: its element key and its score-index key. */
  lemma StagedScore(e: Db, ops: seq<Op>, k: Key, z: map<bytes, u64>, m: bytes, score: u64)
    requires Staged(e, ops, k, ElemsFor(ZSet(z)))
    ensures m !in z ==>
              Staged(e, ops + [Put(ElemKey(SEG_ZSET_M, k, m), ScoreBytes(score))] + [Put(ScoreKey(k, score, m), [])],
                     k, ElemsFor(ZSet(z[m := score])))
    ensures m in z ==>
              Staged(e, ops + [Del(ScoreKey(k, z[m], m))] + [Put(ElemKey(SEG_ZSET_M, k, m), ScoreBytes(score))]
                        + [Put(ScoreKey(k, score, m), [])],
                     k, ElemsFor(ZSet(z[m := score])))
  {
    hide Staged, ElemKey, ScoreKey, ScoreBytes, IndexMap;
    var el := ElemsFor(ZSet(z));
    var x, v := ScoreBytes(score) + m, ScoreBytes(score);
    ScoreKeyElem(k, score, m);
    IndexSet(z, m, score);
    assert ScoreMap(z)[m := v] == ScoreMap(z[m := score]);
    if m in z {
      ScoreKeyElem(k, z[m], m);
      StagedDel(e, ops, k, el, SEG_ZSET_S, ScoreBytes(z[m]) + m);
      var ops1 := ops + [Del(ScoreKey(k, z[m], m))];
      var el1 := el.(byScore := IndexMap(z) - {ScoreBytes(z[m]) + m});
      StagedPut(e, ops1, k, el1, SEG_ZSET_M, m, v);
      var el2 := el1.(scores := ScoreMap(z[m := score]));
      StagedPut(e, ops1 + [Put(ElemKey(SEG_ZSET_M, k, m), v)], k, el2, SEG_ZSET_S, x, []);
    } else {
      StagedPut(e, ops, k, el, SEG_ZSET_M, m, v);
      var el2 := el.(scores := ScoreMap(z[m := score]));
      StagedPut(e, ops + [Put(ElemKey(SEG_ZSET_M, k, m), v)], k, el2, SEG_ZSET_S, x, []);
    }
  }

  lemma ScoreKeyElem(k: Key, score: u64, m: bytes)
    ensures ScoreKey(k, score, m) == ElemKey(SEG_ZSET_S, k, ScoreBytes(score) + m)
  {}

  lemma StagedUnscore(e: Db, ops: seq<Op>, k: Key, z: map<bytes, u64>, m: bytes)
    requires Staged(e, ops, k, ElemsFor(ZSet(z))) && m in z
    ensures Staged(e, ops + [Del(ElemKey(SEG_ZSET_M, k, m))] + [Del(ScoreKey(k, z[m], m))],
                   k, ElemsFor(ZSet(z - {m})))
  {
    hide Staged, ElemKey, ScoreKey, ScoreBytes, IndexMap;
    var el := ElemsFor(ZSet(z));
    ScoreKeyElem(k, z[m], m);
    IndexRemove(z, m);
    assert ScoreMap(z) - {m} == ScoreMap(z - {m});
    StagedDel(e, ops, k, el, SEG_ZSET_M, m);
    StagedDel(e, ops + [Del(ElemKey(SEG_ZSET_M, k, m))], k, el.(scores := ScoreMap(z - {m})),
              SEG_ZSET_S, ScoreBytes(z[m]) + m);
  }

  method WriteScores(ghost e: Db, k: Key, z: map<bytes, u64>) returns (ops: seq<Op>)
    requires ElemsOf(e, k) == NO_ELEMS
    ensures Staged(e, ops, k, ElemsFor(ZSet(z)))
  {
    hide Staged, ElemKey, ScoreKey, ElemsOf, ElemsFor;
    ops := [];
    StagedNone(e, k);
    NoScores();
    ghost var done: map<bytes, u64> := map[];
    var todo := z.Keys;
    while todo != {}
      invariant todo <= z.Keys && done == map m | m in z.Keys - todo :: z[m]
      invariant Staged(e, ops, k, ElemsFor(ZSet(done)))
    {
      var m :| m in todo;
      StagedScore(e, ops, k, done, m, z[m]);
      ops := ops + [Put(ElemKey(SEG_ZSET_M, k, m), ScoreBytes(z[m]))] + [Put(ScoreKey(k, z[m], m), [])];
      todo := todo - {m};
      done := done[m := z[m]];
    }
    assert done == z;
  }

  lemma NoScores()
    ensures ElemsFor(ZSet(map[])) == NO_ELEMS
  {
    assert ScoreMap(map[]) == map[];
    assert IndexKeys(map[]) == {};
    assert IndexMap(map[]) == map[];
  }

  /** diffElemsBatch for a sorted set, first loop. */
  method DropScores(ghost e: Db, k: Key, orig: map<bytes, u64>, keep: set<bytes>) returns (ops: seq<Op>)
    requires ElemsOf(e, k) == ElemsFor(ZSet(orig))
    ensures Staged(e, ops, k, ElemsFor(ZSet(map m | m in orig && m in keep :: orig[m])))
  {
    hide Staged, ElemKey, ScoreKey, ElemsOf, ElemsFor;
    ops := [];
    StagedNone(e, k);
    ghost var cur := orig;
    var todo := orig.Keys;
    while todo != {}
      invariant todo <= orig.Keys && Staged(e, ops, k, ElemsFor(ZSet(cur)))
      invariant cur == map m | m in orig && (m in keep || m in todo) :: orig[m]
    {
      var m :| m in todo;
      todo := todo - {m};
      if m !in keep {
        StagedUnscore(e, ops, k, cur, m);
        ops := ops + [Del(ElemKey(SEG_ZSET_M, k, m))] + [Del(ScoreKey(k, orig[m], m))];
        cur := cur - {m};
      }
    }
    assert cur == map m | m in orig && m in keep :: orig[m];
  }

  /** diffElemsBatch for a sorted set: a moved score loses its old index key. */
  method DiffScores(ghost e: Db, k: Key, orig: map<bytes, u64>, z: map<bytes, u64>) returns (ops: seq<Op>)
    requires ElemsOf(e, k) == ElemsFor(ZSet(orig))
    requires (forall m | m in orig :: Plain(orig[m])) && forall m | m in z :: Plain(z[m])
    ensures Staged(e, ops, k, ElemsFor(ZSet(z)))
  {
    hide Staged, ElemKey, ScoreKey, ElemsOf, ElemsFor, ScoreBytes, IsNaN, EncodeScore;
    ops := DropScores(e, k, orig, z.Keys);
    ghost var cur := map m | m in orig && m in z.Keys :: orig[m];
    var todo := z.Keys;
    while todo != {}
      invariant todo <= z.Keys && Staged(e, ops, k, ElemsFor(ZSet(cur)))
      invariant forall m :: m in cur <==> m in z && (m in orig || m !in todo)
      invariant forall m :: m in cur ==> cur[m] == if m in todo then orig[m] else z[m]
    {
      var m :| m in todo;
      todo := todo - {m};
      if m in orig { PlainEq(orig[m], z[m]); }
      if !(m in orig && FloatEq(orig[m], z[m])) {
        StagedScore(e, ops, k, cur, m, z[m]);
        if m in orig { ops := ops + [Del(ScoreKey(k, orig[m], m))]; }
        ops := ops + [Put(ElemKey(SEG_ZSET_M, k, m), ScoreBytes(z[m]))] + [Put(ScoreKey(k, z[m], m), [])];
        cur := cur[m := z[m]];
      }
    }
    assert cur == z;
  }

  lemma PlainEq(u: u64, v: u64)
    requires Plain(u) && Plain(v)
    ensures FloatEq(u, v) <==> u == v
  {}

  lemma WithSame(el: Elems, seg: byte)
    requires IsSeg(seg)
    ensures With(el, seg, Part(el, seg)) == el
  {}

  lemma WithTwice(el: Elems, seg: byte, a: map<bytes, bytes>, b: map<bytes, bytes>)
    requires IsSeg(seg)
    ensures Part(With(el, seg, a), seg) == a && With(With(el, seg, a), seg, b) == With(el, seg, b)
  {}

  // ---------- save ----------

  /** writeElemsBatch: every element of a collection promoted from inline. */
  method WriteElems(ghost e: Db, k: Key, c: Coll) returns (ops: seq<Op>)
    requires ElemsOf(e, k) == NO_ELEMS
    ensures Staged(e, ops, k, ElemsFor(c))
  {
    hide Staged, ElemsOf, ScoreMap, IndexMap;
    match c
    case Hash(h) =>
      StagedNone(e, k);
      ops := WritePairs(e, k, SEG_HASH, h, [], NO_ELEMS);
    case Members(m) =>
      StagedNone(e, k);
      ops := WritePairs(e, k, SEG_SET, MemberMap(m), [], NO_ELEMS);
    case ZSet(z) =>
      ops := WriteScores(e, k, z);
  }

  /** diffElemsBatch: only what differs from the loaded snapshot. */
  method DiffElems(ghost e: Db, k: Key, orig: Coll, c: Coll) returns (ops: seq<Op>)
    requires ElemsOf(e, k) == ElemsFor(orig) && TypeOf(orig) == TypeOf(c) && WellFormed(orig) && WellFormed(c)
    ensures Staged(e, ops, k, ElemsFor(c))
  {
    hide Staged, ElemsOf, ScoreMap, IndexMap;
    match c
    case Hash(h) =>
      ops := DiffPairs(e, k, SEG_HASH, orig.h, h, ElemsFor(orig));
    case Members(m) =>
      ops := DiffPairs(e, k, SEG_SET, MemberMap(orig.s), MemberMap(m), ElemsFor(orig));
    case ZSet(z) =>
      ops := DiffScores(e, k, orig.z, z);
  }

  lemma StagedDropped(e: Db, k: Key, c: Coll)
    requires ElemsOf(e, k) == ElemsFor(c)
    ensures Staged(e, DropElemsBatch(k, TypeOf(c)), k, NO_ELEMS)
  {
    hide Apply, DropElemsBatch, ElemsOf, ElemsOnly, ScoreMap, IndexMap;
    DropElemsEffect(e, k, TypeOf(c));
    assert Cleared(ElemsFor(c), TypeOf(c)) == NO_ELEMS;
  }

  lemma CountField(n: nat)
    ensures FromBE(BE(n, 4)) == n % U32
  {
    Widths();
    var m := n % U32;
    assert n == Pow256(4) * (n / U32) + m;
    CutHigh(4, n / U32, m);
    DecodeEncode(m, 4);
  }

  /** Bits above the w-th byte do not reach a w-byte number. */
  lemma {:induction false} CutHigh(w: nat, q: nat, m: nat)
    ensures BE(Pow256(w) * q + m, w) == BE(m, w)
  {
    if w > 0 {
      var n, a := Pow256(w) * q + m, Pow256(w - 1) * q;
      assert Pow256(w) * q == 256 * a by { Times256(Pow256(w - 1), q); }
      ByteStep(a, m);
      CutHigh(w - 1, q, m / 256);
    }
  }

  lemma Times256(p: nat, q: nat)
    ensures 256 * p * q == 256 * (p * q)
  {}

  lemma ByteStep(a: nat, m: nat)
    ensures (256 * a + m) % 256 == m % 256 && (256 * a + m) / 256 == a + m / 256
  {}

  lemma SparseShape(count: nat, c: Coll)
    ensures Shape(EncodeSparseHeader(count, 0, 0), c, ElemsFor(c))
    ensures count % U32 == Size(c) % U32 ==> CountOk(EncodeSparseHeader(count, 0, 0), c)
  {
    hide DecodeObjectHeader, EncodeSparseHeader, ElemsFor;
    HeaderReads(count);
  }

  lemma HeaderReads(count: nat)
    ensures IsSparse(EncodeSparseHeader(count, 0, 0))
    ensures DecodeObjectHeader(EncodeSparseHeader(count, 0, 0)).value.count == count % U32
  {
    hide BE, FromBE;
    var h := EncodeSparseHeader(count, 0, 0);
    assert h[1..5] == BE(count, 4);
    CountField(count);
  }

  /** A committed record and its staged elements make the key hold the collection. */
  lemma HoldsAfter(e: Db, now: i64, k: Key, c: Coll, payload: bytes)
    requires RecAt(e, k) == Some(Record(TypeOf(c), 0, payload)) && Shape(payload, c, ElemsOf(e, k)) && WellFormed(c)
    ensures Holds(e, now, k, Agg(c))
    ensures CountOk(payload, c) ==> Tallied(e, now, k, Agg(c))
  {}

  /** saveAgg: the right form, one atomic batch, then the cache. The key now holds the
      view's collection whatever form it had and has. */
  method SaveAgg(s: Store, k: Key, a: View)
    requires s.Valid() && k.db < s.dbs && Matches(s.eng, k, a) && WellFormed(a.coll) && WellFormed(a.orig)
    modifies s`eng, s`dict, s`pend
    ensures s.Valid() && OnlyTouches(s.eng, old(s.eng), k)
    ensures Holds(s.eng, s.now, k, Agg(a.coll)) && Tallied(s.eng, s.now, k, Agg(a.coll))
  {
    hide OnlyTouches, Inv, PendOk, ElemsOf, Staged, Shape, Holds, DropElemsBatch, ElemsFor, RecAt, EncodeSparseHeader;
    var inline := CheckFitsInline(a.coll);
    var batch := [];
    var payload;
    StagedNone(s.eng, k);
    if inline {
      if a.sparse {
        StagedDropped(s.eng, k, a.orig);
        batch := DropElemsBatch(k, TypeOf(a.orig));
      }
      payload := EncodeInline(a.coll);
      CommitColl(s, k, TypeOf(a.coll), batch, NO_ELEMS, a.coll, payload);
    } else {
      if !a.sparse {
        batch := WriteElems(s.eng, k, a.coll);
      } else {
        batch := DiffElems(s.eng, k, a.orig, a.coll);
      }
      payload := EncodeSparseHeader(Size(a.coll), 0, 0);
      SparseShape(Size(a.coll), a.coll);
      CommitColl(s, k, TypeOf(a.coll), batch, ElemsFor(a.coll), a.coll, payload);
    }
  }

  /** The common end of every aggregate write: putValueBatch, Apply, Dict.Set. */
  method CommitElems(s: Store, k: Key, typ: byte, batch: seq<Op>, ghost el: Elems, payload: bytes)
    requires s.Valid() && k.db < s.dbs && Staged(s.eng, batch, k, el) && StoredExpiry(s.eng, k) == 0
    modifies s`eng, s`dict, s`pend
    ensures s.Valid() && OnlyTouches(s.eng, old(s.eng), k)
    ensures RecAt(s.eng, k) == Some(Record(typ, 0, payload)) && ElemsOf(s.eng, k) == el
  {
    hide OnlyTouches, Inv, PendOk, ElemsOf, Staged, Apply, PutBatch, RecAt;
    var r := Record(typ, 0, payload);
    Commit(s.eng, s.dict, batch, k, el, r, s.inlineMax, s.dbs);
    Supersede(Apply(s.eng, batch + PutBatch(k, r, 0)), s.eng, s.pend, k);
    s.eng := Apply(s.eng, batch + PutBatch(k, r, 0));
    s.pend := s.pend - {k};
    s.dict := s.dict[k := NewEntry(r, s.inlineMax)];
  }

  method CommitColl(s: Store, k: Key, typ: byte, batch: seq<Op>, ghost el: Elems, ghost c: Coll, payload: bytes)
    requires s.Valid() && k.db < s.dbs && Staged(s.eng, batch, k, el) && StoredExpiry(s.eng, k) == 0
    requires typ == TypeOf(c) && Shape(payload, c, el) && WellFormed(c)
    modifies s`eng, s`dict, s`pend
    ensures s.Valid() && OnlyTouches(s.eng, old(s.eng), k) && Holds(s.eng, s.now, k, Agg(c))
    ensures CountOk(payload, c) ==> Tallied(s.eng, s.now, k, Agg(c))
    ensures RecAt(s.eng, k) == Some(Record(typ, 0, payload))
  {
    hide OnlyTouches, Inv, PendOk, ElemsOf, Staged, Shape, WellFormed, RecAt, CountOk;
    CommitElems(s, k, typ, batch, el, payload);
    HoldsAfter(s.eng, s.now, k, c, payload);
  }

  /** The header a committed record shows. */
  lemma HeaderAfter(e: Db, now: i64, k: Key, typ: byte, count: nat)
    requires RecAt(e, k) == Some(Record(typ, 0, EncodeSparseHeader(count, 0, 0)))
    ensures HeaderCount(e, now, k) == Some(count % U32)
    ensures Live(e, now, k) == RecAt(e, k)
  {
    hide RecAt, EncodeSparseHeader, DecodeObjectHeader;
    HeaderReads(count);
  }
}
