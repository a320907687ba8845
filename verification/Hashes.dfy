/**
 Hash and set commands over both stored forms, against plain maps and sets. A sparse
 collection is updated in place and committed together with its header in one batch; any
 other collection is loaded, changed and saved. An emptied collection is deleted.
 */
module Hashes {
  import opened Bytes
  import opened Layout
  import opened Codec
  import opened Engine
  import opened Records
  import opened DataPath
  import opened Collections
  import opened Aggregates

  datatype Answer =
    | Count(n: nat) | Wrong | Score(s: u64) | NotANumber
    | Items(xs: seq<bytes>) | NoSuchKey | OutOfRange | Done | Contents(c: Coll)

  datatype FieldValue = FieldValue(f: bytes, v: bytes)

  // ---------- plain semantics ----------

  /** HSET pair by pair; with nx an existing field keeps its value. */
  function PutPairs(h: map<bytes, bytes>, pairs: seq<FieldValue>, nx: bool): (r: map<bytes, bytes>)
    ensures h.Keys <= r.Keys && |r| >= |h|
  {
    if pairs == [] then h else
    var h1, p := PutPairs(h, pairs[..|pairs| - 1], nx), pairs[|pairs| - 1];
    if nx && p.f in h1 then h1 else h1[p.f := p.v]
  }

  function SetOf(ms: seq<bytes>): set<bytes> { set m | m in ms }

  predicate AllDistinct(ms: seq<bytes>) { forall i, j | 0 <= i < j < |ms| :: ms[i] != ms[j] }

  /** The hash a hash command finds; none when the key holds something else. */
  function HashIn(st: State): Option<map<bytes, bytes>>
  {
    match st
    case Absent => Some(map[])
    case Agg(Hash(h)) => Some(h)
    case _ => None
  }

  function SetIn(st: State): Option<set<bytes>>
  {
    match st
    case Absent => Some({})
    case Agg(Members(m)) => Some(m)
    case _ => None
  }

  function SizeDrop(big: nat, small: nat): nat { if big >= small then big - small else 0 }

  /** What HSET, HDEL, SADD and SREM leave and answer. */
  function HSetOutcome(st: State, pairs: seq<FieldValue>, nx: bool): (State, Answer)
  {
    match HashIn(st)
    case None => (st, Wrong)
    case Some(h) => (Agg(Hash(PutPairs(h, pairs, nx))), Count(|PutPairs(h, pairs, nx)| - |h|))
  }

  function HDelOutcome(st: State, names: seq<bytes>): (State, Answer)
  {
    match HashIn(st)
    case None => (st, Wrong)
    case Some(h) =>
      var rest := h - SetOf(names);
      (if rest == map[] then Absent else Agg(Hash(rest)), Count(SizeDrop(|h|, |rest|)))
  }

  function SAddOutcome(st: State, names: seq<bytes>): (State, Answer)
  {
    match SetIn(st)
    case None => (st, Wrong)
    case Some(m) =>
      var n := SizeDrop(|m + SetOf(names)|, |m|);
      (if n == 0 then st else Agg(Members(m + SetOf(names))), Count(n))
  }

  function SRemOutcome(st: State, names: seq<bytes>): (State, Answer)
  {
    match SetIn(st)
    case None => (st, Wrong)
    case Some(m) =>
      var rest := m - SetOf(names);
      var n := SizeDrop(|m|, |rest|);
      (if n == 0 then st else if rest == {} then Absent else Agg(Members(rest)), Count(n))
  }

  lemma {:induction false} PutPairsWellFormed(h: map<bytes, bytes>, pairs: seq<FieldValue>, nx: bool)
    requires WellFormed(Hash(h)) && forall p | p in pairs :: |p.f| < U16
    ensures WellFormed(Hash(PutPairs(h, pairs, nx)))
  {
    if pairs != [] { PutPairsWellFormed(h, pairs[..|pairs| - 1], nx); }
  }

  lemma {:induction false} SparsePutWellFormed(h: map<bytes, bytes>, pairs: seq<FieldValue>, nx: bool)
    requires WellFormed(Hash(h)) && forall p | p in pairs :: |p.f| < U16
    ensures WellFormed(Hash(SparsePut(h, pairs, nx)))
  {
    if pairs != [] { SparsePutWellFormed(h, pairs[..|pairs| - 1], nx); }
  }

  // ---------- what the in-place path does with repeated fields ----------

  /** hashSetSparse asks the engine, not its own batch, whether a field exists. */
  function SparsePut(h: map<bytes, bytes>, pairs: seq<FieldValue>, nx: bool): (r: map<bytes, bytes>)
    ensures h.Keys <= r.Keys && |r| >= |h|
  {
    if pairs == [] then h else
    var h1, p := SparsePut(h, pairs[..|pairs| - 1], nx), pairs[|pairs| - 1];
    if nx && p.f in h then h1 else h1[p.f := p.v]
  }

  function Fields(pairs: seq<FieldValue>): (r: seq<bytes>)
    ensures |r| == |pairs|
  {
    seq(|pairs|, i requires 0 <= i < |pairs| => pairs[i].f)
  }

  /** The number an in-place write adds to the header count: given names the engine misses. */
  function Misses(names: set<bytes>, given: seq<bytes>): nat
  {
    if given == [] then 0
    else Misses(names, given[..|given| - 1]) + if given[|given| - 1] in names then 0 else 1
  }

  predicate NewOnce(names: set<bytes>, given: seq<bytes>)
  {
    forall i, j | 0 <= i < j < |given| && given[i] == given[j] :: given[i] in names
  }

  /** That count is the growth exactly when no new name is given twice. */
  lemma {:induction false} CountExactly(names: set<bytes>, given: seq<bytes>)
    ensures |names| <= |names + SetOf(given)| <= |names| + Misses(names, given)
    ensures |names + SetOf(given)| == |names| + Misses(names, given) <==> NewOnce(names, given)
    ensures Misses(names, given) == 0 <==> names + SetOf(given) == names
  {
    hide NewOnce;
    if given == [] {
      NoneGiven(names);
    } else {
      var last := |given| - 1;
      var front, x := given[..last], given[last];
      CountExactly(names, front);
      OnceSnoc(names, front, x);
      assert given == front + [x];
      GrowsBy(names, front, x);
    }
  }

  lemma NoneGiven(names: set<bytes>)
    ensures NewOnce(names, []) && names + SetOf([]) == names
  {}

  lemma OnceSnoc(names: set<bytes>, front: seq<bytes>, x: bytes)
    ensures NewOnce(names, front + [x]) <==> NewOnce(names, front) && (x in names || x !in front)
  {
    var given := front + [x];
    assert forall i | 0 <= i < |front| :: front[i] == given[i];
    assert given[|front|] == x;
  }

  lemma GrowsBy(names: set<bytes>, front: seq<bytes>, x: bytes)
    ensures |names + SetOf(front + [x])| ==
            |names + SetOf(front)| + if x in names || x in front then 0 else 1
    ensures names + SetOf(front + [x]) == names <==> names + SetOf(front) == names && x in names
  {
    hide SetOf;
    SetOfPlus(front, x);
    GivenIs(front, x);
    var s := names + SetOf(front);
    var t := s + {x};
    assert names + SetOf(front + [x]) == t;
    if x in s { assert t == s; } else { assert |t| == |s| + 1; }
    assert names <= s <= t && x in t;
  }

  lemma GivenIs(xs: seq<bytes>, x: bytes)
    ensures x in SetOf(xs) <==> x in xs
  {}

  lemma DistinctOnce(names: set<bytes>, given: seq<bytes>)
    requires AllDistinct(given)
    ensures NewOnce(names, given)
  {}

  lemma FieldsSnoc(pairs: seq<FieldValue>)
    requires pairs != []
    ensures Fields(pairs) == Fields(pairs[..|pairs| - 1]) + [pairs[|pairs| - 1].f]
    ensures Fields(pairs)[..|pairs| - 1] == Fields(pairs[..|pairs| - 1])
  {}

  lemma {:induction false} SparseKeys(h: map<bytes, bytes>, pairs: seq<FieldValue>, nx: bool)
    ensures SparsePut(h, pairs, nx).Keys == h.Keys + SetOf(Fields(pairs))
  {
    hide Fields, SetOf;
    if pairs == [] {
      assert Fields(pairs) == [];
      NoneGiven(h.Keys);
    } else {
      var front, p := pairs[..|pairs| - 1], pairs[|pairs| - 1];
      SparseKeys(h, front, nx);
      FieldKeys(h, SparsePut(h, front, nx), pairs, nx && p.f in h);
    }
  }

  lemma {:induction false} PutKeys(h: map<bytes, bytes>, pairs: seq<FieldValue>, nx: bool)
    ensures PutPairs(h, pairs, nx).Keys == h.Keys + SetOf(Fields(pairs))
  {
    hide Fields, SetOf;
    if pairs == [] {
      assert Fields(pairs) == [];
      NoneGiven(h.Keys);
    } else {
      var front, p := pairs[..|pairs| - 1], pairs[|pairs| - 1];
      PutKeys(h, front, nx);
      FieldKeys(h, PutPairs(h, front, nx), pairs, nx && p.f in PutPairs(h, front, nx));
    }
  }

  lemma FieldKeys(h: map<bytes, bytes>, h1: map<bytes, bytes>, pairs: seq<FieldValue>, skip: bool)
    requires pairs != [] && h1.Keys == h.Keys + SetOf(Fields(pairs[..|pairs| - 1]))
    requires skip ==> pairs[|pairs| - 1].f in h1
    ensures (if skip then h1 else h1[pairs[|pairs| - 1].f := pairs[|pairs| - 1].v]).Keys == h.Keys + SetOf(Fields(pairs))
  {
    hide Fields, SetOf;
    FieldsSnoc(pairs);
    SetOfPlus(Fields(pairs[..|pairs| - 1]), pairs[|pairs| - 1].f);
  }

  lemma SetOfPlus(xs: seq<bytes>, x: bytes)
    ensures SetOf(xs + [x]) == SetOf(xs) + {x}
  {}

  /** While no new field is given twice the in-place path is HSET pair by pair. */
  lemma {:induction false} SparseIsPut(h: map<bytes, bytes>, pairs: seq<FieldValue>, nx: bool)
    requires nx ==> NewOnce(h.Keys, Fields(pairs))
    ensures SparsePut(h, pairs, nx) == PutPairs(h, pairs, nx)
  {
    hide NewOnce;
    if pairs != [] {
      var front, f := pairs[..|pairs| - 1], pairs[|pairs| - 1].f;
      FieldsSnoc(pairs);
      OnceSnoc(h.Keys, Fields(front), f);
      SparseIsPut(h, front, nx);
      PutKeys(h, front, nx);
      assert f in PutPairs(h, front, nx) <==> f in h || f in Fields(front);
    }
  }

  /** What HSET leaves and answers, by the form the hash is stored in. */
  function HSetStored(st: State, pairs: seq<FieldValue>, nx: bool, sparse: bool): (State, Answer)
  {
    match HashIn(st)
    case None => (st, Wrong)
    case Some(h) =>
      if sparse then (Agg(Hash(SparsePut(h, pairs, nx))), Count(Misses(h.Keys, Fields(pairs))))
      else HSetOutcome(st, pairs, nx)
  }

  lemma GrowthExactly(h: map<bytes, bytes>, pairs: seq<FieldValue>, nx: bool)
    ensures |PutPairs(h, pairs, nx)| - |h| == Misses(h.Keys, Fields(pairs)) <==> NewOnce(h.Keys, Fields(pairs))
  {
    hide NewOnce, PutPairs, Fields, Misses, SetOf;
    PutKeys(h, pairs, nx);
    CountExactly(h.Keys, Fields(pairs));
    assert |PutPairs(h, pairs, nx)| == |PutPairs(h, pairs, nx).Keys| && |h| == |h.Keys|;
  }

  predicate HSetPlain(st: State, pairs: seq<FieldValue>, sparse: bool)
  {
    sparse && HashIn(st).Some? ==> NewOnce(HashIn(st).value.Keys, Fields(pairs))
  }

  /** The form shows exactly when a sparse hash is given a new field twice. */
  lemma HSetExactly(st: State, pairs: seq<FieldValue>, nx: bool, sparse: bool)
    ensures HSetStored(st, pairs, nx, sparse) == HSetOutcome(st, pairs, nx) <==> HSetPlain(st, pairs, sparse)
  {
    hide NewOnce, SparsePut, PutPairs, Fields, Misses;
    if sparse && HashIn(st).Some? {
      var h := HashIn(st).value;
      GrowthExactly(h, pairs, nx);
      if NewOnce(h.Keys, Fields(pairs)) { SparseIsPut(h, pairs, nx); }
    }
  }

  // ---------- what HSET leaves ----------

  /** HSET: the last value given to a field. */
  lemma {:induction false} HSetLast(h: map<bytes, bytes>, pairs: seq<FieldValue>, i: nat)
    requires i < |pairs| && forall j | i < j < |pairs| :: pairs[j].f != pairs[i].f
    ensures pairs[i].f in PutPairs(h, pairs, false) && PutPairs(h, pairs, false)[pairs[i].f] == pairs[i].v
  {
    var last := |pairs| - 1;
    if i < last {
      var front := pairs[..last];
      assert front[i] == pairs[i] && forall j | i < j < |front| :: front[j] == pairs[j];
      HSetLast(h, front, i);
    }
  }

  /** HSETNX: a field that is there keeps its value, a new one gets the first given. */
  lemma {:induction false} HSetNX(h: map<bytes, bytes>, pairs: seq<FieldValue>, i: nat)
    requires i < |pairs| && forall j | 0 <= j < i :: pairs[j].f != pairs[i].f
    ensures var f, h' := pairs[i].f, PutPairs(h, pairs, true);
            f in h' && h'[f] == if f in h then h[f] else pairs[i].v
  {
    var last := |pairs| - 1;
    var front, f := pairs[..last], pairs[i].f;
    if i < last {
      assert front[i] == pairs[i] && forall j | 0 <= j < i :: front[j] == pairs[j];
      HSetNX(h, front, i);
    } else {
      assert forall j | 0 <= j < |front| :: front[j] == pairs[j];
      HSetOther(h, front, true, f);
    }
  }

  /** A field that is not given stays as it was. */
  lemma {:induction false} HSetOther(h: map<bytes, bytes>, pairs: seq<FieldValue>, nx: bool, f: bytes)
    requires forall j | 0 <= j < |pairs| :: pairs[j].f != f
    ensures (f in PutPairs(h, pairs, nx) <==> f in h) && (f in h ==> PutPairs(h, pairs, nx)[f] == h[f])
  {
    if pairs != [] {
      var front := pairs[..|pairs| - 1];
      assert forall j | 0 <= j < |front| :: front[j] == pairs[j];
      HSetOther(h, front, nx, f);
    }
  }

  // ---------- HSET ----------

  lemma FieldPresent(e: Db, k: Key, h: map<bytes, bytes>, f: bytes)
    requires ElemsOf(e, k) == ElemsFor(Hash(h))
    ensures ElemKey(SEG_HASH, k, f) in e <==> f in h
  {
    hide Sub, ElemPrefix, ElemKey;
    AtSub(e, SEG_HASH, k, f);
  }

  lemma MemberPresent(e: Db, k: Key, m: set<bytes>, f: bytes)
    requires ElemsOf(e, k) == ElemsFor(Members(m))
    ensures ElemKey(SEG_SET, k, f) in e <==> f in m
  {
    hide Sub, ElemPrefix, ElemKey;
    AtSub(e, SEG_SET, k, f);
  }

  lemma AtSub(e: Db, seg: byte, k: Key, f: bytes)
    ensures ElemKey(seg, k, f) in e <==> f in Sub(e, ElemPrefix(seg, k))
    ensures f in Sub(e, ElemPrefix(seg, k)) ==> e[ElemKey(seg, k, f)] == Sub(e, ElemPrefix(seg, k))[f]
  {
    hide ElemPrefix;
  }

  lemma CountsAdd(count: nat, size: nat, added: nat)
    requires count == size % U32
    ensures (count + added) % U32 == (size + added) % U32
  {}

  lemma NoPairs(h: map<bytes, bytes>, pairs: seq<FieldValue>, nx: bool)
    ensures SparsePut(h, pairs[..0], nx) == h && Misses(h.Keys, Fields(pairs[..0])) == 0
  {}

  lemma OnePair(h: map<bytes, bytes>, pairs: seq<FieldValue>, nx: bool, i: nat)
    requires i < |pairs|
    ensures var h1 := SparsePut(h, pairs[..i], nx);
            SparsePut(h, pairs[..i + 1], nx) == if nx && pairs[i].f in h then h1 else h1[pairs[i].f := pairs[i].v]
    ensures Misses(h.Keys, Fields(pairs[..i + 1])) ==
            Misses(h.Keys, Fields(pairs[..i])) + if pairs[i].f in h then 0 else 1
  {
    hide Fields;
    assert pairs[..i + 1][..i] == pairs[..i];
    FieldsSnoc(pairs[..i + 1]);
  }

  /** The loop of hashSetSparse: one Get per field, one Put per accepted field. */
  method StageFields(e: Db, k: Key, pairs: seq<FieldValue>, nx: bool, ghost h: map<bytes, bytes>)
    returns (batch: seq<Op>, added: nat)
    requires ElemsOf(e, k) == ElemsFor(Hash(h))
    ensures Staged(e, batch, k, ElemsFor(Hash(SparsePut(h, pairs, nx))))
    ensures added == Misses(h.Keys, Fields(pairs))
    ensures batch == [] ==> SparsePut(h, pairs, nx) == h && added == 0
  {
    hide ElemsOf, Staged, ElemKey, ElemsFor, Fields, SparsePut, Misses;
    batch, added := [], 0;
    StagedNone(e, k);
    NoPairs(h, pairs, nx);
    for i := 0 to |pairs|
      invariant Staged(e, batch, k, ElemsFor(Hash(SparsePut(h, pairs[..i], nx))))
      invariant added == Misses(h.Keys, Fields(pairs[..i]))
      invariant batch == [] ==> SparsePut(h, pairs[..i], nx) == h && added == 0
    {
      var ek := ElemKey(SEG_HASH, k, pairs[i].f);
      FieldPresent(e, k, h, pairs[i].f);
      OnePair(h, pairs, nx, i);
      if ek in e {
        if nx { continue; }
      } else {
        added := added + 1;
      }
      HashElem(e, batch, k, SparsePut(h, pairs[..i], nx), pairs[i]);
      batch := batch + [Put(ek, pairs[i].v)];
    }
    assert pairs[..|pairs|] == pairs;
  }

  /** hashSetSparse: the staged fields and the header counted up, in one batch. */
  method HashSetSparse(s: Store, k: Key, pairs: seq<FieldValue>, nx: bool, curCount: nat, ghost h: map<bytes, bytes>)
    returns (added: nat)
    requires s.Valid() && k.db < s.dbs && StoredExpiry(s.eng, k) == 0
    requires Holds(s.eng, s.now, k, Agg(Hash(h))) && ElemsOf(s.eng, k) == ElemsFor(Hash(h))
    requires HeaderCount(s.eng, s.now, k) == Some(curCount) && curCount < U32
    requires forall p | p in pairs :: |p.f| < U16
    modifies s`eng, s`dict, s`pend
    ensures s.Valid() && OnlyTouches(s.eng, old(s.eng), k)
    ensures Holds(s.eng, s.now, k, Agg(Hash(SparsePut(h, pairs, nx))))
    ensures added == Misses(h.Keys, Fields(pairs))
    ensures HeaderCount(s.eng, s.now, k) == Some((curCount + added) % U32)
  {
    hide OnlyTouches, Inv, PendOk, ElemsOf, Staged, Shape, Holds, EncodeSparseHeader, StoredExpiry, WellFormed, Live,
         SparsePut, Misses, ElemsFor, CountOk, Tallied, RecAt, HeaderCount, Fields;
    var batch;
    batch, added := StageFields(s.eng, k, pairs, nx, h);
    HoldsWellFormed(s.eng, s.now, k, Hash(h));
    SparsePutWellFormed(h, pairs, nx);
    if batch == [] {
      Untouched(s.eng, k);
      return 0;
    }
    ghost var c := Hash(SparsePut(h, pairs, nx));
    SparseShape(curCount + added, c);
    CommitColl(s, k, TYPE_HASH, batch, ElemsFor(c), c, EncodeSparseHeader(curCount + added, 0, 0));
    HeaderAfter(s.eng, s.now, k, TYPE_HASH, curCount + added);
  }

  lemma HashElem(e: Db, batch: seq<Op>, k: Key, h: map<bytes, bytes>, p: FieldValue)
    requires Staged(e, batch, k, ElemsFor(Hash(h)))
    ensures Staged(e, batch + [Put(ElemKey(SEG_HASH, k, p.f), p.v)], k, ElemsFor(Hash(h[p.f := p.v])))
  {
    hide Staged, ElemKey;
    StagedPut(e, batch, k, ElemsFor(Hash(h)), SEG_HASH, p.f, p.v);
  }

  lemma HoldsWellFormed(e: Db, now: i64, k: Key, c: Coll)
    requires Holds(e, now, k, Agg(c))
    ensures WellFormed(c)
  {}

  lemma Untouched(e: Db, k: Key)
    ensures OnlyTouches(e, e, k)
  {}

  /** The loop of hashSet over a loaded hash. */
  method PutEach(h0: map<bytes, bytes>, pairs: seq<FieldValue>, nx: bool) returns (h: map<bytes, bytes>, added: nat)
    ensures h == PutPairs(h0, pairs, nx) && |h| == |h0| + added
  {
    h, added := h0, 0;
    for i := 0 to |pairs|
      invariant h == PutPairs(h0, pairs[..i], nx) && |h| == |h0| + added
    {
      assert pairs[..i + 1][..i] == pairs[..i];
      if pairs[i].f in h {
        if nx { continue; }
      } else {
        added := added + 1;
      }
      h := h[pairs[i].f := pairs[i].v];
    }
    assert pairs[..|pairs|] == pairs;
  }

  lemma HSetIs(st: State, pairs: seq<FieldValue>, nx: bool, sparse: bool)
    ensures HashIn(st).None? ==> HSetStored(st, pairs, nx, sparse) == (st, Wrong)
    ensures HashIn(st).Some? && !sparse ==>
              var h := HashIn(st).value;
              HSetStored(st, pairs, nx, sparse) ==
              (Agg(Hash(PutPairs(h, pairs, nx))), Count(|PutPairs(h, pairs, nx)| - |h|))
    ensures HashIn(st).Some? && sparse ==>
              var h := HashIn(st).value;
              HSetStored(st, pairs, nx, sparse) ==
              (Agg(Hash(SparsePut(h, pairs, nx))), Count(Misses(h.Keys, Fields(pairs))))
  {}

  /** The new header count is the new size when the old one was and no new field came twice. */
  lemma HashTally(e: Db, now: i64, k: Key, h: map<bytes, bytes>, pairs: seq<FieldValue>, nx: bool, count: nat)
    requires Holds(e, now, k, Agg(Hash(SparsePut(h, pairs, nx))))
    requires HeaderCount(e, now, k) == Some((count + Misses(h.Keys, Fields(pairs))) % U32)
    ensures count == |h| % U32 && NewOnce(h.Keys, Fields(pairs)) ==> Tallied(e, now, k, Agg(Hash(SparsePut(h, pairs, nx))))
  {
    hide NewOnce, SparsePut, Fields, Misses, Live, HeaderCount, Tallied, Holds;
    if count == |h| % U32 && NewOnce(h.Keys, Fields(pairs)) {
      SparseSize(h, pairs, nx);
      CountsAdd(count, |h|, Misses(h.Keys, Fields(pairs)));
      HeldLive(e, now, k, Hash(SparsePut(h, pairs, nx)));
      HeaderTallies(e, now, k, Hash(SparsePut(h, pairs, nx)));
    }
  }

  lemma SparseSize(h: map<bytes, bytes>, pairs: seq<FieldValue>, nx: bool)
    requires NewOnce(h.Keys, Fields(pairs))
    ensures |SparsePut(h, pairs, nx)| == |h| + Misses(h.Keys, Fields(pairs))
  {
    hide NewOnce, SparsePut, PutPairs, Fields, Misses, SetOf;
    SparseKeys(h, pairs, nx);
    CountExactly(h.Keys, Fields(pairs));
    assert |SparsePut(h, pairs, nx)| == |SparsePut(h, pairs, nx).Keys| && |h| == |h.Keys|;
  }

  lemma HeldLive(e: Db, now: i64, k: Key, c: Coll)
    requires Holds(e, now, k, Agg(c))
    ensures Live(e, now, k).Some?
  {}

  lemma CountedSame(e1: Db, e0: Db, now: i64, k: Key)
    requires Live(e1, now, k) == Live(e0, now, k)
    ensures HeaderCount(e1, now, k) == HeaderCount(e0, now, k)
  {}

  lemma NoHeader(e: Db, now: i64, k: Key, st: State)
    requires Holds(e, now, k, st) && st.Absent?
    ensures HeaderCount(e, now, k) == None
  {}

  /** hashSet: a sparse hash is updated in place, any other is loaded and saved. In place the
      reply, and what the header count goes up by, is the number of given fields the engine
      misses. */
  method HashSet(s: Store, k: Key, pairs: seq<FieldValue>, nx: bool, ghost st: State) returns (r: Answer)
    requires s.Valid() && k.db < s.dbs && Holds(s.eng, s.now, k, st)
    requires forall p | p in pairs :: |p.f| < U16
    modifies s`eng, s`dict, s`pend
    ensures s.Valid() && OnlyTouches(s.eng, old(s.eng), k)
    ensures var want := HSetStored(st, pairs, nx, old(HeaderCount(s.eng, s.now, k)).Some?);
            r == want.1 && Holds(s.eng, s.now, k, want.0)
    ensures HashIn(st).Some? && old(HeaderCount(s.eng, s.now, k)).Some? ==>
              HeaderCount(s.eng, s.now, k) ==
              Some((old(HeaderCount(s.eng, s.now, k)).value + Misses(HashIn(st).value.Keys, Fields(pairs))) % U32)
    ensures old(Tallied(s.eng, s.now, k, st)) && HSetPlain(st, pairs, old(HeaderCount(s.eng, s.now, k)).Some?) ==>
              Tallied(s.eng, s.now, k, HSetStored(st, pairs, nx, old(HeaderCount(s.eng, s.now, k)).Some?).0)
  {
    hide OnlyTouches, Inv, PendOk, ElemsOf, Holds, ElemsFor, StoredExpiry, WellFormed, PutPairs, SparsePut, Tallied, Live,
         HeaderCount, Misses, Fields, HSetStored, NewOnce;
    HSetIs(st, pairs, nx, HeaderCount(s.eng, s.now, k).Some?);
    var enc := AggEncoding(s, k, TYPE_HASH, st);
    ghost var e0 := s.eng;
    CountedSame(e0, old(s.eng), s.now, k);
    TalliedSame(e0, old(s.eng), s.now, k, st);
    if enc.Other? { return Wrong; }
    if enc.Enc? && enc.obj.Sparse? {
      var n := HashSetSparse(s, k, pairs, nx, enc.obj.count, st.c.h);
      TouchesTransitive(s.eng, e0, old(s.eng), k);
      HashTally(s.eng, s.now, k, st.c.h, pairs, nx, enc.obj.count);
      return Count(n);
    }
    if enc.NoKey? { NoHeader(e0, s.now, k, st); }
    var l := LoadAgg(s, k, TYPE_HASH, st);
    TouchesTransitive(s.eng, e0, old(s.eng), k);
    ghost var e1 := s.eng;
    var a := l.a;
    var h, added := PutEach(a.coll.h, pairs, nx);
    LoadedWellFormed(s.eng, s.now, k, st, a);
    PutPairsWellFormed(a.coll.h, pairs, nx);
    SaveAgg(s, k, a.(coll := Hash(h)));
    TouchesTransitive(s.eng, e1, old(s.eng), k);
    return Count(added);
  }

  lemma LoadedWellFormed(e: Db, now: i64, k: Key, st: State, a: View)
    requires Holds(e, now, k, st)
    requires st.Absent? ==> Size(a.coll) == 0 && a.coll == a.orig
    requires !st.Absent? ==> st.Agg? && a.coll == a.orig == st.c
    ensures WellFormed(a.coll) && WellFormed(a.orig)
  {
    if st.Absent? {
      match a.coll
      case Hash(h) => assert |h.Keys| == 0;
      case Members(m) => assert |m| == 0;
      case ZSet(z) => assert |z.Keys| == 0;
    }
  }

  // ---------- HDEL, DEL ----------

  /** Deleting a key leaves neither record nor elements. */
  method DeleteAny(s: Store, k: Key, ghost st: State) returns (found: bool)
    requires s.Valid() && Holds(s.eng, s.now, k, st)
    modifies s`eng, s`dict, s`pend
    ensures s.Valid() && OnlyTouches(s.eng, old(s.eng), k)
    ensures found == !st.Absent? && Holds(s.eng, s.now, k, Absent)
  {
    hide OnlyTouches, Inv, PendOk, ElemsOf;
    found := s.DeleteKey(k);
    ClearedAll(old(s.eng), s.now, k, st);
    GoneIsDead(s.eng, s.now, k);
  }

  lemma GoneIsDead(e: Db, now: i64, k: Key)
    requires RecAt(e, k) == None
    ensures Live(e, now, k) == None
  {}

  lemma ClearedAll(e: Db, now: i64, k: Key, st: State)
    requires Holds(e, now, k, st)
    ensures Live(e, now, k).Some? <==> !st.Absent?
    ensures !st.Absent? ==> Cleared(ElemsOf(e, k), Live(e, now, k).value.typ) == NO_ELEMS
    ensures st.Absent? ==> ElemsOf(e, k) == NO_ELEMS
  {
    hide ElemsOf, Live, ParseColl, DecodeObjectHeader, ScoreMap, IndexMap, WellFormed;
  }

  lemma NoneOf(ms: seq<bytes>)
    ensures SetOf(ms[..0]) == {}
  {}

  lemma SetOfSnoc(ms: seq<bytes>, i: nat)
    requires i < |ms|
    ensures SetOf(ms[..i + 1]) == SetOf(ms[..i]) + {ms[i]}
    ensures AllDistinct(ms) ==> ms[i] !in SetOf(ms[..i])
  {
    assert ms[..i + 1] == ms[..i] + [ms[i]];
  }

  lemma DropOne<V>(h: map<bytes, V>, gone: set<bytes>, f: bytes)
    ensures h - (gone + {f}) == h - gone - {f}
    ensures f in h - gone ==> |h - gone| == |h - gone - {f}| + 1
    ensures f !in h - gone ==> h - gone - {f} == h - gone
  {
    var a := h - gone;
    var b := a - {f};
    if f in a { assert a.Keys == b.Keys + {f}; }
  }

  method RemoveEach<V>(h0: map<bytes, V>, fields: seq<bytes>) returns (h: map<bytes, V>, n: nat)
    ensures h == h0 - SetOf(fields) && |h0| == |h| + n
  {
    hide SetOf;
    h, n := h0, 0;
    NoneOf(fields);
    assert h0 - {} == h0;
    for i := 0 to |fields|
      invariant h == h0 - SetOf(fields[..i]) && |h0| == |h| + n
    {
      SetOfSnoc(fields, i);
      DropOne(h0, SetOf(fields[..i]), fields[i]);
      if fields[i] in h {
        h := h - {fields[i]};
        n := n + 1;
      }
    }
    assert fields[..|fields|] == fields;
  }

  /** hashDel: remove, then delete an emptied key or save what is left. */
  method HashDel(s: Store, k: Key, fields: seq<bytes>, ghost st: State) returns (r: Answer)
    requires s.Valid() && k.db < s.dbs && Holds(s.eng, s.now, k, st)
    modifies s`eng, s`dict, s`pend
    ensures s.Valid() && OnlyTouches(s.eng, old(s.eng), k)
    ensures r == HDelOutcome(st, fields).1 && Holds(s.eng, s.now, k, HDelOutcome(st, fields).0)
    ensures old(Tallied(s.eng, s.now, k, st)) ==> Tallied(s.eng, s.now, k, HDelOutcome(st, fields).0)
  {
    hide OnlyTouches, Inv, PendOk, ElemsOf, Holds, ElemsFor, StoredExpiry, WellFormed, SetOf, CountOk;
    var l := LoadAgg(s, k, TYPE_HASH, st);
    ghost var e0 := s.eng;
    if l.WrongType? { return Wrong; }
    var a := l.a;
    if !a.present {
      assert a.coll.h - SetOf(fields) == map[];
      return Count(0);
    }
    var h, n := RemoveEach(a.coll.h, fields);
    if |h| == 0 {
      assert h == map[];
      var _ := DeleteAny(s, k, st);
      TouchesTransitive(s.eng, e0, old(s.eng), k);
      return Count(n);
    }
    LoadedWellFormed(s.eng, s.now, k, st, a);
    SmallerWellFormed(a.coll.h, h);
    SaveAgg(s, k, a.(coll := Hash(h)));
    TouchesTransitive(s.eng, e0, old(s.eng), k);
    return Count(n);
  }

  lemma SmallerWellFormed(h0: map<bytes, bytes>, h: map<bytes, bytes>)
    requires WellFormed(Hash(h0)) && h.Keys <= h0.Keys
    ensures WellFormed(Hash(h))
  {}

  // ---------- sets ----------

  lemma MemberElem(e: Db, batch: seq<Op>, k: Key, m: set<bytes>, x: bytes)
    requires Staged(e, batch, k, ElemsFor(Members(m)))
    ensures Staged(e, batch + [Put(ElemKey(SEG_SET, k, x), [])], k, ElemsFor(Members(m + {x})))
  {
    hide Staged, ElemKey;
    StagedPut(e, batch, k, ElemsFor(Members(m)), SEG_SET, x, []);
    assert MemberMap(m)[x := []] == MemberMap(m + {x});
  }

  lemma MembersWellFormed(m: set<bytes>, ms: seq<bytes>)
    requires WellFormed(Members(m)) && forall x | x in ms :: |x| < U16
    ensures WellFormed(Members(m + SetOf(ms)))
  {}

  method StageMembers(e: Db, k: Key, ms: seq<bytes>, ghost m: set<bytes>) returns (batch: seq<Op>, added: nat)
    requires ElemsOf(e, k) == ElemsFor(Members(m))
    ensures Staged(e, batch, k, ElemsFor(Members(m + SetOf(ms))))
    ensures added == Misses(m, ms)
  {
    hide ElemsOf, Staged, ElemKey, ElemsFor, SetOf;
    batch, added := [], 0;
    StagedNone(e, k);
    NoneOf(ms);
    assert m + SetOf(ms[..0]) == m;
    for i := 0 to |ms|
      invariant Staged(e, batch, k, ElemsFor(Members(m + SetOf(ms[..i]))))
      invariant added == Misses(m, ms[..i])
    {
      var ek := ElemKey(SEG_SET, k, ms[i]);
      MemberPresent(e, k, m, ms[i]);
      SetOfSnoc(ms, i);
      assert ms[..i + 1][..i] == ms[..i];
      assert m + SetOf(ms[..i + 1]) == m + SetOf(ms[..i]) + {ms[i]};
      if ek in e {
        assert m + SetOf(ms[..i]) + {ms[i]} == m + SetOf(ms[..i]);
        continue;
      }
      MemberElem(e, batch, k, m + SetOf(ms[..i]), ms[i]);
      batch := batch + [Put(ek, [])];
      added := added + 1;
    }
    assert ms[..|ms|] == ms;
  }

  /** setAddSparse: the new members and the header counted up, in one batch. */
  method SetAddSparse(s: Store, k: Key, ms: seq<bytes>, curCount: nat, ghost m: set<bytes>) returns (added: nat)
    requires s.Valid() && k.db < s.dbs && StoredExpiry(s.eng, k) == 0
    requires Holds(s.eng, s.now, k, Agg(Members(m))) && ElemsOf(s.eng, k) == ElemsFor(Members(m))
    requires HeaderCount(s.eng, s.now, k) == Some(curCount) && curCount < U32
    requires forall x | x in ms :: |x| < U16
    modifies s`eng, s`dict, s`pend
    ensures s.Valid() && OnlyTouches(s.eng, old(s.eng), k)
    ensures Holds(s.eng, s.now, k, Agg(Members(m + SetOf(ms)))) && added == Misses(m, ms)
    ensures HeaderCount(s.eng, s.now, k) == Some((curCount + added) % U32)
  {
    hide OnlyTouches, Inv, PendOk, ElemsOf, Staged, Shape, Holds, EncodeSparseHeader, StoredExpiry, WellFormed, SetOf, CountOk,
         Tallied, RecAt, HeaderCount, Live, Misses;
    var batch;
    batch, added := StageMembers(s.eng, k, ms, m);
    CountExactly(m, ms);
    HoldsWellFormed(s.eng, s.now, k, Members(m));
    MembersWellFormed(m, ms);
    if added == 0 {
      Untouched(s.eng, k);
      return 0;
    }
    ghost var c := Members(m + SetOf(ms));
    SparseShape(curCount + added, c);
    CommitColl(s, k, TYPE_SET, batch, ElemsFor(c), c, EncodeSparseHeader(curCount + added, 0, 0));
    HeaderAfter(s.eng, s.now, k, TYPE_SET, curCount + added);
  }

  lemma AddedNone(m: set<bytes>, x: set<bytes>)
    ensures SizeDrop(|m + x|, |m|) == 0 <==> m + x == m
  {
    assert m <= m + x;
    if |m + x| <= |m| { SameSize(m, m + x); }
  }

  lemma SameSize(a: set<bytes>, b: set<bytes>)
    requires a <= b && |b| <= |a|
    ensures a == b
  {
    assert |b - a| == |b| - |a|;
  }

  method AddEach(m0: set<bytes>, ms: seq<bytes>) returns (m: set<bytes>, added: nat)
    ensures m == m0 + SetOf(ms) && |m| == |m0| + added
  {
    m, added := m0, 0;
    for i := 0 to |ms|
      invariant m == m0 + SetOf(ms[..i]) && |m| == |m0| + added
    {
      assert SetOf(ms[..i + 1]) == SetOf(ms[..i]) + {ms[i]};
      if ms[i] in m { continue; }
      m := m + {ms[i]};
      added := added + 1;
    }
    assert ms[..|ms|] == ms;
  }

  /** What SADD leaves and answers, by the form the set is stored in. */
  function SAddStored(st: State, ms: seq<bytes>, sparse: bool): (State, Answer)
  {
    match SetIn(st)
    case None => (st, Wrong)
    case Some(m) => if sparse then (SAddOutcome(st, ms).0, Count(Misses(m, ms))) else SAddOutcome(st, ms)
  }

  predicate SAddPlain(st: State, ms: seq<bytes>, sparse: bool)
  {
    sparse && SetIn(st).Some? ==> NewOnce(SetIn(st).value, ms)
  }

  /** The form shows exactly when a sparse set is given a new member twice. */
  lemma SAddExactly(st: State, ms: seq<bytes>, sparse: bool)
    ensures SAddStored(st, ms, sparse) == SAddOutcome(st, ms) <==> SAddPlain(st, ms, sparse)
  {
    hide NewOnce, Misses, SetOf;
    if SetIn(st).Some? { CountExactly(SetIn(st).value, ms); }
  }

  lemma SetTally(e: Db, now: i64, k: Key, m: set<bytes>, ms: seq<bytes>, count: nat)
    requires Holds(e, now, k, Agg(Members(m + SetOf(ms))))
    requires HeaderCount(e, now, k) == Some((count + Misses(m, ms)) % U32)
    ensures count == |m| % U32 && NewOnce(m, ms) ==> Tallied(e, now, k, Agg(Members(m + SetOf(ms))))
  {
    hide NewOnce, Misses, Live, HeaderCount, Tallied, SetOf, Holds;
    if count == |m| % U32 && NewOnce(m, ms) {
      CountExactly(m, ms);
      CountsAdd(count, |m|, Misses(m, ms));
      HeldLive(e, now, k, Members(m + SetOf(ms)));
      HeaderTallies(e, now, k, Members(m + SetOf(ms)));
    }
  }

  lemma SAddIs(st: State, ms: seq<bytes>)
    ensures SetIn(st).None? ==> SAddOutcome(st, ms) == (st, Wrong)
    ensures SetIn(st).Some? ==>
              var m := SetIn(st).value;
              && SAddOutcome(st, ms) == (if m + SetOf(ms) == m then st else Agg(Members(m + SetOf(ms))),
                                         Count(SizeDrop(|m + SetOf(ms)|, |m|)))
              && |m + SetOf(ms)| >= |m|
              && (st.Agg? ==> SAddOutcome(st, ms).0 == Agg(Members(m + SetOf(ms))))
  {
    hide SetOf;
    if SetIn(st).Some? {
      AddedNone(SetIn(st).value, SetOf(ms));
      MoreMembers(SetIn(st).value, SetOf(ms));
    }
  }

  lemma MoreMembers(m: set<bytes>, x: set<bytes>)
    ensures |m + x| >= |m|
  {
    assert |m + x| == |m| + |x - m|;
  }

  /** setAdd: nothing is written when no member is new. In place the reply, and what the
      header count goes up by, is the number of given members the engine misses. */
  method SetAdd(s: Store, k: Key, ms: seq<bytes>, ghost st: State) returns (r: Answer)
    requires s.Valid() && k.db < s.dbs && Holds(s.eng, s.now, k, st)
    requires forall x | x in ms :: |x| < U16
    modifies s`eng, s`dict, s`pend
    ensures s.Valid() && OnlyTouches(s.eng, old(s.eng), k)
    ensures var want := SAddStored(st, ms, old(HeaderCount(s.eng, s.now, k)).Some?);
            r == want.1 && Holds(s.eng, s.now, k, want.0)
    ensures SetIn(st).Some? && old(HeaderCount(s.eng, s.now, k)).Some? ==>
              HeaderCount(s.eng, s.now, k) ==
              Some((old(HeaderCount(s.eng, s.now, k)).value + Misses(SetIn(st).value, ms)) % U32)
    ensures old(Tallied(s.eng, s.now, k, st)) && SAddPlain(st, ms, old(HeaderCount(s.eng, s.now, k)).Some?) ==>
              Tallied(s.eng, s.now, k, SAddOutcome(st, ms).0)
  {
    hide OnlyTouches, Inv, PendOk, ElemsOf, Holds, ElemsFor, StoredExpiry, WellFormed, SetOf, Tallied, Live, HeaderCount,
         SAddOutcome, Misses, NewOnce;
    SAddIs(st, ms);
    var enc := AggEncoding(s, k, TYPE_SET, st);
    ghost var e0 := s.eng;
    TalliedSame(e0, old(s.eng), s.now, k, st);
    CountedSame(e0, old(s.eng), s.now, k);
    if enc.Other? { return Wrong; }
    if enc.Enc? && enc.obj.Sparse? {
      var n := SetAddSparse(s, k, ms, enc.obj.count, st.c.s);
      TouchesTransitive(s.eng, e0, old(s.eng), k);
      SetTally(s.eng, s.now, k, st.c.s, ms, enc.obj.count);
      return Count(n);
    }
    if enc.NoKey? { NoHeader(e0, s.now, k, st); }
    var l := LoadAgg(s, k, TYPE_SET, st);
    TouchesTransitive(s.eng, e0, old(s.eng), k);
    ghost var e1 := s.eng;
    var a := l.a;
    var m, added := AddEach(a.coll.s, ms);
    if added == 0 {
      SameSize(a.coll.s, m);
      TalliedSame(e1, e0, s.now, k, st);
      return Count(0);
    }
    LoadedWellFormed(s.eng, s.now, k, st, a);
    MembersWellFormed(a.coll.s, ms);
    SaveAgg(s, k, a.(coll := Members(m)));
    TouchesTransitive(s.eng, e1, old(s.eng), k);
    return Count(added);
  }

  method TakeEach(m0: set<bytes>, ms: seq<bytes>) returns (m: set<bytes>, n: nat)
    ensures m == m0 - SetOf(ms) && |m0| == |m| + n
  {
    m, n := m0, 0;
    for i := 0 to |ms|
      invariant m == m0 - SetOf(ms[..i]) && |m0| == |m| + n
    {
      assert SetOf(ms[..i + 1]) == SetOf(ms[..i]) + {ms[i]};
      if ms[i] in m {
        m := m - {ms[i]};
        n := n + 1;
      }
    }
    assert ms[..|ms|] == ms;
  }

  /** setRem: an emptied set is deleted, an unchanged one is not written. */
  method SetRem(s: Store, k: Key, ms: seq<bytes>, ghost st: State) returns (r: Answer)
    requires s.Valid() && k.db < s.dbs && Holds(s.eng, s.now, k, st)
    modifies s`eng, s`dict, s`pend
    ensures s.Valid() && OnlyTouches(s.eng, old(s.eng), k)
    ensures r == SRemOutcome(st, ms).1 && Holds(s.eng, s.now, k, SRemOutcome(st, ms).0)
    ensures old(Tallied(s.eng, s.now, k, st)) ==> Tallied(s.eng, s.now, k, SRemOutcome(st, ms).0)
  {
    hide OnlyTouches, Inv, PendOk, ElemsOf, Holds, ElemsFor, StoredExpiry, WellFormed, SetOf, CountOk;
    var l := LoadAgg(s, k, TYPE_SET, st);
    ghost var e0 := s.eng;
    if l.WrongType? { return Wrong; }
    var a := l.a;
    if !a.present {
      assert a.coll.s - SetOf(ms) == {};
      return Count(0);
    }
    var m, n := TakeEach(a.coll.s, ms);
    if n == 0 { return Count(0); }
    if |m| == 0 {
      var _ := DeleteAny(s, k, st);
      TouchesTransitive(s.eng, e0, old(s.eng), k);
      return Count(n);
    }
    LoadedWellFormed(s.eng, s.now, k, st, a);
    FewerWellFormed(a.coll.s, m);
    SaveAgg(s, k, a.(coll := Members(m)));
    TouchesTransitive(s.eng, e0, old(s.eng), k);
    return Count(n);
  }

  lemma FewerWellFormed(m0: set<bytes>, m: set<bytes>)
    requires WellFormed(Members(m0)) && m <= m0
    ensures WellFormed(Members(m))
  {}
}
