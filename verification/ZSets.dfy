/**
 Sorted-set commands. A sparse sorted set keeps a member index and a score index; a
 score that moves must take its old index key with it.
 */
module ZSets {
  import opened Bytes
  import opened Scores
  import opened Layout
  import opened Codec
  import opened Engine
  import opened Records
  import opened DataPath
  import opened Collections
  import opened Aggregates
  import opened Hashes

  datatype ZOpt = ZOpt(xx: bool, nx: bool, lt: bool, gt: bool, ch: bool, incr: bool)

  datatype ZMember = ZMember(m: bytes, score: u64)

  type Scores_ = map<bytes, u64>

  // ---------- plain semantics ----------

  function ZSetIn(st: State): Option<Scores_>
  {
    match st
    case Absent => Some(map[])
    case Agg(ZSet(z)) => Some(z)
    case _ => None
  }

  function Find(z: Scores_, m: bytes): Option<u64> { if m in z then Some(z[m]) else None }

  /** NX, XX, GT and LT on one member. */
  predicate Accepts(was: Option<u64>, score: u64, opt: ZOpt)
  {
    && !(opt.nx && was.Some?) && !(opt.xx && was.None?)
    && (was.Some? ==> !(opt.gt && FloatLe(score, was.value)) && !(opt.lt && FloatLe(was.value, score)))
  }

  function ZPutAll(z: Scores_, ms: seq<ZMember>, opt: ZOpt): (r: Scores_)
    ensures z.Keys <= r.Keys && |r| >= |z|
  {
    if ms == [] then z else
    var z1, p := ZPutAll(z, ms[..|ms| - 1], opt), ms[|ms| - 1];
    if Accepts(Find(z1, p.m), p.score, opt) then z1[p.m := p.score] else z1
  }

  /** Members added or given a different score, which CH asks for. */
  function ZChanged(z: Scores_, ms: seq<ZMember>, opt: ZOpt): nat
  {
    if ms == [] then 0 else
    var front, p := ms[..|ms| - 1], ms[|ms| - 1];
    var was := Find(ZPutAll(z, front, opt), p.m);
    ZChanged(z, front, opt) +
    if Accepts(was, p.score, opt) && (was.None? || !FloatEq(was.value, p.score)) then 1 else 0
  }

  predicate DistinctMembers(ms: seq<ZMember>)
  {
    forall i, j | 0 <= i < j < |ms| :: ms[i].m != ms[j].m
  }

  predicate PlainMembers(ms: seq<ZMember>)
  {
    forall p | p in ms :: |p.m| < U16 && Plain(p.score)
  }

  /** ZADD ... INCR: the first member no option skips gets its sum, unless that is NaN. */
  datatype IncrResult = Skipped | Became(z: Scores_, score: u64) | Rejected

  function ZIncr(z: Scores_, ms: seq<ZMember>, opt: ZOpt, add: (u64, u64) -> u64): IncrResult
  {
    if ms == [] then Skipped else
    var p, was := ms[0], Find(z, ms[0].m);
    var sum := if was.Some? then add(was.value, p.score) else p.score;
    if (opt.nx && was.Some?) || (opt.xx && was.None?) then ZIncr(z, ms[1..], opt, add)
    else if IsNaN(sum) then Rejected
    else if !Accepts(was, sum, opt) then ZIncr(z, ms[1..], opt, add)
    else Became(z[p.m := sum], sum)
  }

  lemma {:induction false} ZPutOther(z: Scores_, ms: seq<ZMember>, opt: ZOpt, m: bytes)
    requires forall i | 0 <= i < |ms| :: ms[i].m != m
    ensures Find(ZPutAll(z, ms, opt), m) == Find(z, m)
  {
    if ms != [] {
      var front := ms[..|ms| - 1];
      assert forall i | 0 <= i < |front| :: front[i] == ms[i];
      ZPutOther(z, front, opt, m);
    }
  }

  lemma {:induction false} ZPutWellFormed(z: Scores_, ms: seq<ZMember>, opt: ZOpt)
    requires WellFormed(ZSet(z)) && PlainMembers(ms)
    ensures WellFormed(ZSet(ZPutAll(z, ms, opt)))
  {
    if ms != [] {
      assert ms[|ms| - 1] in ms;
      ZPutWellFormed(z, ms[..|ms| - 1], opt);
    }
  }

  // ---------- what the options mean ----------

  /** Scores are compared as numbers. */
  predicate Numbers(z: Scores_, ms: seq<ZMember>)
  {
    (forall m | m in z :: !IsNaN(z[m])) && forall i | 0 <= i < |ms| :: !IsNaN(ms[i].score)
  }

  predicate Given(ms: seq<ZMember>, m: bytes) { exists i :: 0 <= i < |ms| && ms[i].m == m }

  lemma GivenSnoc(front: seq<ZMember>, p: ZMember, m: bytes)
    ensures Given(front + [p], m) <==> Given(front, m) || p.m == m
  {
    var ms := front + [p];
    if i :| 0 <= i < |front| && front[i].m == m { assert ms[i].m == m; }
    assert ms[|front|] == p;
  }

  /** XX adds nothing; without it every given member is there in the end. Nothing is ever
      taken out. */
  lemma {:induction false} ZAddKeys(z: Scores_, ms: seq<ZMember>, opt: ZOpt, m: bytes)
    ensures m in ZPutAll(z, ms, opt) <==> m in z || (!opt.xx && Given(ms, m))
  {
    hide Given, FloatLe;
    if ms == [] {
      NoneGivenTo(m);
    } else {
      var front, p := ms[..|ms| - 1], ms[|ms| - 1];
      ZAddKeys(z, front, opt, m);
      GivenSnoc(front, p, m);
      assert ms == front + [p];
    }
  }

  lemma NoneGivenTo(m: bytes)
    ensures !Given([], m)
  {}

  /** NX: a stored member keeps its score. */
  lemma {:induction false} ZAddNX(z: Scores_, ms: seq<ZMember>, opt: ZOpt, m: bytes)
    requires opt.nx && m in z
    ensures m in ZPutAll(z, ms, opt) && ZPutAll(z, ms, opt)[m] == z[m]
  {
    hide FloatLe;
    if ms != [] { ZAddNX(z, ms[..|ms| - 1], opt, m); }
  }

  /** A new one gets the first score given. */
  lemma {:induction false} ZAddNew(z: Scores_, ms: seq<ZMember>, opt: ZOpt, i: nat)
    requires opt.nx && !opt.xx && i < |ms| && ms[i].m !in z && forall j | 0 <= j < i :: ms[j].m != ms[i].m
    ensures ms[i].m in ZPutAll(z, ms, opt) && ZPutAll(z, ms, opt)[ms[i].m] == ms[i].score
  {
    hide FloatLe;
    var last := |ms| - 1;
    var front := ms[..last];
    if i < last {
      assert front[i] == ms[i] && forall j | 0 <= j < i :: front[j] == ms[j];
      ZAddNew(z, front, opt, i);
    } else {
      assert forall j | 0 <= j < |front| :: front[j] == ms[j];
      ZPutOther(z, front, opt, ms[i].m);
    }
  }

  /** Without NX, GT and LT the last score given to a member stays, under XX a stored one's. */
  lemma {:induction false} ZAddLast(z: Scores_, ms: seq<ZMember>, opt: ZOpt, i: nat)
    requires !opt.nx && !opt.gt && !opt.lt && i < |ms| && (opt.xx ==> ms[i].m in z)
    requires forall j | i < j < |ms| :: ms[j].m != ms[i].m
    ensures ms[i].m in ZPutAll(z, ms, opt) && ZPutAll(z, ms, opt)[ms[i].m] == ms[i].score
  {
    hide FloatLe;
    var last := |ms| - 1;
    var front, p := ms[..last], ms[last];
    assert opt.xx && p.m in z ==> p.m in ZPutAll(z, front, opt);
    if i < last {
      assert front[i] == ms[i] && forall j | i < j < |front| :: front[j] == ms[j];
      ZAddLast(z, front, opt, i);
      assert p.m != ms[i].m;
    }
  }

  /** The number a member's score is, in the end, is no less than any number it was given and
      than the stored one. */
  predicate Greatest(z: Scores_, ms: seq<ZMember>, m: bytes, s: u64)
    requires Numbers(z, ms)
  {
    && !IsNaN(s) && (m in z ==> Value(z[m]) <= Value(s))
    && (forall i | 0 <= i < |ms| && ms[i].m == m :: Value(ms[i].score) <= Value(s))
    && ((m in z && s == z[m]) || exists i :: 0 <= i < |ms| && ms[i] == ZMember(m, s))
  }

  predicate Least(z: Scores_, ms: seq<ZMember>, m: bytes, s: u64)
    requires Numbers(z, ms)
  {
    && !IsNaN(s) && (m in z ==> Value(z[m]) >= Value(s))
    && (forall i | 0 <= i < |ms| && ms[i].m == m :: Value(ms[i].score) >= Value(s))
    && ((m in z && s == z[m]) || exists i :: 0 <= i < |ms| && ms[i] == ZMember(m, s))
  }

  /** GT alone, or with XX: the greatest of the stored score and all that were given. */
  lemma {:induction false} ZAddGT(z: Scores_, ms: seq<ZMember>, opt: ZOpt, m: bytes)
    requires opt.gt && !opt.lt && !opt.nx && Numbers(z, ms)
    ensures m in ZPutAll(z, ms, opt) ==> Greatest(z, ms, m, ZPutAll(z, ms, opt)[m])
  {
    hide IsNaN, Value, FloatLe, FloatEq;
    if ms != [] {
      var front, p := ms[..|ms| - 1], ms[|ms| - 1];
      ZAddGT(z, front, opt, m);
      ZAddKeys(z, front, opt, m);
      assert ms == front + [p];
      var z1, z2 := ZPutAll(z, front, opt), ZPutAll(z, ms, opt);
      if m in z2 {
        if m in z1 { GreatestStep(z, front, p, m, z1[m], z2[m]) by { if p.m == m { FloatCompares(p.score, z1[m]); } } }
        else { GreatestNew(z, front, p); }
      }
    }
  }

  lemma GreatestStep(z: Scores_, front: seq<ZMember>, p: ZMember, m: bytes, s1: u64, s2: u64)
    requires Numbers(z, front + [p]) && Numbers(z, front) && Greatest(z, front, m, s1) && !IsNaN(p.score)
    requires s2 == if p.m == m && Value(p.score) > Value(s1) then p.score else s1
    ensures Greatest(z, front + [p], m, s2)
  {
    hide IsNaN, Value;
    var ms := front + [p];
    assert ms[|front|] == p;
    if s2 == s1 && !(m in z && s1 == z[m]) {
      var i :| 0 <= i < |front| && front[i] == ZMember(m, s1);
      assert ms[i] == ZMember(m, s1);
    }
  }

  lemma GreatestNew(z: Scores_, front: seq<ZMember>, p: ZMember)
    requires Numbers(z, front + [p]) && p.m !in z && !Given(front, p.m)
    ensures Greatest(z, front + [p], p.m, p.score) && Least(z, front + [p], p.m, p.score)
  {
    hide IsNaN, Value;
    var ms := front + [p];
    assert ms[|front|] == p;
    assert forall i | 0 <= i < |front| :: ms[i] == front[i] && front[i].m != p.m;
  }

  /** LT alone, or with XX: the least of them. */
  lemma {:induction false} ZAddLT(z: Scores_, ms: seq<ZMember>, opt: ZOpt, m: bytes)
    requires opt.lt && !opt.gt && !opt.nx && Numbers(z, ms)
    ensures m in ZPutAll(z, ms, opt) ==> Least(z, ms, m, ZPutAll(z, ms, opt)[m])
  {
    hide IsNaN, Value, FloatLe, FloatEq;
    if ms != [] {
      var front, p := ms[..|ms| - 1], ms[|ms| - 1];
      ZAddLT(z, front, opt, m);
      ZAddKeys(z, front, opt, m);
      assert ms == front + [p];
      var z1, z2 := ZPutAll(z, front, opt), ZPutAll(z, ms, opt);
      if m in z2 {
        if m in z1 { LeastStep(z, front, p, m, z1[m], z2[m]) by { if p.m == m { FloatCompares(z1[m], p.score); } } }
        else { GreatestNew(z, front, p); }
      }
    }
  }

  lemma LeastStep(z: Scores_, front: seq<ZMember>, p: ZMember, m: bytes, s1: u64, s2: u64)
    requires Numbers(z, front + [p]) && Numbers(z, front) && Least(z, front, m, s1) && !IsNaN(p.score)
    requires s2 == if p.m == m && Value(p.score) < Value(s1) then p.score else s1
    ensures Least(z, front + [p], m, s2)
  {
    hide IsNaN, Value;
    var ms := front + [p];
    assert ms[|front|] == p;
    if s2 == s1 && !(m in z && s1 == z[m]) {
      var i :| 0 <= i < |front| && front[i] == ZMember(m, s1);
      assert ms[i] == ZMember(m, s1);
    }
  }

  /** GT and LT together leave every stored member alone. */
  lemma {:induction false} ZAddBoth(z: Scores_, ms: seq<ZMember>, opt: ZOpt, m: bytes)
    requires opt.gt && opt.lt && Numbers(z, ms) && m in z
    ensures m in ZPutAll(z, ms, opt) && ZPutAll(z, ms, opt)[m] == z[m]
  {
    hide IsNaN, Value, FloatLe, FloatEq;
    if ms != [] {
      var front, p := ms[..|ms| - 1], ms[|ms| - 1];
      ZAddBoth(z, front, opt, m);
      if p.m == m {
        FloatCompares(p.score, z[m]);
        FloatCompares(z[m], p.score);
      }
    }
  }

  /** The members whose score, as a number, is new. */
  function Renewed(z: Scores_, z': Scores_): set<bytes>
    requires Numbers(z, []) && Numbers(z', [])
  {
    set m | m in z' && (m !in z || Value(z[m]) != Value(z'[m]))
  }

  lemma {:induction false} ZPutNumbers(z: Scores_, ms: seq<ZMember>, opt: ZOpt)
    requires Numbers(z, ms)
    ensures Numbers(ZPutAll(z, ms, opt), [])
  {
    hide IsNaN, FloatLe;
    if ms != [] { ZPutNumbers(z, ms[..|ms| - 1], opt); }
  }

  /** CH counts the members, given once each, that are new or have another number. */
  lemma {:induction false} ZChangedIs(z: Scores_, ms: seq<ZMember>, opt: ZOpt)
    requires Numbers(z, ms) && DistinctMembers(ms)
    ensures Numbers(ZPutAll(z, ms, opt), [])
    ensures ZChanged(z, ms, opt) == |Renewed(z, ZPutAll(z, ms, opt))|
  {
    hide IsNaN, Value, FloatLe, FloatEq;
    ZPutNumbers(z, ms, opt);
    if ms == [] {
      assert Renewed(z, z) == {};
    } else {
      var front, p := ms[..|ms| - 1], ms[|ms| - 1];
      ZChangedIs(z, front, opt);
      ZPutOther(z, front, opt, p.m);
      var z1, z2 := ZPutAll(z, front, opt), ZPutAll(z, ms, opt);
      if p.m in z {
        assert z1[p.m] == z[p.m];
        FloatCompares(z[p.m], p.score);
      }
      RenewedStep(z, z1, z2, p);
    }
  }

  lemma SameBut(a: set<bytes>, b: set<bytes>, x: bytes)
    requires x !in a && forall m | m != x :: m in a <==> m in b
    ensures |b| == |a| + if x in b then 1 else 0
  {
    assert b == if x in b then a + {x} else a;
  }

  lemma RenewedStep(z: Scores_, z1: Scores_, z2: Scores_, p: ZMember)
    requires Numbers(z, []) && Numbers(z1, []) && Numbers(z2, [])
    requires Find(z1, p.m) == Find(z, p.m) && (z2 == z1 || z2 == z1[p.m := p.score])
    ensures |Renewed(z, z2)| ==
            |Renewed(z, z1)| + if z2 == z1 || (p.m in z && Value(z[p.m]) == Value(p.score)) then 0 else 1
  {
    hide IsNaN, Value;
    var a, b := Renewed(z, z1), Renewed(z, z2);
    assert p.m !in a;
    if z2 != z1 {
      assert forall m | m != p.m :: m in a <==> m in b;
      var same := p.m in z && Value(z[p.m]) == Value(p.score);
      assert p.m in b <==> !same;
      SameBut(a, b, p.m);
    }
  }

  /** ZADD INCR with one member, as numbers: skipped, refused, or at its sum. */
  lemma ZIncrOne(z: Scores_, p: ZMember, opt: ZOpt, add: (u64, u64) -> u64)
    requires Numbers(z, [p])
    ensures var r, sum := ZIncr(z, [p], opt, add), if p.m in z then add(z[p.m], p.score) else p.score;
            if (opt.nx && p.m in z) || (opt.xx && p.m !in z) then r == Skipped
            else if IsNaN(sum) then r == Rejected
            else if p.m in z && ((opt.gt && Value(sum) <= Value(z[p.m])) || (opt.lt && Value(sum) >= Value(z[p.m])))
            then r == Skipped
            else r == Became(z[p.m := sum], sum)
  {
    hide IsNaN, Value, FloatLe, FloatEq;
    var sum := if p.m in z then add(z[p.m], p.score) else p.score;
    assert [p][1..] == [];
    if p.m in z && !IsNaN(sum) {
      FloatCompares(sum, z[p.m]);
      FloatCompares(z[p.m], sum);
    }
  }

  /** With several members, the first that is not skipped decides. */
  lemma ZIncrFirst(z: Scores_, ms: seq<ZMember>, opt: ZOpt, add: (u64, u64) -> u64)
    requires ms != []
    ensures ZIncr(z, ms, opt, add) ==
            if ZIncr(z, [ms[0]], opt, add).Skipped? then ZIncr(z, ms[1..], opt, add) else ZIncr(z, [ms[0]], opt, add)
  {
    hide IsNaN, Accepts;
    assert [ms[0]][1..] == [];
  }

  // ---------- the in-place path, for any list of members ----------

  /** zAddSparse judges every member against the engine, not against its own batch. */
  function Taken(z: Scores_, ms: seq<ZMember>, opt: ZOpt): seq<ZMember>
  {
    if ms == [] then [] else
    var rest, p := Taken(z, ms[..|ms| - 1], opt), ms[|ms| - 1];
    if Accepts(Find(z, p.m), p.score, opt) then rest + [p] else rest
  }

  function Overwrite(z: Scores_, ps: seq<ZMember>): Scores_
  {
    if ps == [] then z else Overwrite(z, ps[..|ps| - 1])[ps[|ps| - 1].m := ps[|ps| - 1].score]
  }

  predicate Moves(was: Option<u64>, score: u64) { was.Some? && !FloatEq(was.value, score) }

  function IndexStep(index: map<bytes, bytes>, was: Option<u64>, p: ZMember): map<bytes, bytes>
  {
    (if Moves(was, p.score) then index - {ScoreBytes(was.value) + p.m} else index)[ScoreBytes(p.score) + p.m := []]
  }

  /** The score index those writes leave: only the score that was stored is taken out. */
  function IndexRun(z: Scores_, ps: seq<ZMember>): map<bytes, bytes>
  {
    if ps == [] then IndexMap(z) else
    IndexStep(IndexRun(z, ps[..|ps| - 1]), Find(z, ps[|ps| - 1].m), ps[|ps| - 1])
  }

  predicate NoNaN(z: Scores_, ps: seq<ZMember>)
  {
    (forall m | m in z :: !IsNaN(z[m])) && forall p | p in ps :: !IsNaN(p.score)
  }

  /** Every accepted score is the last one given for its member or the one stored, and no
      member ends up at the other zero than the one stored. */
  predicate Tidy(z: Scores_, ps: seq<ZMember>)
  {
    forall i | 0 <= i < |ps| :: TidyAt(z, ps, ps[i])
  }

  predicate TidyAt(z: Scores_, ps: seq<ZMember>, p: ZMember)
  {
    var last := Find(Overwrite(z, ps), p.m);
    && (last == Some(p.score) || Find(z, p.m) == Some(p.score))
    && (p.m in z && last.Some? && FloatEq(z[p.m], last.value) ==> z[p.m] == last.value)
  }

  /** Whether the index key of a stored score is there after the run: a score that moves
      takes it out, the same score puts it back, the other zero does neither. */
  predicate StoredKept(z: Scores_, ps: seq<ZMember>, m: bytes)
    requires m in z
  {
    if ps == [] then true else
    var p := ps[|ps| - 1];
    if p.m == m && Moves(Some(z[m]), p.score) then false
    else if p == ZMember(m, z[m]) then true
    else StoredKept(z, ps[..|ps| - 1], m)
  }

  /** Which index keys exist after the run. */
  predicate KeyLeft(z: Scores_, ps: seq<ZMember>, m: bytes, s: u64)
  {
    if m in z && s == z[m] then StoredKept(z, ps, m) else ZMember(m, s) in ps
  }

  lemma {:induction false} IndexRunHas(z: Scores_, ps: seq<ZMember>, m: bytes, s: u64)
    requires NoNaN(z, ps)
    ensures ScoreBytes(s) + m in IndexRun(z, ps) <==> KeyLeft(z, ps, m, s)
  {
    hide ScoreBytes, FloatEq, IsNaN, IndexMap;
    if ps == [] {
      InIndex(z, s, m);
    } else {
      var front, p := ps[..|ps| - 1], ps[|ps| - 1];
      IndexRunHas(z, front, m, s);
      IndexKeyParts(p.score, p.m, s, m);
      if p.m in z { IndexKeyParts(z[p.m], p.m, s, m); SelfEqual(z[p.m]); }
      assert ps == front + [p];
    }
  }

  lemma {:induction false} KeptOrMoved(z: Scores_, ps: seq<ZMember>, m: bytes) returns (q: ZMember)
    requires m in z && NoNaN(z, ps)
    ensures m in Overwrite(z, ps)
    ensures z[m] == Overwrite(z, ps)[m] ==> StoredKept(z, ps, m)
    ensures !FloatEq(z[m], Overwrite(z, ps)[m]) ==> !StoredKept(z, ps, m)
    ensures !StoredKept(z, ps, m) ==> q in ps && q.m == m && !FloatEq(z[m], q.score)
  {
    hide FloatEq, IsNaN;
    SelfEqual(z[m]);
    q := ZMember(m, z[m]);
    if ps != [] {
      var front, p := ps[..|ps| - 1], ps[|ps| - 1];
      q := KeptOrMoved(z, front, m);
      assert ps == front + [p];
      if p.m == m && Moves(Some(z[m]), p.score) { q := p; }
    }
  }

  lemma SelfEqual(u: u64)
    requires !IsNaN(u)
    ensures FloatEq(u, u)
  {}

  lemma {:induction false} IndexRunKeys(z: Scores_, ps: seq<ZMember>, x: bytes)
    requires x in IndexRun(z, ps)
    ensures |x| >= 8 && IndexRun(z, ps)[x] == []
  {
    hide ScoreBytes, FloatEq;
    if ps == [] {
      IndexAt(z, x);
    } else {
      var front, p := ps[..|ps| - 1], ps[|ps| - 1];
      ScoreWidth(p.score);
      if x in IndexRun(z, front) { IndexRunKeys(z, front, x); }
    }
  }

  lemma {:induction false} LastWritten(z: Scores_, ps: seq<ZMember>, m: bytes)
    ensures m in Overwrite(z, ps) ==> Find(z, m) == Some(Overwrite(z, ps)[m]) || ZMember(m, Overwrite(z, ps)[m]) in ps
    ensures forall p | p in ps :: p.m in Overwrite(z, ps)
    ensures m in z ==> m in Overwrite(z, ps)
  {
    if ps != [] { LastWritten(z, ps[..|ps| - 1], m); assert ps == ps[..|ps| - 1] + [ps[|ps| - 1]]; }
  }

  /** For every run of accepted members whose scores are numbers: the score index agrees
      with the member index exactly when the run is tidy. */
  lemma IndexRunExactly(z: Scores_, ps: seq<ZMember>)
    requires NoNaN(z, ps)
    ensures IndexRun(z, ps) == IndexMap(Overwrite(z, ps)) <==> Tidy(z, ps)
  {
    hide IndexRun, IndexMap, Overwrite, FloatEq, NoNaN, ScoreBytes;
    if Tidy(z, ps) {
      forall x ensures x in IndexRun(z, ps) <==> x in IndexMap(Overwrite(z, ps)) {
        IndexAt(Overwrite(z, ps), x);
        if x in IndexRun(z, ps) { IndexRunKeys(z, ps, x); }
        if |x| >= 8 { KeyOfScore(x); TidyAgrees(z, ps, x[8..], ScoreIn(x)); }
      }
      forall x | x in IndexRun(z, ps) ensures IndexRun(z, ps)[x] == [] { IndexRunKeys(z, ps, x); }
      assert IndexRun(z, ps) == IndexMap(Overwrite(z, ps)) by { AllEmpty(Overwrite(z, ps)); }
    }
    if IndexRun(z, ps) == IndexMap(Overwrite(z, ps)) {
      forall i | 0 <= i < |ps| ensures TidyAt(z, ps, ps[i]) { ExactIsTidy(z, ps, ps[i]); }
    }
  }

  lemma AllEmpty(z: Scores_)
    ensures forall x | x in IndexMap(z) :: IndexMap(z)[x] == []
  {}

  lemma TidyAgrees(z: Scores_, ps: seq<ZMember>, m: bytes, s: u64)
    requires NoNaN(z, ps) && Tidy(z, ps)
    ensures ScoreBytes(s) + m in IndexRun(z, ps) <==> Find(Overwrite(z, ps), m) == Some(s)
  {
    hide IndexRun, Overwrite, FloatEq, ScoreBytes, IsNaN, StoredKept;
    IndexRunHas(z, ps, m, s);
    LastWritten(z, ps, m);
    if ZMember(m, s) in ps {
      var i :| 0 <= i < |ps| && ps[i] == ZMember(m, s);
      assert TidyAt(z, ps, ps[i]);
    }
    if m in z { var _ := KeptOrMoved(z, ps, m); }
    if m in Overwrite(z, ps) && ZMember(m, Overwrite(z, ps)[m]) in ps {
      var i :| 0 <= i < |ps| && ps[i] == ZMember(m, Overwrite(z, ps)[m]);
      assert TidyAt(z, ps, ps[i]);
    }
  }

  lemma ExactIsTidy(z: Scores_, ps: seq<ZMember>, p: ZMember)
    requires NoNaN(z, ps) && p in ps && IndexRun(z, ps) == IndexMap(Overwrite(z, ps))
    ensures TidyAt(z, ps, p)
  {
    hide IndexRun, Overwrite, FloatEq, ScoreBytes, IndexMap, IsNaN, StoredKept;
    var after := Overwrite(z, ps);
    IndexRunHas(z, ps, p.m, p.score);
    InIndex(after, p.score, p.m);
    if p.m in z {
      SelfEqual(z[p.m]);
      IndexRunHas(z, ps, p.m, z[p.m]);
      InIndex(after, z[p.m], p.m);
      var q := KeptOrMoved(z, ps, p.m);
      IndexRunHas(z, ps, p.m, q.score);
      InIndex(after, q.score, p.m);
    }
  }

  /** One ZADD that gives a stored 0 the score -0, and one that names a new member twice:
      both leave a stale key in the score index. */
  lemma IndexCanGoStale(m: bytes, s: u64, t: u64)
    requires !IsNaN(s) && !IsNaN(t) && s != t
    ensures IndexRun(map[m := 0], [ZMember(m, NEG_ZERO)]) != IndexMap(map[m := NEG_ZERO])
    ensures IndexRun(map[], [ZMember(m, s), ZMember(m, t)]) != IndexMap(map[m := t])
  {
    hide IndexRun, IndexMap;
    var zero: Scores_, none: Scores_ := map[m := 0], map[];
    var a, b := ZMember(m, s), ZMember(m, t);
    assert Overwrite(zero, [ZMember(m, NEG_ZERO)]) == map[m := NEG_ZERO];
    assert !TidyAt(zero, [ZMember(m, NEG_ZERO)], [ZMember(m, NEG_ZERO)][0]);
    IndexRunExactly(zero, [ZMember(m, NEG_ZERO)]);
    assert [a, b][..1] == [a] && [a][..0] == [];
    assert Overwrite(none, [a]) == map[m := s];
    assert Overwrite(none, [a, b]) == map[m := t];
    assert !TidyAt(none, [a, b], [a, b][0]);
    IndexRunExactly(none, [a, b]);
  }

  lemma {:induction false} TakenIn(z: Scores_, ms: seq<ZMember>, opt: ZOpt, p: ZMember)
    requires p in Taken(z, ms, opt)
    ensures p in ms
  {
    if p in Taken(z, ms[..|ms| - 1], opt) { TakenIn(z, ms[..|ms| - 1], opt, p); }
  }

  /** With distinct members the in-place path is ZADD member by member. */
  lemma {:induction false} TakenIsPut(z: Scores_, ms: seq<ZMember>, opt: ZOpt)
    requires DistinctMembers(ms)
    ensures Overwrite(z, Taken(z, ms, opt)) == ZPutAll(z, ms, opt)
  {
    hide Accepts;
    if ms != [] {
      var front, p := ms[..|ms| - 1], ms[|ms| - 1];
      TakenIsPut(z, front, opt);
      ZPutOther(z, front, opt, p.m);
      assert (Taken(z, front, opt) + [p])[..|Taken(z, front, opt)|] == Taken(z, front, opt);
    }
  }

  /** Distinct members with plain scores are always tidy. */
  lemma DistinctIsTidy(z: Scores_, ms: seq<ZMember>, opt: ZOpt)
    requires DistinctMembers(ms) && PlainMembers(ms) && WellFormed(ZSet(z))
    ensures NoNaN(z, Taken(z, ms, opt)) && Tidy(z, Taken(z, ms, opt))
  {
    hide Plain, FloatEq, Overwrite;
    var ps := Taken(z, ms, opt);
    forall p | p in ps ensures !IsNaN(p.score) && TidyAt(z, ps, p) {
      TakenIn(z, ms, opt, p);
      TakenLast(z, ms, opt, p);
      PlainNumber(p.score);
      if p.m in z { PlainEq(z[p.m], p.score); }
    }
    forall m | m in z ensures !IsNaN(z[m]) { PlainNumber(z[m]); }
  }

  lemma PlainNumber(u: u64)
    requires Plain(u)
    ensures !IsNaN(u)
  {}

  lemma {:induction false} TakenLast(z: Scores_, ms: seq<ZMember>, opt: ZOpt, p: ZMember)
    requires DistinctMembers(ms) && p in Taken(z, ms, opt)
    ensures Find(Overwrite(z, Taken(z, ms, opt)), p.m) == Some(p.score)
  {
    var front, q := ms[..|ms| - 1], ms[|ms| - 1];
    var rest := Taken(z, front, opt);
    assert (rest + [q])[..|rest|] == rest;
    if p in rest {
      TakenIn(z, front, opt, p);
      var i :| 0 <= i < |front| && front[i] == p;
      assert ms[i].m != ms[|ms| - 1].m;
      TakenLast(z, front, opt, p);
    }
  }

  // ---------- staging ----------

  /** zAddSparse's writes for one accepted member. */
  function MemberOps(k: Key, p: ZMember, was: Option<u64>): seq<Op>
  {
    [Put(ElemKey(SEG_ZSET_M, k, p.m), ScoreBytes(p.score))]
    + (if Moves(was, p.score) then [Del(ScoreKey(k, was.value, p.m))] else [])
    + [Put(ScoreKey(k, p.score, p.m), [])]
  }

  function Both(z: Scores_, index: map<bytes, bytes>): Elems
  {
    NO_ELEMS.(scores := ScoreMap(z), byScore := index)
  }

  lemma StagedMember(e: Db, ops: seq<Op>, k: Key, z: Scores_, index: map<bytes, bytes>, p: ZMember, was: Option<u64>)
    requires Staged(e, ops, k, Both(z, index))
    ensures Staged(e, ops + MemberOps(k, p, was), k, Both(z[p.m := p.score], IndexStep(index, was, p)))
  {
    hide Staged, ElemKey, ScoreKey, ScoreBytes, FloatEq;
    var v := ScoreBytes(p.score);
    ScoreKeyElem(k, p.score, p.m);
    assert ScoreMap(z)[p.m := v] == ScoreMap(z[p.m := p.score]);
    StagedPut(e, ops, k, Both(z, index), SEG_ZSET_M, p.m, v);
    var ops1, z1 := ops + [Put(ElemKey(SEG_ZSET_M, k, p.m), v)], z[p.m := p.score];
    if Moves(was, p.score) {
      ScoreKeyElem(k, was.value, p.m);
      StagedDel(e, ops1, k, Both(z1, index), SEG_ZSET_S, ScoreBytes(was.value) + p.m);
      var ops2 := ops1 + [Del(ScoreKey(k, was.value, p.m))];
      StagedPut(e, ops2, k, Both(z1, index - {ScoreBytes(was.value) + p.m}), SEG_ZSET_S, v + p.m, []);
      assert ops + MemberOps(k, p, was) == ops2 + [Put(ScoreKey(k, p.score, p.m), [])];
    } else {
      StagedPut(e, ops1, k, Both(z1, index), SEG_ZSET_S, v + p.m, []);
      assert ops + MemberOps(k, p, was) == ops1 + [Put(ScoreKey(k, p.score, p.m), [])];
    }
  }

  lemma ScorePresent(e: Db, k: Key, z: Scores_, m: bytes)
    requires ElemsOf(e, k) == ElemsFor(ZSet(z))
    ensures ElemKey(SEG_ZSET_M, k, m) in e <==> m in z
    ensures m in z ==> |e[ElemKey(SEG_ZSET_M, k, m)]| >= 8 && ReadScore(e[ElemKey(SEG_ZSET_M, k, m)]) == z[m]
  {
    hide Sub, ElemPrefix, ElemKey, ReadScore, ScoreBytes;
    AtSub(e, SEG_ZSET_M, k, m);
    if m in z {
      assert e[ElemKey(SEG_ZSET_M, k, m)] == ScoreBytes(z[m]);
      ReadBackScore(z[m]);
    }
  }

  lemma ReadBackScore(u: u64)
    ensures |ScoreBytes(u)| == 8 && ReadScore(ScoreBytes(u)) == u
  {
    ScoreInKey(u, []);
    assert ScoreBytes(u) + [] == ScoreBytes(u);
  }

  function NamesOf(ps: seq<ZMember>): (r: seq<bytes>)
    ensures |r| == |ps|
  {
    seq(|ps|, i requires 0 <= i < |ps| => ps[i].m)
  }

  lemma NamesSnoc(ps: seq<ZMember>, p: ZMember)
    ensures NamesOf(ps + [p]) == NamesOf(ps) + [p.m] && NamesOf([]) == []
  {}

  /** Accepted members the engine misses, and those that are missing or move. */
  function Missing(z: Scores_, ps: seq<ZMember>): nat { Misses(z.Keys, NamesOf(ps)) }

  lemma MissingSnoc(z: Scores_, ps: seq<ZMember>, p: ZMember)
    ensures Missing(z, ps + [p]) == Missing(z, ps) + if p.m in z then 0 else 1
  {
    hide NamesOf;
    NamesSnoc(ps, p);
    assert (NamesOf(ps) + [p.m])[..|ps|] == NamesOf(ps);
  }

  /** The size grows by that number exactly when no new member is accepted twice. */
  lemma ZCountExactly(z: Scores_, ps: seq<ZMember>)
    ensures |Overwrite(z, ps)| <= |z| + Missing(z, ps)
    ensures |Overwrite(z, ps)| == |z| + Missing(z, ps) <==> NewOnce(z.Keys, NamesOf(ps))
  {
    hide NewOnce, Overwrite, NamesOf, Misses, SetOf;
    OverwriteKeys(z, ps);
    CountExactly(z.Keys, NamesOf(ps));
    assert |Overwrite(z, ps)| == |Overwrite(z, ps).Keys| && |z| == |z.Keys|;
  }

  lemma {:induction false} OverwriteKeys(z: Scores_, ps: seq<ZMember>)
    ensures Overwrite(z, ps).Keys == z.Keys + SetOf(NamesOf(ps))
  {
    hide NamesOf, SetOf;
    if ps == [] {
      NamesSnoc([], ZMember([], 0));
      NoneGiven(z.Keys);
    } else {
      var front, p := ps[..|ps| - 1], ps[|ps| - 1];
      OverwriteKeys(z, front);
      NamesSnoc(front, p);
      SetOfPlus(NamesOf(front), p.m);
      assert ps == front + [p];
    }
  }

  function Moving(z: Scores_, ps: seq<ZMember>): nat
  {
    if ps == [] then 0 else
    var was := Find(z, ps[|ps| - 1].m);
    Moving(z, ps[..|ps| - 1]) + if was.None? || Moves(was, ps[|ps| - 1].score) then 1 else 0
  }

  /** What the in-place loop has staged and counted once it accepted ps. */
  ghost predicate ZStaged(e: Db, batch: seq<Op>, k: Key, z: Scores_, ps: seq<ZMember>, added: nat, changed: nat)
  {
    && Staged(e, batch, k, Both(Overwrite(z, ps), IndexRun(z, ps)))
    && added == Missing(z, ps) && changed == Moving(z, ps) && (batch == [] ==> ps == [])
  }

  lemma ZStagedTake(e: Db, batch: seq<Op>, k: Key, z: Scores_, ps: seq<ZMember>, p: ZMember, added: nat, changed: nat)
    requires ZStaged(e, batch, k, z, ps, added, changed)
    ensures ZStaged(e, batch + MemberOps(k, p, Find(z, p.m)), k, z, ps + [p],
                    if p.m in z then added else added + 1,
                    if p.m in z && FloatEq(z[p.m], p.score) then changed else changed + 1)
  {
    hide Staged, Both, IndexStep, FloatEq, Missing;
    assert (ps + [p])[..|ps|] == ps;
    MissingSnoc(z, ps, p);
    StagedMember(e, batch, k, Overwrite(z, ps), IndexRun(z, ps), p, Find(z, p.m));
    assert |MemberOps(k, p, Find(z, p.m))| > 0;
  }

  lemma ZStagedNone(e: Db, k: Key, z: Scores_)
    requires ElemsOf(e, k) == ElemsFor(ZSet(z))
    ensures ZStaged(e, [], k, z, [], 0, 0)
  {
    hide ElemsOf, Staged, ScoreMap, IndexMap;
    StagedNone(e, k);
  }

  /** The loop of zAddSparse, for members distinct or not and scores of any kind. */
  method StageScores(e: Db, k: Key, ms: seq<ZMember>, opt: ZOpt, ghost z: Scores_)
    returns (batch: seq<Op>, added: nat, changed: nat)
    requires ElemsOf(e, k) == ElemsFor(ZSet(z))
    ensures ZStaged(e, batch, k, z, Taken(z, ms, opt), added, changed)
  {
    hide ElemsOf, ElemKey, ScoreKey, ElemsFor, Accepts, ReadScore, FloatEq, ZStaged, ScoreBytes;
    batch, added, changed := [], 0, 0;
    ZStagedNone(e, k, z);
    for i := 0 to |ms|
      invariant ZStaged(e, batch, k, z, Taken(z, ms[..i], opt), added, changed)
    {
      var p := ms[i];
      ScorePresent(e, k, z, p.m);
      assert ms[..i + 1][..i] == ms[..i];
      var ek := ElemKey(SEG_ZSET_M, k, p.m);
      var was := if ek in e then Some(ReadScore(e[ek])) else None;
      assert was == Find(z, p.m);
      if !Accepts(was, p.score, opt) { continue; }
      ZStagedTake(e, batch, k, z, Taken(z, ms[..i], opt), p, added, changed);
      batch := batch + MemberOps(k, p, was);
      if was.Some? {
        if !FloatEq(was.value, p.score) { changed := changed + 1; }
      } else {
        added, changed := added + 1, changed + 1;
      }
    }
    assert ms[..|ms|] == ms;
  }

  lemma {:induction false} TakenDistinct(z: Scores_, ms: seq<ZMember>, opt: ZOpt)
    requires DistinctMembers(ms)
    ensures AllDistinct(NamesOf(Taken(z, ms, opt)))
  {
    hide Accepts, NamesOf;
    if ms == [] {
      NamesSnoc([], ZMember([], 0));
    } else {
      var front, p := ms[..|ms| - 1], ms[|ms| - 1];
      var rest := Taken(z, front, opt);
      TakenDistinct(z, front, opt);
      NamesSnoc(rest, p);
      forall i | 0 <= i < |rest| ensures NamesOf(rest)[i] != p.m { TakenName(z, front, opt, p.m, i); }
    }
  }

  lemma TakenName(z: Scores_, ms: seq<ZMember>, opt: ZOpt, m: bytes, i: nat)
    requires i < |Taken(z, ms, opt)| && forall j | 0 <= j < |ms| :: ms[j].m != m
    ensures NamesOf(Taken(z, ms, opt))[i] != m
  {
    TakenIn(z, ms, opt, Taken(z, ms, opt)[i]);
  }

  lemma {:induction false} ChangesMatch(z: Scores_, ms: seq<ZMember>, opt: ZOpt)
    requires DistinctMembers(ms)
    ensures ZChanged(z, ms, opt) == Moving(z, Taken(z, ms, opt))
  {
    hide Accepts, FloatEq, ZPutAll;
    if ms != [] {
      var front, p := ms[..|ms| - 1], ms[|ms| - 1];
      ChangesMatch(z, front, opt);
      ZPutOther(z, front, opt, p.m);
      assert (Taken(z, front, opt) + [p])[..|Taken(z, front, opt)|] == Taken(z, front, opt);
    }
  }

  /** With distinct members both counts are those of ZADD member by member. */
  lemma CountsMatch(z: Scores_, ms: seq<ZMember>, opt: ZOpt)
    requires DistinctMembers(ms)
    ensures |ZPutAll(z, ms, opt)| == |z| + Missing(z, Taken(z, ms, opt))
    ensures ZChanged(z, ms, opt) == Moving(z, Taken(z, ms, opt))
  {
    hide Taken, Overwrite, ZPutAll, Missing, ZChanged, Moving, NamesOf, DistinctMembers, NewOnce, AllDistinct;
    TakenIsPut(z, ms, opt);
    TakenDistinct(z, ms, opt);
    DistinctOnce(z.Keys, NamesOf(Taken(z, ms, opt)));
    ZCountExactly(z, Taken(z, ms, opt));
    ChangesMatch(z, ms, opt);
  }

  /** What the in-place path leaves in the engine once it accepted ps: the members with their
      last scores, the score index of the run, and the header counted up. */
  ghost predicate InPlace(e: Db, now: i64, k: Key, z: Scores_, ps: seq<ZMember>, count: nat)
  {
    && Live(e, now, k).Some? && Live(e, now, k).value.typ == TYPE_ZSET && Live(e, now, k).value.exp == 0
    && ElemsOf(e, k) == Both(Overwrite(z, ps), IndexRun(z, ps))
    && HeaderCount(e, now, k) == Some((count + Missing(z, ps)) % U32)
  }

  /** That is the scored set with both indexes exactly when the run is tidy. */
  lemma InPlaceExactly(e: Db, now: i64, k: Key, z: Scores_, ps: seq<ZMember>, count: nat)
    requires InPlace(e, now, k, z, ps, count) && NoNaN(z, ps) && WellFormed(ZSet(Overwrite(z, ps)))
    ensures Holds(e, now, k, Agg(ZSet(Overwrite(z, ps)))) <==> Tidy(z, ps)
    ensures count == |z| % U32 && NewOnce(z.Keys, NamesOf(ps)) ==> Tallied(e, now, k, Agg(ZSet(Overwrite(z, ps))))
  {
    hide ElemsOf, Live, Overwrite, IndexRun, IndexMap, ScoreMap, WellFormed, Tidy, NoNaN, Missing, DecodeObjectHeader,
         NewOnce, NamesOf, ParseColl, Tallied;
    IndexRunExactly(z, ps);
    if count == |z| % U32 && NewOnce(z.Keys, NamesOf(ps)) {
      ZCountExactly(z, ps);
      CountsAdd(count, |z|, Missing(z, ps));
      HeaderTallies(e, now, k, ZSet(Overwrite(z, ps)));
    }
  }

  /** zAddSparse: members, score index and header in one batch. */
  method ZAddSparse(s: Store, k: Key, ms: seq<ZMember>, opt: ZOpt, curCount: nat, ghost z: Scores_) returns (n: nat)
    requires s.Valid() && k.db < s.dbs && StoredExpiry(s.eng, k) == 0
    requires Holds(s.eng, s.now, k, Agg(ZSet(z))) && ElemsOf(s.eng, k) == ElemsFor(ZSet(z))
    requires HeaderCount(s.eng, s.now, k) == Some(curCount) && curCount < U32
    modifies s`eng, s`dict, s`pend
    ensures s.Valid() && OnlyTouches(s.eng, old(s.eng), k)
    ensures InPlace(s.eng, s.now, k, z, Taken(z, ms, opt), curCount)
    ensures n == if opt.ch then Moving(z, Taken(z, ms, opt)) else Missing(z, Taken(z, ms, opt))
  {
    hide OnlyTouches, Inv, PendOk, ElemsOf, Staged, EncodeSparseHeader, StoredExpiry, Taken, Holds, RecAt, Both, Overwrite,
         IndexRun, Missing, Moving, ElemsFor, InPlace, HeaderCount;
    var batch, added, changed := StageScores(s.eng, k, ms, opt, z);
    ghost var ps := Taken(z, ms, opt);
    if batch == [] {
      Untouched(s.eng, k);
      NothingWritten(s.eng, s.now, k, z, curCount);
      return 0;
    }
    CommitElems(s, k, TYPE_ZSET, batch, Both(Overwrite(z, ps), IndexRun(z, ps)), EncodeSparseHeader(curCount + added, 0, 0));
    WrittenInPlace(s.eng, s.now, k, z, ps, curCount);
    n := if opt.ch then changed else added;
  }

  lemma NothingWritten(e: Db, now: i64, k: Key, z: Scores_, count: nat)
    requires Holds(e, now, k, Agg(ZSet(z))) && ElemsOf(e, k) == ElemsFor(ZSet(z))
    requires HeaderCount(e, now, k) == Some(count) && count < U32
    ensures InPlace(e, now, k, z, [], count) && Missing(z, []) == 0 && Moving(z, []) == 0
  {
    hide ElemsOf, Live, HeaderCount, IndexMap, ScoreMap, WellFormed, Shape;
  }

  lemma WrittenInPlace(e: Db, now: i64, k: Key, z: Scores_, ps: seq<ZMember>, count: nat)
    requires RecAt(e, k) == Some(Record(TYPE_ZSET, 0, EncodeSparseHeader(count + Missing(z, ps), 0, 0)))
    requires ElemsOf(e, k) == Both(Overwrite(z, ps), IndexRun(z, ps))
    ensures InPlace(e, now, k, z, ps, count)
  {
    hide RecAt, ElemsOf, Both, Overwrite, IndexRun, Missing, EncodeSparseHeader, Live, HeaderCount;
    HeaderAfter(e, now, k, TYPE_ZSET, count + Missing(z, ps));
  }

  // ---------- ZADD ----------

  /** The loop of zAdd over a loaded set, without INCR. */
  method PutScores(z0: Scores_, ms: seq<ZMember>, opt: ZOpt) returns (z: Scores_, added: nat, changed: nat)
    ensures z == ZPutAll(z0, ms, opt) && |z| == |z0| + added && changed == ZChanged(z0, ms, opt)
  {
    hide FloatEq, FloatLe;
    z, added, changed := z0, 0, 0;
    for i := 0 to |ms|
      invariant z == ZPutAll(z0, ms[..i], opt) && |z| == |z0| + added && changed == ZChanged(z0, ms[..i], opt)
    {
      var p := ms[i];
      assert ms[..i + 1][..i] == ms[..i];
      if opt.nx && p.m in z { continue; }
      if opt.xx && p.m !in z { continue; }
      if p.m in z {
        if opt.gt && FloatLe(p.score, z[p.m]) { continue; }
        if opt.lt && FloatLe(z[p.m], p.score) { continue; }
      }
      if p.m !in z {
        added, changed := added + 1, changed + 1;
      } else if !FloatEq(z[p.m], p.score) {
        changed := changed + 1;
      }
      z := z[p.m := p.score];
    }
    assert ms[..|ms|] == ms;
  }

  /** The same loop under INCR: it ends at the first member no option skips. */
  method IncrScore(z: Scores_, ms: seq<ZMember>, opt: ZOpt, add: (u64, u64) -> u64) returns (r: IncrResult)
    ensures r == ZIncr(z, ms, opt, add)
  {
    hide FloatLe, IsNaN;
    for i := 0 to |ms|
      invariant ZIncr(z, ms, opt, add) == ZIncr(z, ms[i..], opt, add)
    {
      var p := ms[i];
      assert ms[i..][1..] == ms[i + 1..];
      if opt.nx && p.m in z { continue; }
      if opt.xx && p.m !in z { continue; }
      var sum := if p.m in z then add(z[p.m], p.score) else p.score;
      if IsNaN(sum) { return Rejected; }
      if p.m in z {
        if opt.gt && FloatLe(sum, z[p.m]) { continue; }
        if opt.lt && FloatLe(z[p.m], sum) { continue; }
      }
      return Became(z[p.m := sum], sum);
    }
    return Skipped;
  }

  /** Addition of plain scores never makes a negative zero. */
  ghost predicate PlainSum(add: (u64, u64) -> u64)
  {
    forall u: u64, v: u64 | Plain(u) && Plain(v) :: IsNaN(add(u, v)) || Plain(add(u, v))
  }

  lemma {:induction false} ZIncrWellFormed(z: Scores_, ms: seq<ZMember>, opt: ZOpt, add: (u64, u64) -> u64)
    requires WellFormed(ZSet(z)) && PlainMembers(ms) && PlainSum(add)
    ensures ZIncr(z, ms, opt, add).Became? ==> WellFormed(ZSet(ZIncr(z, ms, opt, add).z))
  {
    hide IsNaN, Accepts;
    if ms != [] {
      assert ms[0] in ms;
      ZIncrWellFormed(z, ms[1..], opt, add);
    }
  }

  /** What ZADD answers and leaves. */
  function ZOutcome(st: State, ms: seq<ZMember>, opt: ZOpt, add: (u64, u64) -> u64): (r: (State, Answer))
  {
    match ZSetIn(st)
    case None => (st, Wrong)
    case Some(z) =>
      if opt.incr then
        match ZIncr(z, ms, opt, add)
        case Rejected => (st, NotANumber)
        case Became(z', s) => (Agg(ZSet(z')), Score(s))
        case Skipped => (Agg(ZSet(z)), Count(0))
      else
        var z' := ZPutAll(z, ms, opt);
        (Agg(ZSet(z')), Count(if opt.ch then ZChanged(z, ms, opt) else |z'| - |z|))
  }

  /** zAdd over both stored forms and every option. Without INCR a sparse set is updated in
      place, whatever members are given; any other is loaded and saved. */
  method ZAdd(s: Store, k: Key, ms: seq<ZMember>, opt: ZOpt, add: (u64, u64) -> u64, ghost st: State)
    returns (r: Answer)
    requires s.Valid() && k.db < s.dbs && Holds(s.eng, s.now, k, st)
    requires HeaderCount(s.eng, s.now, k).None? || opt.incr ==> PlainMembers(ms) && PlainSum(add)
    modifies s`eng, s`dict, s`pend
    ensures s.Valid() && OnlyTouches(s.eng, old(s.eng), k)
    ensures if ZSetIn(st).Some? && old(HeaderCount(s.eng, s.now, k)).Some? && !opt.incr then
              var z, ps := ZSetIn(st).value, Taken(ZSetIn(st).value, ms, opt);
              && InPlace(s.eng, s.now, k, z, ps, old(HeaderCount(s.eng, s.now, k)).value)
              && r == Count(if opt.ch then Moving(z, ps) else Missing(z, ps))
            else
              && r == ZOutcome(st, ms, opt, add).1 && Holds(s.eng, s.now, k, ZOutcome(st, ms, opt, add).0)
              && (old(Tallied(s.eng, s.now, k, st)) ==> Tallied(s.eng, s.now, k, ZOutcome(st, ms, opt, add).0))
  {
    hide OnlyTouches, Inv, PendOk, ElemsOf, Holds, ElemsFor, StoredExpiry, WellFormed, ZPutAll, PlainMembers, PlainSum,
         ZIncr, ZChanged, Tallied, Live, HeaderCount, InPlace, Taken, Moving, Missing;
    var enc := AggEncoding(s, k, TYPE_ZSET, st);
    ghost var e0 := s.eng;
    TalliedSame(e0, old(s.eng), s.now, k, st);
    CountedSame(e0, old(s.eng), s.now, k);
    if enc.Other? { return Wrong; }
    if enc.Enc? && enc.obj.Sparse? && !opt.incr {
      var n := ZAddSparse(s, k, ms, opt, enc.obj.count, st.c.z);
      TouchesTransitive(s.eng, e0, old(s.eng), k);
      return Count(n);
    }
    if enc.NoKey? { NoHeader(e0, s.now, k, st); }
    r := ZAddLoaded(s, k, ms, opt, add, st);
    TouchesTransitive(s.eng, e0, old(s.eng), k);
  }

  /** The loaded path of zAdd. */
  method ZAddLoaded(s: Store, k: Key, ms: seq<ZMember>, opt: ZOpt, add: (u64, u64) -> u64, ghost st: State)
    returns (r: Answer)
    requires s.Valid() && k.db < s.dbs && Holds(s.eng, s.now, k, st) && ZSetIn(st).Some?
    requires PlainMembers(ms) && PlainSum(add)
    modifies s`eng, s`dict, s`pend
    ensures s.Valid() && OnlyTouches(s.eng, old(s.eng), k)
    ensures r == ZOutcome(st, ms, opt, add).1 && Holds(s.eng, s.now, k, ZOutcome(st, ms, opt, add).0)
    ensures old(Tallied(s.eng, s.now, k, st)) ==> Tallied(s.eng, s.now, k, ZOutcome(st, ms, opt, add).0)
  {
    hide OnlyTouches, Inv, PendOk, ElemsOf, Holds, ElemsFor, StoredExpiry, WellFormed, ZPutAll, PlainMembers, PlainSum,
         ZIncr, ZChanged, Tallied, Live;
    var l := LoadAgg(s, k, TYPE_ZSET, st);
    ghost var e1 := s.eng;
    var a := l.a;
    LoadedWellFormed(s.eng, s.now, k, st, a);
    if opt.incr {
      var got := IncrScore(a.coll.z, ms, opt, add);
      ZIncrWellFormed(a.coll.z, ms, opt, add);
      if got.Rejected? {
        TalliedSame(e1, old(s.eng), s.now, k, st);
        return NotANumber;
      }
      SaveAgg(s, k, if got.Became? then a.(coll := ZSet(got.z)) else a);
      TouchesTransitive(s.eng, e1, old(s.eng), k);
      return if got.Became? then Score(got.score) else Count(0);
    }
    var z, added, changed := PutScores(a.coll.z, ms, opt);
    ZPutWellFormed(a.coll.z, ms, opt);
    SaveAgg(s, k, a.(coll := ZSet(z)));
    TouchesTransitive(s.eng, e1, old(s.eng), k);
    return Count(if opt.ch then changed else added);
  }

  /** With distinct members and plain scores the in-place path is ZADD member by member. */
  lemma InPlaceIsPlain(e: Db, now: i64, k: Key, z: Scores_, ms: seq<ZMember>, opt: ZOpt, count: nat)
    requires DistinctMembers(ms) && PlainMembers(ms) && WellFormed(ZSet(z))
    requires InPlace(e, now, k, z, Taken(z, ms, opt), count)
    ensures Holds(e, now, k, Agg(ZSet(ZPutAll(z, ms, opt))))
    ensures count == |z| % U32 ==> Tallied(e, now, k, Agg(ZSet(ZPutAll(z, ms, opt))))
    ensures |ZPutAll(z, ms, opt)| - |z| == Missing(z, Taken(z, ms, opt))
    ensures ZChanged(z, ms, opt) == Moving(z, Taken(z, ms, opt))
  {
    hide Holds, Tallied, InPlace, Taken, Overwrite, ZPutAll, Missing, Moving, ZChanged, Tidy, NoNaN, NamesOf, NewOnce,
         AllDistinct, DistinctMembers, PlainMembers, WellFormed;
    CountsMatch(z, ms, opt);
    TakenIsPut(z, ms, opt);
    DistinctIsTidy(z, ms, opt);
    ZPutWellFormed(z, ms, opt);
    TakenDistinct(z, ms, opt);
    DistinctOnce(z.Keys, NamesOf(Taken(z, ms, opt)));
    InPlaceExactly(e, now, k, z, Taken(z, ms, opt), count);
  }

  /** So ZADD of distinct members with plain scores does not show the form. */
  method ZAddPlain(s: Store, k: Key, ms: seq<ZMember>, opt: ZOpt, add: (u64, u64) -> u64, ghost st: State)
    returns (r: Answer)
    requires s.Valid() && k.db < s.dbs && Holds(s.eng, s.now, k, st)
    requires DistinctMembers(ms) && PlainMembers(ms) && PlainSum(add)
    modifies s`eng, s`dict, s`pend
    ensures s.Valid() && OnlyTouches(s.eng, old(s.eng), k)
    ensures r == ZOutcome(st, ms, opt, add).1 && Holds(s.eng, s.now, k, ZOutcome(st, ms, opt, add).0)
    ensures old(Tallied(s.eng, s.now, k, st)) ==> Tallied(s.eng, s.now, k, ZOutcome(st, ms, opt, add).0)
  {
    hide OnlyTouches, Inv, PendOk, Holds, WellFormed, ZPutAll, DistinctMembers, PlainMembers, PlainSum, ZIncr, ZChanged,
         Tallied, Live, HeaderCount, InPlace, Taken, Moving, Missing;
    ghost var count := HeaderCount(s.eng, s.now, k);
    r := ZAdd(s, k, ms, opt, add, st);
    if ZSetIn(st).Some? && count.Some? && !opt.incr {
      HeldZSet(old(s.eng), s.now, k, st);
      InPlaceIsPlain(s.eng, s.now, k, ZSetIn(st).value, ms, opt, count.value);
    }
  }

  lemma HeldZSet(e: Db, now: i64, k: Key, st: State)
    requires Holds(e, now, k, st) && ZSetIn(st).Some? && HeaderCount(e, now, k).Some?
    ensures st == Agg(ZSet(ZSetIn(st).value)) && WellFormed(ZSet(ZSetIn(st).value))
    ensures Tallied(e, now, k, st) ==> HeaderCount(e, now, k).value == |ZSetIn(st).value| % U32
  {
    hide Live, DecodeObjectHeader, WellFormed, Shape;
  }

  // ---------- ZREM ----------

  lemma FewerScores(z0: Scores_, z: Scores_)
    requires WellFormed(ZSet(z0)) && z.Keys <= z0.Keys && forall m | m in z :: z[m] == z0[m]
    ensures WellFormed(ZSet(z))
  {}

  function ZRemOutcome(st: State, names: seq<bytes>): (State, Answer)
  {
    match ZSetIn(st)
    case None => (st, Wrong)
    case Some(z) =>
      var rest := z - SetOf(names);
      var n := SizeDrop(|z|, |rest|);
      (if n == 0 then st else if rest == map[] then Absent else Agg(ZSet(rest)), Count(n))
  }

  lemma ZRemIs(st: State, z: Scores_, ms: seq<bytes>, rest: Scores_, n: nat)
    requires ZSetIn(st) == Some(z) && rest == z - SetOf(ms) && |z| == |rest| + n
    ensures ZRemOutcome(st, ms) ==
            (if n == 0 then st else if |rest| == 0 then Absent else Agg(ZSet(rest)), Count(n))
  {
    hide SetOf;
    assert |rest| == 0 <==> rest == map[];
  }

  lemma ZRemWrong(st: State, ms: seq<bytes>)
    requires ZSetIn(st) == None
    ensures ZRemOutcome(st, ms) == (st, Wrong)
  {}

  /** zRem: an emptied set is deleted, an unchanged one is not written. */
  method ZRem(s: Store, k: Key, ms: seq<bytes>, ghost st: State) returns (r: Answer)
    requires s.Valid() && k.db < s.dbs && Holds(s.eng, s.now, k, st)
    modifies s`eng, s`dict, s`pend
    ensures s.Valid() && OnlyTouches(s.eng, old(s.eng), k)
    ensures r == ZRemOutcome(st, ms).1 && Holds(s.eng, s.now, k, ZRemOutcome(st, ms).0)
    ensures old(Tallied(s.eng, s.now, k, st)) ==> Tallied(s.eng, s.now, k, ZRemOutcome(st, ms).0)
  {
    hide OnlyTouches, Inv, PendOk, ElemsOf, Holds, ElemsFor, StoredExpiry, WellFormed, SetOf, ZRemOutcome, CountOk;
    var l := LoadAgg(s, k, TYPE_ZSET, st);
    ghost var e0 := s.eng;
    if l.WrongType? {
      ZRemWrong(st, ms);
      return Wrong;
    }
    var a := l.a;
    if !a.present {
      assert a.coll.z - SetOf(ms) == a.coll.z;
      ZRemIs(st, a.coll.z, ms, a.coll.z, 0);
      return Count(0);
    }
    var z, n := RemoveEach(a.coll.z, ms);
    ZRemIs(st, a.coll.z, ms, z, n);
    if n == 0 { return Count(0); }
    if |z| == 0 {
      var _ := DeleteAny(s, k, st);
      TouchesTransitive(s.eng, e0, old(s.eng), k);
      return Count(n);
    }
    LoadedWellFormed(s.eng, s.now, k, st, a);
    FewerScores(a.coll.z, z);
    SaveAgg(s, k, a.(coll := ZSet(z)));
    TouchesTransitive(s.eng, e0, old(s.eng), k);
    return Count(n);
  }
}
