/** Whole runs over a keyspace of collections. */
module Keyspace {
  /*
   The specification maps every key to nothing, a string, a plain map, set, scored set or
   sequence. It knows no inline or sparse form, no element keys, no score index, no header,
   no cache and no expiry index. Any run of collection commands on any keys, with reads,
   deletions, evictions, clock advances, expiry cycles and restarts in between, answers as
   the specification does.
   */
  import opened Bytes
  import opened Layout
  import opened Codec
  import opened Engine
  import opened Records
  import opened DataPath
  import opened Collections
  import opened Aggregates
  import opened Hashes
  import opened ZSets
  import opened Sequences
  import opened Lists
  import opened Expiry

  datatype Cmd =
    | HSet(k: Key, pairs: seq<FieldValue>, nx: bool)
    | HDel(k: Key, names: seq<bytes>)
    | SAdd(k: Key, names: seq<bytes>)
    | SRem(k: Key, names: seq<bytes>)
    | ZAddTo(k: Key, ms: seq<ZMember>, opt: ZOpt)
    | ZRemFrom(k: Key, names: seq<bytes>)
    | RPush(k: Key, elems: seq<bytes>, onlyIfExists: bool)
    | PopEnd(k: Key, count: nat, left: bool)
    | LSet(k: Key, index: int, v: bytes)
    | LTrim(k: Key, start: int, stop: int)
    | LRange(k: Key, start: int, stop: int)
    | ReadAll(k: Key, typ: byte)
    | DelKey(k: Key)
    | Advance(to: i64)
    | EvictAny(victims: set<Key>)
    | Reap(limit: nat)
    | Restart

  // ---------- the specification ----------

  datatype Space = Space(m: map<Key, State>, now: i64)

  type Sum = (u64, u64) -> u64

  function At(w: Space, k: Key): State { if k in w.m then w.m[k] else Absent }

  function RPushOutcome(st: State, elems: seq<bytes>, onlyIfExists: bool): (State, Answer)
  {
    match ListIn(st)
    case None => (st, Wrong)
    case Some(xs) =>
      if onlyIfExists && st.Absent? then (st, Count(0))
      else (Pushed(st, elems, xs + elems), Count(|xs + elems|))
  }

  function ReadOutcome(st: State, typ: byte): Answer
    requires IsCollType(typ)
  {
    match st
    case Absent => Contents(Empty(typ))
    case Agg(c) => if TypeOf(c) == typ then Contents(c) else Wrong
    case _ => Wrong
  }

  function KeyOutcome(st: State, c: Cmd, add: Sum): (State, Answer)
    requires c.ReadAll? ==> IsCollType(c.typ)
  {
    match c
    case HSet(_, pairs, nx) => HSetOutcome(st, pairs, nx)
    case HDel(_, names) => HDelOutcome(st, names)
    case SAdd(_, names) => SAddOutcome(st, names)
    case SRem(_, names) => SRemOutcome(st, names)
    case ZAddTo(_, ms, opt) => ZOutcome(st, ms, opt, add)
    case ZRemFrom(_, names) => ZRemOutcome(st, names)
    case RPush(_, elems, x) => RPushOutcome(st, elems, x)
    case PopEnd(_, n, left) => PopOutcome(st, n, left)
    case LSet(_, i, v) => SetAtOutcome(st, i, v)
    case LTrim(_, a, b) => TrimOutcome(st, a, b)
    case LRange(_, a, b) => (st, match ListIn(st) case None => Wrong case Some(xs) => Items(Slice(xs, a, b)))
    case ReadAll(_, typ) => (st, ReadOutcome(st, typ))
    case DelKey(_) => (Absent, Count(if st.Absent? then 0 else 1))
    case _ => (st, Done)
  }

  predicate IsKeyCmd(c: Cmd) { !c.Advance? && !c.EvictAny? && !c.Reap? && !c.Restart? }

  /** Strings whose time has come are gone. */
  function Later(w: Space, to: i64): Space
  {
    Space(map k | k in w.m && !(w.m[k].Str? && Expired(w.m[k].r.exp, to)) :: w.m[k], to)
  }

  function Step(w: Space, c: Cmd, add: Sum): (Space, Answer)
    requires c.ReadAll? ==> IsCollType(c.typ)
  {
    if IsKeyCmd(c) then
      var (st, a) := KeyOutcome(At(w, c.k), c, add);
      (w.(m := w.m[c.k := st]), a)
    else if c.Advance? then (Later(w, c.to), Done)
    else (w, Done)
  }

  /** Keys hold no zero byte and name an existing database; names and scores are of the
      storable kind; members of one ZADD are distinct, new fields of one HSETNX are; fewer
      than 2^63 pushes per list. */
  ghost predicate Allowed(w: Space, c: Cmd, dbs: nat)
  {
    && (c.ReadAll? ==> IsCollType(c.typ))
    && (IsKeyCmd(c) ==> c.k.db < dbs && NulFree(c.k.name))
    && match c
       case HSet(_, pairs, nx) => (nx ==> NoRepeats(At(w, c.k), c)) && forall p | p in pairs :: |p.f| < U16
       case SAdd(_, names) => forall x | x in names :: |x| < U16
       case ZAddTo(_, ms, _) => DistinctMembers(ms) && PlainMembers(ms)
       case RPush(k, elems, _) => TopOf(At(w, k)) + |elems| <= I63
       case Advance(to) => w.now <= to
       case _ => true
  }

  /** No new field or member is given twice, so that the in-place count is right. */
  predicate NoRepeats(st: State, c: Cmd)
  {
    && (c.HSet? && HashIn(st).Some? ==> NewOnce(HashIn(st).value.Keys, Fields(c.pairs)))
    && (c.SAdd? && SetIn(st).Some? ==> NewOnce(SetIn(st).value, c.names))
  }

  predicate OnceOnly(w: Space, c: Cmd) { IsKeyCmd(c) ==> NoRepeats(At(w, c.k), c) }

  /** The reply is the specification's; in place, a call that repeats a new element may
      count it more than once. */
  predicate RightReply(once: bool, r: Answer, want: Answer) { once || !want.Count? ==> r == want }

  /** Every sparse header counts its collection. */
  ghost predicate AllTallied(e: Db, now: i64, w: Space)
  {
    forall k: Key | NulFree(k.name) :: Tallied(e, now, k, At(w, k))
  }

  ghost predicate Represents(e: Db, now: i64, w: Space)
  {
    w.now == now && forall k: Key | NulFree(k.name) :: Holds(e, now, k, At(w, k))
  }

  // ---------- one command ----------

  lemma KeyStep(e1: Db, e0: Db, w: Space, k: Key, st: State)
    requires Represents(e0, w.now, w) && OnlyTouches(e1, e0, k) && Holds(e1, w.now, k, st) && NulFree(k.name)
    ensures Represents(e1, w.now, w.(m := w.m[k := st]))
  {
    hide OnlyTouches, Holds;
    var w1 := w.(m := w.m[k := st]);
    forall k': Key | NulFree(k'.name) ensures Holds(e1, w.now, k', At(w1, k')) {
      if k' != k {
        OtherKeysKept(e1, e0, k, k');
        SameHolds(e1, e0, w.now, k', At(w, k'));
      }
    }
  }

  lemma TallyStep(e1: Db, e0: Db, w: Space, k: Key, st: State)
    requires AllTallied(e0, w.now, w) && OnlyTouches(e1, e0, k) && Tallied(e1, w.now, k, st) && NulFree(k.name)
    ensures AllTallied(e1, w.now, w.(m := w.m[k := st]))
  {
    hide OnlyTouches, CountOk, Live;
    var w1 := w.(m := w.m[k := st]);
    forall k': Key | NulFree(k'.name) ensures Tallied(e1, w.now, k', At(w1, k')) {
      assert Tallied(e0, w.now, k', At(w, k'));
      if k' != k { OthersSameLive(e1, e0, k, w.now); }
    }
  }

  lemma SameHolds(e1: Db, e0: Db, now: i64, k: Key, st: State)
    requires SameAt(e1, e0, DataKey(k)) && ElemsOf(e1, k) == ElemsOf(e0, k) && Holds(e0, now, k, st)
    ensures Holds(e1, now, k, st)
  {
    hide ElemsOf, Shape, ListShape, WellFormed, DecodeValue;
  }

  lemma LiveHolds(e1: Db, e0: Db, now: i64, w: Space)
    requires Represents(e0, now, w) && SameElems(e1, e0) && forall k :: Live(e1, now, k) == Live(e0, now, k)
    ensures Represents(e1, now, w) && (AllTallied(e0, now, w) ==> AllTallied(e1, now, w))
  {
    hide ElemsOf, Live, Shape, ListShape, WellFormed, CountOk;
    forall k: Key | NulFree(k.name) ensures Holds(e1, now, k, At(w, k)) {
      assert Holds(e0, now, k, At(w, k));
    }
  }

  lemma LaterHolds(e: Db, w: Space, to: i64)
    requires Represents(e, w.now, w) && w.now <= to
    ensures Represents(e, to, Later(w, to)) && (AllTallied(e, w.now, w) ==> AllTallied(e, to, Later(w, to)))
  {
    hide ElemsOf, Shape, ListShape, WellFormed, RecAt, CountOk;
    forall k: Key | NulFree(k.name)
      ensures Holds(e, to, k, At(Later(w, to), k))
      ensures Tallied(e, w.now, k, At(w, k)) ==> Tallied(e, to, k, At(Later(w, to), k))
    {
      assert Holds(e, w.now, k, At(w, k));
    }
  }

  lemma HeldAt(e: Db, now: i64, w: Space, k: Key)
    requires Represents(e, now, w) && NulFree(k.name)
    ensures Holds(e, now, k, At(w, k))
  {}

  lemma HSetShown(st: State, c: Cmd, sparse: bool)
    requires c.HSet? && (c.nx ==> NoRepeats(st, c))
    ensures HSetStored(st, c.pairs, c.nx, sparse).0 == HSetOutcome(st, c.pairs, c.nx).0
    ensures RightReply(NoRepeats(st, c), HSetStored(st, c.pairs, c.nx, sparse).1, HSetOutcome(st, c.pairs, c.nx).1)
    ensures NoRepeats(st, c) ==> HSetPlain(st, c.pairs, sparse)
  {
    hide NewOnce, SparsePut, PutPairs, Fields, Misses;
    HSetExactly(st, c.pairs, c.nx, sparse);
    if HashIn(st).Some? && (c.nx ==> NewOnce(HashIn(st).value.Keys, Fields(c.pairs))) {
      SparseIsPut(HashIn(st).value, c.pairs, c.nx);
    }
  }

  lemma SAddShown(st: State, c: Cmd, sparse: bool)
    requires c.SAdd?
    ensures SAddStored(st, c.names, sparse).0 == SAddOutcome(st, c.names).0
    ensures RightReply(NoRepeats(st, c), SAddStored(st, c.names, sparse).1, SAddOutcome(st, c.names).1)
    ensures NoRepeats(st, c) ==> SAddPlain(st, c.names, sparse)
  {
    hide NewOnce, Misses, SetOf;
    SAddExactly(st, c.names, sparse);
  }

  method ExecuteHash(s: Store, c: Cmd, add: Sum, ghost st: State) returns (r: Answer)
    requires s.Valid() && (c.HSet? || c.HDel? || c.DelKey?) && c.k.db < s.dbs && Holds(s.eng, s.now, c.k, st)
    requires c.HSet? ==> (c.nx ==> NoRepeats(st, c)) && forall p | p in c.pairs :: |p.f| < U16
    modifies s`eng, s`dict, s`pend
    ensures s.Valid() && OnlyTouches(s.eng, old(s.eng), c.k)
    ensures RightReply(NoRepeats(st, c), r, KeyOutcome(st, c, add).1) && Holds(s.eng, s.now, c.k, KeyOutcome(st, c, add).0)
    ensures NoRepeats(st, c) && old(Tallied(s.eng, s.now, c.k, st)) ==> Tallied(s.eng, s.now, c.k, KeyOutcome(st, c, add).0)
  {
    hide OnlyTouches, Inv, PendOk, Holds, HeaderCount, HSetStored, HSetPlain, NoRepeats, Misses, HSetOutcome,
         HDelOutcome, ZOutcome, PopOutcome, SetAtOutcome, TrimOutcome,
         SAddOutcome, SRemOutcome, ZRemOutcome, RPushOutcome, ReadOutcome, Slice, ListIn;
    match c
    case HSet(k, pairs, nx) =>
      HSetShown(st, c, HeaderCount(s.eng, s.now, k).Some?);
      r := HashSet(s, k, pairs, nx, st);
    case HDel(k, names) => r := HashDel(s, k, names, st);
    case DelKey(k) =>
      var found := DeleteAny(s, k, st);
      r := Count(if found then 1 else 0);
  }

  method ExecuteSet(s: Store, c: Cmd, add: Sum, ghost st: State) returns (r: Answer)
    requires s.Valid() && (c.SAdd? || c.SRem? || c.ZAddTo? || c.ZRemFrom?) && c.k.db < s.dbs
    requires Holds(s.eng, s.now, c.k, st) && PlainSum(add)
    requires c.SAdd? ==> forall x | x in c.names :: |x| < U16
    requires c.ZAddTo? ==> DistinctMembers(c.ms) && PlainMembers(c.ms)
    modifies s`eng, s`dict, s`pend
    ensures s.Valid() && OnlyTouches(s.eng, old(s.eng), c.k)
    ensures RightReply(NoRepeats(st, c), r, KeyOutcome(st, c, add).1) && Holds(s.eng, s.now, c.k, KeyOutcome(st, c, add).0)
    ensures NoRepeats(st, c) && old(Tallied(s.eng, s.now, c.k, st)) ==> Tallied(s.eng, s.now, c.k, KeyOutcome(st, c, add).0)
  {
    hide OnlyTouches, Inv, PendOk, Holds, HeaderCount, SAddStored, SAddPlain, NoRepeats, Misses, DistinctMembers, PlainMembers,
         PlainSum, ZOutcome, SAddOutcome, SRemOutcome, ZRemOutcome,
         PopOutcome, SetAtOutcome, TrimOutcome, HSetOutcome, HDelOutcome, RPushOutcome, ReadOutcome, Slice, ListIn;
    match c
    case SAdd(k, names) =>
      SAddShown(st, c, HeaderCount(s.eng, s.now, k).Some?);
      r := SetAdd(s, k, names, st);
    case SRem(k, names) => r := SetRem(s, k, names, st);
    case ZAddTo(k, ms, opt) => r := ZAddPlain(s, k, ms, opt, add, st);
    case ZRemFrom(k, names) => r := ZRem(s, k, names, st);
  }

  /** A list command leaves a collection only where it found one and refused. */
  lemma ListOutcome(st: State, c: Cmd, add: Sum)
    requires (c.RPush? || c.PopEnd? || c.LSet? || c.LTrim? || c.LRange? || c.ReadAll?) && (c.ReadAll? ==> IsCollType(c.typ))
    ensures KeyOutcome(st, c, add).0.Agg? ==> KeyOutcome(st, c, add).0 == st && ListIn(st) == None
  {}

  method ExecuteList(s: Store, c: Cmd, add: Sum, ghost st: State) returns (r: Answer)
    requires s.Valid() && (c.RPush? || c.PopEnd? || c.LSet? || c.LTrim? || c.LRange? || c.ReadAll?) && c.k.db < s.dbs
    requires Holds(s.eng, s.now, c.k, st)
    requires (c.RPush? ==> TopOf(st) + |c.elems| <= I63) && (c.ReadAll? ==> IsCollType(c.typ))
    modifies s`eng, s`dict, s`pend
    ensures s.Valid() && OnlyTouches(s.eng, old(s.eng), c.k)
    ensures r == KeyOutcome(st, c, add).1 && Holds(s.eng, s.now, c.k, KeyOutcome(st, c, add).0)
    ensures old(Tallied(s.eng, s.now, c.k, st)) ==> Tallied(s.eng, s.now, c.k, KeyOutcome(st, c, add).0)
  {
    hide OnlyTouches, Inv, PendOk, Holds, SetOf, Slice, PopOutcome, SetAtOutcome, TrimOutcome, Matches, ZOutcome, SAddOutcome,
         SRemOutcome, ZRemOutcome, HSetOutcome, HDelOutcome, Live, CountOk;
    ListOutcome(st, c, add);
    match c
    case RPush(k, elems, x) => r := PushRight(s, k, elems, x, st);
    case PopEnd(k, n, left) => r := Pop(s, k, n, left, st);
    case LSet(k, i, v) => r := SetAt(s, k, i, v, st);
    case LTrim(k, a, b) => r := Trim(s, k, a, b, st);
    case LRange(k, a, b) => r := Range(s, k, a, b, st);
    case ReadAll(k, typ) =>
      var l := LoadAgg(s, k, typ, st);
      r := if l.WrongType? then Wrong else Contents(l.a.coll);
  }

  /** The store's answer to one command is the specification's. */
  method Execute(s: Store, c: Cmd, add: Sum, ghost w: Space) returns (r: Answer)
    requires s.Valid() && s.dbs <= U16 && Represents(s.eng, s.now, w) && Allowed(w, c, s.dbs) && PlainSum(add)
    modifies s
    ensures s.Valid()
    ensures RightReply(OnceOnly(w, c), r, Step(w, c, add).1) && Represents(s.eng, s.now, Step(w, c, add).0)
    ensures OnceOnly(w, c) && old(AllTallied(s.eng, s.now, w)) ==> AllTallied(s.eng, s.now, Step(w, c, add).0)
  {
    hide OnlyTouches, Inv, PendOk, Holds, Represents, KeyOutcome, PlainSum, DistinctMembers, PlainMembers,
         NulFree, Gone, AllDue, TimePrefix, Due, SameElems, Later, Live, RecAt, AllTallied, Tallied, NoRepeats;
    if IsKeyCmd(c) {
      ghost var st := At(w, c.k);
      HeldAt(s.eng, s.now, w, c.k);
      SameClock(s.eng, s.now, w);
      if c.HSet? || c.HDel? || c.DelKey? {
        r := ExecuteHash(s, c, add, st);
      } else if c.SAdd? || c.SRem? || c.ZAddTo? || c.ZRemFrom? {
        r := ExecuteSet(s, c, add, st);
      } else {
        r := ExecuteList(s, c, add, st);
      }
      KeyStep(s.eng, old(s.eng), w, c.k, KeyOutcome(st, c, add).0);
      if OnceOnly(w, c) && old(AllTallied(s.eng, s.now, w)) {
        TalliedAt(old(s.eng), w, c.k);
        TallyStep(s.eng, old(s.eng), w, c.k, KeyOutcome(st, c, add).0);
      }
    } else {
      ExecuteOther(s, c, w);
      r := Done;
    }
  }

  lemma TalliedAt(e: Db, w: Space, k: Key)
    requires AllTallied(e, w.now, w) && NulFree(k.name)
    ensures Tallied(e, w.now, k, At(w, k))
  {}

  lemma SameClock(e: Db, now: i64, w: Space)
    requires Represents(e, now, w)
    ensures w.now == now
  {}

  method ExecuteOther(s: Store, c: Cmd, ghost w: Space)
    requires s.Valid() && s.dbs <= U16 && Represents(s.eng, s.now, w) && !IsKeyCmd(c)
    requires c.Advance? ==> w.now <= c.to
    modifies s
    ensures s.Valid()
    ensures Represents(s.eng, s.now, if c.Advance? then Later(w, c.to) else w)
    ensures old(AllTallied(s.eng, s.now, w)) ==> AllTallied(s.eng, s.now, if c.Advance? then Later(w, c.to) else w)
  {
    hide Inv, PendOk, Represents, Gone, AllDue, TimePrefix, Due, SameElems, Later, Live, RecAt, AllTallied;
    SameClock(s.eng, s.now, w);
    match c
    case Advance(to) =>
      LaterHolds(s.eng, w, to);
      s.now := to;
    case EvictAny(victims) =>
      s.Evict(victims);
    case Reap(limit) =>
      var n, reaped := Cycle(s, limit);
      GoneKeepsLive(s.eng, old(s.eng), reaped, s.now);
      GoneKeepsElems(s.eng, old(s.eng), reaped);
      LiveHolds(s.eng, old(s.eng), s.now, w);
    case Restart =>
      s.Evict(s.dict.Keys);
      assert s.dict == map[];
      LoadAll(s);
      LoadedKeepsLive(s.eng, old(s.eng), s.now);
      LiveHolds(s.eng, old(s.eng), s.now, w);
  }

  lemma GoneKeepsElems(e1: Db, e0: Db, gone: set<Key>)
    requires Gone(e1, e0, gone)
    ensures SameElems(e1, e0)
  {}

  // ---------- whole runs ----------

  predicate Typed(cmds: seq<Cmd>)
  {
    forall i | 0 <= i < |cmds| :: cmds[i].ReadAll? ==> IsCollType(cmds[i].typ)
  }

  function SpecRun(w: Space, cmds: seq<Cmd>, add: Sum): (Space, seq<Answer>)
    requires Typed(cmds)
  {
    if cmds == [] then (w, []) else
    var (w1, rs) := SpecRun(w, cmds[..|cmds| - 1], add);
    var (w2, r) := Step(w1, cmds[|cmds| - 1], add);
    (w2, rs + [r])
  }

  ghost predicate AllAllowed(w: Space, cmds: seq<Cmd>, dbs: nat, add: Sum)
  {
    Typed(cmds) && forall i | 0 <= i < |cmds| :: Allowed(SpecRun(w, cmds[..i], add).0, cmds[i], dbs)
  }

  lemma RunOne(w: Space, cmds: seq<Cmd>, add: Sum, i: nat)
    requires Typed(cmds) && i < |cmds|
    ensures var (w1, rs) := SpecRun(w, cmds[..i], add);
            SpecRun(w, cmds[..i + 1], add) == (Step(w1, cmds[i], add).0, rs + [Step(w1, cmds[i], add).1])
  {
    assert cmds[..i + 1][..i] == cmds[..i];
  }

  lemma RunNone(w: Space, cmds: seq<Cmd>, add: Sum)
    requires Typed(cmds)
    ensures SpecRun(w, cmds[..0], add) == (w, []) && cmds[..|cmds|] == cmds
  {}

  /** The state before the i-th command, and what the specification answers to it. */
  function Before(w: Space, cmds: seq<Cmd>, add: Sum, i: nat): Space
    requires Typed(cmds) && i <= |cmds|
  {
    SpecRun(w, cmds[..i], add).0
  }

  predicate RightAt(w: Space, cmds: seq<Cmd>, add: Sum, i: nat, r: Answer)
    requires Typed(cmds) && i < |cmds|
  {
    var w1 := Before(w, cmds, add, i);
    RightReply(OnceOnly(w1, cmds[i]), r, Step(w1, cmds[i], add).1)
  }

  predicate OnceAt(w: Space, cmds: seq<Cmd>, add: Sum, i: nat)
    requires Typed(cmds) && i < |cmds|
  {
    OnceOnly(Before(w, cmds, add, i), cmds[i])
  }

  /** The specification's replies, command by command. */
  lemma {:induction false} SpecReplies(w: Space, cmds: seq<Cmd>, add: Sum, i: nat)
    requires Typed(cmds) && i < |cmds|
    ensures |SpecRun(w, cmds, add).1| == |cmds|
    ensures SpecRun(w, cmds, add).1[i] == Step(Before(w, cmds, add, i), cmds[i], add).1
    decreases |cmds|
  {
    hide Step;
    var front := cmds[..|cmds| - 1];
    if i < |front| {
      SpecReplies(w, front, add, i);
      assert front[..i] == cmds[..i];
    } else {
      if front != [] { SpecReplies(w, front, add, 0); }
    }
  }

  /** Refinement of plain collections over every run. Every reply is the specification's,
      save the count of a call that repeats a new element; and while no call does, every
      sparse header counts its collection. */
  method Run(s: Store, cmds: seq<Cmd>, add: Sum, ghost w: Space) returns (replies: seq<Answer>)
    requires s.Valid() && s.dbs <= U16 && Represents(s.eng, s.now, w) && AllAllowed(w, cmds, s.dbs, add) && PlainSum(add)
    modifies s
    ensures s.Valid() && Represents(s.eng, s.now, SpecRun(w, cmds, add).0)
    ensures |replies| == |cmds| && forall i | 0 <= i < |cmds| :: RightAt(w, cmds, add, i, replies[i])
    ensures (forall i | 0 <= i < |cmds| :: OnceAt(w, cmds, add, i)) ==>
              replies == SpecRun(w, cmds, add).1 &&
              (old(AllTallied(s.eng, s.now, w)) ==> AllTallied(s.eng, s.now, SpecRun(w, cmds, add).0))
  {
    hide Inv, PendOk, Represents, Step, Allowed, PlainSum, AllTallied, OnceOnly, RightReply, SpecRun;
    replies := [];
    RunNone(w, cmds, add);
    for i := 0 to |cmds|
      invariant s.Valid() && Represents(s.eng, s.now, Before(w, cmds, add, i)) && |replies| == i
      invariant forall j | 0 <= j < i :: RightAt(w, cmds, add, j, replies[j])
      invariant (forall j | 0 <= j < i :: OnceAt(w, cmds, add, j)) && old(AllTallied(s.eng, s.now, w)) ==>
                  AllTallied(s.eng, s.now, Before(w, cmds, add, i))
    {
      assert Allowed(SpecRun(w, cmds[..i], add).0, cmds[i], s.dbs);
      var r := Execute(s, cmds[i], add, Before(w, cmds, add, i));
      RunOne(w, cmds, add, i);
      replies := replies + [r];
      assert Before(w, cmds, add, i + 1) == Step(Before(w, cmds, add, i), cmds[i], add).0;
      assert OnceAt(w, cmds, add, i) ==> OnceOnly(Before(w, cmds, add, i), cmds[i]);
    }
    if forall i | 0 <= i < |cmds| :: OnceAt(w, cmds, add, i) { AllRight(w, cmds, add, replies); }
  }

  lemma AllRight(w: Space, cmds: seq<Cmd>, add: Sum, replies: seq<Answer>)
    requires Typed(cmds) && |replies| == |cmds|
    requires forall i | 0 <= i < |cmds| :: RightAt(w, cmds, add, i, replies[i]) && OnceAt(w, cmds, add, i)
    ensures replies == SpecRun(w, cmds, add).1
  {
    hide Step, SpecRun, OnceOnly, Before;
    if cmds == [] {
      RunNone(w, cmds, add);
      assert cmds[..0] == cmds;
    } else {
      SpecReplies(w, cmds, add, 0);
    }
    forall i | 0 <= i < |cmds| ensures replies[i] == SpecRun(w, cmds, add).1[i] {
      SpecReplies(w, cmds, add, i);
      assert RightAt(w, cmds, add, i, replies[i]) && OnceAt(w, cmds, add, i);
    }
  }

  // ---------- what every reached state shows in the engine ----------

  /** Both indexes of a sorted set agree entry by entry, and score keys belong to nothing
      but sorted sets that have the member at that score. */
  lemma IndexesAgree(e: Db, now: i64, w: Space, k: Key, score: u64, m: bytes)
    requires Represents(e, now, w) && NulFree(k.name)
    ensures ScoreKey(k, score, m) in e <==>
              ElemKey(SEG_ZSET_M, k, m) in e && e[ElemKey(SEG_ZSET_M, k, m)] == ScoreBytes(score)
    ensures ScoreKey(k, score, m) in e ==>
              At(w, k).Agg? && At(w, k).c.ZSet? && m in At(w, k).c.z && At(w, k).c.z[m] == score
  {
    hide Holds, ScoreKey, ElemKey, ScoreBytes;
    DoubleIndex(e, now, k, At(w, k), score, m);
  }

  /** A key that is absent, a string, or stored inline has no element key in any segment. */
  lemma NoLeftovers(e: Db, now: i64, w: Space, k: Key, seg: byte, x: bytes)
    requires Represents(e, now, w) && NulFree(k.name) && IsSeg(seg)
    requires Live(e, now, k).Some? && Live(e, now, k).value.typ != TYPE_STRING ==> !IsSparse(Live(e, now, k).value.payload)
    ensures ElemKey(seg, k, x) !in e
  {
    hide Live, ElemKey, ElemsOf, ParseColl, ParseList, WellFormed;
    assert Holds(e, now, k, At(w, k));
    assert ElemsOf(e, k) == NO_ELEMS;
    NoSuchElem(e, k, seg, x);
  }

  lemma NoSuchElem(e: Db, k: Key, seg: byte, x: bytes)
    requires ElemsOf(e, k) == NO_ELEMS && IsSeg(seg)
    ensures ElemKey(seg, k, x) !in e
  {
    hide ElemPrefix, Sub;
    AtSub(e, seg, k, x);
  }
}
