/** Cache transparency over whole runs. */
module Session {
  /*
   The specification is a plain map from keys to live records and a clock: it has no cache,
   no expiry index and no lazy deletion. Any run of string and expiry commands, clock
   advances, evictions, active expiry cycles, restarts and compactions of counter operands
   gives the replies of the specification.
   */
  import opened Bytes
  import opened Layout
  import opened Codec
  import opened Decimal
  import opened Engine
  import opened Records
  import opened DataPath
  import opened Strings
  import opened Merge
  import opened Expiry

  datatype Cmd =
    | Get(k: Key)
    | Set(k: Key, val: bytes, sopt: SetOption)
    | MSet(pairs: seq<KeyVal>)
    | Expire(k: Key, at: i64, eopt: ExpireOption)
    | Unexpire(k: Key)
    | DelKey(k: Key)
    | Incr(k: Key, d: i64)
    | Advance(to: i64)
    | EvictAny(victims: set<Key>)
    | Reap(limit: nat)
    | Restart
    | Fold(k: Key, lo: nat, hi: nat, order: seq<bytes>)

  // ---------- the specification ----------

  datatype World = World(m: map<Key, Record>, now: i64)

  function At(w: World, k: Key): Option<Record> { if k in w.m then Some(w.m[k]) else None }

  function Become(w: World, k: Key, r: Option<Record>): World
  {
    w.(m := match r case None => w.m - {k} case Some(v) => w.m[k := v])
  }

  function SetAll(w: World, pairs: seq<KeyVal>): World
  {
    if pairs == [] then w else
    var p := pairs[|pairs| - 1];
    Become(SetAll(w, pairs[..|pairs| - 1]), p.key, Some(Record(TYPE_STRING, 0, p.val)))
  }

  function Later(w: World, to: i64): World
  {
    World(map k | k in w.m && !Expired(w.m[k].exp, to) :: w.m[k], to)
  }

  function Apply1Key(w: World, k: Key, o: Outcome): (World, Reply) { (Become(w, k, o.live), o.reply) }

  function SpecStep(w: World, c: Cmd): (World, Reply)
  {
    match c
    case Get(k) => (w, Found(At(w, k)))
    case Set(k, val, opt) => Apply1Key(w, k, SetOutcome(At(w, k), w.now, val, opt))
    case MSet(pairs) => (SetAll(w, pairs), Done)
    case Expire(k, at, opt) => Apply1Key(w, k, ExpireOutcome(At(w, k), w.now, at, opt))
    case Unexpire(k) => Apply1Key(w, k, PersistOutcome(At(w, k)))
    case DelKey(k) => (Become(w, k, None), Number(if At(w, k).Some? then 1 else 0))
    case Incr(k, d) => Apply1Key(w, k, IncrOutcome(At(w, k), d))
    case Advance(to) => (Later(w, to), Done)
    case EvictAny(_) => (w, Done)
    case Reap(_) => (w, Done)
    case Restart => (w, Done)
    case Fold(_, _, _, _) => (w, Done)
  }

  /** A counter may hold up to 2^53 while the engine keeps its operands apart. A compaction
      rounds the sum of any group of them, so with compactions the bound is 2^52, where every
      such sum is still a double. */
  function Cap(folds: bool): int { if folds then EXACT / 2 else EXACT }

  /** Databases exist, the clock does not go back, counters stay within their bound. */
  predicate Allowed(w: World, c: Cmd, dbs: nat, folds: bool)
  {
    match c
    case Set(k, _, _) => k.db < dbs
    case MSet(pairs) => forall p | p in pairs :: p.key.db < dbs
    case Expire(k, _, _) => k.db < dbs
    case Unexpire(k) => k.db < dbs
    case Incr(k, d) => k.db < dbs && (Accepted(At(w, k), d) ==> InRange(CounterBase(At(w, k)).value, d, folds))
    case Advance(to) => w.now <= to
    case Fold(k, _, _, _) => folds && k.db < dbs
    case _ => true
  }

  predicate InRange(n: i64, d: i64, folds: bool)
  {
    Abs(n + d) <= Cap(folds) && (folds ==> Abs(n) <= Cap(folds))
  }

  function SpecRun(w: World, cmds: seq<Cmd>): (World, seq<Reply>)
  {
    if cmds == [] then (w, []) else
    var (w1, rs) := SpecRun(w, cmds[..|cmds| - 1]);
    var (w2, r) := SpecStep(w1, cmds[|cmds| - 1]);
    (w2, rs + [r])
  }

  ghost predicate AllAllowed(w: World, cmds: seq<Cmd>, dbs: nat, folds: bool)
  {
    forall i | 0 <= i < |cmds| :: Allowed(SpecRun(w, cmds[..i]).0, cmds[i], dbs, folds)
  }

  ghost predicate Represents(e: Db, now: i64, w: World)
  {
    w.now == now && forall k :: Live(e, now, k) == At(w, k)
  }

  // ---------- the pending operands of a run ----------

  /** What every operand so far added up to. */
  predicate Tame(log: seq<bytes>, folds: bool)
  {
    && Abs(Sum(log).sum) <= EXACT
    && (folds ==> forall i | 0 <= i <= |log| :: Abs(Sum(log[..i]).sum) <= Cap(folds))
  }

  ghost predicate AllTame(p: Pending, folds: bool) { forall k | k in p :: Tame(p[k], folds) }

  lemma FewerTame(p1: Pending, p0: Pending, folds: bool)
    requires AllTame(p0, folds) && forall k | k in p1 :: k in p0 && p1[k] == p0[k]
    ensures AllTame(p1, folds)
  {
    hide Tame;
  }

  lemma TameAppend(log: seq<bytes>, d: i64, folds: bool)
    requires folds && log != [] ==> Tame(log, folds) || (|log| == 1 && Abs(Sum(log).sum) <= Cap(folds))
    requires Abs(Sum(log).sum + d) <= Cap(folds)
    ensures Tame(log + [EncodeIntDelta(d)], folds)
  {
    hide Sum, EncodeIntDelta;
    IncrementAdds(log, d);
    NoSum();
    var log' := log + [EncodeIntDelta(d)];
    if folds {
      forall i | 0 <= i <= |log'| ensures Abs(Sum(log'[..i]).sum) <= Cap(folds) {
        if i == |log'| {
          assert log'[..i] == log';
        } else {
          assert log'[..i] == log[..i];
          if i == |log| { assert log[..i] == log; }
          if i == 0 { assert log[..i] == []; }
        }
      }
    }
  }

  /** A group of operands is the difference of two values the counter had. */
  lemma GroupDifference(log: seq<bytes>, lo: nat, hi: nat)
    requires lo <= hi <= |log|
    ensures Sum(log[lo..hi]).sum == Sum(log[..hi]).sum - Sum(log[..lo]).sum
  {
    hide Sum;
    assert log[..hi] == log[..lo] + log[lo..hi];
    SumAppend(log[..lo], log[lo..hi]);
  }

  lemma TameGroup(log: seq<bytes>, lo: nat, hi: nat)
    requires Tame(log, true) && lo <= hi <= |log|
    ensures IsDouble(Sum(log[lo..hi]).sum)
  {
    hide Sum, IsDouble;
    GroupDifference(log, lo, hi);
    Small(Sum(log[lo..hi]).sum);
    RoundKeeps(Sum(log[lo..hi]).sum);
  }

  /** Folding an exact group forgets some of the values the counter had. */
  lemma TameCompact(log: seq<bytes>, lo: nat, hi: nat, op: bytes)
    requires Tame(log, true) && lo < hi <= |log| && Sum([op]).sum == Sum(log[lo..hi]).sum
    ensures Tame(log[..lo] + [op] + log[hi..], true)
  {
    hide Sum;
    var log' := log[..lo] + [op] + log[hi..];
    forall i | 0 <= i <= |log'| ensures Abs(Sum(log'[..i]).sum) <= Cap(true) {
      if i <= lo {
        assert log'[..i] == log[..i];
      } else {
        FoldedPrefix(log, lo, hi, op, i);
      }
    }
    assert log'[..|log'|] == log';
  }

  lemma FoldedPrefix(log: seq<bytes>, lo: nat, hi: nat, op: bytes, i: nat)
    requires lo < hi <= |log| && Sum([op]).sum == Sum(log[lo..hi]).sum && lo < i <= |log| - (hi - lo) + 1
    ensures Sum((log[..lo] + [op] + log[hi..])[..i]).sum == Sum(log[..i + (hi - lo) - 1]).sum
  {
    hide Sum;
    var j := i + (hi - lo) - 1;
    assert (log[..lo] + [op] + log[hi..])[..i] == log[..lo] + [op] + log[hi..j];
    assert log[..j] == log[..lo] + log[lo..hi] + log[hi..j];
    SumAppend(log[..lo] + [op], log[hi..j]);
    SumAppend(log[..lo], [op]);
    SumAppend(log[..lo] + log[lo..hi], log[hi..j]);
    SumAppend(log[..lo], log[lo..hi]);
  }

  /** Above 2^52 a compaction can change a counter: after SET k -2^53 and INCRBY k 2^53+1 the
      key reads 1, and folding the one operand leaves 0. */
  lemma FoldLosesAbove(base: bytes, op: bytes)
    requires base == Encoded(Share(-EXACT, 0)) && op == EncodeIntDelta(EXACT + 1)
    ensures var log' := Next([base, op], Compact(1, 2, [op]));
            RoundF64(Sum([base, op]).sum) == 1 && RoundF64(Sum(log').sum) == 0
  {
    hide Sum, Encoded, EncodeIntDelta, RoundF64, MergeGroup;
    var log := [base, op];
    assert log == [base] + [op] && log[1..2] == [op];
    Small(-EXACT);
    EncodedShare(Share(-EXACT, 0));
    SumOne(base);
    OneOf(base);
    NoSum();
    IncrementAdds([base], EXACT + 1);
    IncrementAdds([], EXACT + 1);
    assert [] + [op] == [op];
    assert AllCountable(log) by { DeltaShare(EXACT + 1); }
    CompactKeeps(log, 1, 2, [op]);
    RoundHalf();
    Small(1);
    Small(0);
  }

  lemma RoundHalf()
    ensures RoundF64(EXACT + 1) == EXACT
  {}

  // ---------- one command ----------

  lemma KeyStep(e1: Db, e0: Db, w: World, k: Key, r: Option<Record>)
    requires Represents(e0, w.now, w) && Stepped(e1, e0, w.now, k, r)
    ensures Represents(e1, w.now, Become(w, k, r))
  {
    hide OnlyTouches, Live;
    forall k' ensures Live(e1, w.now, k') == At(Become(w, k, r), k') {
      if k' != k { OthersSameLive(e1, e0, k, w.now); }
    }
  }

  lemma {:induction false} SetAllAt(w: World, pairs: seq<KeyVal>, k: Key)
    ensures SetAll(w, pairs).now == w.now
    ensures At(SetAll(w, pairs), k) ==
            match LastValue(pairs, k) case Some(v) => Some(Record(TYPE_STRING, 0, v)) case None => At(w, k)
  {
    if pairs != [] { SetAllAt(w, pairs[..|pairs| - 1], k); }
  }

  lemma MSetStepRepresents(e1: Db, e0: Db, w: World, pairs: seq<KeyVal>)
    requires Represents(e0, w.now, w) && AllSet(e1, e0, pairs)
    ensures Represents(e1, w.now, SetAll(w, pairs))
  {
    hide RecAt;
    SetAllAt(w, pairs, Key(0, []));
    forall k ensures Live(e1, w.now, k) == At(SetAll(w, pairs), k) { SetAllAt(w, pairs, k); }
  }

  lemma LaterRepresents(e: Db, w: World, to: i64)
    requires Represents(e, w.now, w) && w.now <= to
    ensures Represents(e, to, Later(w, to))
  {
    hide RecAt;
    forall k ensures Live(e, to, k) == At(Later(w, to), k) { assert Live(e, w.now, k) == At(w, k); }
  }

  /** The implementation's answer to one command is the specification's. */
  method Execute(s: Store, c: Cmd, ghost w: World, ghost folds: bool) returns (reply: Reply)
    requires s.Valid() && s.dbs <= U16 && Represents(s.eng, s.now, w) && Allowed(w, c, s.dbs, folds)
    requires AllTame(s.pend, folds)
    modifies s
    ensures s.Valid() && AllTame(s.pend, folds)
    ensures reply == SpecStep(w, c).1
    ensures Represents(s.eng, s.now, SpecStep(w, c).0)
  {
    hide Inv, PendOk, OnlyTouches, Live, SetOutcome, ExpireOutcome, PersistOutcome, IncrActual, IncrOutcome, RecAt,
         Become, SetAll, Later, AllSet, Gone, AllDue, TimePrefix, Settled, CounterBase, Due, Tame, AllTame, Accepted;
    ghost var p0 := s.pend;
    match c
    case Get(k) =>
      var r := s.GetTyped(k);
      ReadStep(old(s.eng), w, k, s.dbs) by { InvHasIndex(old(s.eng), old(s.dict), s.dbs); }
      FewerTame(s.pend, p0, folds);
      return Found(r);
    case Set(k, val, opt) =>
      reply := SetString(s, k, val, opt);
      KeyStep(s.eng, old(s.eng), w, k, SetOutcome(At(w, k), w.now, val, opt).live);
      FewerTame(s.pend, p0, folds);
    case MSet(pairs) =>
      MSetPairs(s, pairs);
      MSetStepRepresents(s.eng, old(s.eng), w, pairs);
      FewerTame(s.pend, p0, folds);
      return Done;
    case Expire(k, at, opt) =>
      reply := SetExpiry(s, k, at, opt);
      KeyStep(s.eng, old(s.eng), w, k, ExpireOutcome(At(w, k), w.now, at, opt).live);
      FewerTame(s.pend, p0, folds);
    case Unexpire(k) =>
      reply := Persist(s, k);
      KeyStep(s.eng, old(s.eng), w, k, PersistOutcome(At(w, k)).live);
      FewerTame(s.pend, p0, folds);
    case DelKey(k) =>
      reply := Delete(s, k);
      KeyStep(s.eng, old(s.eng), w, k, None);
      FewerTame(s.pend, p0, folds);
    case Incr(k, d) =>
      reply := ExecuteIncr(s, k, d, w, folds);
    case Fold(k, lo, hi, order) =>
      if CanFold(s.pend, k, lo, hi, order) { ExecuteFold(s, k, lo, hi, order); }
      return Done;
    case _ =>
      reply := ExecuteSilent(s, c, w, folds);
  }

  /** The clock, eviction, active expiry and a restart. */
  method ExecuteSilent(s: Store, c: Cmd, ghost w: World, ghost folds: bool) returns (reply: Reply)
    requires c.Advance? || c.EvictAny? || c.Reap? || c.Restart?
    requires s.Valid() && s.dbs <= U16 && Represents(s.eng, s.now, w) && Allowed(w, c, s.dbs, folds)
    requires AllTame(s.pend, folds)
    modifies s
    ensures s.Valid() && AllTame(s.pend, folds)
    ensures reply == SpecStep(w, c).1
    ensures Represents(s.eng, s.now, SpecStep(w, c).0)
  {
    hide Inv, PendOk, OnlyTouches, Live, RecAt, Later, Gone, AllDue, TimePrefix, Settled, CounterBase, Due, Tame,
         AllTame;
    ghost var p0 := s.pend;
    match c
    case Advance(to) =>
      LaterRepresents(s.eng, w, to);
      s.now := to;
      return Done;
    case EvictAny(victims) =>
      s.Evict(victims);
      return Done;
    case Reap(limit) =>
      var n, reaped := Cycle(s, limit);
      GoneKeepsLive(s.eng, old(s.eng), reaped, s.now);
      FewerTame(s.pend, p0, folds);
      return Done;
    case Restart =>
      s.Evict(s.dict.Keys);
      assert s.dict == map[];
      LoadAll(s);
      LoadedKeepsLive(s.eng, old(s.eng), s.now);
      FewerTame(s.pend, p0, folds);
      return Done;
  }

  /** With tame operands a compaction shows nothing. */
  method ExecuteFold(s: Store, k: Key, lo: nat, hi: nat, order: seq<bytes>)
    requires s.Valid() && k.db < s.dbs && CanFold(s.pend, k, lo, hi, order) && AllTame(s.pend, true)
    modifies s`eng, s`pend
    ensures s.Valid() && AllTame(s.pend, true) && s.eng == old(s.eng)
  {
    hide Inv, PendOk, OnlyTouches, Tame, Sum, MergeGroup, IsDouble, IndexExact, RoundF64;
    ghost var log, p0 := s.pend[k], s.pend;
    PendingHere(s.eng, s.pend, k);
    TameGroup(log, lo, hi);
    CompactLog(s, k, lo, hi, order);
    assert order != [] by { assert |multiset(order)| == hi - lo; }
    FoldedOperand(log, lo, hi, order);
    TameCompact(log, lo, hi, MergeGroup(order));
    ghost var p1 := s.pend;
    forall k' | k' in p1 ensures Tame(p1[k'], true) {
      if k' != k { assert k' in p0 && p1[k'] == p0[k']; }
    }
  }

  lemma FoldedOperand(log: seq<bytes>, lo: nat, hi: nat, order: seq<bytes>)
    requires AllCountable(log) && lo < hi <= |log| && multiset(order) == multiset(log[lo..hi]) && order != []
    requires IsDouble(Sum(log[lo..hi]).sum)
    ensures Sum([MergeGroup(order)]).sum == Sum(log[lo..hi]).sum
  {
    hide Sum, MergeGroup, IsDouble, RoundF64;
    var group := log[lo..hi];
    assert group[..0] + [MergeGroup(order)] + group[|group|..] == [MergeGroup(order)];
    assert group[0..|group|] == group;
    CompactKeeps(group, 0, |group|, order);
  }

  method ExecuteIncr(s: Store, k: Key, d: i64, ghost w: World, ghost folds: bool) returns (reply: Reply)
    requires s.Valid() && Represents(s.eng, s.now, w) && Allowed(w, Incr(k, d), s.dbs, folds)
    requires AllTame(s.pend, folds)
    modifies s`eng, s`dict, s`pend
    ensures s.Valid() && AllTame(s.pend, folds)
    ensures reply == IncrOutcome(At(w, k), d).reply
    ensures Represents(s.eng, s.now, Become(w, k, IncrOutcome(At(w, k), d).live))
  {
    hide Inv, PendOk, OnlyTouches, Live, IncrActual, IncrOutcome, RecAt, Become, LateOverflow, Tame, AllTame, LogOf,
         Accepted, TotalOf, EncodeIntDelta;
    ghost var p0, log, total := s.pend, LogOf(s.eng, s.pend, s.now, k), TotalOf(s.eng, s.pend, s.now, k);
    IncrTame(s.eng, s.pend, s.now, k, d, folds);
    reply := IncrBy(s, k, d);
    if Accepted(At(w, k), d) {
      assert s.pend == p0[k := log + [EncodeIntDelta(d)]];
    } else {
      Refused(At(w, k), total, d);
      FewerTame(s.pend, p0, folds);
    }
    KeyStep(s.eng, old(s.eng), w, k, IncrOutcome(At(w, k), d).live);
  }

  lemma IncrTame(e: Db, p: Pending, now: i64, k: Key, d: i64, folds: bool)
    requires PendOk(e, p) && AllTame(p, folds) && now >= 0
    requires Accepted(Live(e, now, k), d) ==> InRange(CounterBase(Live(e, now, k)).value, d, folds)
    ensures var cur, total := Live(e, now, k), TotalOf(e, p, now, k);
            && (Accepted(cur, d) ==> IncrActual(cur, total, d) == IncrOutcome(cur, d) && !LateOverflow(cur, total, d))
            && (Accepted(cur, d) ==> AllTame(p[k := LogOf(e, p, now, k) + [EncodeIntDelta(d)]], folds))
  {
    hide PendOk, RecAt, RoundF64, IncrActual, IncrOutcome, Tame, LogOf, Sum, EncodeIntDelta, AllCountable, ParseInt64;
    var cur := Live(e, now, k);
    if Accepted(cur, d) {
      ReadBase(e, p, now, k);
      TameTotal(e, p, now, k, d, folds);
      IncrExact(cur, TotalOf(e, p, now, k), d);
      var p' := p[k := LogOf(e, p, now, k) + [EncodeIntDelta(d)]];
      forall k' | k' in p' ensures Tame(p'[k'], folds) {
        if k' != k { assert k' in p && p'[k'] == p[k']; }
      }
    }
  }

  lemma TameTotal(e: Db, p: Pending, now: i64, k: Key, d: i64, folds: bool)
    requires PendOk(e, p) && AllTame(p, folds) && now >= 0
    requires Accepted(Live(e, now, k), d) && InRange(CounterBase(Live(e, now, k)).value, d, folds)
    ensures TotalOf(e, p, now, k) == CounterBase(Live(e, now, k)).value
    ensures Tame(LogOf(e, p, now, k) + [EncodeIntDelta(d)], folds)
  {
    hide PendOk, RecAt, RoundF64, Sum, EncodeIntDelta, AllCountable, ParseInt64, Tame;
    ReadBase(e, p, now, k);
    var log := LogOf(e, p, now, k);
    if Live(e, now, k).Some? && k in p {
      TameSum(log, folds);
      Small(Sum(log).sum);
    } else {
      UnpendedTotal(e, p, now, k);
    }
    TameAppend(log, d, folds);
  }

  lemma Refused(cur: Option<Record>, total: int, d: i64)
    requires !Accepted(cur, d)
    ensures IncrActual(cur, total, d) == IncrOutcome(cur, d) && !LateOverflow(cur, total, d)
  {
    IncrRefused(cur, total, d);
  }

  lemma TameSum(log: seq<bytes>, folds: bool)
    requires Tame(log, folds)
    ensures Abs(Sum(log).sum) <= EXACT
  {}

  lemma ReadStep(e: Db, w: World, k: Key, dbs: nat)
    requires IndexExact(e, dbs) && Represents(e, w.now, w)
    ensures Represents(Settled(e, w.now, k), w.now, w) && Live(e, w.now, k) == At(w, k)
  {
    hide Live, Settled;
    forall k' ensures Live(Settled(e, w.now, k), w.now, k') == At(w, k') {
      SettledInvisible(e, w.now, k, dbs, k');
    }
  }

  // ---------- whole runs ----------

  /** Cache transparency: every run answers as the map without cache or index does. */
  method Run(s: Store, cmds: seq<Cmd>, ghost w: World, ghost folds: bool) returns (replies: seq<Reply>)
    requires s.Valid() && s.dbs <= U16 && Represents(s.eng, s.now, w) && AllAllowed(w, cmds, s.dbs, folds)
    requires AllTame(s.pend, folds)
    modifies s
    ensures s.Valid() && AllTame(s.pend, folds)
    ensures replies == SpecRun(w, cmds).1
    ensures Represents(s.eng, s.now, SpecRun(w, cmds).0)
  {
    hide Inv, PendOk, Represents, SpecStep, Allowed, AllTame;
    replies := [];
    assert cmds[..0] == [];
    for i := 0 to |cmds|
      invariant s.Valid() && AllTame(s.pend, folds) && Represents(s.eng, s.now, SpecRun(w, cmds[..i]).0)
      invariant replies == SpecRun(w, cmds[..i]).1
    {
      assert Allowed(SpecRun(w, cmds[..i]).0, cmds[i], s.dbs, folds);
      var r := Execute(s, cmds[i], SpecRun(w, cmds[..i]).0, folds);
      assert cmds[..i + 1][..i] == cmds[..i];
      replies := replies + [r];
    }
    assert cmds[..|cmds|] == cmds;
  }
}
