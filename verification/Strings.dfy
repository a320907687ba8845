/**
 String commands and the expiry commands over the data path. Each is specified by an
 outcome on the live record of one key, written without any cache, index or lazy
 deletion; the methods are the cached, indexed code and agree with it. INCR appends a
 merge operand instead of writing a value, so its outcome goes through the merge
 operator and its rounding.
 */
module Strings {
  import opened Bytes
  import opened Layout
  import opened Codec
  import opened Decimal
  import opened Engine
  import opened Records
  import opened DataPath
  import opened Merge

  /** SET options, with the expiry options resolved to an absolute time (0 for none). */
  datatype SetOption = SetOption(nx: bool, xx: bool, keepTtl: bool, get: bool, at: i64)

  datatype ExpireOption = ExpireOption(nx: bool, xx: bool, gt: bool, lt: bool)

  datatype Reply =
    | Found(r: Option<Record>)
    | Wrote(prev: Option<bytes>, written: bool)
    | Number(n: int)
    | Done
    | WrongType
    | NotInteger
    | Overflow

  datatype Outcome = Outcome(live: Option<Record>, reply: Reply)

  /** One key now holds `r` as its live record, and no other key changed. */
  ghost predicate Stepped(e1: Db, e0: Db, now: i64, k: Key, r: Option<Record>)
  {
    OnlyTouches(e1, e0, k) && Live(e1, now, k) == r
  }

  // ---------- outcomes ----------

  function SetOutcome(cur: Option<Record>, now: i64, val: bytes, opt: SetOption): Outcome
  {
    var prev := if cur.Some? then Some(cur.value.payload) else None;
    if cur.Some? && opt.get && cur.value.typ != TYPE_STRING then Outcome(cur, WrongType)
    else if (opt.nx && cur.Some?) || (opt.xx && cur.None?) then Outcome(cur, Wrote(prev, false))
    else
      var exp := if !opt.keepTtl then opt.at else if cur.Some? then cur.value.exp else 0;
      Outcome(if Expired(exp, now) then None else Some(Record(TYPE_STRING, exp, val)), Wrote(prev, true))
  }

  function ExpireOutcome(cur: Option<Record>, now: i64, at: i64, opt: ExpireOption): Outcome
  {
    if cur.None? then Outcome(None, Number(0)) else
    var exp := cur.value.exp;
    var limit := if exp == 0 then I63 - 1 else exp;
    if (opt.nx && exp != 0) || (opt.xx && exp == 0) || (opt.gt && at <= limit) || (opt.lt && at >= limit)
    then Outcome(cur, Number(0))
    else if at <= now then Outcome(None, Number(1))
    else Outcome(Some(cur.value.(exp := at)), Number(1))
  }

  function PersistOutcome(cur: Option<Record>): Outcome
  {
    if cur.None? || cur.value.exp == 0 then Outcome(cur, Number(0))
    else Outcome(Some(cur.value.(exp := 0)), Number(1))
  }

  /** The integer an INCR starts from. */
  function CounterBase(cur: Option<Record>): Option<i64>
  {
    if cur.None? then Some(0) else if cur.value.typ != TYPE_STRING then None else ParseInt64(cur.value.payload)
  }

  predicate SumFits(n: i64, d: i64) { -I63 <= n + d < I63 }

  /** INCR as promised: exact addition that keeps the expiry. */
  function IncrOutcome(cur: Option<Record>, d: i64): Outcome
  {
    if cur.Some? && cur.value.typ != TYPE_STRING then Outcome(cur, WrongType)
    else if CounterBase(cur).None? then Outcome(cur, NotInteger)
    else
      var n := CounterBase(cur).value;
      if !SumFits(n, d) then Outcome(cur, Overflow)
      else
        Outcome(Some(Record(TYPE_STRING, if cur.Some? then cur.value.exp else 0, FormatInt(n + d))), Number(n + d))
  }

  // ---------- the commands ----------

  method SetString(s: Store, k: Key, val: bytes, opt: SetOption) returns (reply: Reply)
    requires s.Valid() && k.db < s.dbs
    modifies s`eng, s`dict, s`pend
    ensures s.Valid()
    ensures var o := SetOutcome(Live(old(s.eng), s.now, k), s.now, val, opt);
            reply == o.reply && Stepped(s.eng, old(s.eng), s.now, k, o.live)
    ensures s.pend == old(s.pend) || s.pend == old(s.pend) - {k}
  {
    hide PendOk, Owned, Sub, DropBatch, PutBatch, Apply, EntryOk, ElemsOf;
    SettledOk(s.eng, s.now, k, s.dbs);
    var cur := s.GetTyped(k);
    ghost var e0 := s.eng;
    if cur.Some? && opt.get && cur.value.typ != TYPE_STRING { return WrongType; }
    var prev := if cur.Some? then Some(cur.value.payload) else None;
    if opt.nx && cur.Some? { return Wrote(prev, false); }
    if opt.xx && cur.None? { return Wrote(prev, false); }
    var prevExpire := if cur.Some? then cur.value.exp else 0;
    var exp := if opt.keepTtl then prevExpire else opt.at;
    if Expired(exp, s.now) {
      var _ := s.DeleteKey(k);
    } else {
      s.PutValue(k, Record(TYPE_STRING, exp, val), prevExpire);
    }
    TouchesTransitive(s.eng, e0, old(s.eng), k);
    return Wrote(prev, true);
  }

  method SetExpiry(s: Store, k: Key, at: i64, opt: ExpireOption) returns (reply: Reply)
    requires s.Valid() && k.db < s.dbs
    modifies s`eng, s`dict, s`pend
    ensures s.Valid()
    ensures var o := ExpireOutcome(Live(old(s.eng), s.now, k), s.now, at, opt);
            reply == o.reply && Stepped(s.eng, old(s.eng), s.now, k, o.live)
    ensures s.pend == old(s.pend) || s.pend == old(s.pend) - {k}
  {
    hide PendOk, Owned, Sub, DropBatch, PutBatch, Apply, EntryOk, ElemsOf;
    SettledOk(s.eng, s.now, k, s.dbs);
    var cur := s.GetTyped(k);
    ghost var e0 := s.eng;
    if cur.None? { return Number(0); }
    var limit := if cur.value.exp == 0 then I63 - 1 else cur.value.exp;
    if opt.nx && cur.value.exp != 0 { return Number(0); }
    if opt.xx && cur.value.exp == 0 { return Number(0); }
    if opt.gt && at <= limit { return Number(0); }
    if opt.lt && at >= limit { return Number(0); }
    if at <= s.now {
      var _ := s.DeleteKey(k);
    } else {
      s.PutValue(k, cur.value.(exp := at), cur.value.exp);
    }
    TouchesTransitive(s.eng, e0, old(s.eng), k);
    return Number(1);
  }

  method Persist(s: Store, k: Key) returns (reply: Reply)
    requires s.Valid() && k.db < s.dbs
    modifies s`eng, s`dict, s`pend
    ensures s.Valid()
    ensures var o := PersistOutcome(Live(old(s.eng), s.now, k));
            reply == o.reply && Stepped(s.eng, old(s.eng), s.now, k, o.live)
    ensures s.pend == old(s.pend) || s.pend == old(s.pend) - {k}
  {
    hide PendOk, Owned, Sub, DropBatch, PutBatch, Apply, EntryOk, ElemsOf;
    SettledOk(s.eng, s.now, k, s.dbs);
    var cur := s.GetTyped(k);
    ghost var e0 := s.eng;
    if cur.None? || cur.value.exp == 0 { return Number(0); }
    s.PutValue(k, cur.value.(exp := 0), cur.value.exp);
    TouchesTransitive(s.eng, e0, old(s.eng), k);
    return Number(1);
  }

  method Delete(s: Store, k: Key) returns (reply: Reply)
    requires s.Valid()
    modifies s`eng, s`dict, s`pend
    ensures s.Valid()
    ensures reply == Number(if Live(old(s.eng), s.now, k).Some? then 1 else 0)
    ensures Stepped(s.eng, old(s.eng), s.now, k, None) && s.pend == old(s.pend) - {k}
  {
    hide PendOk;
    var found := s.DeleteKey(k);
    return Number(if found then 1 else 0);
  }

  // ---------- INCR through the merge operator ----------

  /** The records a read of k folds; none when the key is not live. */
  function LogOf(e: Db, p: Pending, now: i64, k: Key): seq<bytes>
  {
    if Live(e, now, k) == None then [] else if k in p then p[k] else if DataKey(k) in e then [e[DataKey(k)]] else []
  }

  /** The unrounded total of a counter. */
  function TotalOf(e: Db, p: Pending, now: i64, k: Key): int { Sum(LogOf(e, p, now, k)).sum }

  predicate Fits(v: int) { -I63 <= v < I63 }

  /** INCR is not refused: the value read is an integer and the sum with it fits. */
  predicate Accepted(cur: Option<Record>, d: i64)
  {
    CounterBase(cur).Some? && SumFits(CounterBase(cur).value, d)
  }

  /** The record an increment leaves: the new total rounded to a double, the expiry kept. */
  function Incremented(cur: Option<Record>, total: int): Record
  {
    Record(TYPE_STRING, if cur.Some? then cur.value.exp else 0, FormatInt(RoundF64(total)))
  }

  /** What incrBy does. The check looks at the value read, the result at the total. */
  function IncrActual(cur: Option<Record>, total: int, d: i64): Outcome
  {
    if !Accepted(cur, d) then IncrOutcome(cur, d) else
    var v := RoundF64(total + d);
    Outcome(Some(Incremented(cur, total + d)), if Fits(v) then Number(v) else Overflow)
  }

  /** The answer is an overflow error although the operand was appended. */
  predicate LateOverflow(cur: Option<Record>, total: int, d: i64)
  {
    Accepted(cur, d) && !Fits(RoundF64(total + d))
  }

  /** The value read of a live counter is its total, rounded when operands are pending. */
  lemma ReadBase(e: Db, p: Pending, now: i64, k: Key)
    requires PendOk(e, p) && now >= 0 && CounterBase(Live(e, now, k)).Some?
    ensures var n, total := CounterBase(Live(e, now, k)).value, TotalOf(e, p, now, k);
            n == RoundF64(total) || n == total
    ensures AllCountable(LogOf(e, p, now, k))
    ensures Sum(LogOf(e, p, now, k)).exp == if Live(e, now, k).Some? then Live(e, now, k).value.exp else 0
    ensures Live(e, now, k).Some? <==> LogOf(e, p, now, k) != []
  {
    hide Folded, ShareOf, Countable, RoundF64, ParseInt64, Sum, One, ParseNumber, FormatInt;
    assert PendingAt(e, p, k);
    if Live(e, now, k) == None {
      NoSum();
    } else if k in p {
      FoldedDecodes(p[k]);
      ReadBack(Sum(p[k]).sum);
    } else {
      var base := e[DataKey(k)];
      BaseCountable(base);
      SumOne(base);
      OneOf(base);
    }
  }

  /** Without pending operands the value read is the total itself. */
  lemma UnpendedTotal(e: Db, p: Pending, now: i64, k: Key)
    requires now >= 0 && CounterBase(Live(e, now, k)).Some? && (k !in p || Live(e, now, k).None?)
    ensures CounterBase(Live(e, now, k)).value == TotalOf(e, p, now, k) && |LogOf(e, p, now, k)| <= 1
  {
    hide ShareOf, Countable, ParseInt64, Sum, One, ParseNumber;
    NoSum();
    if Live(e, now, k).Some? {
      BaseCountable(e[DataKey(k)]);
      SumOne(e[DataKey(k)]);
      OneOf(e[DataKey(k)]);
    }
  }

  lemma OneOf(op: bytes)
    ensures One(op).sum == ShareOf(op).num && One(op).exp == Max(0, ShareOf(op).exp)
  {}

  lemma BaseCountable(base: bytes)
    requires DecodeValue(base).Some? && DecodeValue(base).value.exp >= 0
    requires DecodeValue(base).value.typ == TYPE_STRING && ParseInt64(DecodeValue(base).value.payload).Some?
    ensures Countable(base)
    ensures ShareOf(base) == Share(ParseInt64(DecodeValue(base).value.payload).value, DecodeValue(base).value.exp)
  {}

  lemma ReadBack(v: int)
    ensures ParseInt64(FormatInt(RoundF64(v))) ==
            if -I63 <= RoundF64(v) < I63 then Some(RoundF64(v)) else None
  {
    NumberRoundTrip(RoundF64(v));
  }

  /** incrBy appends an operand, reads the folded value back and flags the cache entry.
      On a late overflow it returns before the flag is set, and a cached value of the
      key stays behind the engine's. */
  method IncrBy(s: Store, k: Key, d: i64) returns (reply: Reply)
    requires s.Valid() && k.db < s.dbs
    modifies s`eng, s`dict, s`pend
    ensures IndexExact(s.eng, s.dbs) && PendOk(s.eng, s.pend)
    ensures var cur, total := Live(old(s.eng), s.now, k), TotalOf(old(s.eng), old(s.pend), s.now, k);
            var o := IncrActual(cur, total, d);
            && reply == o.reply && Stepped(s.eng, old(s.eng), s.now, k, o.live)
            && (LateOverflow(cur, total, d) && Cached(s.dict, k) ==> !EntryOk(s.eng, s.dict, k))
            && (!LateOverflow(cur, total, d) || !Cached(s.dict, k) ==> s.Valid())
    ensures if Accepted(Live(old(s.eng), s.now, k), d)
            then s.pend == old(s.pend)[k := LogOf(old(s.eng), old(s.pend), s.now, k) + [EncodeIntDelta(d)]]
            else s.pend == old(s.pend) || s.pend == old(s.pend) - {k}
  {
    hide OnlyTouches, Settled, RoundF64, FormatInt, ParseInt64, RecAt, IncrActual, LateOverflow, Inv, PendOk, ElemsOf,
         Sum, EncodeIntDelta, Accepted;
    SettledOk(s.eng, s.now, k, s.dbs) by { InvHasIndex(s.eng, s.dict, s.dbs); }
    SettledLog(s.eng, s.pend, s.now, k, s.dict, s.dbs);
    var cur := s.GetTyped(k);
    InvHasIndex(s.eng, s.dict, s.dbs);
    ghost var e0, p0 := s.eng, s.pend;
    ghost var total := TotalOf(e0, p0, s.now, k);
    var n := 0;
    if cur.Some? {
      if cur.value.typ != TYPE_STRING { IncrRefused(cur, total, d); return WrongType; }
      var parsed := ParseInt64(cur.value.payload);
      if parsed == None { IncrRefused(cur, total, d); return NotInteger; }
      n := parsed.value;
    }
    assert CounterBase(cur) == Some(n);
    if !SumFits(n, d) { IncrRefused(cur, total, d); return Overflow; }
    reply := MergeDelta(s, k, d, cur);
    assert s.pend == old(s.pend)[k := s.pend[k]];
    TouchesTransitive(s.eng, e0, old(s.eng), k);
    IncrApplied(cur, total, d);
  }

  /** A read before an increment leaves the records it will fold. */
  lemma SettledLog(e: Db, p: Pending, now: i64, k: Key, d: Cache, dbs: nat)
    requires Inv(e, d, dbs) && PendOk(e, p)
    ensures var e0, p0 := Settled(e, now, k), SettledPending(e, now, k, p);
            && LogOf(e0, p0, now, k) == LogOf(e, p, now, k) && Live(e0, now, k) == Live(e, now, k)
            && (p0 == p || p0 == p - {k})
  {
    hide PendOk, OnlyTouches, DropBatch, Apply, ElemsOf;
    SettledOk(e, now, k, dbs);
    SettledInvisible(e, now, k, dbs, k);
  }

  lemma IncrRefused(cur: Option<Record>, total: int, d: i64)
    requires CounterBase(cur).None? || !SumFits(CounterBase(cur).value, d)
    ensures IncrActual(cur, total, d) == IncrOutcome(cur, d) && !LateOverflow(cur, total, d) && !Accepted(cur, d)
  {}

  lemma IncrApplied(cur: Option<Record>, total: int, d: i64)
    requires CounterBase(cur).Some? && SumFits(CounterBase(cur).value, d)
    ensures IncrActual(cur, total, d).live == Some(Incremented(cur, total + d)) && Accepted(cur, d)
    ensures IncrActual(cur, total, d).reply == if Fits(RoundF64(total + d)) then Number(RoundF64(total + d)) else Overflow
    ensures LateOverflow(cur, total, d) <==> !Fits(RoundF64(total + d))
  {}

  /** The second half of incrBy: merge, read back, flag. */
  method MergeDelta(s: Store, k: Key, d: i64, cur: Option<Record>) returns (reply: Reply)
    requires s.Valid() && k.db < s.dbs && RecAt(s.eng, k) == Live(s.eng, s.now, k) == cur && CounterBase(cur).Some?
    modifies s`eng, s`dict, s`pend
    ensures IndexExact(s.eng, s.dbs) && PendOk(s.eng, s.pend) && OnlyTouches(s.eng, old(s.eng), k)
    ensures s.pend == old(s.pend)[k := LogOf(old(s.eng), old(s.pend), s.now, k) + [EncodeIntDelta(d)]]
    ensures var total := TotalOf(old(s.eng), old(s.pend), s.now, k) + d;
            && RecAt(s.eng, k) == Some(Incremented(cur, total))
            && reply == (if Fits(RoundF64(total)) then Number(RoundF64(total)) else Overflow)
            && (!Fits(RoundF64(total)) && Cached(s.dict, k) ==> !EntryOk(s.eng, s.dict, k))
            && (Fits(RoundF64(total)) || !Cached(s.dict, k) ==> s.Valid())
  {
    hide OnlyTouches, PendOk, RoundF64, FormatInt, ParseInt64, KeyExact, EntryOk, LogOf, Sum, EncodeIntDelta, Inv,
         CounterBase, DecodeValue;
    ghost var e0 := s.eng;
    ghost var total := TotalOf(s.eng, s.pend, s.now, k) + d;
    s.pend, s.eng := AppendOperand(s, k, d, cur);
    var rec := DecodeValue(s.eng[DataKey(k)]).value;
    var res := ParseInt64(rec.payload);
    ReadBack(total);
    if res == None {
      StaleCache(s.eng, s.dict, e0, k, s.dbs) by { if cur.Some? { BaseRead(cur); } }
      return Overflow;
    }
    Recached(s.eng, s.dict, e0, k, s.dbs, rec.exp);
    s.dict := WithCounter(s.dict, k, rec.exp);
    return Number(res.value);
  }

  lemma BaseRead(cur: Option<Record>)
    requires CounterBase(cur).Some? && cur.Some?
    ensures cur.value.typ == TYPE_STRING && ParseInt64(cur.value.payload).Some?
  {}

  /** Engine.Merge: one more record for k, and what reads of k see from now on. */
  method AppendOperand(s: Store, k: Key, d: i64, ghost cur: Option<Record>) returns (p: Pending, e: Db)
    requires s.Valid() && k.db < s.dbs && RecAt(s.eng, k) == Live(s.eng, s.now, k) == cur && CounterBase(cur).Some?
    ensures p == s.pend[k := LogOf(s.eng, s.pend, s.now, k) + [EncodeIntDelta(d)]]
    ensures e == s.eng[DataKey(k) := Folded(p[k])]
    ensures OnlyTouches(e, s.eng, k) && IndexExact(e, s.dbs) && PendOk(e, p)
    ensures DecodeValue(e[DataKey(k)]) == RecAt(e, k) ==
            Some(Incremented(cur, TotalOf(s.eng, s.pend, s.now, k) + d))
  {
    hide OnlyTouches, PendOk, RoundF64, FormatInt, ParseInt64, KeyExact, EntryOk, Sum, EncodeIntDelta, Inv, IndexExact,
         CounterBase, Folded, DecodeValue, AllCountable;
    var log := if DataKey(k) !in s.eng then [] else if k in s.pend then s.pend[k] else [s.eng[DataKey(k)]];
    StoredLog(s.eng, s.dict, s.pend, s.now, k, s.dbs, log);
    ReadBase(s.eng, s.pend, s.now, k);
    var log' := log + [EncodeIntDelta(d)];
    AppendedLog(log, d);
    FoldedDecodes(log');
    ReplaceKeepsIndex(s.eng, k, Folded(log'), s.dbs) by { InvHasIndex(s.eng, s.dict, s.dbs); }
    p := s.pend[k := log'];
    e := s.eng[DataKey(k) := Folded(log')];
    OnePending(e, s.eng, s.pend, k, log');
  }

  lemma StoredLog(e: Db, d: Cache, p: Pending, now: i64, k: Key, dbs: nat, log: seq<bytes>)
    requires Inv(e, d, dbs) && PendOk(e, p) && RecAt(e, k) == Live(e, now, k)
    requires log == if DataKey(k) !in e then [] else if k in p then p[k] else [e[DataKey(k)]]
    ensures log == LogOf(e, p, now, k)
  {
    hide Folded, AllCountable;
    assert KeyExact(e, k, dbs) && PendingAt(e, p, k);
  }

  lemma AppendedLog(log: seq<bytes>, d: i64)
    requires AllCountable(log)
    ensures AllCountable(log + [EncodeIntDelta(d)])
    ensures Sum(log + [EncodeIntDelta(d)]) == Total(Sum(log).sum + d, Sum(log).exp)
  {
    hide Countable, Sum, EncodeIntDelta, ShareOf;
    DeltaShare(d);
    IncrementAdds(log, d);
  }

  lemma OnePending(e1: Db, e0: Db, p: Pending, k: Key, log: seq<bytes>)
    requires PendOk(e0, p) && OnlyTouches(e1, e0, k) && log != [] && AllCountable(log)
    requires DataKey(k) in e1 && e1[DataKey(k)] == Folded(log)
    ensures PendOk(e1, p[k := log])
  {
    hide OnlyTouches, DataKey, Folded, AllCountable;
    Supersede(e1, e0, p, k);
    var p' := p[k := log];
    forall k': Key ensures PendingAt(e1, p', k') {
      if k' != k { assert PendingAt(e1, p - {k}, k'); }
    }
  }

  /** The cache answers reads of k by itself. */
  predicate Cached(d: Cache, k: Key) { k in d && !d[k].counter && d[k].inline != [] }

  function WithCounter(d: Cache, k: Key, exp: i64): Cache
  {
    d[k := if k in d then d[k].(counter := true, exp := exp) else Entry(TYPE_STRING, exp, [], true)]
  }

  lemma ReplaceKeepsIndex(e: Db, k: Key, v: bytes, dbs: nat)
    requires IndexExact(e, dbs) && k.db < dbs
    requires DecodeValue(v).Some? && DecodeValue(v).value.exp == StoredExpiry(e, k)
    ensures OnlyTouches(e[DataKey(k) := v], e, k) && IndexExact(e[DataKey(k) := v], dbs)
  {
    hide Sub, DecodeValue, Owned;
    var e' := e[DataKey(k) := v];
    assert KeyExact(e, k, dbs);
    RecordKeysOnly(e', e, k, 0, 0);
    forall t: i64 ensures SameAt(e', e, ExpireKey(t, k)) { OwnKeysApart(k, t); }
    InvStep(e', map[], e, map[], k, dbs);
  }

  lemma Recached(e1: Db, d: Cache, e0: Db, k: Key, dbs: nat, exp: i64)
    requires Inv(e0, d, dbs) && OnlyTouches(e1, e0, k) && IndexExact(e1, dbs)
    requires RecAt(e1, k).Some? && RecAt(e1, k).value.exp == exp
    ensures Inv(e1, WithCounter(d, k, exp), dbs)
  {
    hide Owned;
    assert KeyExact(e1, k, dbs);
    InvStep(e1, WithCounter(d, k, exp), e0, d, k, dbs);
  }

  /** After the late overflow the cache is right exactly when it does not answer for k. */
  lemma StaleCache(e1: Db, d: Cache, e0: Db, k: Key, dbs: nat)
    requires Inv(e0, d, dbs) && OnlyTouches(e1, e0, k) && IndexExact(e1, dbs)
    requires RecAt(e1, k).Some? && StoredExpiry(e1, k) == StoredExpiry(e0, k)
    requires RecAt(e0, k).Some? ==> RecAt(e0, k).value.typ == TYPE_STRING == RecAt(e1, k).value.typ
    requires RecAt(e0, k).Some? ==> ParseInt64(RecAt(e0, k).value.payload).Some?
    requires ParseInt64(RecAt(e1, k).value.payload).None?
    ensures if Cached(d, k) then !EntryOk(e1, d, k) else Inv(e1, d, dbs)
  {
    hide Owned, ParseInt64;
    assert EntryOk(e0, d, k) && KeyExact(e1, k, dbs);
    if Cached(d, k) {
      assert !EntryOk(e1, d, k);
    } else {
      InvStep(e1, d, e0, d, k, dbs);
    }
  }

  /** While the new total is within 2^53 an increment is exact addition. */
  lemma IncrExact(cur: Option<Record>, total: int, d: i64)
    requires Accepted(cur, d) && CounterBase(cur).value == total && Abs(total + d) <= EXACT
    ensures IncrActual(cur, total, d) == IncrOutcome(cur, d) && !LateOverflow(cur, total, d)
  {
    Small(total + d);
  }

  /** A late overflow happens exactly when the new total is at least 2^63 - 512, whatever
      operands are pending. */
  lemma LateOverflowExactly(e: Db, p: Pending, now: i64, k: Key, d: i64)
    requires PendOk(e, p) && now >= 0 && Accepted(Live(e, now, k), d)
    ensures LateOverflow(Live(e, now, k), TotalOf(e, p, now, k), d) <==> TotalOf(e, p, now, k) + d >= I63 - 512
  {
    hide PendOk, TotalOf, RoundF64, ParseInt64, RecAt;
    ReadBase(e, p, now, k);
    LateSum(CounterBase(Live(e, now, k)).value, TotalOf(e, p, now, k), d);
  }

  /** The value read is so near the total that the new total cannot leave int64 below. */
  lemma LateSum(n: i64, total: int, d: i64)
    requires (n == RoundF64(total) || n == total) && SumFits(n, d)
    ensures Fits(RoundF64(total + d)) <==> total + d < I63 - 512
  {
    hide RoundF64;
    RoundingFits(total + d);
    RoundingFits(total);
    if -I63 < total < I63 { RoundF64Near(total); }
    if total <= -I63 && n != total { RoundedBottom(total); }
  }

  lemma RoundedBottom(total: int)
    requires -I63 - 1024 <= total <= -I63
    ensures RoundF64(total) == -I63
  {
    if total == -I63 { RoundInt63(); } else { RoundPastInt63(-total); }
  }

  /** Two increments by 400 over 2^63 - 1024: the second reads 2^63 - 1024 and its sum with
      400 is far from 2^63 - 512, but the pending first one carries the total there. */
  lemma StackedOverflow(e: Db, p: Pending, now: i64, k: Key)
    requires PendOk(e, p) && now >= 0 && Live(e, now, k).Some? && k in p
    requires p[k] == [Encoded(Share(I63 - 1024, 0)), EncodeIntDelta(400)]
    ensures CounterBase(Live(e, now, k)) == Some(I63 - 1024) && TotalOf(e, p, now, k) == I63 - 624
    ensures LateOverflow(Live(e, now, k), TotalOf(e, p, now, k), 400)
  {
    hide PendOk, RoundF64, ParseInt64, Sum, Encoded, EncodeIntDelta, Folded, FormatInt;
    assert PendingAt(e, p, k) by { PendingHere(e, p, k); }
    var base, op := Encoded(Share(I63 - 1024, 0)), EncodeIntDelta(400);
    assert p[k] == [base] + [op];
    TopDoubles();
    IncrementAdds([base], 400);
    EncodedShare(Share(I63 - 1024, 0));
    SumOne(base);
    OneOf(base);
    FoldedDecodes(p[k]);
    ReadBack(I63 - 624);
    RoundingFits(I63 - 224);
  }

  lemma TopDoubles()
    ensures RoundF64(I63 - 1024) == I63 - 1024 && RoundF64(I63 - 624) == I63 - 1024
  {
    RoundAtTop(I63 - 624);
    RoundKeeps(I63 - 624);
    RoundKeeps(I63 - 1024);
  }

  lemma PendingHere(e: Db, p: Pending, k: Key)
    requires PendOk(e, p)
    ensures PendingAt(e, p, k)
  {}

  // ---------- compaction ----------

  /** The engine may fold a group of k's records whenever it likes. */
  predicate CanFold(p: Pending, k: Key, lo: nat, hi: nat, order: seq<bytes>)
  {
    k in p && lo < hi <= |p[k]| && multiset(order) == multiset(p[k][lo..hi])
  }

  /** A compaction shows nothing exactly when the new total rounds to what the old one did;
      a group whose sum is a double keeps even the total. */
  method CompactLog(s: Store, k: Key, lo: nat, hi: nat, order: seq<bytes>)
    requires s.Valid() && k.db < s.dbs && CanFold(s.pend, k, lo, hi, order)
    modifies s`eng, s`pend
    ensures IndexExact(s.eng, s.dbs) && PendOk(s.eng, s.pend) && OnlyTouches(s.eng, old(s.eng), k)
    ensures var log, group := old(s.pend)[k], old(s.pend)[k][lo..hi];
            && s.pend == old(s.pend)[k := log[..lo] + [MergeGroup(order)] + log[hi..]]
            && Sum(s.pend[k]).sum == Sum(log).sum - Sum(group).sum + RoundF64(Sum(group).sum)
            && (IsDouble(Sum(group).sum) ==> Sum(s.pend[k]) == Sum(log) && s.eng == old(s.eng) && s.Valid())
            && (s.eng == old(s.eng) <==> RoundF64(Sum(s.pend[k]).sum) == RoundF64(Sum(log).sum))
  {
    hide OnlyTouches, PendOk, RoundF64, Sum, Inv, IndexExact, MergeGroup, AllCountable, IsDouble, Folded;
    var log := s.pend[k];
    ghost var group := log[lo..hi];
    PendingHere(s.eng, s.pend, k);
    CompactKeeps(log, lo, hi, order);
    assert order != [] by { assert |multiset(order)| == hi - lo; }
    var log' := log[..lo] + [MergeGroup(order)] + log[hi..];
    InvHasIndex(s.eng, s.dict, s.dbs);
    FoldedExpiry(s.eng, k, log, log');
    FoldedDecodes(log');
    ReplaceKeepsIndex(s.eng, k, Folded(log'), s.dbs);
    FoldedSame(log, log');
    ghost var e0 := s.eng;
    s.eng := s.eng[DataKey(k) := Folded(log')];
    OnePending(s.eng, e0, s.pend, k, log');
    s.pend := s.pend[k := log'];
    assert Folded(log') == Folded(log) ==> s.eng == e0;
  }

  lemma FoldedExpiry(e: Db, k: Key, log: seq<bytes>, log': seq<bytes>)
    requires DataKey(k) in e && e[DataKey(k)] == Folded(log) && Sum(log').exp == Sum(log).exp
    ensures StoredExpiry(e, k) == Sum(log').exp
  {
    hide Folded, Sum;
    FoldedDecodes(log);
  }

  lemma FoldedSame(log: seq<bytes>, log': seq<bytes>)
    requires Sum(log').exp == Sum(log).exp
    ensures Folded(log') == Folded(log) <==> RoundF64(Sum(log').sum) == RoundF64(Sum(log).sum)
  {
    hide Sum, RoundF64, EncodeValue;
    FoldedDecodes(log);
    FoldedDecodes(log');
    NumberRoundTrip(RoundF64(Sum(log).sum));
    NumberRoundTrip(RoundF64(Sum(log').sum));
  }

  // ---------- MSET ----------

  datatype KeyVal = KeyVal(key: Key, val: bytes)

  /** The value the last pair for k gives it. */
  function LastValue(pairs: seq<KeyVal>, k: Key): Option<bytes>
  {
    if pairs == [] then None
    else if pairs[|pairs| - 1].key == k then Some(pairs[|pairs| - 1].val)
    else LastValue(pairs[..|pairs| - 1], k)
  }

  ghost predicate AllSet(e1: Db, e0: Db, pairs: seq<KeyVal>)
  {
    forall k :: RecAt(e1, k) ==
      match LastValue(pairs, k) case Some(v) => Some(Record(TYPE_STRING, 0, v)) case None => RecAt(e0, k)
  }

  /** Dict.Set for each pair in turn. */
  function Recorded(d: Cache, pairs: seq<KeyVal>, inlineMax: nat): Cache
  {
    if pairs == [] then d else
    var p := pairs[|pairs| - 1];
    Recorded(d, pairs[..|pairs| - 1], inlineMax)[p.key := NewEntry(Record(TYPE_STRING, 0, p.val), inlineMax)]
  }

  /** mSetPairs: one batch for the engine, then the cache entries. */
  method MSetPairs(s: Store, pairs: seq<KeyVal>)
    requires s.Valid() && forall p | p in pairs :: p.key.db < s.dbs
    modifies s`eng, s`dict, s`pend
    ensures s.Valid() && AllSet(s.eng, old(s.eng), pairs) && s.pend == old(s.pend) - KeysSet(pairs)
  {
    hide PendOk, IndexExact, EntryOk, Apply, AllSet, Recorded, NewEntry;
    var batch := MSetBatch(s, pairs);
    RecordedOk(Apply(s.eng, batch), s.eng, s.dict, pairs, s.inlineMax);
    AllSetPending(Apply(s.eng, batch), s.eng, s.pend, pairs);
    s.dict := RecordAll(s.dict, pairs, s.inlineMax);
    s.eng := Apply(s.eng, batch);
    s.pend := s.pend - KeysSet(pairs);
  }

  method MSetBatch(s: Store, pairs: seq<KeyVal>) returns (batch: seq<Op>)
    requires s.Valid() && forall p | p in pairs :: p.key.db < s.dbs
    modifies s`dict
    ensures s.Valid() && IndexExact(Apply(s.eng, batch), s.dbs) && AllSet(Apply(s.eng, batch), s.eng, pairs)
  {
    hide PendOk, Owned, Sub, EncodeValue, ApplyOp, RecAt, Apply, ExpireKey, DataKey, AllSet, LastValue;
    batch := [];
    NoneSet(s.eng);
    ApplyNone(s.eng);
    for i := 0 to |pairs|
      invariant s.Valid() && IndexExact(Apply(s.eng, batch), s.dbs)
      invariant AllSet(Apply(s.eng, batch), s.eng, pairs[..i])
    {
      var k, v := pairs[i].key, pairs[i].val;
      var prev := s.OldExpiry(k);
      var add := [Put(DataKey(k), EncodeValue(Record(TYPE_STRING, 0, v)))];
      if prev != 0 { add := add + [Del(ExpireKey(prev, k))]; }
      assert add == MSetOps(pairs[i], prev);
      MSetStep(s.eng, batch, pairs[..i], pairs[i], s.dbs);
      batch := batch + add;
      assert pairs[..i + 1] == pairs[..i] + [pairs[i]];
    }
    assert pairs[..|pairs|] == pairs;
  }

  method RecordAll(d0: Cache, pairs: seq<KeyVal>, inlineMax: nat) returns (d: Cache)
    ensures d == Recorded(d0, pairs, inlineMax)
  {
    d := d0;
    for i := 0 to |pairs|
      invariant d == Recorded(d0, pairs[..i], inlineMax)
    {
      d := d[pairs[i].key := NewEntry(Record(TYPE_STRING, 0, pairs[i].val), inlineMax)];
      assert pairs[..i + 1][..i] == pairs[..i];
    }
    assert pairs[..|pairs|] == pairs;
  }

  function KeysSet(pairs: seq<KeyVal>): set<Key> { set p | p in pairs :: p.key }

  lemma {:induction false} LastOfOther(pairs: seq<KeyVal>, k: Key)
    ensures LastValue(pairs, k).None? <==> k !in KeysSet(pairs)
  {
    if pairs != [] {
      LastOfOther(pairs[..|pairs| - 1], k);
      assert pairs == pairs[..|pairs| - 1] + [pairs[|pairs| - 1]];
    }
  }

  /** The batch supersedes the operands of the keys it sets. */
  lemma AllSetPending(e1: Db, e0: Db, p: Pending, pairs: seq<KeyVal>)
    requires AllSet(e1, e0, pairs) && PendOk(e0, p)
    ensures PendOk(e1, p - KeysSet(pairs))
  {
    hide AllCountable, DataKey, EncodeValue, LastValue, KeysSet;
    forall k: Key ensures PendingAt(e1, p - KeysSet(pairs), k) {
      assert PendingAt(e0, p, k);
      LastOfOther(pairs, k);
      if k in p && k !in KeysSet(pairs) {
        FoldedDecodes(p[k]);
        assert RecAt(e1, k) == RecAt(e0, k);
        ValueDecodeEncode(e1[DataKey(k)]);
      }
    }
  }

  lemma NoneSet(e: Db)
    ensures AllSet(e, e, [])
  {}

  lemma ApplyNone(e: Db)
    ensures Apply(e, []) == e
  {}

  function MSetOps(p: KeyVal, prev: i64): seq<Op>
  {
    [Put(DataKey(p.key), EncodeValue(Record(TYPE_STRING, 0, p.val)))]
    + if prev != 0 then [Del(ExpireKey(prev, p.key))] else []
  }

  /** One more pair: the first time a key occurs its old index entry goes, a repeated
      key finds it gone already. */
  lemma MSetStep(e: Db, batch: seq<Op>, done: seq<KeyVal>, p: KeyVal, dbs: nat)
    requires IndexExact(e, dbs) && IndexExact(Apply(e, batch), dbs) && p.key.db < dbs
    requires AllSet(Apply(e, batch), e, done)
    ensures var e' := Apply(e, batch + MSetOps(p, StoredExpiry(e, p.key)));
            IndexExact(e', dbs) && AllSet(e', e, done + [p])
  {
    hide Owned, Sub, EncodeValue, ApplyOp, Apply, ExpireKey, DecodeValue;
    var k, r, prev := p.key, Record(TYPE_STRING, 0, p.val), StoredExpiry(e, p.key);
    var e1 := Apply(e, batch);
    ApplyAppend(e, batch, MSetOps(p, prev));
    assert MSetOps(p, prev) == PutBatch(k, r, prev);
    assert KeyExact(e1, k, dbs) && KeyExact(e, k, dbs);
    SameIndexOps(e1, k, r, prev, dbs);
    var e' := Apply(e1, PutBatch(k, r, prev));
    PutTouches(e1, k, r, StoredExpiry(e1, k));
    PutKeepsExact(e1, k, r, dbs);
    InvStep(e', map[], e1, map[], k, dbs);
    AllSetStep(e', e1, e, done, p);
  }

  /** Deleting an index entry that is not there changes nothing. */
  lemma SameIndexOps(e: Db, k: Key, r: Record, prev: i64, dbs: nat)
    requires KeyExact(e, k, dbs) && r.exp == 0
    requires StoredExpiry(e, k) == prev || StoredExpiry(e, k) == 0
    ensures Apply(e, PutBatch(k, r, prev)) == Apply(e, PutBatch(k, r, StoredExpiry(e, k)))
  {
    PutBatchIs(e, k, r, prev);
    PutBatchIs(e, k, r, StoredExpiry(e, k));
    OwnKeysApart(k, prev);
    if prev != StoredExpiry(e, k) { assert ExpireKey(prev, k) !in e; }
  }

  lemma AllSetStep(e2: Db, e1: Db, e0: Db, done: seq<KeyVal>, p: KeyVal)
    requires AllSet(e1, e0, done) && OnlyTouches(e2, e1, p.key)
    requires RecAt(e2, p.key) == Some(Record(TYPE_STRING, 0, p.val))
    ensures AllSet(e2, e0, done + [p])
  {
    hide Owned, RecAt;
    assert (done + [p])[..|done|] == done;
    forall k ensures RecAt(e2, k) ==
      match LastValue(done + [p], k) case Some(v) => Some(Record(TYPE_STRING, 0, v)) case None => RecAt(e0, k)
    {
      if k != p.key { OthersSameRecord(e2, e1, p.key, k); }
    }
  }

  lemma {:induction false} RecordedEntry(d: Cache, pairs: seq<KeyVal>, inlineMax: nat, k: Key)
    ensures var d' := Recorded(d, pairs, inlineMax);
            match LastValue(pairs, k)
            case Some(v) => k in d' && d'[k] == NewEntry(Record(TYPE_STRING, 0, v), inlineMax)
            case None => (k in d' <==> k in d) && (k in d ==> d'[k] == d[k])
  {
    if pairs != [] { RecordedEntry(d, pairs[..|pairs| - 1], inlineMax, k); }
  }

  lemma RecordedOk(e1: Db, e0: Db, d: Cache, pairs: seq<KeyVal>, inlineMax: nat)
    requires CacheOk(e0, d) && AllSet(e1, e0, pairs)
    ensures CacheOk(e1, Recorded(d, pairs, inlineMax))
  {
    hide RecAt;
    forall k: Key ensures EntryOk(e1, Recorded(d, pairs, inlineMax), k) {
      RecordedEntry(d, pairs, inlineMax, k);
      assert EntryOk(e0, d, k);
    }
  }
}
