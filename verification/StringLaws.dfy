/** What string and expiry commands mean to a client. */
module StringLaws {
  /*
   Laws of the specification of `Session`, stated on replies and on what a following read
   shows: which SET is refused, what it stores and for how long, which EXPIRE applies, and
   that counters add.
   */
  import opened Bytes
  import opened Layout
  import opened Codec
  import opened Decimal
  import opened Records
  import opened Strings
  import opened Session

  /** What a client reads. */
  function Shown(w: World, k: Key): Option<Record> { SpecStep(w, Get(k)).1.r }

  function Then(w: World, c: Cmd): World { SpecStep(w, c).0 }

  function Said(w: World, c: Cmd): Reply { SpecStep(w, c).1 }

  /** A time that has not come. */
  predicate Ahead(at: i64, now: i64) { at == 0 || now < at }

  /** A command on one key changes no other, and time passes only when the clock advances. */
  lemma OtherKeys(w: World, c: Cmd, k: Key)
    requires c.Set? || c.Expire? || c.Unexpire? || c.DelKey? || c.Incr?
    requires k != c.k
    ensures Shown(Then(w, c), k) == Shown(w, k) && Then(w, c).now == w.now
  {}

  // ---------- SET ----------

  /** Which SET is refused: NX on a live key, XX on a missing one, GET on another type. */
  lemma SetRefused(w: World, k: Key, val: bytes, opt: SetOption)
    ensures var c := Set(k, val, opt);
            && (Said(w, c) == WrongType <==> opt.get && Shown(w, k).Some? && Shown(w, k).value.typ != TYPE_STRING)
            && (Said(w, c).Wrote? || Said(w, c) == WrongType)
            && (Said(w, c).Wrote? ==>
                  (!Said(w, c).written <==> (opt.nx && Shown(w, k).Some?) || (opt.xx && Shown(w, k).None?)))
            && (Said(w, c) == WrongType || !Said(w, c).written ==> Then(w, c) == w)
  {}

  /** What a SET that reports written leaves to be read: the value, until the time given or,
      under KEEPTTL, the time the key had; nothing when that time is past. */
  lemma SetWritten(w: World, k: Key, val: bytes, opt: SetOption)
    requires Said(w, Set(k, val, opt)).Wrote? && Said(w, Set(k, val, opt)).written
    ensures var at := if opt.keepTtl then (if Shown(w, k).Some? then Shown(w, k).value.exp else 0) else opt.at;
            Shown(Then(w, Set(k, val, opt)), k) ==
            if Ahead(at, w.now) then Some(Record(TYPE_STRING, at, val)) else None
    ensures Said(w, Set(k, val, opt)).prev == if Shown(w, k).Some? then Some(Shown(w, k).value.payload) else None
  {}

  /** SET NX changes nothing if and only if the key was live. */
  lemma NxExactly(w: World, k: Key, val: bytes, opt: SetOption)
    requires opt.nx && !opt.xx && (opt.keepTtl || Ahead(opt.at, w.now))
    ensures Then(w, Set(k, val, opt)) == w <==> Shown(w, k).Some?
  {
    if Shown(w, k).None? { SetWritten(w, k, val, opt); }
  }

  /** Of two SET NX on a missing key the first stays. */
  lemma FirstNxStays(w: World, k: Key, v1: bytes, v2: bytes, opt1: SetOption, opt2: SetOption)
    requires Shown(w, k).None? && opt1.nx && opt2.nx && !opt1.xx && (opt1.keepTtl || Ahead(opt1.at, w.now))
    ensures var w2 := Then(Then(w, Set(k, v1, opt1)), Set(k, v2, opt2));
            Shown(w2, k).Some? && Shown(w2, k).value.payload == v1
  {
    SetRefused(w, k, v1, opt1);
    SetWritten(w, k, v1, opt1);
    SetRefused(Then(w, Set(k, v1, opt1)), k, v2, opt2);
  }

  /** SET XX never adds a key, and replaces the value of a live one. */
  lemma XxExactly(w: World, k: Key, val: bytes, opt: SetOption)
    requires opt.xx
    ensures Then(w, Set(k, val, opt)).m.Keys <= w.m.Keys
    ensures Shown(w, k).Some? && !opt.nx && !opt.get && !opt.keepTtl && Ahead(opt.at, w.now) ==>
              Shown(Then(w, Set(k, val, opt)), k) == Some(Record(TYPE_STRING, opt.at, val))
  {
    SetRefused(w, k, val, opt);
  }

  /** A value set with a time is there until that time and no longer. */
  lemma SetLasts(w: World, k: Key, val: bytes, at: i64, to: i64)
    requires Ahead(at, w.now) && w.now <= to
    ensures var w1 := Then(w, Set(k, val, SetOption(false, false, false, false, at)));
            Shown(Then(w1, Advance(to)), k) == if at == 0 || to < at then Some(Record(TYPE_STRING, at, val)) else None
  {}

  /** MSET leaves every key it names with the last value given and no time, and no other key
      changed. */
  lemma MSetShows(w: World, pairs: seq<KeyVal>, i: nat)
    requires i < |pairs| && forall j | i < j < |pairs| :: pairs[j].key != pairs[i].key
    ensures Shown(Then(w, MSet(pairs)), pairs[i].key) == Some(Record(TYPE_STRING, 0, pairs[i].val))
  {
    SetAllAt(w, pairs, pairs[i].key);
    LastGiven(pairs, i);
  }

  lemma {:induction false} LastGiven(pairs: seq<KeyVal>, i: nat)
    requires i < |pairs| && forall j | i < j < |pairs| :: pairs[j].key != pairs[i].key
    ensures LastValue(pairs, pairs[i].key) == Some(pairs[i].val)
  {
    var last := |pairs| - 1;
    if i < last { LastGiven(pairs[..last], i); }
  }

  lemma MSetOthers(w: World, pairs: seq<KeyVal>, k: Key)
    requires forall j | 0 <= j < |pairs| :: pairs[j].key != k
    ensures Shown(Then(w, MSet(pairs)), k) == Shown(w, k)
  {
    SetAllAt(w, pairs, k);
    LastOfOther(pairs, k);
  }

  // ---------- EXPIRE, PERSIST, DEL ----------

  /** Which EXPIRE applies: on a live key, NX without a time, XX with one, GT to a later time
      than it has, LT to an earlier one; no time is later than any. */
  lemma ExpireExactly(w: World, k: Key, at: i64, opt: ExpireOption)
    ensures var c := Expire(k, at, opt);
            && Said(w, c) in {Number(0), Number(1)}
            && (Said(w, c) == Number(0) ==> Then(w, c) == w)
            && (Said(w, c) == Number(1) <==>
                  && Shown(w, k).Some?
                  && (var exp := Shown(w, k).value.exp;
                      && (opt.nx ==> exp == 0) && (opt.xx ==> exp != 0) && (opt.gt ==> exp != 0 && exp < at)
                      && (opt.lt ==> if exp == 0 then at < I63 - 1 else at < exp)))
  {}

  /** What it then leaves: the same value until that time, nothing when it is not ahead. */
  lemma ExpireLeaves(w: World, k: Key, at: i64, opt: ExpireOption)
    requires Said(w, Expire(k, at, opt)) == Number(1)
    ensures Shown(w, k).Some?
    ensures Shown(Then(w, Expire(k, at, opt)), k) ==
            if w.now < at then Some(Shown(w, k).value.(exp := at)) else None
  {}

  /** PERSIST applies to a live key with a time; the value then stays whatever time it is. */
  lemma PersistExactly(w: World, k: Key, to: i64)
    requires w.now <= to
    ensures var c := Unexpire(k);
            && (Said(w, c) == Number(1) <==> Shown(w, k).Some? && Shown(w, k).value.exp != 0)
            && (Said(w, c) == Number(0) || Said(w, c) == Number(1))
            && (Said(w, c) == Number(0) ==> Then(w, c) == w)
            && (Shown(w, k).Some? ==>
                  Shown(Then(Then(w, c), Advance(to)), k) == Some(Shown(w, k).value.(exp := 0)))
  {}

  lemma DelExactly(w: World, k: Key)
    ensures Shown(Then(w, DelKey(k)), k) == None
    ensures Said(w, DelKey(k)) == Number(if Shown(w, k).Some? then 1 else 0)
  {}

  // ---------- INCR ----------

  /** What INCR reads: nothing is 0, a string the number it spells. */
  predicate Reads(w: World, k: Key, n: int)
  {
    match Shown(w, k)
    case None => n == 0
    case Some(r) => r.typ == TYPE_STRING && ParseNumber(r.payload) == Some(n) && -I63 <= n < I63
  }

  /** INCR answers the sum and leaves its text; the time the key had stays. */
  lemma IncrAdds(w: World, k: Key, d: i64, n: int)
    requires Reads(w, k, n) && -I63 <= n + d < I63
    ensures Said(w, Incr(k, d)) == Number(n + d)
    ensures Shown(Then(w, Incr(k, d)), k) ==
            Some(Record(TYPE_STRING, if Shown(w, k).Some? then Shown(w, k).value.exp else 0, FormatInt(n + d)))
    ensures Reads(Then(w, Incr(k, d)), k, n + d)
  {
    hide ParseNumber, FormatInt;
    NumberRoundTrip(n + d);
  }

  /** Otherwise it changes nothing and says why. */
  lemma IncrRefuses(w: World, k: Key, d: i64)
    requires !exists n :: Reads(w, k, n) && -I63 <= n + d < I63
    ensures Then(w, Incr(k, d)) == w
    ensures Said(w, Incr(k, d)) ==
            if Shown(w, k).Some? && Shown(w, k).value.typ != TYPE_STRING then WrongType
            else if exists n :: Reads(w, k, n) then Overflow else NotInteger
  {
    hide ParseNumber, FormatInt;
    if CounterBase(At(w, k)).Some? { assert Reads(w, k, CounterBase(At(w, k)).value); }
  }

  /** Two increments are one by their sum. */
  lemma IncrTwice(w: World, k: Key, a: i64, b: i64, n: int)
    requires Reads(w, k, n) && -I63 <= n + a < I63 && -I63 <= n + a + b < I63 && -I63 <= a + b < I63
    ensures Then(Then(w, Incr(k, a)), Incr(k, b)) == Then(w, Incr(k, a + b))
  {
    hide ParseNumber, FormatInt;
    IncrAdds(w, k, a, n);
    IncrAdds(Then(w, Incr(k, a)), k, b, n + a);
    IncrAdds(w, k, a + b, n);
  }

  /** SET k 12, then INCR k, answers 13. */
  lemma TwelveAndOne(w: World, k: Key)
    ensures var text := ['1' as int, '2' as int];
            Said(Then(w, Set(k, text, SetOption(false, false, false, false, 0))), Incr(k, 1)) == Number(13)
  {
    hide ParseNumber, FormatInt;
    var one, text := ['1' as int], ['1' as int, '2' as int];
    var w1 := Then(w, Set(k, text, SetOption(false, false, false, false, 0)));
    ParseAppend(['0' as int], 1);
    ParseAppend(one, 2);
    assert one + ['0' as int + 2] == text;
    IncrAdds(w1, k, 1, 12);
  }
}
