/**
 The stream log: entries under 128-bit ids whose big-endian bytes sort as the ids do.
 Appending assigns ids; ranges read them back in order.
 */
module Streams {
  import opened Bytes
  import opened Layout
  import opened Codec
  import opened Engine

  const MAX64: u64 := U64 - 1

  datatype ID = ID(ms: u64, num: u64)

  const MAX_ID := ID(MAX64, MAX64)

  predicate Lt(a: ID, b: ID) { if a.ms != b.ms then a.ms < b.ms else a.num < b.num }

  predicate Le(a: ID, b: ID) { !Lt(b, a) }

  /** nextID; the addition wraps at the top. */
  function NextID(id: ID): ID
  {
    if id.num == MAX64 then ID((id.ms + 1) % U64, 0) else ID(id.ms, id.num + 1)
  }

  /** What lies strictly above an id is what lies at or above its successor, except for
      the greatest id, whose successor wraps to the least. */
  lemma NextExactly(id: ID)
    ensures (forall j :: Lt(id, j) <==> Le(NextID(id), j)) <==> id != MAX_ID
  {
    if id == MAX_ID {
      assert !Lt(id, ID(0, 0)) && Le(NextID(id), ID(0, 0));
    }
  }

  // ---------- entry keys ----------

  function IdBytes(id: ID): bytes { BE(id.ms, 8) + BE(id.num, 8) }

  function EntryKey(k: Key, id: ID): bytes { ElemPrefix(SEG_ENTRY, k) + IdBytes(id) }

  /** streamIDOfEntryKey on what follows the prefix. */
  function ReadId(x: bytes): ID
    requires |x| >= 16
  {
    Read64(x, 0);
    Read64(x, 8);
    ID(FromBE(x[0..8]), FromBE(x[8..16]))
  }

  lemma IdRoundTrip(id: ID)
    ensures |IdBytes(id)| == 16 && ReadId(IdBytes(id)) == id
  {
    var b := IdBytes(id);
    assert b[0..8] == BE(id.ms, 8) && b[8..16] == BE(id.num, 8);
    BE64(id.ms);
    BE64(id.num);
  }

  /** Byte order of the keys of one stream is id order. */
  lemma IdOrder(p: bytes, a: ID, b: ID)
    ensures Less(p + IdBytes(a), p + IdBytes(b)) <==> Lt(a, b)
    ensures p + IdBytes(a) == p + IdBytes(b) <==> a == b
  {
    Order64(a.ms, b.ms, BE(a.num, 8), BE(b.num, 8));
    Order64(a.num, b.num, [], []);
    assert BE(a.num, 8) + [] == BE(a.num, 8) && BE(b.num, 8) + [] == BE(b.num, 8);
    LessIrreflexive([]);
    LessCommonPrefix(p, IdBytes(a), IdBytes(b));
    assert (p + IdBytes(a))[|p|..] == IdBytes(a) && (p + IdBytes(b))[|p|..] == IdBytes(b);
    IdRoundTrip(a);
    IdRoundTrip(b);
  }

  // ---------- the entry segment ----------

  /** Stream names hold neither 0x00, which ends a name, nor 0x01, which sorts next to it. */
  predicate PlainName(k: Key) { NulFree(k.name) && 1 !in k.name }

  ghost predicate IsEntry(x: bytes) { exists k: Key, id: ID :: PlainName(k) && x == EntryKey(k, id) }

  /** The entry segment holds nothing but entries. */
  ghost predicate SegmentOk(e: Db)
  {
    forall x | x in e && x != [] && x[0] == SEG_ENTRY :: IsEntry(x)
  }

  predicate Has(e: Db, k: Key, id: ID) { EntryKey(k, id) in e }

  /** LastInRange is handed prefixEnd of the prefix and applies prefixEnd again, so it
      looks at the names that continue with 0x01 as well. */
  function LastBound(k: Key): Option<bytes>
  {
    match Successor(ElemPrefix(SEG_ENTRY, k))
    case None => None
    case Some(end) => Successor(end)
  }

  lemma LastBoundIs(k: Key)
    ensures LastBound(k) == Some(Tagged(SEG_ENTRY, k) + [2])
  {
    var t := Tagged(SEG_ENTRY, k);
    assert (t + [0])[..|t|] == t && (t + [1])[..|t|] == t;
  }

  /** Exactly the entries of the stream itself and of streams whose name continues with
      0x01 fall into the range. */
  lemma LastRangeExactly(k: Key, k': Key, id: ID)
    requires NulFree(k.name) && NulFree(k'.name)
    ensures InRange(EntryKey(k', id), ElemPrefix(SEG_ENTRY, k), LastBound(k))
            <==> k' == k || (k'.db == k.db && k.name + [1] <= k'.name)
  {
    var t, t' := Tagged(SEG_ENTRY, k), Tagged(SEG_ENTRY, k');
    var x := EntryKey(k', id);
    LastBoundIs(k);
    PrefixRange(t + [0], x);
    PrefixRange(t + [1], x);
    assert (t + [0])[..|t|] == t && (t + [1])[..|t|] == t;
    assert Successor(t + [0]) == Some(t + [1]) && Successor(t + [1]) == Some(t + [2]);
    SplitRange(x, t + [0], t + [1], t + [2]) by { LessCommonPrefix(t, [0], [1]); LessCommonPrefix(t, [1], [2]); }
    RangeIsCollection(SEG_ENTRY, k, SEG_ENTRY, k', IdBytes(id));
    assert x == ElemKey(SEG_ENTRY, k', IdBytes(id));
    NextNames(k, k', IdBytes(id));
  }

  /** An entry of the stream "a", 0x01 lies in the range searched for the newest entry of "a". */
  lemma ContinuedNameIntrudes(db: u16, id: ID)
    ensures InRange(EntryKey(Key(db, [97, 1]), id), ElemPrefix(SEG_ENTRY, Key(db, [97])), LastBound(Key(db, [97])))
  {
    LastRangeExactly(Key(db, [97]), Key(db, [97, 1]), id);
    assert [97] + [1] <= [97, 1];
  }

  lemma SplitRange(x: bytes, a: bytes, b: bytes, c: bytes)
    requires Less(a, b) && Less(b, c)
    ensures InRange(x, a, Some(c)) <==> InRange(x, a, Some(b)) || InRange(x, b, Some(c))
  {
    if Less(x, b) { LessTransitive(x, b, c); }
    if Less(x, a) { LessTransitive(x, a, b); }
  }

  /** A key of k' starts with k's name and 0x01 exactly when the name k' does. */
  lemma NextNames(k: Key, k': Key, y: bytes)
    requires NulFree(k.name) && NulFree(k'.name)
    ensures Tagged(SEG_ENTRY, k) + [1] <= Tagged(SEG_ENTRY, k') + [0] + y
            <==> k'.db == k.db && k.name + [1] <= k'.name
  {
    hide BE;
    var h, h' := [SEG_ENTRY] + BE(k.db, 2), [SEG_ENTRY] + BE(k'.db, 2);
    assert Tagged(SEG_ENTRY, k) + [1] == h + (k.name + [1]);
    assert Tagged(SEG_ENTRY, k') + [0] + y == h' + (k'.name + [0] + y);
    assert h == h' <==> k.db == k'.db by {
      BE16(k.db);
      BE16(k'.db);
      assert h[1..] == BE(k.db, 2) && h'[1..] == BE(k'.db, 2);
    }
    PrefixSplit(h, h', k.name + [1], k'.name + [0] + y);
    if k.name + [1] <= k'.name + [0] + y { NameFirst(k.name + [1], k'.name, y); }
  }

  lemma PrefixSplit(h: bytes, h': bytes, a: bytes, b: bytes)
    requires |h| == |h'|
    ensures h + a <= h' + b <==> h == h' && a <= b
  {
    if h + a <= h' + b {
      assert h == (h + a)[..|h|] == (h' + b)[..|h|] == h';
      assert (h + a)[|h|..] == a && (h' + b)[|h|..] == b;
    }
  }

  lemma NameFirst(a: bytes, n: bytes, y: bytes)
    requires a <= n + [0] + y
    ensures a <= n || 0 in a
  {
    if |a| > |n| {
      assert a[|n|] == (n + [0] + y)[|n|] == 0;
    }
  }

  lemma HasOne(n: bytes, m: bytes)
    requires n + [1] <= m
    ensures 1 in m
  {
    assert m[|n|] == (n + [1])[|n|] == 1;
  }

  lemma HeadOrder(x: bytes, y: bytes)
    requires Less(x, y) && x != []
    ensures y != [] && x[0] <= y[0]
  {}

  /** Under plain names the range holds the stream's own entries only. */
  lemma LastRangeOwn(e: Db, k: Key, x: bytes) returns (id: ID)
    requires SegmentOk(e) && PlainName(k) && x in e && InRange(x, ElemPrefix(SEG_ENTRY, k), LastBound(k))
    ensures x == EntryKey(k, id)
  {
    hide BE;
    InSegment(k, x);
    assert IsEntry(x);
    var k': Key, id': ID :| PlainName(k') && x == EntryKey(k', id');
    LastRangeExactly(k, k', id');
    if k' != k { HasOne(k.name, k'.name); }
    id := id';
  }

  lemma InSegment(k: Key, x: bytes)
    requires InRange(x, ElemPrefix(SEG_ENTRY, k), LastBound(k))
    ensures x != [] && x[0] == SEG_ENTRY
  {
    LastBoundIs(k);
    var lo, hi := ElemPrefix(SEG_ENTRY, k), Tagged(SEG_ENTRY, k) + [2];
    assert lo[0] == SEG_ENTRY && hi[0] == SEG_ENTRY;
    LessTotal(x, lo);
    if Less(lo, x) { HeadOrder(lo, x); }
    HeadOrder(x, hi);
  }

  // ---------- the newest entry ----------

  ghost predicate IsLast(e: Db, k: Key, last: Option<ID>)
  {
    match last
    case None => forall j: ID :: !Has(e, k, j)
    case Some(id) => Has(e, k, id) && forall j: ID :: Has(e, k, j) ==> Le(j, id)
  }

  /** lastStreamEntryID: a reverse seek. */
  method LastEntry(e: Db, k: Key) returns (last: Option<ID>)
    requires SegmentOk(e) && PlainName(k)
    ensures IsLast(e, k, last)
  {
    hide SegmentOk, InRange, ElemPrefix, IdBytes, ReadId, Less;
    var p := ElemPrefix(SEG_ENTRY, k);
    var ks := ScanRange(e, p, LastBound(k));
    if ks == [] {
      forall j: ID ensures !Has(e, k, j) { OwnInRange(k, j); }
      return None;
    }
    var x := ks[|ks| - 1];
    assert x in ks;
    ghost var id := LastRangeOwn(e, k, x);
    IdRoundTrip(id);
    assert x[|p|..] == IdBytes(id);
    forall j: ID | Has(e, k, j) ensures Le(j, id) {
      OwnInRange(k, j);
      IdOrder(p, id, j);
      NoneAfterLast(ks, EntryKey(k, j));
    }
    return Some(ReadId(x[|p|..]));
  }

  lemma OwnInRange(k: Key, id: ID)
    ensures InRange(EntryKey(k, id), ElemPrefix(SEG_ENTRY, k), LastBound(k))
  {
    var t := Tagged(SEG_ENTRY, k);
    LastBoundIs(k);
    PrefixRange(t + [0], EntryKey(k, id));
    assert (t + [0])[..|t|] == t;
    assert t + [0] <= EntryKey(k, id);
    SplitRange(EntryKey(k, id), t + [0], t + [1], t + [2]) by {
      LessCommonPrefix(t, [0], [1]);
      LessCommonPrefix(t, [1], [2]);
    }
  }

  lemma NoneAfterLast(ks: seq<bytes>, x: bytes)
    requires Ascending(ks) && x in ks
    ensures !Less(ks[|ks| - 1], x)
  {
    var i :| 0 <= i < |ks| && ks[i] == x;
    if i < |ks| - 1 { LessAsymmetric(x, ks[|ks| - 1]); } else { LessIrreflexive(x); }
  }

  // ---------- XADD ----------

  datatype Request = Explicit(id: ID) | Auto | Partial(ms: u64)

  datatype Added = Stored(id: ID) | Refused | NoStream

  /** The id an append gets, by cases on the newest entry. */
  function Assign(last: Option<ID>, req: Request, now: u64): Option<ID>
  {
    var want :=
      match req
      case Explicit(id) => Some(id)
      case Auto =>
        if last.None? || now > last.value.ms then Some(ID(now, 0))
        else Some(ID(last.value.ms, (last.value.num + 1) % U64))
      case Partial(ms) =>
        if last.None? then Some(if ms == 0 then ID(0, 1) else ID(ms, 0))
        else if ms < last.value.ms then None
        else if ms == last.value.ms then (if last.value.num == MAX64 then None else Some(ID(ms, last.value.num + 1)))
        else Some(ID(ms, 0));
    if want.Some? && last.Some? && !Lt(last.value, want.value) then None else want
  }

  /** Ids a request could be answered with. */
  predicate Admissible(last: Option<ID>, req: Request, now: u64, id: ID)
  {
    && (last.Some? ==> Lt(last.value, id))
    && match req
       case Explicit(want) => id == want
       case Auto => Le(ID(now, 0), id) && (last.Some? && now <= last.value.ms ==> id.ms == last.value.ms)
       case Partial(ms) => id.ms == ms && (last.None? ==> id != ID(0, 0))
  }

  /** An append gets the least admissible id, and is refused exactly when there is none. */
  lemma AssignLeast(last: Option<ID>, req: Request, now: u64)
    ensures match Assign(last, req, now)
            case Some(id) => Admissible(last, req, now, id) && forall j :: Admissible(last, req, now, j) ==> Le(id, j)
            case None => forall j :: !Admissible(last, req, now, j)
  {
    if req.Partial? && last.Some? && req.ms == last.value.ms && last.value.num == MAX64 {
      forall j ensures !Admissible(last, req, now, j) {}
    }
  }

  class Log {
    var eng: Db

    constructor (e: Db)
      ensures eng == e
    {
      eng := e;
    }

    /** xAdd: a stored id is above every present one; a refused append changes nothing. */
    method Add(k: Key, req: Request, now: u64, fields: seq<Field>, nomkstream: bool) returns (r: Added)
      requires SegmentOk(eng) && PlainName(k)
      modifies this
      ensures SegmentOk(eng)
      ensures !r.Stored? ==> eng == old(eng)
      ensures r.NoStream? ==> nomkstream && forall j: ID :: !Has(eng, k, j)
      ensures r.Stored? ==>
                && eng == old(eng)[EntryKey(k, r.id) := EncodeStreamFields(fields)]
                && (forall j: ID :: Has(old(eng), k, j) ==> Lt(j, r.id))
      ensures exists last :: IsLast(old(eng), k, last) &&
                (r.Refused? <==> Assign(last, req, now) == None) &&
                (r.Stored? ==> Assign(last, req, now) == Some(r.id))
    {
      hide SegmentOk, EncodeStreamFields, EntryKey, Assign, Admissible, Has;
      var last := LastEntry(eng, k);
      AssignLeast(last, req, now);
      var id := Assign(last, req, now);
      if id == None { return Refused; }
      if nomkstream && last == None { return NoStream; }
      AboveAll(eng, k, last, req, now, id.value);
      StillOk(eng, k, id.value, EncodeStreamFields(fields));
      eng := eng[EntryKey(k, id.value) := EncodeStreamFields(fields)];
      return Stored(id.value);
    }
  }

  lemma AboveAll(e: Db, k: Key, last: Option<ID>, req: Request, now: u64, id: ID)
    requires IsLast(e, k, last) && Admissible(last, req, now, id)
    ensures forall j: ID :: Has(e, k, j) ==> Lt(j, id)
  {}

  lemma StillOk(e: Db, k: Key, id: ID, v: bytes)
    requires SegmentOk(e) && PlainName(k)
    ensures SegmentOk(e[EntryKey(k, id) := v])
  {
    assert IsEntry(EntryKey(k, id));
  }

  // ---------- XRANGE ----------

  datatype Entry = Entry(id: ID, fields: seq<Field>)

  function Lower(a: ID, b: ID): ID { if Lt(b, a) then b else a }

  function Upper(a: ID, b: ID): ID { if Lt(b, a) then a else b }

  /** The exclusive scan bound; the increment wraps at the very top. */
  function HiEnd(b: ID): ID
  {
    if b.num == MAX64 && b.ms != MAX64 then ID(b.ms + 1, 0) else ID(b.ms, (b.num + 1) % U64)
  }

  /** Between the two bounds, whichever way round they are given; a range that ends at the
      greatest id misses the ids of the last millisecond. */
  predicate InWindow(a: ID, b: ID, j: ID)
  {
    Le(Lower(a, b), j) && Le(j, Upper(a, b)) && !(Upper(a, b) == MAX_ID && j.ms == MAX64)
  }

  lemma WindowExactly(a: ID, b: ID, j: ID)
    ensures InWindow(a, b, j) <==> Le(Lower(a, b), j) && Lt(j, HiEnd(Upper(a, b)))
  {}

  /** All readable entries of the window in id order. */
  ghost predicate IsRange(e: Db, k: Key, a: ID, b: ID, all: seq<Entry>)
  {
    && (forall i, j | 0 <= i < j < |all| :: Lt(all[i].id, all[j].id))
    && (forall x: Entry :: x in all <==>
          Has(e, k, x.id) && InWindow(a, b, x.id) && ParseStreamFields(e[EntryKey(k, x.id)]) == Some(x.fields))
  }

  /** Keys between two id keys of a stream are that stream's. */
  lemma WithinPrefix(p: bytes, a: bytes, b: bytes, x: bytes)
    requires InRange(x, p + a, Some(p + b))
    ensures p <= x
  {
    PrefixRange(p, p + a);
    PrefixRange(p, p + b);
    PrefixRange(p, x);
    LessTotal(p + a, p);
    LessTotal(x, p + a);
    if Less(x, p) {
      if Less(p, p + a) { LessTransitive(x, p, p + a); }
    }
    match Successor(p)
    case None =>
    case Some(h) => LessTransitive(x, p + b, h);
  }

  lemma UnderPrefix(e: Db, k: Key, x: bytes) returns (id: ID)
    requires SegmentOk(e) && PlainName(k) && x in e && ElemPrefix(SEG_ENTRY, k) <= x
    ensures x == EntryKey(k, id)
  {
    var t := Tagged(SEG_ENTRY, k);
    PrefixRange(t + [0], x);
    LastBoundIs(k);
    assert (t + [0])[..|t|] == t;
    SplitRange(x, t + [0], t + [1], t + [2]) by {
      LessCommonPrefix(t, [0], [1]);
      LessCommonPrefix(t, [1], [2]);
    }
    id := LastRangeOwn(e, k, x);
  }

  ghost predicate WindowKeys(e: Db, k: Key, a: ID, b: ID, ks: seq<bytes>)
  {
    && Ascending(ks)
    && (forall x :: x in ks ==> x in e && exists id :: InWindow(a, b, id) && x == EntryKey(k, id))
    && (forall id :: Has(e, k, id) && InWindow(a, b, id) ==> EntryKey(k, id) in ks)
  }

  lemma ScanIsWindow(e: Db, k: Key, a: ID, b: ID, ks: seq<bytes>)
    requires SegmentOk(e) && PlainName(k)
    requires IsScan(e, EntryKey(k, Lower(a, b)), Some(EntryKey(k, HiEnd(Upper(a, b)))), ks)
    ensures WindowKeys(e, k, a, b, ks)
  {
    hide SegmentOk, IdBytes, ElemPrefix, Less, HiEnd, InWindow, Lower, Upper, Lt;
    var p := ElemPrefix(SEG_ENTRY, k);
    forall x | x in ks ensures x in e && exists id :: InWindow(a, b, id) && x == EntryKey(k, id) {
      WithinPrefix(p, IdBytes(Lower(a, b)), IdBytes(HiEnd(Upper(a, b))), x);
      var id := UnderPrefix(e, k, x);
      WindowKey(k, a, b, id);
    }
    forall id | Has(e, k, id) && InWindow(a, b, id) ensures EntryKey(k, id) in ks { WindowKey(k, a, b, id); }
  }

  lemma WindowKey(k: Key, a: ID, b: ID, id: ID)
    ensures InRange(EntryKey(k, id), EntryKey(k, Lower(a, b)), Some(EntryKey(k, HiEnd(Upper(a, b)))))
            <==> InWindow(a, b, id)
  {
    hide IdBytes, ElemPrefix, Less, HiEnd, Lower, Upper, InWindow;
    var p := ElemPrefix(SEG_ENTRY, k);
    IdOrder(p, id, Lower(a, b));
    IdOrder(p, id, HiEnd(Upper(a, b)));
    WindowExactly(a, b, id);
  }

  /** What the callback has collected after some keys. */
  ghost predicate Collected(e: Db, k: Key, ks: seq<bytes>, out: seq<Entry>)
  {
    && (forall i, j | 0 <= i < j < |out| :: Lt(out[i].id, out[j].id))
    && (forall x: Entry :: x in out <==>
          EntryKey(k, x.id) in ks && EntryKey(k, x.id) in e && ParseStreamFields(e[EntryKey(k, x.id)]) == Some(x.fields))
  }

  lemma CollectNext(e: Db, k: Key, ks: seq<bytes>, out: seq<Entry>, id: ID)
    requires Collected(e, k, ks, out) && Ascending(ks + [EntryKey(k, id)]) && EntryKey(k, id) in e
    ensures var f := ParseStreamFields(e[EntryKey(k, id)]);
            Collected(e, k, ks + [EntryKey(k, id)], if f.None? then out else out + [Entry(id, f.value)])
  {
    hide ParseStreamFields, IdBytes, ElemPrefix, Less, Lt;
    var f := ParseStreamFields(e[EntryKey(k, id)]);
    var key := EntryKey(k, id);
    var out' := if f.None? then out else out + [Entry(id, f.value)];
    forall x: Entry ensures EntryKey(k, x.id) in ks + [key] <==> EntryKey(k, x.id) in ks || x.id == id {
      IdOrder(ElemPrefix(SEG_ENTRY, k), x.id, id);
    }
    if f.Some? {
      forall i | 0 <= i < |out| ensures Lt(out[i].id, id) {
        assert out[i] in out;
        BelowLast(ks, EntryKey(k, out[i].id), key);
        IdOrder(ElemPrefix(SEG_ENTRY, k), out[i].id, id);
      }
    }
    NotBelowLast(ks, key);
  }

  lemma NotBelowLast(ks: seq<bytes>, y: bytes)
    requires Ascending(ks + [y])
    ensures y !in ks
  {
    LessIrreflexive(y);
    if y in ks { BelowLast(ks, y, y); }
  }

  method Collect(e: Db, k: Key, a: ID, b: ID, ks: seq<bytes>) returns (out: seq<Entry>)
    requires WindowKeys(e, k, a, b, ks)
    ensures IsRange(e, k, a, b, out)
  {
    hide ParseStreamFields, IdBytes, ElemPrefix, Less, InWindow, ReadId, EntryKey, Collected;
    out := [];
    NoneCollected(e, k);
    for i := 0 to |ks|
      invariant Collected(e, k, ks[..i], out)
    {
      assert ks[i] in ks;
      ghost var id :| InWindow(a, b, id) && ks[i] == EntryKey(k, id);
      var p := ElemPrefix(SEG_ENTRY, k);
      ReadKey(k, id);
      var got := ReadId(ks[i][|p|..]);
      assert ks[..i + 1] == ks[..i] + [ks[i]];
      CollectNext(e, k, ks[..i], out, id);
      if !(Lt(got, Lower(a, b)) || Lt(Upper(a, b), got)) {
        var fields := DecodeStreamFields(e[ks[i]]);
        if fields.Some? { out := out + [Entry(got, fields.value)]; }
      } else {
        OutsideWindow(a, b, id);
      }
    }
    assert ks[..|ks|] == ks;
    CollectedAll(e, k, a, b, ks, out);
  }

  lemma OutsideWindow(a: ID, b: ID, id: ID)
    requires Lt(id, Lower(a, b)) || Lt(Upper(a, b), id)
    ensures !InWindow(a, b, id)
  {}

  lemma NoneCollected(e: Db, k: Key)
    ensures Collected(e, k, [], [])
  {}

  lemma ReadKey(k: Key, id: ID)
    ensures |EntryKey(k, id)| == |ElemPrefix(SEG_ENTRY, k)| + 16
    ensures ReadId(EntryKey(k, id)[|ElemPrefix(SEG_ENTRY, k)|..]) == id
  {
    IdRoundTrip(id);
    assert EntryKey(k, id)[|ElemPrefix(SEG_ENTRY, k)|..] == IdBytes(id);
  }

  lemma CollectedAll(e: Db, k: Key, a: ID, b: ID, ks: seq<bytes>, out: seq<Entry>)
    requires WindowKeys(e, k, a, b, ks) && Collected(e, k, ks, out)
    ensures IsRange(e, k, a, b, out)
  {
    hide ParseStreamFields, IdBytes, ElemPrefix, InWindow, Lt;
    forall x: Entry | EntryKey(k, x.id) in ks ensures InWindow(a, b, x.id) {
      var id :| InWindow(a, b, id) && EntryKey(k, x.id) == EntryKey(k, id);
      IdOrder(ElemPrefix(SEG_ENTRY, k), x.id, id);
    }
  }

  function Backwards(xs: seq<Entry>): (r: seq<Entry>)
    ensures |r| == |xs| && forall i | 0 <= i < |xs| :: r[i] == xs[|xs| - 1 - i]
  {
    seq(|xs|, i requires 0 <= i < |xs| => xs[|xs| - 1 - i])
  }

  /** Two indexes that meet in the middle, swapping as they go. */
  method SwapEnds(xs: seq<Entry>) returns (out: seq<Entry>)
    ensures out == Backwards(xs)
  {
    out := xs;
    var i, j := 0, |xs| - 1;
    while i < j
      invariant 0 <= i <= |xs| && j == |xs| - 1 - i && |out| == |xs|
      invariant i <= j + 1
      invariant forall m | 0 <= m < i :: out[m] == xs[|xs| - 1 - m]
      invariant forall m | i <= m <= j :: out[m] == xs[m]
      invariant forall m | j < m < |xs| :: out[m] == xs[|xs| - 1 - m]
    {
      var x, y := out[i], out[j];
      out := out[i := y][j := x];
      i, j := i + 1, j - 1;
    }
  }

  /** The window in the order asked for, cut to count. */
  function Shown(all: seq<Entry>, count: int, rev: bool): seq<Entry>
  {
    var full := if rev then Backwards(all) else all;
    if 0 < count < |full| then full[..count] else full
  }

  /** A window has one reading. */
  lemma RangeUnique(e: Db, k: Key, a: ID, b: ID, x: seq<Entry>, y: seq<Entry>)
    requires IsRange(e, k, a, b, x) && IsRange(e, k, a, b, y)
    ensures x == y
  {
    assert forall v: Entry :: v in x <==> v in y;
    SameEntries(x, y);
  }

  lemma {:induction false} SameEntries(x: seq<Entry>, y: seq<Entry>)
    requires forall i, j | 0 <= i < j < |x| :: Lt(x[i].id, x[j].id)
    requires forall i, j | 0 <= i < j < |y| :: Lt(y[i].id, y[j].id)
    requires forall v: Entry :: v in x <==> v in y
    ensures x == y
    decreases |x|
  {
    assert y != [] ==> y[0] in x;
    if x != [] {
      assert x[0] in y && y[0] in x;
      var i :| 0 <= i < |y| && y[i] == x[0];
      var j :| 0 <= j < |x| && x[j] == y[0];
      assert x[0] == y[0];
      forall v: Entry ensures v in x[1..] <==> v in x && v != x[0] { Rest(x, v); }
      forall v: Entry ensures v in y[1..] <==> v in y && v != y[0] { Rest(y, v); }
      SameEntries(x[1..], y[1..]);
      assert x == [x[0]] + x[1..] && y == [y[0]] + y[1..];
    }
  }

  lemma Rest(x: seq<Entry>, v: Entry)
    requires x != [] && forall i, j | 0 <= i < j < |x| :: Lt(x[i].id, x[j].id)
    ensures v in x[1..] <==> v in x && v != x[0]
  {
    assert x == [x[0]] + x[1..];
  }

  // ---------- what a range answers ----------

  /** Between two ids, whichever is the greater, save the last millisecond below the
      greatest id. */
  predicate Between(a: ID, b: ID, j: ID)
  {
    && ((Le(a, j) && Le(j, b)) || (Le(b, j) && Le(j, a)))
    && !((a == MAX_ID || b == MAX_ID) && j.ms == MAX64)
  }

  lemma WindowIs(a: ID, b: ID, j: ID)
    ensures InWindow(a, b, j) <==> Between(a, b, j)
  {}

  /** x comes before y in the order asked for. */
  predicate Sooner(x: Entry, y: Entry, rev: bool) { if rev then Lt(y.id, x.id) else Lt(x.id, y.id) }

  predicate Wanted(e: Db, k: Key, a: ID, b: ID, x: Entry)
  {
    Has(e, k, x.id) && Between(a, b, x.id) && ParseStreamFields(e[EntryKey(k, x.id)]) == Some(x.fields)
  }

  /** The answer to a range: readable entries between the bounds, in order, no more than
      count, and one is left out only when there are count that come sooner. */
  ghost predicate Answers(e: Db, k: Key, a: ID, b: ID, count: int, rev: bool, out: seq<Entry>)
  {
    && (forall i, j | 0 <= i < j < |out| :: Sooner(out[i], out[j], rev))
    && (forall x: Entry | x in out :: Wanted(e, k, a, b, x))
    && (count > 0 ==> |out| <= count)
    && (forall x: Entry | Wanted(e, k, a, b, x) && x !in out ::
          count > 0 && |out| == count && forall y | y in out :: Sooner(y, x, rev))
  }

  lemma ShownAnswers(e: Db, k: Key, a: ID, b: ID, count: int, rev: bool, all: seq<Entry>)
    requires IsRange(e, k, a, b, all)
    ensures Answers(e, k, a, b, count, rev, Shown(all, count, rev))
    ensures |Shown(all, count, rev)| == if 0 < count < |all| then count else |all|
  {
    hide ParseStreamFields, EntryKey, InWindow, Between, Lt;
    var full := if rev then Backwards(all) else all;
    forall x: Entry ensures Wanted(e, k, a, b, x) <==> x in full {
      WindowIs(a, b, x.id);
      SameIn(all, x);
    }
    assert forall i, j | 0 <= i < j < |full| :: Sooner(full[i], full[j], rev);
    CutAnswers(e, k, a, b, count, rev, full, |Shown(all, count, rev)|);
  }

  /** The front of everything wanted, in order, answers when it is cut to count or whole. */
  lemma CutAnswers(e: Db, k: Key, a: ID, b: ID, count: int, rev: bool, full: seq<Entry>, n: nat)
    requires forall x: Entry :: Wanted(e, k, a, b, x) <==> x in full
    requires forall i, j | 0 <= i < j < |full| :: Sooner(full[i], full[j], rev)
    requires n <= |full| && (0 < n == count || (n == |full| && !(0 < count < n)))
    ensures Answers(e, k, a, b, count, rev, full[..n])
  {
    hide Wanted, Sooner;
    var out := full[..n];
    forall x: Entry | Wanted(e, k, a, b, x) && x !in out
      ensures count > 0 && |out| == count && forall y | y in out :: Sooner(y, x, rev)
    {
      var i :| 0 <= i < |full| && full[i] == x;
      assert forall m | 0 <= m < n :: out[m] == full[m] && full[m] != x;
      assert n <= i;
      forall y | y in out ensures Sooner(y, x, rev) {
        var j :| 0 <= j < n && out[j] == y;
        assert Sooner(full[j], full[i], rev);
      }
    }
  }

  lemma SameIn(all: seq<Entry>, x: Entry)
    ensures x in Backwards(all) <==> x in all
  {
    var back := Backwards(all);
    if x in all {
      var i :| 0 <= i < |all| && all[i] == x;
      assert back[|all| - 1 - i] == x;
    }
  }

  /** xRange. */
  method Range(e: Db, k: Key, a: ID, b: ID, count: int, rev: bool) returns (out: seq<Entry>)
    requires SegmentOk(e) && PlainName(k)
    ensures exists all :: IsRange(e, k, a, b, all) && out == Shown(all, count, rev)
    ensures Answers(e, k, a, b, count, rev, out)
  {
    hide Answers, SegmentOk, IsRange, EntryKey, IsScan, Lower, Upper, HiEnd, Lt;
    var ks := ScanRange(e, EntryKey(k, Lower(a, b)), Some(EntryKey(k, HiEnd(Upper(a, b)))));
    ScanIsWindow(e, k, a, b, ks);
    out := Collect(e, k, a, b, ks);
    ghost var all := out;
    if rev { out := SwapEnds(out); }
    if count > 0 && |out| > count { out := out[..count]; }
    assert out == Shown(all, count, rev);
    ShownAnswers(e, k, a, b, count, rev, all);
  }
}
