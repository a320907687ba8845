/**
 SCAN: pages over an ordered keyspace. A cursor names the last key a page examined; the
 next page starts strictly after it, whatever happened to the keyspace in between.
 */
module Scan {
  import opened Bytes
  import opened Layout
  import opened Engine

  // ---------- the cursor table ----------

  const MAX_CURSORS := 4096
  const CURSOR_TTL := 300_000

  /** The key a cursor resumes after, its database, and until when it is valid. */
  datatype Slot = Slot(key: bytes, db: u16, expiry: int)

  /** What the cleanup of a full table keeps: unexpired cursors that are not too old. */
  function Cleaned(m: map<u64, Slot>, next: u64, now: int): map<u64, Slot>
  {
    map id | id in m && now <= m[id].expiry && id >= (next - MAX_CURSORS / 2) % U64 :: m[id]
  }

  datatype Table = Table(next: u64, byID: map<u64, Slot>)

  /** One more allocation. */
  function Allocated(t: Table, key: bytes, db: u16, now: int): Table
  {
    var kept := if |t.byID| >= MAX_CURSORS then Cleaned(t.byID, t.next, now) else t.byID;
    var id := if t.next == U64 - 1 then 1 else t.next + 1;
    Table(id, kept[id := Slot(key, db, now + CURSOR_TTL)])
  }

  /** What a cursor resolves to: nothing when it is unknown, too old or of another database. */
  function Resolved(t: Table, id: u64, db: u16, now: int): Option<bytes>
  {
    if id in t.byID && t.byID[id].db == db && now <= t.byID[id].expiry then Some(t.byID[id].key) else None
  }

  class CursorTable {
    var next: u64
    var byID: map<u64, Slot>

    function View(): Table
      reads this
    {
      Table(next, byID)
    }

    constructor ()
      ensures View() == Table(0, map[])
    {
      next, byID := 0, map[];
    }

    /** alloc: a fresh non-zero number for a key. */
    method Alloc(key: bytes, db: u16, now: int) returns (id: u64)
      modifies this
      ensures View() == Allocated(old(View()), key, db, now) && id == next != 0
    {
      if |byID| >= MAX_CURSORS {
        var todo := byID.Keys;
        ghost var m := byID;
        while todo != {}
          invariant todo <= m.Keys && next == old(next)
          invariant forall i :: i in byID <==> i in m && (i in todo || i in Cleaned(m, next, now))
          invariant forall i | i in byID :: byID[i] == m[i]
        {
          var i :| i in todo;
          todo := todo - {i};
          if byID[i].expiry < now || i < (next - MAX_CURSORS / 2) % U64 { byID := byID - {i}; }
        }
        assert byID == Cleaned(m, next, now);
      }
      next := if next == U64 - 1 then 1 else next + 1;
      id := next;
      byID := byID[id := Slot(key, db, now + CURSOR_TTL)];
    }

    method Lookup(id: u64, db: u16, now: int) returns (key: Option<bytes>)
      ensures key == Resolved(View(), id, db, now)
    {
      if id !in byID || byID[id].db != db || byID[id].expiry < now { return None; }
      return Some(byID[id].key);
    }
  }

  // ---------- how long a cursor lives ----------

  datatype Call = Call(key: bytes, db: u16, now: int)

  function AllAllocated(t: Table, calls: seq<Call>): Table
  {
    if calls == [] then t else
    var c := calls[|calls| - 1];
    Allocated(AllAllocated(t, calls[..|calls| - 1]), c.key, c.db, c.now)
  }

  /** Every number handed out so far is positive and at most next. */
  predicate Numbered(t: Table) { forall id | id in t.byID :: 0 < id <= t.next }

  lemma {:induction false} AtMost(n: nat, s: set<u64>)
    requires forall id | id in s :: 0 < id <= n
    ensures |s| <= n
  {
    if n > 0 {
      AtMost(n - 1, s - {n});
      if n in s { assert s == s - {n} + {n}; } else { assert s == s - {n}; }
    } else {
      assert s == {};
    }
  }

  lemma StaysNumbered(t: Table, key: bytes, db: u16, now: int)
    requires Numbered(t) && t.next < U64 - 1
    ensures Numbered(Allocated(t, key, db, now)) && Allocated(t, key, db, now).next == t.next + 1
  {}

  /** A full table has handed out at least its size, so the cleanup counts back from next
      without wrapping: it keeps an unexpired cursor exactly while at most half a table of
      newer ones was handed out. */
  lemma CleanupExactly(t: Table, now: int, id: u64)
    requires Numbered(t) && |t.byID| >= MAX_CURSORS && id in t.byID && now <= t.byID[id].expiry
    ensures id in Cleaned(t.byID, t.next, now) <==> t.next <= id + MAX_CURSORS / 2
  {
    AtMost(t.next, t.byID.Keys);
    assert |t.byID| == |t.byID.Keys|;
  }

  /** A cursor resolves to its key until its time is up, through any half table of further
      allocations, and to nothing in any other database. */
  lemma {:induction false} CursorLives(t: Table, key: bytes, db: u16, start: int, calls: seq<Call>, now: int)
    requires Numbered(t) && t.next + 1 + |calls| < U64 && |calls| <= MAX_CURSORS / 2 + 1
    requires now <= start + CURSOR_TTL && forall i | 0 <= i < |calls| :: calls[i].now <= start + CURSOR_TTL
    ensures var t1, id := AllAllocated(Allocated(t, key, db, start), calls), t.next + 1;
            && Numbered(t1) && t1.next == id + |calls|
            && id in t1.byID && t1.byID[id] == Slot(key, db, start + CURSOR_TTL)
            && Resolved(t1, id, db, now) == Some(key)
            && forall other: u16 | other != db :: Resolved(t1, id, other, now) == None
    decreases |calls|
  {
    var t0 := Allocated(t, key, db, start);
    if calls == [] {
      StaysNumbered(t, key, db, start);
    } else {
      var front, c := calls[..|calls| - 1], calls[|calls| - 1];
      CursorLives(t, key, db, start, front, now);
      var t1 := AllAllocated(t0, front);
      if |t1.byID| >= MAX_CURSORS { CleanupExactly(t1, c.now, t.next + 1); }
      StaysNumbered(t1, c.key, c.db, c.now);
    }
  }

  /** The bound is exact: the allocation after those 2049 drops the cursor if and only if the
      table is full by then. */
  lemma CursorDropped(t: Table, key: bytes, db: u16, start: int, calls: seq<Call>, c: Call, now: int)
    requires Numbered(t) && t.next + 2 + |calls| < U64 && |calls| == MAX_CURSORS / 2 + 1
    requires now <= start + CURSOR_TTL && c.now <= start + CURSOR_TTL
    requires forall i | 0 <= i < |calls| :: calls[i].now <= start + CURSOR_TTL
    ensures var t1, id := AllAllocated(Allocated(t, key, db, start), calls), t.next + 1;
            Resolved(Allocated(t1, c.key, c.db, c.now), id, db, now) ==
            if |t1.byID| >= MAX_CURSORS then None else Some(key)
  {
    hide AllAllocated;
    CursorLives(t, key, db, start, calls, now);
    var t1 := AllAllocated(Allocated(t, key, db, start), calls);
    if |t1.byID| >= MAX_CURSORS { CleanupExactly(t1, c.now, t.next + 1); }
  }

  // ---------- one page ----------

  /** The names present in a database. */
  predicate Present(e: Db, db: u16, name: bytes) { DataKey(Key(db, name)) in e }

  /** Strictly after the resume position; no position means from the start. */
  predicate After(start: Option<bytes>, name: bytes) { start.Some? ==> Less(start.value, name) }

  predicate UpTo(end: Option<bytes>, name: bytes) { end.Some? ==> !Less(end.value, name) }

  /** A page's report: exactly the hits among the non-empty names after start and up to
      end, in order. No end means the page ran off the end of the keyspace. */
  ghost predicate IsPage(e: Db, db: u16, hit: bytes -> bool, start: Option<bytes>, end: Option<bytes>, batch: seq<bytes>)
  {
    && Ascending(batch)
    && (forall n :: n in batch <==>
          Present(e, db, n) && n != [] && hit(n) && After(start, n) && UpTo(end, n))
    && (end.Some? ==> After(start, end.value))
  }

  lemma {:induction false} JustAbove(s: bytes, k: bytes)
    ensures !Less(k, s + [0]) <==> Less(s, k)
    decreases |s|
  {
    if s != [] && k != [] && s[0] == k[0] {
      assert (s + [0])[1..] == s[1..] + [0];
      JustAbove(s[1..], k[1..]);
    }
  }

  lemma NameOrder(db: u16, m: bytes, n: bytes)
    ensures Less(DataKey(Key(db, m)), DataKey(Key(db, n))) <==> Less(m, n)
    ensures DataKey(Key(db, m)) == DataPrefix(db) + m && KeyFromDataKey(DataKey(Key(db, m))) == m
  {
    assert DataKey(Key(db, m)) == DataPrefix(db) + m && DataKey(Key(db, n)) == DataPrefix(db) + n;
    LessCommonPrefix(DataPrefix(db), m, n);
    TaggedParts(SEG_DATA, Key(db, m));
  }

  /** Where an iterator for a page starts. */
  function SeekKey(db: u16, start: Option<bytes>): bytes
  {
    match start case None => DataPrefix(db) case Some(s) => DataKey(Key(db, s)) + [0]
  }

  ghost predicate Visits(e: Db, db: u16, start: Option<bytes>, ks: seq<bytes>)
  {
    && (forall i | 0 <= i < |ks| ::
          && Present(e, db, KeyFromDataKey(ks[i])) && After(start, KeyFromDataKey(ks[i]))
          && ks[i] == DataKey(Key(db, KeyFromDataKey(ks[i]))))
    && (forall n :: Present(e, db, n) && After(start, n) ==> DataKey(Key(db, n)) in ks)
  }

  /** The keys the page's iterator would visit are the present names after the position. */
  lemma VisitedNames(e: Db, db: u16, start: Option<bytes>, ks: seq<bytes>)
    requires IsScan(e, SeekKey(db, start), Successor(DataPrefix(db)), ks)
    ensures Visits(e, db, start, ks)
  {
    hide DataKey, Less, KeyFromDataKey;
    forall i | 0 <= i < |ks|
      ensures Present(e, db, KeyFromDataKey(ks[i])) && After(start, KeyFromDataKey(ks[i]))
      ensures ks[i] == DataKey(Key(db, KeyFromDataKey(ks[i])))
    {
      assert ks[i] in ks;
      VisitedKey(db, start, ks[i]);
    }
    forall n | Present(e, db, n) && After(start, n) ensures DataKey(Key(db, n)) in ks {
      NameInRange(db, start, n);
    }
  }

  lemma NameInRange(db: u16, start: Option<bytes>, n: bytes)
    ensures InRange(DataKey(Key(db, n)), SeekKey(db, start), Successor(DataPrefix(db))) <==> After(start, n)
  {
    hide DataKey, Less;
    NameOrder(db, n, n);
    PrefixRange(DataPrefix(db), DataKey(Key(db, n)));
    if start.Some? {
      NameOrder(db, start.value, n);
      JustAbove(DataKey(Key(db, start.value)), DataKey(Key(db, n)));
    }
  }

  lemma VisitedKey(db: u16, start: Option<bytes>, x: bytes)
    requires InRange(x, SeekKey(db, start), Successor(DataPrefix(db)))
    ensures x == DataKey(Key(db, KeyFromDataKey(x))) && After(start, KeyFromDataKey(x))
  {
    hide Less;
    var p := DataPrefix(db);
    AbovePrefix(db, start, x);
    PrefixRange(p, x);
    assert x == p + x[3..];
    assert x == DataKey(Key(db, x[3..]));
    NameInRange(db, start, x[3..]);
  }

  lemma AbovePrefix(db: u16, start: Option<bytes>, x: bytes)
    requires !Less(x, SeekKey(db, start))
    ensures !Less(x, DataPrefix(db))
  {
    if start.Some? && Less(x, DataPrefix(db)) {
      var p, s := DataPrefix(db), start.value + [0];
      assert SeekKey(db, start) == p + s;
      LessCommonPrefix(p, [], s);
      assert p + [] == p;
      LessTransitive(x, p, p + s);
    }
  }

  /** What the callback has seen after some keys: all hits so far, and the last name. */
  ghost predicate Seen(db: u16, hit: bytes -> bool, ks: seq<bytes>, batch: seq<bytes>, last: Option<bytes>)
  {
    && Ascending(batch)
    && (forall n :: n in batch <==> DataKey(Key(db, n)) in ks && n != [] && hit(n))
    && (last.None? ==> forall n :: DataKey(Key(db, n)) in ks ==> n == [])
    && (last.Some? ==> last.value != [] && DataKey(Key(db, last.value)) in ks)
    && (last.Some? ==> forall n :: DataKey(Key(db, n)) in ks ==> !Less(last.value, n))
  }

  lemma SeeNext(db: u16, hit: bytes -> bool, ks: seq<bytes>, batch: seq<bytes>, last: Option<bytes>, n: bytes)
    requires Seen(db, hit, ks, batch, last) && Ascending(ks + [DataKey(Key(db, n))])
    ensures n == [] ==> Seen(db, hit, ks + [DataKey(Key(db, n))], batch, last)
    ensures n != [] ==> Seen(db, hit, ks + [DataKey(Key(db, n))], if hit(n) then batch + [n] else batch, Some(n))
  {
    hide DataKey, Less;
    var ks' := ks + [DataKey(Key(db, n))];
    forall m ensures DataKey(Key(db, m)) in ks' <==> DataKey(Key(db, m)) in ks || m == n
             ensures DataKey(Key(db, m)) in ks ==> Less(m, n)
    {
      NameOrder(db, m, n);
      NameOrder(db, n, m);
      if DataKey(Key(db, m)) in ks { BelowLast(ks, DataKey(Key(db, m)), DataKey(Key(db, n))); }
    }
    LessIrreflexive(n);
    if n == [] {
      forall m | DataKey(Key(db, m)) in ks ensures false { NothingBelow(m); }
    } else {
      forall m | DataKey(Key(db, m)) in ks' ensures !Less(n, m) {
        if m != n { LessAsymmetric(m, n); }
      }
    }
  }

  lemma NothingBelow(m: bytes)
    ensures !Less(m, [])
  {}

  /** One SCAN call: examine keys until the page is full. */
  method Page(e: Db, db: u16, start: Option<bytes>, count: nat, hit: bytes -> bool)
    returns (batch: seq<bytes>, end: Option<bytes>)
    requires count > 0
    ensures IsPage(e, db, hit, start, end, batch)
    ensures end.Some? ==> |batch| == count && end.value != [] && Present(e, db, end.value)
    ensures end.Some? ==> exists n :: Present(e, db, n) && After(end, n)
  {
    hide DataKey, Less, KeyFromDataKey, Seen, IsPage, SeekKey, InRange;
    var ks := ScanRange(e, SeekKey(db, start), Successor(DataPrefix(db)));
    VisitedNames(e, db, start, ks);
    batch, end := [], None;
    NothingSeen(db, hit);
    for i := 0 to |ks|
      invariant Seen(db, hit, ks[..i], batch, end) && |batch| <= count
    {
      if |batch| >= count {
        FullPage(e, db, hit, start, ks, i, batch, end);
        return;
      }
      var n := KeyFromDataKey(ks[i]);
      assert ks[..i + 1] == ks[..i] + [ks[i]];
      SeeNext(db, hit, ks[..i], batch, end, n);
      if n == [] { continue; }
      end := Some(n);
      if hit(n) { batch := batch + [n]; }
    }
    assert ks[..|ks|] == ks;
    LastPage(e, db, hit, start, ks, batch, end);
    end := None;
  }

  lemma NothingSeen(db: u16, hit: bytes -> bool)
    ensures Seen(db, hit, [], [], None)
  {}

  lemma LastPage(e: Db, db: u16, hit: bytes -> bool, start: Option<bytes>, ks: seq<bytes>, batch: seq<bytes>, last: Option<bytes>)
    requires Seen(db, hit, ks, batch, last)
    requires Visits(e, db, start, ks)
    ensures IsPage(e, db, hit, start, None, batch)
  {
    hide DataKey, Less, KeyFromDataKey;
    forall n | DataKey(Key(db, n)) in ks ensures Present(e, db, n) && After(start, n) {
      var i :| 0 <= i < |ks| && ks[i] == DataKey(Key(db, n));
      NameOrder(db, n, n);
    }
  }

  lemma FullPage(e: Db, db: u16, hit: bytes -> bool, start: Option<bytes>, ks: seq<bytes>, i: nat,
                 batch: seq<bytes>, last: Option<bytes>)
    requires i < |ks| && Seen(db, hit, ks[..i], batch, last) && batch != [] && Ascending(ks)
    requires Visits(e, db, start, ks)
    ensures last.Some? && last.value != [] && Present(e, db, last.value)
    ensures exists n :: Present(e, db, n) && After(last, n)
    ensures IsPage(e, db, hit, start, last, batch)
  {
    hide DataKey, Less, KeyFromDataKey;
    assert batch[0] in batch;
    LaterKey(db, ks, i, i, last.value, KeyFromDataKey(ks[i]));
    forall n | DataKey(Key(db, n)) in ks ensures Present(e, db, n) && After(start, n) {
      var j :| 0 <= j < |ks| && ks[j] == DataKey(Key(db, n));
      NameOrder(db, n, n);
    }
    forall n | Present(e, db, n) && After(start, n) && !Less(last.value, n) ensures DataKey(Key(db, n)) in ks[..i] {
      var j :| 0 <= j < |ks| && ks[j] == DataKey(Key(db, n));
      if j >= i { LaterKey(db, ks, i, j, last.value, n); }
    }
  }

  /** A key not yet examined lies strictly after the last examined one. */
  lemma LaterKey(db: u16, ks: seq<bytes>, i: nat, j: nat, last: bytes, n: bytes)
    requires Ascending(ks) && i <= j < |ks| && DataKey(Key(db, last)) in ks[..i] && ks[j] == DataKey(Key(db, n))
    ensures Less(last, n)
  {
    var x :| 0 <= x < i && ks[x] == DataKey(Key(db, last));
    NameOrder(db, last, n);
  }

  // ---------- a whole iteration ----------

  /** One call of an iteration, over whatever the keyspace was at that time. */
  datatype Turn = Turn(e: Db, hit: bytes -> bool, start: Option<bytes>, end: Option<bytes>, batch: seq<bytes>)

  /** Calls that follow valid cursors from 0 until 0 comes back. */
  ghost predicate Iteration(db: u16, turns: seq<Turn>)
  {
    && turns != [] && turns[0].start == None && turns[|turns| - 1].end == None
    && (forall i | 0 <= i < |turns| - 1 :: turns[i].end.Some? && turns[i + 1].start == turns[i].end)
    && (forall i | 0 <= i < |turns| :: IsPage(turns[i].e, db, turns[i].hit, turns[i].start, turns[i].end, turns[i].batch))
  }

  /** Cursors only move forward. */
  lemma {:induction false} Forward(db: u16, turns: seq<Turn>, i: nat, j: nat)
    requires Iteration(db, turns) && i < j < |turns|
    ensures turns[i].end.Some? && turns[j].start.Some?
    ensures turns[i].end.value == turns[j].start.value || Less(turns[i].end.value, turns[j].start.value)
    decreases j - i
  {
    hide Less;
    if i + 1 < j {
      Forward(db, turns, i, j - 1);
      var a, b, c := turns[i].end.value, turns[j - 1].start.value, turns[j].start.value;
      assert IsPage(turns[j - 1].e, db, turns[j - 1].hit, turns[j - 1].start, turns[j - 1].end, turns[j - 1].batch);
      assert Less(b, c);
      if a != b { LessTransitive(a, b, c); }
    }
  }

  /** Nothing is reported twice, however the keyspace changed between the calls: every
      name of a later call lies above every name of an earlier one. */
  lemma NoneTwice(db: u16, turns: seq<Turn>, i: nat, j: nat, x: bytes, y: bytes)
    requires Iteration(db, turns) && i < j < |turns| && x in turns[i].batch && y in turns[j].batch
    ensures Less(x, y)
  {
    hide Less;
    Forward(db, turns, i, j);
    assert IsPage(turns[i].e, db, turns[i].hit, turns[i].start, turns[i].end, turns[i].batch);
    assert IsPage(turns[j].e, db, turns[j].hit, turns[j].start, turns[j].end, turns[j].batch);
    var a, b := turns[i].end.value, turns[j].start.value;
    if a != b { LessTransitive(a, b, y); }
    LessTotal(x, a);
    if x != a { LessTransitive(x, a, y); }
  }

  /** A non-empty name that was there and a hit at every call is reported by some call. */
  lemma {:induction false} Reported(db: u16, turns: seq<Turn>, n: bytes, from: nat) returns (i: nat)
    requires Iteration(db, turns) && n != [] && from < |turns| && After(turns[from].start, n)
    requires forall i | 0 <= i < |turns| :: Present(turns[i].e, db, n) && turns[i].hit(n)
    ensures i < |turns| && n in turns[i].batch
    decreases |turns| - from
  {
    hide Less;
    assert IsPage(turns[from].e, db, turns[from].hit, turns[from].start, turns[from].end, turns[from].batch);
    i := from;
    if !UpTo(turns[from].end, n) {
      i := Reported(db, turns, n, from + 1);
    }
  }

  /** Completeness from the first call on. */
  lemma Complete(db: u16, turns: seq<Turn>, n: bytes) returns (i: nat)
    requires Iteration(db, turns) && n != []
    requires forall i | 0 <= i < |turns| :: Present(turns[i].e, db, n) && turns[i].hit(n)
    ensures i < |turns| && n in turns[i].batch
  {
    i := Reported(db, turns, n, 0);
  }

  ghost function Ahead(e: Db, db: u16, start: Option<bytes>): set<bytes>
  {
    set x | x in e && (exists n :: x == DataKey(Key(db, n)) && After(start, n)) :: x
  }

  lemma AheadShrinks(e: Db, db: u16, start: Option<bytes>, end: bytes)
    requires After(start, end) && Present(e, db, end)
    ensures Ahead(e, db, Some(end)) < Ahead(e, db, start)
  {
    hide Less, DataKey;
    forall x | x in Ahead(e, db, Some(end)) ensures x in Ahead(e, db, start) {
      var n :| x == DataKey(Key(db, n)) && Less(end, n);
      if start.Some? { LessTransitive(start.value, end, n); }
    }
    assert DataKey(Key(db, end)) in Ahead(e, db, start);
    if DataKey(Key(db, end)) in Ahead(e, db, Some(end)) {
      var n :| DataKey(Key(db, end)) == DataKey(Key(db, n)) && Less(end, n);
      NameOrder(db, end, n);
      NotAhead(end, n, db);
    }
  }

  lemma NotAhead(end: bytes, n: bytes, db: u16)
    requires DataKey(Key(db, end)) == DataKey(Key(db, n))
    ensures !Less(end, n)
  {
    NameOrder(db, end, n);
    NameOrder(db, n, end);
    LessIrreflexive(end);
  }

  /** Following cursors through the table over a keyspace that does not change ends, and
      reports every hit exactly once, in order. */
  method ScanAll(t: CursorTable, e: Db, db: u16, count: nat, hit: bytes -> bool, now: int) returns (out: seq<bytes>)
    requires count > 0
    modifies t
    ensures Ascending(out)
    ensures forall n :: n in out <==> Present(e, db, n) && n != [] && hit(n)
  {
    hide Less, DataKey, Ascending, KeyFromDataKey;
    var cursor: u64 := 0;
    var start: Option<bytes> := None;
    out := [];
    NoneYet();
    var more := true;
    while more
      invariant Ascending(out)
      invariant more ==> forall n :: n in out <==> Present(e, db, n) && n != [] && hit(n) && !After(start, n)
      invariant more && cursor == 0 ==> start == None
      invariant more && cursor != 0 ==> start.Some? && cursor in t.byID &&
                                        t.byID[cursor] == Slot(DataKey(Key(db, start.value)), db, now + CURSOR_TTL)
      invariant !more ==> forall n :: n in out <==> Present(e, db, n) && n != [] && hit(n)
      decreases more, Ahead(e, db, start)
    {
      var from: Option<bytes> := None;
      if cursor != 0 {
        var key := t.Lookup(cursor, db, now);
        NameOrder(db, start.value, start.value);
        from := Some(KeyFromDataKey(key.value));
      }
      var batch, end := Page(e, db, from, count, hit);
      Joined(e, db, hit, from, end, out, batch);
      out := out + batch;
      if end == None {
        more := false;
      } else {
        AheadShrinks(e, db, from, end.value);
        cursor := t.Alloc(DataKey(Key(db, end.value)), db, now);
        start := end;
      }
    }
  }

  lemma NoneYet()
    ensures Ascending([])
  {}

  lemma Joined(e: Db, db: u16, hit: bytes -> bool, start: Option<bytes>, end: Option<bytes>, out: seq<bytes>, batch: seq<bytes>)
    requires IsPage(e, db, hit, start, end, batch) && Ascending(out)
    requires forall n :: n in out <==> Present(e, db, n) && n != [] && hit(n) && !After(start, n)
    ensures Ascending(out + batch)
    ensures end.None? ==> forall n :: n in out + batch <==> Present(e, db, n) && n != [] && hit(n)
    ensures end.Some? ==> forall n :: n in out + batch <==> Present(e, db, n) && n != [] && hit(n) && !After(end, n)
  {
    hide Less, DataKey;
    var all := out + batch;
    forall i, j | 0 <= i < j < |all| ensures Less(all[i], all[j]) {
      if i < |out| <= j {
        assert all[i] in out && all[j] in batch;
        Between(start.value, all[i], all[j]);
      }
    }
    if end.Some? {
      forall n ensures !After(end, n) <==> (!After(start, n) || (After(start, n) && UpTo(end, n))) {
        if start.Some? && Less(end.value, n) { LessTransitive(start.value, end.value, n); }
      }
    }
  }

  lemma Between(s: bytes, x: bytes, y: bytes)
    requires !Less(s, x) && Less(s, y)
    ensures Less(x, y)
  {
    LessTotal(x, s);
    if x != s { LessTransitive(x, s, y); }
  }
}
