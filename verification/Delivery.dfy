/**
 The delivery protocol's engine writes. Every write of a read, an acknowledgement, a claim
 or an append, taken alone, is one step of the protocol over what the engine shows.
 */
module Delivery {
  import opened Bytes
  import opened Layout
  import opened Codec
  import opened Engine
  import opened Streams
  import opened Groups

  function GroupKey(k: Key, name: bytes): bytes { ElemPrefix(SEG_GROUP, k) + name + [0] }

  function PelPrefix(k: Key, name: bytes): bytes { ElemPrefix(SEG_PEL, k) + name + [0] }

  function PelKey(k: Key, name: bytes, id: ID): bytes { PelPrefix(k, name) + IdBytes(id) }

  function PelValue(who: bytes, count: nat, ms: u64): bytes { who + [0] + BE(count, 4) + BE(ms, 8) }

  /** indexByte: the first zero byte, or the length. */
  function ZeroAt(v: bytes): (i: nat)
    ensures i <= |v| && (forall j | 0 <= j < i :: v[j] != 0) && (i < |v| ==> v[i] == 0)
  {
    if v == [] || v[0] == 0 then 0 else 1 + ZeroAt(v[1..])
  }

  datatype Pending = Pending(who: bytes, count: nat, ms: nat)

  /** The record of a pending entry as pelList reads it. */
  function ReadPending(v: bytes): Option<Pending>
  {
    var z := ZeroAt(v);
    if z >= |v| || |v| < z + 13 then None
    else Some(Pending(v[..z], FromBE(v[z + 1..z + 5]), FromBE(v[z + 5..z + 13])))
  }

  lemma PendingRoundTrip(who: bytes, count: nat, ms: u64)
    requires NulFree(who) && count < U32
    ensures ReadPending(PelValue(who, count, ms)) == Some(Pending(who, count, ms))
  {
    hide BE, FromBE;
    var v := PelValue(who, count, ms);
    var z := ZeroAt(v);
    assert v[|who|] == 0;
    assert forall j | 0 <= j < |who| :: v[j] == who[j];
    assert z == |who|;
    assert v[..z] == who && v[z + 1..z + 5] == BE(count, 4) && v[z + 5..z + 13] == BE(ms, 8);
    BE32(count);
    BE64(ms);
  }

  predicate Readable(e: Db, k: Key, id: ID) { Has(e, k, id) && ParseStreamFields(e[EntryKey(k, id)]).Some? }

  /** The engine shows a group: its readable entries, its cursor and its pending list. */
  ghost predicate Shows(e: Db, k: Key, name: bytes, g: Group)
  {
    && (forall j: ID :: j in g.entries <==> Readable(e, k, j))
    && GroupKey(k, name) in e && e[GroupKey(k, name)] == IdBytes(g.cursor)
    && (forall j: ID :: PelKey(k, name, j) in e <==> j in g.pel)
    && (forall j: ID | j in g.pel :: OwnerAt(e, k, name, j) == Some(g.pel[j]))
  }

  function OwnerAt(e: Db, k: Key, name: bytes, j: ID): Option<bytes>
  {
    if PelKey(k, name, j) !in e then None else
    match ReadPending(e[PelKey(k, name, j)]) case None => None case Some(p) => Some(p.who)
  }

  lemma KeysApart(k: Key, name: bytes, i: ID, j: ID)
    ensures EntryKey(k, i) != GroupKey(k, name) && EntryKey(k, i) != PelKey(k, name, j)
    ensures GroupKey(k, name) != PelKey(k, name, j)
    ensures PelKey(k, name, i) == PelKey(k, name, j) <==> i == j
    ensures EntryKey(k, i) == EntryKey(k, j) <==> i == j
    ensures EntryKey(k, i)[0] == SEG_ENTRY && GroupKey(k, name)[0] == SEG_GROUP && PelKey(k, name, j)[0] == SEG_PEL
  {
    hide IdBytes;
    assert EntryKey(k, i)[0] == SEG_ENTRY && GroupKey(k, name)[0] == SEG_GROUP && PelKey(k, name, j)[0] == SEG_PEL;
    IdOrder(PelPrefix(k, name), i, j);
    IdOrder(ElemPrefix(SEG_ENTRY, k), i, j);
  }

  // ---------- single writes are protocol steps ----------

  /** Writing a pending record shows the entry pending under its consumer. */
  lemma ShowsPending(e: Db, k: Key, name: bytes, g: Group, id: ID, who: bytes, count: nat, ms: u64)
    requires Shows(e, k, name, g) && NulFree(who) && count < U32
    ensures Shows(e[PelKey(k, name, id) := PelValue(who, count, ms)], k, name, g.(pel := g.pel[id := who]))
  {
    hide EntryKey, GroupKey, PelKey, IdBytes, PelValue, ReadPending, ParseStreamFields;
    var e' := e[PelKey(k, name, id) := PelValue(who, count, ms)];
    PendingRoundTrip(who, count, ms);
    forall j: ID
      ensures Readable(e', k, j) == Readable(e, k, j)
      ensures PelKey(k, name, j) in e' <==> j in g.pel || j == id
      ensures j != id ==> OwnerAt(e', k, name, j) == OwnerAt(e, k, name, j)
    {
      KeysApart(k, name, j, id);
    }
    KeysApart(k, name, id, id);
  }

  lemma ShowsAck(e: Db, k: Key, name: bytes, g: Group, id: ID)
    requires Shows(e, k, name, g)
    ensures Shows(e - {PelKey(k, name, id)}, k, name, Next(g, Ack(id)))
  {
    hide EntryKey, GroupKey, PelKey, IdBytes, ReadPending, ParseStreamFields;
    var e' := e - {PelKey(k, name, id)};
    forall j: ID
      ensures Readable(e', k, j) == Readable(e, k, j)
      ensures PelKey(k, name, j) in e' <==> j in g.pel && j != id
      ensures j != id ==> OwnerAt(e', k, name, j) == OwnerAt(e, k, name, j)
    {
      KeysApart(k, name, j, id);
    }
    KeysApart(k, name, id, id);
  }

  /** groupSet shows the cursor moved. */
  lemma ShowsCursor(e: Db, k: Key, name: bytes, g: Group, id: ID)
    requires Shows(e, k, name, g)
    ensures Shows(e[GroupKey(k, name) := IdBytes(id)], k, name, g.(cursor := id))
  {
    hide EntryKey, GroupKey, PelKey, IdBytes, ReadPending, ParseStreamFields;
    var e' := e[GroupKey(k, name) := IdBytes(id)];
    forall j: ID
      ensures Readable(e', k, j) == Readable(e, k, j)
      ensures PelKey(k, name, j) in e' <==> PelKey(k, name, j) in e
      ensures OwnerAt(e', k, name, j) == OwnerAt(e, k, name, j)
    {
      KeysApart(k, name, j, j);
    }
  }

  /** Storing an entry whose fields fit their length fields appends it. */
  lemma ShowsAppend(e: Db, k: Key, name: bytes, g: Group, id: ID, fields: seq<Field>)
    requires Shows(e, k, name, g) && |fields| < U16 && forall f | f in fields :: |f.name| < U16 && |f.value| < U32
    ensures Shows(e[EntryKey(k, id) := EncodeStreamFields(fields)], k, name, g.(entries := g.entries + {id}))
  {
    hide EntryKey, GroupKey, PelKey, IdBytes, ReadPending, ParseStreamFields, EncodeStreamFields;
    var e' := e[EntryKey(k, id) := EncodeStreamFields(fields)];
    StreamFieldsRoundTrip(fields);
    forall j: ID
      ensures Readable(e', k, j) == (Readable(e, k, j) || j == id)
      ensures PelKey(k, name, j) in e' <==> PelKey(k, name, j) in e
      ensures OwnerAt(e', k, name, j) == OwnerAt(e, k, name, j)
    {
      KeysApart(k, name, id, j);
    }
    KeysApart(k, name, id, id);
  }

  /** The pass and the observer's memory are not stored. */
  lemma ShowsSame(e: Db, k: Key, name: bytes, g: Group, g': Group)
    requires Shows(e, k, name, g) && g'.entries == g.entries && g'.cursor == g.cursor && g'.pel == g.pel
    ensures Shows(e, k, name, g')
  {}

  lemma EntryWriteOk(e: Db, x: bytes, v: bytes)
    requires SegmentOk(e) && x != [] && x[0] != SEG_ENTRY
    ensures SegmentOk(e[x := v]) && SegmentOk(e - {x})
  {
    hide IsEntry;
  }

  // ---------- runs, one more step at a time ----------

  lemma {:induction false} RunSnoc(g: Group, evs: seq<Event>, ev: Event)
    requires IsRun(g, evs) && Allowed(After(g, evs), ev)
    ensures IsRun(g, evs + [ev]) && After(g, evs + [ev]) == Next(After(g, evs), ev)
    decreases |evs|
  {
    hide Enabled, KeepsSafe, Next;
    if evs == [] {
      assert [ev][1..] == [];
      assert IsRun(Next(g, ev), []) && After(Next(g, ev), []) == Next(g, ev);
      assert [] + [ev] == [ev];
    } else {
      assert (evs + [ev])[1..] == evs[1..] + [ev];
      RunSnoc(Next(g, evs[0]), evs[1..], ev);
    }
  }

  // ---------- commands ----------

  function IdsOf(xs: seq<Entry>): (ids: seq<ID>)
    ensures |ids| == |xs| && forall i | 0 <= i < |xs| :: ids[i] == xs[i].id
  {
    seq(|xs|, i requires 0 <= i < |xs| => xs[i].id)
  }

  /** groupGet: the first key under the group's prefix. */
  method GroupGet(e: Db, k: Key, name: bytes) returns (r: Option<ID>)
    ensures GroupKey(k, name) in e && |e[GroupKey(k, name)]| >= 16 ==> r == Some(ReadId(e[GroupKey(k, name)]))
    ensures (forall x | x in e :: !(GroupKey(k, name) <= x)) ==> r == None
  {
    hide GroupKey, ReadId;
    var p := GroupKey(k, name);
    var ks := ScanRange(e, p, Successor(p));
    if ks == [] {
      PrefixRange(p, p);
      return None;
    }
    assert ks[0] in ks;
    PrefixRange(p, ks[0]);
    if p in e {
      PrefixRange(p, p);
      AscendingHead(ks, p);
    }
    var v := e[ks[0]];
    return if |v| >= 16 then Some(ReadId(v)) else None;
  }

  /** The ids a range read after the cursor returns are the first fresh ones. */
  lemma RangeIsFirst(e: Db, k: Key, name: bytes, g: Group, all: seq<Entry>, n: nat)
    requires Shows(e, k, name, g) && IsRange(e, k, NextID(g.cursor), MAX_ID, all) && n <= |all|
    ensures FirstOf(IdsOf(all[..n]), Fresh(g))
    ensures n == |all| ==> forall j | j in Fresh(g) :: j in IdsOf(all)
  {
    hide EntryKey, GroupKey, PelKey, IdBytes, ReadPending, ParseStreamFields, InWindow, Lt;
    var ids := IdsOf(all[..n]);
    forall j | j in ids ensures j in Fresh(g) {
      var i :| 0 <= i < n && all[i].id == j;
      assert all[i] in all;
    }
    forall j | j in Fresh(g) ensures exists i :: 0 <= i < |all| && all[i].id == j {
      var x := Streams.Entry(j, ParseStreamFields(e[EntryKey(k, j)]).value);
      assert x in all;
    }
    if ids != [] {
      forall j | j in Fresh(g) && Le(j, ids[n - 1]) ensures j in ids {
        var i :| 0 <= i < |all| && all[i].id == j;
        NotLater(all, n, i);
        assert ids[i] == j;
      }
    }
  }

  lemma NotLater(all: seq<Entry>, n: nat, i: nat)
    requires 0 < n <= |all| && i < |all| && (forall a, b | 0 <= a < b < |all| :: Lt(all[a].id, all[b].id))
    requires Le(all[i].id, all[n - 1].id)
    ensures i < n
  {}

  /** The steps of one read: every id pending, then the cursor, then the reply. */
  function ReadEvents(ids: seq<ID>, who: bytes): seq<Event>
  {
    if ids == [] then [] else [StartNew(ids, who)] + seq(|ids|, _ => Deliver) + [MoveCursor, Reply]
  }

  /** The ">" path of XREADGROUP on one stream: record each entry as pending, then move
      the cursor, then reply. The writes are a run of the protocol, so everything proved
      of the protocol holds between any two of them. */
  method ReadNew(s: Log, k: Key, name: bytes, who: bytes, count: int, now: u64, ghost g: Group)
    returns (r: seq<Entry>, ghost evs: seq<Event>)
    requires SegmentOk(s.eng) && PlainName(k) && NulFree(who) && Shows(s.eng, k, name, g) && g.pass.NoPass?
    modifies s
    ensures SegmentOk(s.eng)
    ensures IsRun(g, evs) && Shows(s.eng, k, name, After(g, evs))
    ensures After(g, evs).pass.NoPass? && After(g, evs).handed == g.handed + IdsOf(r)
    ensures r == [] ==> s.eng == old(s.eng) && Fresh(g) == {}
    ensures evs == ReadEvents(IdsOf(r), who)
    ensures AllPending(s.eng, k, name, r, |r|, Pending(who, 1, now))
    ensures count <= 0 || |r| < count ==> forall j | j in Fresh(g) :: j in IdsOf(r)
    ensures count > 0 ==> |r| <= count
  {
    hide SegmentOk, Shows, IsRange, Fresh, GroupKey, PelKey, IdBytes, Allowed, Next, AllPending, Answers;
    var last := GroupGet(s.eng, k, name);
    CursorShown(s.eng, k, name, g);
    r := Range(s.eng, k, NextID(last.value), MAX_ID, count, false);
    ghost var all :| IsRange(s.eng, k, NextID(last.value), MAX_ID, all) && r == Shown(all, count, false);
    assert r == all[..|r|];
    RangeIsFirst(s.eng, k, name, g, all, |r|);
    evs := [];
    assert IsRun(g, []) && After(g, []) == g;
    if |r| == 0 {
      assert g.handed + IdsOf(r) == g.handed;
      NoneFresh(g, all);
      NonePending(s.eng, k, name, r, Pending(who, 1, now));
      return;
    }
    ghost var ids := IdsOf(r);
    ghost var g1 := Started(g, ids, who);
    ShowsSame(s.eng, k, name, g, g1);
    evs := [StartNew(ids, who)];
    RunSnoc(g, [], StartNew(ids, who));
    assert [] + [StartNew(ids, who)] == evs;
    evs := PelAddAll(s, k, name, who, r, now, g, evs);
    ghost var g2 := After(g, evs);
    MoveShown(s.eng, k, name, g2);
    GroupKeyFirst(k, name);
    EntryWriteOk(s.eng, GroupKey(k, name), IdBytes(r[|r| - 1].id));
    CursorKeepsPending(s.eng, k, name, r, |r|, Pending(who, 1, now), IdBytes(r[|r| - 1].id));
    s.eng := s.eng[GroupKey(k, name) := IdBytes(r[|r| - 1].id)];
    RunSnoc(g, evs, MoveCursor);
    evs := evs + [MoveCursor];
    ReplyShown(s.eng, k, name, After(g, evs));
    RunSnoc(g, evs, Reply);
    evs := evs + [Reply];
  }

  /** The first n entries have the given pending record. */
  predicate AllPending(e: Db, k: Key, name: bytes, r: seq<Entry>, n: nat, p: Pending)
    requires n <= |r|
  {
    forall i | 0 <= i < n :: PelKey(k, name, r[i].id) in e && ReadPending(e[PelKey(k, name, r[i].id)]) == Some(p)
  }

  lemma NonePending(e: Db, k: Key, name: bytes, r: seq<Entry>, p: Pending)
    ensures AllPending(e, k, name, r, 0, p)
  {}

  lemma OneMorePending(e: Db, k: Key, name: bytes, r: seq<Entry>, i: nat, who: bytes, now: u64)
    requires i < |r| && NulFree(who) && AllPending(e, k, name, r, i, Pending(who, 1, now))
    ensures AllPending(e[PelKey(k, name, r[i].id) := PelValue(who, 1, now)], k, name, r, i + 1, Pending(who, 1, now))
  {
    hide PelKey, PelValue, ReadPending;
    PendingRoundTrip(who, 1, now);
  }

  lemma CursorKeepsPending(e: Db, k: Key, name: bytes, r: seq<Entry>, n: nat, p: Pending, v: bytes)
    requires n <= |r| && AllPending(e, k, name, r, n, p)
    ensures AllPending(e[GroupKey(k, name) := v], k, name, r, n, p)
  {
    hide PelKey, GroupKey, ReadPending;
    forall i | 0 <= i < n ensures PelKey(k, name, r[i].id) != GroupKey(k, name) {
      KeysApart(k, name, r[i].id, r[i].id);
    }
  }

  /** The loop of pelAdd calls, one write per entry. */
  method PelAddAll(s: Log, k: Key, name: bytes, who: bytes, r: seq<Entry>, now: u64, ghost g: Group, ghost evs0: seq<Event>)
    returns (ghost evs: seq<Event>)
    requires SegmentOk(s.eng) && NulFree(who) && IsRun(g, evs0) && Shows(s.eng, k, name, After(g, evs0))
    requires After(g, evs0).pass == Delivering(IdsOf(r), 0, who) && After(g, evs0).handed == g.handed
    modifies s
    ensures SegmentOk(s.eng) && IsRun(g, evs) && Shows(s.eng, k, name, After(g, evs))
    ensures After(g, evs).pass == Delivering(IdsOf(r), |r|, who) && After(g, evs).handed == g.handed
    ensures evs == evs0 + seq(|r|, _ => Deliver)
    ensures AllPending(s.eng, k, name, r, |r|, Pending(who, 1, now))
  {
    hide SegmentOk, Shows, GroupKey, PelKey, IdBytes, Allowed, Next, AllPending, PelValue;
    evs := evs0;
    NonePending(s.eng, k, name, r, Pending(who, 1, now));
    for i := 0 to |r|
      invariant SegmentOk(s.eng) && IsRun(g, evs) && Shows(s.eng, k, name, After(g, evs))
      invariant After(g, evs).pass == Delivering(IdsOf(r), i, who) && After(g, evs).handed == g.handed
      invariant evs == evs0 + seq(i, _ => Deliver)
      invariant AllPending(s.eng, k, name, r, i, Pending(who, 1, now))
    {
      OneMorePending(s.eng, k, name, r, i, who, now);
      PelKeyFirst(k, name, r[i].id);
      EntryWriteOk(s.eng, PelKey(k, name, r[i].id), PelValue(who, 1, now));
      DeliverShown(s.eng, k, name, After(g, evs), now);
      s.eng := s.eng[PelKey(k, name, r[i].id) := PelValue(who, 1, now)];
      RunSnoc(g, evs, Deliver);
      evs := evs + [Deliver];
    }
  }

  lemma PelKeyFirst(k: Key, name: bytes, id: ID)
    ensures PelKey(k, name, id) != [] && PelKey(k, name, id)[0] != SEG_ENTRY
  { KeysApart(k, name, id, id); }

  lemma GroupKeyFirst(k: Key, name: bytes)
    ensures GroupKey(k, name) != [] && GroupKey(k, name)[0] != SEG_ENTRY
  { KeysApart(k, name, MAX_ID, MAX_ID); }

  lemma CursorShown(e: Db, k: Key, name: bytes, g: Group)
    requires Shows(e, k, name, g)
    ensures GroupKey(k, name) in e && |e[GroupKey(k, name)]| >= 16 && ReadId(e[GroupKey(k, name)]) == g.cursor
  {
    IdRoundTrip(g.cursor);
  }

  lemma NoneFresh(g: Group, all: seq<Entry>)
    requires all == [] && forall j | j in Fresh(g) :: j in IdsOf(all)
    ensures Fresh(g) == {}
  {}

  ghost function Started(g: Group, ids: seq<ID>, who: bytes): (g1: Group)
    requires g.pass.NoPass? && ids != [] && FirstOf(ids, Fresh(g))
    ensures Allowed(g, StartNew(ids, who)) && g1 == Next(g, StartNew(ids, who))
    ensures g1.pass == Delivering(ids, 0, who) && g1.entries == g.entries && g1.cursor == g.cursor && g1.pel == g.pel
    ensures g1.handed == g.handed
  {
    Next(g, StartNew(ids, who))
  }

  lemma DeliverShown(e: Db, k: Key, name: bytes, g: Group, now: u64)
    requires Shows(e, k, name, g) && g.pass.Delivering? && g.pass.n < |g.pass.ids| && NulFree(g.pass.who)
    ensures Allowed(g, Deliver)
    ensures var g' := Next(g, Deliver);
            && Shows(e[PelKey(k, name, g.pass.ids[g.pass.n]) := PelValue(g.pass.who, 1, now)], k, name, g')
            && g'.pass == Delivering(g.pass.ids, g.pass.n + 1, g.pass.who) && g'.handed == g.handed
  {
    hide Shows;
    var id := g.pass.ids[g.pass.n];
    ShowsPending(e, k, name, g, id, g.pass.who, 1, now);
    ShowsSame(e[PelKey(k, name, id) := PelValue(g.pass.who, 1, now)], k, name, g.(pel := g.pel[id := g.pass.who]),
              Next(g, Deliver));
  }

  lemma MoveShown(e: Db, k: Key, name: bytes, g: Group)
    requires Shows(e, k, name, g) && g.pass.Delivering? && g.pass.n == |g.pass.ids| > 0
    ensures Allowed(g, MoveCursor)
    ensures var g' := Next(g, MoveCursor);
            && Shows(e[GroupKey(k, name) := IdBytes(g.pass.ids[|g.pass.ids| - 1])], k, name, g')
            && g'.pass == Answering(g.pass.ids) && g'.handed == g.handed
  {
    hide Shows;
    var id := g.pass.ids[|g.pass.ids| - 1];
    ShowsCursor(e, k, name, g, id);
    ShowsSame(e[GroupKey(k, name) := IdBytes(id)], k, name, g.(cursor := id), Next(g, MoveCursor));
  }

  lemma ReplyShown(e: Db, k: Key, name: bytes, g: Group)
    requires Shows(e, k, name, g) && g.pass.Answering?
    ensures Allowed(g, Reply)
    ensures var g' := Next(g, Reply);
            Shows(e, k, name, g') && g'.pass.NoPass? && g'.handed == g.handed + g.pass.ids
  {
    ShowsSame(e, k, name, g, Next(g, Reply));
  }

  /** XACK: one delete per id; the reply counts the ids given. */
  method AckAll(s: Log, k: Key, name: bytes, ids: seq<ID>, ghost g: Group) returns (n: nat)
    requires SegmentOk(s.eng) && Shows(s.eng, k, name, g)
    modifies s
    ensures SegmentOk(s.eng) && n == |ids|
    ensures IsRun(g, seq(|ids|, i requires 0 <= i < |ids| => Ack(ids[i])))
    ensures Shows(s.eng, k, name, After(g, seq(|ids|, i requires 0 <= i < |ids| => Ack(ids[i]))))
  {
    hide SegmentOk, Shows, PelKey, Allowed, Next;
    n := 0;
    ghost var evs: seq<Event> := [];
    assert IsRun(g, []) && After(g, []) == g;
    while n < |ids|
      invariant n <= |ids| && evs == seq(n, i requires 0 <= i < n => Ack(ids[i]))
      invariant SegmentOk(s.eng) && IsRun(g, evs) && Shows(s.eng, k, name, After(g, evs))
    {
      PelKeyFirst(k, name, ids[n]);
      EntryWriteOk(s.eng, PelKey(k, name, ids[n]), []);
      AckAllowed(After(g, evs), ids[n]);
      ShowsAck(s.eng, k, name, After(g, evs), ids[n]);
      s.eng := s.eng - {PelKey(k, name, ids[n])};
      RunSnoc(g, evs, Ack(ids[n]));
      evs := evs + [Ack(ids[n])];
      n := n + 1;
    }
  }

  lemma AckAllowed(g: Group, id: ID)
    ensures Allowed(g, Ack(id))
  {}
}
