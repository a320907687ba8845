/** Consumer-group delivery as a protocol over single engine writes. */
module Groups {
  /*
   A read of new entries records every entry as pending, one write each, and only then
   moves the cursor. Appends, acknowledgements, claims, history reads, trims and crashes
   may fall between any two writes. Reads of one group exclude each other.
   */
  import opened Bytes
  import opened Streams

  /** A pending entry in a history read's list. */
  datatype Holding = Holding(id: ID, who: bytes)

  /** The read in progress: writing pending records, replying, or refreshing its history. */
  datatype Pass =
    | NoPass
    | Delivering(ids: seq<ID>, n: nat, who: bytes)
    | Answering(ids: seq<ID>)
    | Replaying(items: seq<Holding>, n: nat)

  /** What is durable (entries, cursor, pending list), the read in progress, and what an
      observer remembers: acknowledged ids, ids handed out by replies, and the id the group
      was created at. */
  datatype Group = Group(entries: set<ID>, cursor: ID, pel: map<ID, bytes>, pass: Pass,
                         acked: set<ID>, handed: seq<ID>, made: ID)

  datatype Event =
    | Append(id: ID)
    | Remove(gone: set<ID>)
    | StartNew(ids: seq<ID>, who: bytes)
    | Deliver
    | MoveCursor
    | Reply
    | Ack(id: ID)
    | Claim(id: ID, who: bytes)
    | StartHistory(items: seq<Holding>)
    | Replay
    | Crash

  predicate Ascends(ids: seq<ID>) { forall i, j | 0 <= i < j < |ids| :: Lt(ids[i], ids[j]) }

  /** What a read of new entries sees: its range starts after the cursor. */
  function Fresh(g: Group): set<ID> { set j | j in g.entries && InWindow(NextID(g.cursor), MAX_ID, j) }

  /** The first entries of a set, in order. */
  predicate FirstOf(ids: seq<ID>, s: set<ID>)
  {
    && Ascends(ids) && (forall j | j in ids :: j in s)
    && (ids != [] ==> forall j | j in s && Le(j, ids[|ids| - 1]) :: j in ids)
  }

  predicate Enabled(g: Group, ev: Event)
  {
    match ev
    case Append(id) => forall j | j in g.entries :: Lt(j, id)
    case StartNew(ids, _) => g.pass.NoPass? && ids != [] && FirstOf(ids, Fresh(g))
    case Deliver => g.pass.Delivering? && g.pass.n < |g.pass.ids|
    case MoveCursor => g.pass.Delivering? && g.pass.n == |g.pass.ids| > 0
    case Reply => g.pass.Answering? || g.pass.Replaying?
    case StartHistory(items) => g.pass.NoPass? && forall x | x in items :: x.id in g.pel && g.pel[x.id] == x.who
    case Replay => g.pass.Replaying? && g.pass.n < |g.pass.items|
    case _ => true
  }

  /** One engine write, one read, or a crash. */
  function Next(g: Group, ev: Event): Group
    requires Enabled(g, ev)
  {
    match ev
    case Append(id) => g.(entries := g.entries + {id})
    case Remove(gone) => g.(entries := g.entries - gone)
    case StartNew(ids, who) => g.(pass := Delivering(ids, 0, who))
    case Deliver =>
      g.(pel := g.pel[g.pass.ids[g.pass.n] := g.pass.who], pass := Delivering(g.pass.ids, g.pass.n + 1, g.pass.who))
    case MoveCursor => g.(cursor := g.pass.ids[|g.pass.ids| - 1], pass := Answering(g.pass.ids))
    case Reply => g.(pass := NoPass, handed := if g.pass.Answering? then g.handed + g.pass.ids else g.handed)
    case Ack(id) => g.(pel := g.pel - {id}, acked := if id in g.pel then g.acked + {id} else g.acked)
    case Claim(id, who) => g.(pel := g.pel[id := who])
    case StartHistory(items) => g.(pass := Replaying(items, 0))
    case Replay =>
      var x := g.pass.items[g.pass.n];
      g.(pel := g.pel[x.id := x.who], pass := Replaying(g.pass.items, g.pass.n + 1))
    case Crash => g.(pass := NoPass)
  }

  /** XGROUP CREATE on a stream with any entries. */
  function Created(entries: set<ID>, at: ID): Group { Group(entries, at, map[], NoPass, {}, [], at) }

  // ---------- what every run keeps ----------

  predicate Recorded(g: Group, j: ID) { j in g.pel || j in g.acked }

  /** Every present entry above the creation id and at or below the cursor is pending or
      was acknowledged. */
  ghost predicate NothingLost(g: Group)
  {
    forall j | j in g.entries && Lt(g.made, j) && Le(j, g.cursor) :: Recorded(g, j)
  }

  ghost predicate Reaches(entries: set<ID>, top: ID) { exists m :: m in entries && Le(top, m) }

  /** The highest id the group has taken or is taking. */
  function Top(g: Group): ID
  {
    if g.pass.Delivering? && g.pass.ids != [] then g.pass.ids[|g.pass.ids| - 1] else g.cursor
  }

  /** An id the group would never hand out if an entry came to have it: it lies above the
      creation id and at or below what the group has taken or is taking, and neither the
      records nor the read in progress know it. */
  predicate Exposed(g: Group, j: ID)
  {
    Lt(g.made, j) && Le(j, Top(g)) && !Recorded(g, j) && !(g.pass.Delivering? && j in g.pass.ids)
  }

  /** No such id can be appended: some entry stands at or above it. */
  ghost predicate Safe(g: Group) { forall j | Exposed(g, j) :: Reaches(g.entries, j) }

  ghost predicate KeepsSafe(g: Group, gone: set<ID>) { Safe(g.(entries := g.entries - gone)) }

  ghost predicate Allowed(g: Group, ev: Event)
  {
    Enabled(g, ev) && (ev.Remove? ==> KeepsSafe(g, ev.gone))
  }

  ghost predicate PassOk(g: Group)
  {
    match g.pass
    case Delivering(ids, n, _) =>
      && ids != [] && n <= |ids| && Ascends(ids)
      && (forall j | j in ids :: Lt(g.cursor, j) && j != MAX_ID)
      && (forall j | j in g.entries && Lt(g.cursor, j) && Le(j, ids[|ids| - 1]) :: j in ids || Recorded(g, j))
      && (forall i | 0 <= i < n :: Recorded(g, ids[i]))
    case Answering(ids) =>
      && ids != [] && Ascends(ids) && (forall j | j in ids :: Le(j, g.cursor))
      && (forall h, j | h in g.handed && j in ids :: Lt(h, j))
    case _ => true
  }

  ghost predicate Inv(g: Group)
  {
    && NothingLost(g) && PassOk(g)
    && Le(g.made, g.cursor) && g.cursor != MAX_ID
    && Safe(g)
    && Ascends(g.handed) && (forall j | j in g.handed :: Le(j, g.cursor))
  }

  lemma CreatedInv(entries: set<ID>, at: ID)
    requires at != MAX_ID
    ensures Inv(Created(entries, at))
  {
    assert forall j :: !(Lt(at, j) && Le(j, at));
  }

  lemma FreshExactly(g: Group, j: ID)
    requires g.cursor != MAX_ID
    ensures j in Fresh(g) <==> j in g.entries && Lt(g.cursor, j) && j.ms != MAX64
  {
    NextExactly(g.cursor);
    assert Le(NextID(g.cursor), MAX_ID);
  }

  lemma StartKeeps(g: Group, ids: seq<ID>, who: bytes)
    requires Inv(g) && Enabled(g, StartNew(ids, who))
    ensures Inv(Next(g, StartNew(ids, who)))
  {
    hide Fresh;
    var g' := Next(g, StartNew(ids, who));
    forall j ensures j in Fresh(g) <==> j in g.entries && Lt(g.cursor, j) && j.ms != MAX64 { FreshExactly(g, j); }
    var last := ids[|ids| - 1];
    assert last in ids;
    forall j | j in g.entries && Lt(g.cursor, j) && Le(j, last) ensures j in ids {
      assert j.ms != MAX64;
    }
    assert last in g.entries by { FreshExactly(g, last); }
    forall j | Exposed(g', j) ensures Reaches(g'.entries, j) { assert last in g'.entries && Le(j, last); }
  }

  /** The cursor moves over entries that are all pending or acknowledged by now; an entry
      appended since the read began lies above it. */
  lemma MoveKeeps(g: Group)
    requires Inv(g) && Enabled(g, MoveCursor)
    ensures Inv(Next(g, MoveCursor)) && Lt(g.cursor, Next(g, MoveCursor).cursor)
  {
    var g' := Next(g, MoveCursor);
    var ids := g.pass.ids;
    assert ids[|ids| - 1] in ids;
    forall j | j in ids ensures Recorded(g', j) {
      var i :| 0 <= i < |ids| && ids[i] == j;
      assert Recorded(g, ids[i]);
    }
    forall j | j in g'.entries && Lt(g.made, j) && Le(j, g'.cursor) ensures Recorded(g', j) {
      assert Lt(g.cursor, j) ==> j in ids || Recorded(g, j);
    }
    forall j | Exposed(g', j) ensures Reaches(g'.entries, j) { assert Exposed(g, j); }
    forall j | j in ids ensures Le(j, g'.cursor) {
      var i :| 0 <= i < |ids| && ids[i] == j;
      assert i < |ids| - 1 ==> Lt(ids[i], ids[|ids| - 1]);
    }
  }

  lemma AppendKeeps(g: Group, id: ID)
    requires Inv(g) && Enabled(g, Append(id))
    ensures Inv(Next(g, Append(id)))
  {
    hide Recorded;
    var g' := Next(g, Append(id));
    assert !Exposed(g, id) by { NotExposed(g, id); }
    assert forall j :: Recorded(g', j) == Recorded(g, j) by { SameRecords(g, g'); }
    forall j | Exposed(g', j) ensures Reaches(g'.entries, j) {
      assert Exposed(g, j);
      var m :| m in g.entries && Le(j, m);
      assert m in g'.entries;
    }
    if g.pass.Delivering? { assert forall j | j in g.pass.ids :: Lt(g.cursor, j); }
    assert PassOk(g');
    forall j | j in g'.entries && Lt(g.made, j) && Le(j, g.cursor) ensures Recorded(g', j) {
      if j == id { CursorBelowTop(g); }
    }
  }

  lemma SameRecords(g: Group, g': Group)
    requires g'.pel == g.pel && g'.acked == g.acked
    ensures forall j :: Recorded(g', j) == Recorded(g, j)
  {}

  lemma CursorBelowTop(g: Group)
    requires PassOk(g)
    ensures Le(g.cursor, Top(g)) && (g.pass.Delivering? ==> forall j | Le(j, g.cursor) :: j !in g.pass.ids)
  {
    if g.pass.Delivering? { assert Top(g) in g.pass.ids; }
  }

  lemma NotExposed(g: Group, id: ID)
    requires Safe(g) && Enabled(g, Append(id))
    ensures !Exposed(g, id)
  {
    hide Exposed;
    assert forall m | m in g.entries :: Lt(m, id) && !Le(id, m);
    assert !Reaches(g.entries, id);
  }

  lemma RemoveKeeps(g: Group, gone: set<ID>)
    requires Inv(g) && KeepsSafe(g, gone)
    ensures Inv(Next(g, Remove(gone)))
  {
    hide Safe;
    var g' := Next(g, Remove(gone));
    assert PassOk(g');
    assert NothingLost(g');
  }

  /** Writes to the pending list and acknowledgements only ever record more. */
  lemma RecordsKeep(g: Group, g': Group)
    requires Inv(g) && g'.entries == g.entries && g'.cursor == g.cursor && g'.made == g.made && g'.handed == g.handed
    requires forall j :: Recorded(g, j) ==> Recorded(g', j)
    requires g'.pass == g.pass || g'.pass.NoPass? || g'.pass.Replaying? ||
             (g.pass.Delivering? && g'.pass == Delivering(g.pass.ids, g.pass.n + 1, g.pass.who) &&
              g.pass.n < |g.pass.ids| && Recorded(g', g.pass.ids[g.pass.n]))
    ensures Inv(g')
  {
    hide Recorded;
    assert NothingLost(g');
    assert PassOk(g');
    if g.pass.Delivering? { CursorBelowTop(g); }
    forall j | Exposed(g', j) ensures Reaches(g'.entries, j) { assert Exposed(g, j); }
  }

  lemma ReplyKeeps(g: Group)
    requires Inv(g) && Enabled(g, Reply)
    ensures Inv(Next(g, Reply))
  {
    var g' := Next(g, Reply);
    assert NothingLost(g');
  }

  lemma StepKeeps(g: Group, ev: Event)
    requires Inv(g) && Allowed(g, ev)
    ensures Inv(Next(g, ev)) && Le(g.cursor, Next(g, ev).cursor)
  {
    hide Inv, KeepsSafe, Fresh;
    match ev
    case Append(id) => AppendKeeps(g, id);
    case Remove(gone) => RemoveKeeps(g, gone);
    case StartNew(ids, who) => StartKeeps(g, ids, who);
    case MoveCursor => MoveKeeps(g);
    case Reply => ReplyKeeps(g);
    case _ => RecordsKeep(g, Next(g, ev));
  }

  // ---------- runs ----------

  ghost predicate IsRun(g: Group, evs: seq<Event>)
    decreases |evs|
  {
    evs != [] ==> Allowed(g, evs[0]) && IsRun(Next(g, evs[0]), evs[1..])
  }

  ghost function After(g: Group, evs: seq<Event>): Group
    requires IsRun(g, evs)
    decreases |evs|
  {
    if evs == [] then g else After(Next(g, evs[0]), evs[1..])
  }

  lemma {:induction false} RunKeeps(g: Group, evs: seq<Event>)
    requires Inv(g) && IsRun(g, evs)
    ensures Inv(After(g, evs)) && Le(g.cursor, After(g, evs).cursor)
    decreases |evs|
  {
    hide Inv;
    if evs != [] {
      StepKeeps(g, evs[0]);
      RunKeeps(Next(g, evs[0]), evs[1..]);
    }
  }

  /** In every state of every run, crashes included: no entry above the creation id is
      lost, the cursor has not moved back since any earlier state, and no id was handed out
      twice. */
  lemma Delivery(entries: set<ID>, at: ID, evs: seq<Event>, more: seq<Event>)
    requires at != MAX_ID && IsRun(Created(entries, at), evs) && IsRun(After(Created(entries, at), evs), more)
    ensures var earlier := After(Created(entries, at), evs);
            var g := After(earlier, more);
            && NothingLost(g) && g.made == at
            && Le(at, earlier.cursor) && Le(earlier.cursor, g.cursor)
            && (forall i, j | 0 <= i < j < |g.handed| :: Lt(g.handed[i], g.handed[j]))
  {
    hide IsRun, After;
    CreatedInv(entries, at);
    RunKeeps(Created(entries, at), evs);
    MadeStays(Created(entries, at), evs);
    RunKeeps(After(Created(entries, at), evs), more);
    MadeStays(After(Created(entries, at), evs), more);
  }

  lemma {:induction false} MadeStays(g: Group, evs: seq<Event>)
    requires IsRun(g, evs)
    ensures After(g, evs).made == g.made
    decreases |evs|
  {
    if evs != [] { MadeStays(Next(g, evs[0]), evs[1..]); }
  }

  /** A pending entry stays pending until it is acknowledged. */
  lemma {:induction false} PendingStays(g: Group, evs: seq<Event>, id: ID)
    requires IsRun(g, evs) && id in g.pel && Ack(id) !in evs
    ensures id in After(g, evs).pel
    decreases |evs|
  {
    if evs != [] {
      assert evs[0] in evs;
      PendingStays(Next(g, evs[0]), evs[1..], id);
    }
  }

  /** Once a read of all new entries has run to its reply, every present entry above the
      creation id is pending or acknowledged, save those of the last millisecond. */
  lemma ReadAllDelivers(g: Group, who: bytes, ids: seq<ID>, evs: seq<Event>)
    requires Inv(g) && g.pass.NoPass? && ids != [] && FirstOf(ids, Fresh(g)) && (forall j | j in Fresh(g) :: j in ids)
    requires evs == [StartNew(ids, who)] + seq(|ids|, _ => Deliver) + [MoveCursor, Reply]
    ensures IsRun(g, evs)
    ensures var g' := After(g, evs);
            && g'.entries == g.entries && g'.handed == g.handed + ids && g'.pass.NoPass?
            && forall j | j in g'.entries && Lt(g.made, j) && j.ms != MAX64 :: Recorded(g', j)
  {
    hide Inv, Fresh;
    InvCursor(g);
    FreshExactly(g, ids[|ids| - 1]) by { assert ids[|ids| - 1] in ids; }
    assert ids[|ids| - 1] in ids;
    var g1 := Next(g, StartNew(ids, who));
    assert evs[1..] == seq(|ids|, _ => Deliver) + [MoveCursor, Reply];
    DeliverAll(g1, evs[1..]);
    StepKeeps(g, StartNew(ids, who));
    var g' := After(g1, evs[1..]);
    RunKeeps(g1, evs[1..]);
    MadeStays(g1, evs[1..]);
    forall j | j in g'.entries && Lt(g.made, j) && j.ms != MAX64 ensures Recorded(g', j) {
      FreshExactly(g, j);
      AllBelow(g, g', ids, j);
    }
  }

  lemma InvCursor(g: Group)
    requires Inv(g)
    ensures g.cursor != MAX_ID && NothingLost(g)
  {}

  lemma AllBelow(g: Group, g': Group, ids: seq<ID>, j: ID)
    requires Inv(g') && g'.made == g.made && j in g'.entries && Lt(g.made, j) && ids != [] && Ascends(ids)
    requires g'.cursor == ids[|ids| - 1] && Lt(g.cursor, ids[|ids| - 1]) && (Lt(g.cursor, j) ==> j in ids)
    ensures Recorded(g', j)
  {
    if Lt(g.cursor, j) {
      var i :| 0 <= i < |ids| && ids[i] == j;
      assert i < |ids| - 1 ==> Lt(ids[i], ids[|ids| - 1]);
    }
    assert Le(j, g'.cursor);
  }

  lemma {:induction false} DeliverAll(g: Group, evs: seq<Event>)
    requires g.pass.Delivering? && g.pass.n <= |g.pass.ids| && g.pass.ids != []
    requires evs == seq(|g.pass.ids| - g.pass.n, _ => Deliver) + [MoveCursor, Reply]
    ensures IsRun(g, evs)
    ensures var g' := After(g, evs);
            && g'.entries == g.entries && g'.handed == g.handed + g.pass.ids && g'.pass.NoPass? && g'.made == g.made
            && g'.cursor == g.pass.ids[|g.pass.ids| - 1]
    decreases |evs|
  {
    if g.pass.n < |g.pass.ids| {
      var g1 := Next(g, Deliver);
      assert evs[0] == Deliver;
      assert evs[1..] == seq(|g1.pass.ids| - g1.pass.n, _ => Deliver) + [MoveCursor, Reply];
      DeliverAll(g1, evs[1..]);
    } else {
      assert evs == [MoveCursor, Reply];
      var g1 := Next(g, MoveCursor);
      assert evs[1..] == [Reply];
      assert [Reply][1..] == [];
      assert IsRun(Next(g1, Reply), []);
      assert IsRun(g1, [Reply]);
    }
  }

  // ---------- trims, and what the conditions are for ----------

  /** Trimming to a positive length removes the oldest entries and keeps some. */
  lemma TrimKeepsSafe(g: Group, gone: set<ID>)
    requires Safe(g) && g.entries - gone != {}
    requires forall r, k | r in g.entries && r in gone && k in g.entries && k !in gone :: Lt(r, k)
    ensures KeepsSafe(g, gone)
  {
    hide Recorded;
    var g' := g.(entries := g.entries - gone);
    assert forall j :: Recorded(g', j) == Recorded(g, j) by { SameRecords(g, g'); }
    forall j | Exposed(g', j) ensures Reaches(g'.entries, j) {
      assert Exposed(g, j);
      var m :| m in g.entries && Le(j, m);
      if m in gone {
        var k :| k in g'.entries;
        assert Lt(m, k);
        assert Le(j, k);
      } else {
        assert m in g'.entries;
      }
    }
  }

  /** Leaving some entry at or above what the group has taken is enough. */
  lemma TopKeepsSafe(g: Group, gone: set<ID>)
    requires Top(g) == g.made || Reaches(g.entries - gone, Top(g))
    ensures KeepsSafe(g, gone)
  {
    hide Recorded;
    var g' := g.(entries := g.entries - gone);
    forall j | Exposed(g', j) ensures Reaches(g'.entries, j) {
      var m :| m in g'.entries && Le(Top(g), m);
      assert Le(j, m);
    }
  }

  predicate NoRemovals(evs: seq<Event>) { forall i | 0 <= i < |evs| :: !evs[i].Remove? }

  /** Some run without further removals ends with an entry lost. */
  ghost predicate CanLose(g: Group)
  {
    exists evs :: IsRun(g, evs) && NoRemovals(evs) && !NothingLost(After(g, evs))
  }

  /** The condition on removals is exact: after a removal an entry can be lost if and only if
      some exposed id lies above every entry that is left. */
  lemma RemovalExactly(g: Group, gone: set<ID>)
    requires Inv(g)
    ensures CanLose(Next(g, Remove(gone))) <==> !KeepsSafe(g, gone)
  {
    hide Inv, NothingLost, IsRun, After, Exposed;
    var g' := Next(g, Remove(gone));
    if KeepsSafe(g, gone) {
      RemoveKeeps(g, gone);
      forall evs | IsRun(g', evs) ensures NothingLost(After(g', evs)) {
        RunKeeps(g', evs);
        InvCursor(After(g', evs));
      }
    } else {
      var j :| Exposed(g', j) && !Reaches(g'.entries, j);
      PassKept(g, gone);
      var evs := LosingRun(g', j);
    }
  }

  lemma PassKept(g: Group, gone: set<ID>)
    requires Inv(g)
    ensures PassOk(Next(g, Remove(gone)))
  {}

  /** Append the exposed id, and let the read in progress finish if it reaches past it. */
  lemma LosingRun(g: Group, j: ID) returns (evs: seq<Event>)
    requires PassOk(g) && Exposed(g, j) && !Reaches(g.entries, j)
    ensures IsRun(g, evs) && NoRemovals(evs) && !NothingLost(After(g, evs))
  {
    hide PassOk;
    AboveAll(g, j);
    var g1 := Next(g, Append(j));
    if Le(j, g.cursor) {
      evs := [Append(j)];
      assert evs[1..] == [];
      assert IsRun(g1, []) && After(g1, []) == g1;
      assert j in g1.entries;
    } else {
      var rest := Finish(g1, j) by { PassSteps(g); }
      evs := [Append(j)] + rest;
      assert evs[1..] == rest;
    }
  }

  lemma PassSteps(g: Group)
    requires PassOk(g) && g.pass.Delivering?
    ensures g.pass.ids != [] && g.pass.n <= |g.pass.ids|
  {}

  lemma AboveAll(g: Group, j: ID)
    requires !Reaches(g.entries, j)
    ensures Enabled(g, Append(j))
  {
    forall m | m in g.entries ensures Lt(m, j) { assert !Le(j, m); }
  }

  lemma {:induction false} Finish(g: Group, j: ID) returns (evs: seq<Event>)
    requires g.pass.Delivering? && g.pass.ids != [] && g.pass.n <= |g.pass.ids|
    requires j in g.entries && Exposed(g, j)
    ensures IsRun(g, evs) && NoRemovals(evs) && !NothingLost(After(g, evs))
    decreases |g.pass.ids| - g.pass.n
  {
    if g.pass.n < |g.pass.ids| {
      var g1 := Next(g, Deliver);
      assert g.pass.ids[g.pass.n] in g.pass.ids;
      assert Exposed(g1, j);
      var rest := Finish(g1, j);
      evs := [Deliver] + rest;
      assert evs[1..] == rest;
    } else {
      var g1 := Next(g, MoveCursor);
      evs := [MoveCursor];
      assert evs[1..] == [];
      assert IsRun(g1, []) && After(g1, []) == g1;
      assert !Recorded(g1, j);
    }
  }

  /** For example: the newest entry is deleted, an entry with a lower id is appended, and no
      read will ever hand it out. */
  lemma RemovalCanLose(who: bytes)
    ensures var g := Group({ID(5, 0)}, ID(5, 0), map[ID(5, 0) := who], NoPass, {}, [ID(5, 0)], ID(0, 0));
            && Inv(g) && !KeepsSafe(g, {ID(5, 0)})
            && (var g1 := Next(g, Remove({ID(5, 0)}));
                Enabled(g1, Append(ID(3, 0))) && !NothingLost(Next(g1, Append(ID(3, 0)))))
  {
    var g := Group({ID(5, 0)}, ID(5, 0), map[ID(5, 0) := who], NoPass, {}, [ID(5, 0)], ID(0, 0));
    forall j | Exposed(g, j) ensures Reaches(g.entries, j) { assert ID(5, 0) in g.entries && Le(j, ID(5, 0)); }
    assert g.entries - {ID(5, 0)} == {};
    var g1 := Next(g, Remove({ID(5, 0)}));
    assert Exposed(g1, ID(3, 0)) && !Reaches(g1.entries, ID(3, 0));
    var g2 := Next(g1, Append(ID(3, 0)));
    assert ID(3, 0) in g2.entries && Lt(g2.made, ID(3, 0)) && Le(ID(3, 0), g2.cursor) && !Recorded(g2, ID(3, 0));
  }

  /** A group created at the greatest id: the read range wraps and the cursor moves back. */
  lemma CursorCanGoBack(id: ID, who: bytes)
    requires id.ms != MAX64
    ensures var g := Created({id}, MAX_ID);
            var evs := [StartNew([id], who), Deliver, MoveCursor];
            IsRun(g, evs) && Lt(After(g, evs).cursor, g.cursor)
  {
    var g := Created({id}, MAX_ID);
    var evs := [StartNew([id], who), Deliver, MoveCursor];
    assert NextID(MAX_ID) == ID(0, 0) && id in Fresh(g);
    assert [id][|[id]| - 1] == id && id in [id];
    var g1 := Next(g, evs[0]);
    var g2 := Next(g1, Deliver);
    var g3 := Next(g2, MoveCursor);
    assert evs[1..] == [Deliver, MoveCursor] && [Deliver, MoveCursor][1..] == [MoveCursor];
    assert [MoveCursor][1..] == [];
    assert IsRun(g3, []) && After(g3, []) == g3;
    assert IsRun(g2, [MoveCursor]) && After(g2, [MoveCursor]) == g3;
    assert IsRun(g1, evs[1..]) && After(g1, evs[1..]) == g3;
  }

  /** A history read that listed an entry writes its record back after an acknowledgement
      or a claim fell in between: the entry is pending again, under its former owner. */
  lemma HistoryUndoes(g: Group, id: ID, who: bytes, other: bytes)
    requires g.pass.NoPass? && id in g.pel && g.pel[id] == who && other != who
    ensures var g1 := Next(g, StartHistory([Holding(id, who)]));
            && Next(Next(g1, Ack(id)), Replay).pel == g.pel
            && Next(Next(g1, Claim(id, other)), Replay).pel == g.pel
  {}

  // ---------- when an acknowledgement or a claim sticks ----------

  /** Who a pending entry is recorded for. */
  function RecordOf(g: Group, id: ID): Option<bytes> { if id in g.pel then Some(g.pel[id]) else None }

  /** The read in progress has still to write another record for id than v. */
  predicate Overwrites(g: Group, id: ID, v: Option<bytes>)
  {
    match g.pass
    case Delivering(ids, n, who) => Some(who) != v && exists i :: n <= i < |ids| && ids[i] == id
    case Replaying(items, n) => exists i :: n <= i < |items| && items[i].id == id && Some(items[i].who) != v
    case _ => false
  }

  /** A later read of new entries can take id: it lies above the cursor, not in the last
      millisecond, and there is such an entry or one may be appended. */
  predicate CanRead(g: Group, id: ID, again: bool)
  {
    Lt(g.cursor, id) && id.ms != MAX64 && (again || id in g.entries)
  }

  /** Nobody claims id, or acknowledges it while it is pending; it is appended only if it may
      be again. */
  predicate Untold(ev: Event, id: ID, v: Option<bytes>, again: bool)
  {
    && !(ev.Claim? && ev.id == id) && (ev == Ack(id) ==> v == None) && (ev == Append(id) ==> again)
  }

  predicate AllUntold(evs: seq<Event>, id: ID, v: Option<bytes>, again: bool)
  {
    forall i | 0 <= i < |evs| :: Untold(evs[i], id, v, again)
  }

  /** Some run gives id another record although nobody asks for it. */
  ghost predicate CanChange(g: Group, id: ID, again: bool)
  {
    exists evs :: IsRun(g, evs) && AllUntold(evs, id, RecordOf(g, id), again)
                  && RecordOf(After(g, evs), id) != RecordOf(g, id)
  }

  ghost predicate Settled(g: Group, id: ID, v: Option<bytes>, again: bool)
  {
    Inv(g) && RecordOf(g, id) == v && !Overwrites(g, id, v) && !CanRead(g, id, again)
  }

  lemma SettledStep(g: Group, ev: Event, id: ID, v: Option<bytes>, again: bool)
    requires Settled(g, id, v, again) && Allowed(g, ev) && Untold(ev, id, v, again)
    ensures Settled(Next(g, ev), id, v, again)
  {
    hide Inv, KeepsSafe;
    StepKeeps(g, ev);
    if ev.StartNew? && id in ev.ids { TakenFresh(g, ev.ids, id); }
  }

  lemma TakenFresh(g: Group, ids: seq<ID>, id: ID)
    requires Inv(g) && FirstOf(ids, Fresh(g)) && id in ids
    ensures CanRead(g, id, false)
  {
    FreshExactly(g, id);
  }

  lemma {:induction false} SettledRun(g: Group, evs: seq<Event>, id: ID, v: Option<bytes>, again: bool)
    requires Settled(g, id, v, again) && IsRun(g, evs) && AllUntold(evs, id, v, again)
    ensures RecordOf(After(g, evs), id) == v
    decreases |evs|
  {
    hide Settled, Enabled, KeepsSafe, Next, Untold;
    if evs == [] {
      SettledRecord(g, id, v, again);
    } else {
      SettledStep(g, evs[0], id, v, again);
      SettledRun(Next(g, evs[0]), evs[1..], id, v, again);
    }
  }

  lemma SettledRecord(g: Group, id: ID, v: Option<bytes>, again: bool)
    requires Settled(g, id, v, again)
    ensures RecordOf(g, id) == v
  {}

  lemma {:induction false} RunConcat(g: Group, a: seq<Event>, b: seq<Event>)
    requires IsRun(g, a) && IsRun(After(g, a), b)
    ensures IsRun(g, a + b) && After(g, a + b) == After(After(g, a), b)
    decreases |a|
  {
    hide Enabled, KeepsSafe, Next;
    if a == [] {
      assert a + b == b;
    } else {
      assert (a + b)[1..] == a[1..] + b;
      RunConcat(Next(g, a[0]), a[1..], b);
    }
  }

  lemma RunOne(g: Group, ev: Event)
    requires Allowed(g, ev)
    ensures IsRun(g, [ev]) && After(g, [ev]) == Next(g, ev)
  {
    assert [ev][1..] == [];
    assert IsRun(Next(g, ev), []) && After(Next(g, ev), []) == Next(g, ev);
  }

  /** One more event at the end of a run that asks nothing of id. */
  lemma UntoldSnoc(g: Group, evs: seq<Event>, ev: Event, id: ID, v: Option<bytes>, again: bool)
    requires IsRun(g, evs) && AllUntold(evs, id, v, again) && Allowed(After(g, evs), ev) && Untold(ev, id, v, again)
    ensures IsRun(g, evs + [ev]) && After(g, evs + [ev]) == Next(After(g, evs), ev)
    ensures AllUntold(evs + [ev], id, v, again)
  {
    hide Allowed, Next, Untold;
    RunOne(After(g, evs), ev);
    RunConcat(g, evs, [ev]);
  }

  /** The read in progress goes on up to its write for id. */
  lemma {:induction false} WriteOut(g: Group, id: ID, v: Option<bytes>, again: bool) returns (evs: seq<Event>)
    requires Overwrites(g, id, v)
    ensures IsRun(g, evs) && AllUntold(evs, id, v, again) && RecordOf(After(g, evs), id) != v
    decreases if g.pass.Delivering? then |g.pass.ids| - g.pass.n else |g.pass.items| - g.pass.n
  {
    var ev := if g.pass.Delivering? then Deliver else Replay;
    var g1 := Next(g, ev);
    if Overwrites(g1, id, v) {
      var rest := WriteOut(g1, id, v, again);
      evs := [ev] + rest;
      assert evs[1..] == rest;
    } else {
      evs := [ev];
      assert RecordOf(g1, id) != v;
      RunOne(g, ev);
    }
  }

  /** Claims of any ids but id, one after the other. */
  lemma {:induction false} ClaimAll(g: Group, todo: set<ID>, id: ID, v: Option<bytes>, again: bool)
    returns (evs: seq<Event>)
    requires id !in todo
    ensures IsRun(g, evs) && AllUntold(evs, id, v, again)
    ensures var g' := After(g, evs);
            && g' == g.(pel := g'.pel) && (forall j | j in todo :: j in g'.pel)
            && (forall j | j in g.pel :: j in g'.pel)
    decreases todo
  {
    if todo == {} {
      evs := [];
    } else {
      var j :| j in todo;
      var g1 := Next(g, Claim(j, []));
      var rest := ClaimAll(g1, todo - {j}, id, v, again);
      evs := [Claim(j, [])] + rest;
      assert evs[1..] == rest;
    }
  }

  /** The ids no run may append, of which there are finitely many. */
  function ExposedIds(g: Group): (r: set<ID>)
    ensures forall j :: j in r <==> Exposed(g, j)
  {
    var r := set a: u64, b: u64 | 0 <= a < U64 && 0 <= b < U64 && Exposed(g, ID(a, b)) :: ID(a, b);
    assert forall j :: Exposed(g, j) ==> j == ID(j.ms, j.num);
    r
  }

  /** A crash, a stream trimmed to id or to nothing, and id alone is there to be read. */
  lemma ReadAgain(g: Group, id: ID, v: Option<bytes>, again: bool) returns (evs: seq<Event>)
    requires Inv(g) && CanRead(g, id, again)
    ensures IsRun(g, evs) && AllUntold(evs, id, v, again) && RecordOf(After(g, evs), id) != v
  {
    hide IsRun, After, Inv, AllUntold;
    var g1, evs1 := OnlyThere(g, id, v, again);
    var who := if v == Some([]) then [0] else [];
    InvCursor(g);
    OneFresh(g1, id);
    assert Allowed(g1, StartNew([id], who));
    UntoldSnoc(g, evs1, StartNew([id], who), id, v, again);
    evs := evs1 + [StartNew([id], who)];
    UntoldSnoc(g, evs, Deliver, id, v, again);
    evs := evs + [Deliver];
  }

  lemma OneFresh(g: Group, id: ID)
    requires g.entries == {id} && Lt(g.cursor, id) && id.ms != MAX64 && g.cursor != MAX_ID
    ensures FirstOf([id], Fresh(g))
  {
    FreshExactly(g, id);
    assert [id][|[id]| - 1] == id;
  }

  lemma OnlyThere(g: Group, id: ID, v: Option<bytes>, again: bool) returns (g': Group, evs: seq<Event>)
    requires CanRead(g, id, again)
    ensures IsRun(g, evs) && AllUntold(evs, id, v, again) && g' == After(g, evs)
    ensures g'.entries == {id} && g'.cursor == g.cursor && g'.pass.NoPass?
  {
    hide IsRun, After, AllUntold;
    evs := [Crash];
    RunOne(g, Crash);
    var g1 := Next(g, Crash);
    OneUntold(Crash, id, v, again);
    var claims := ClaimAll(g1, ExposedIds(g1), id, v, again);
    RunConcat(g, evs, claims);
    BothUntold(evs, claims, id, v, again);
    evs := evs + claims;
    var g2 := After(g1, claims);
    var gone := g2.entries - {id};
    assert KeepsSafe(g2, gone) by { NothingExposed(g1, g2, gone); }
    UntoldSnoc(g, evs, Remove(gone), id, v, again);
    evs := evs + [Remove(gone)];
    g' := Next(g2, Remove(gone));
    if id !in g'.entries {
      assert g'.entries == {};
      UntoldSnoc(g, evs, Append(id), id, v, again);
      evs := evs + [Append(id)];
      g' := Next(g', Append(id));
    }
    assert g'.entries == {id};
  }

  lemma OneUntold(ev: Event, id: ID, v: Option<bytes>, again: bool)
    requires Untold(ev, id, v, again)
    ensures AllUntold([ev], id, v, again)
  {}

  lemma BothUntold(a: seq<Event>, b: seq<Event>, id: ID, v: Option<bytes>, again: bool)
    requires AllUntold(a, id, v, again) && AllUntold(b, id, v, again)
    ensures AllUntold(a + b, id, v, again)
  {}

  lemma NothingExposed(g1: Group, g2: Group, gone: set<ID>)
    requires g2 == g1.(pel := g2.pel) && (forall j | j in ExposedIds(g1) :: j in g2.pel)
    requires forall j | j in g1.pel :: j in g2.pel
    ensures KeepsSafe(g2, gone)
  {
    var g' := g2.(entries := g2.entries - gone);
    assert forall j :: Exposed(g', j) ==> Exposed(g1, j) && j !in g2.pel;
  }

  /** Exactly when a record of id, or its absence, can change although nobody asks for it:
      the read in progress has still to write another one, or a later read can take id. */
  lemma RecordExactly(g: Group, id: ID, again: bool)
    requires Inv(g)
    ensures CanChange(g, id, again) <==> Overwrites(g, id, RecordOf(g, id)) || CanRead(g, id, again)
  {
    hide Inv, IsRun, After, Overwrites, CanRead, AllUntold;
    var v := RecordOf(g, id);
    if Overwrites(g, id, v) {
      var evs := WriteOut(g, id, v, again);
    } else if CanRead(g, id, again) {
      var evs := ReadAgain(g, id, v, again);
    } else {
      forall evs | IsRun(g, evs) && AllUntold(evs, id, v, again) ensures RecordOf(After(g, evs), id) == v {
        SettledRun(g, evs, id, v, again);
      }
    }
  }

  /** An acknowledgement does not stick, although nobody claims id, exactly when the read in
      progress has still to record id or a later read can take it. At or below the cursor
      that leaves a history read that has listed id and not yet rewritten it. */
  lemma AckExactly(g: Group, id: ID, again: bool)
    requires Inv(g)
    ensures RecordOf(Next(g, Ack(id)), id) == None
    ensures CanChange(Next(g, Ack(id)), id, again) <==> Overwrites(g, id, None) || CanRead(g, id, again)
    ensures Le(id, g.cursor) ==>
              (CanChange(Next(g, Ack(id)), id, again) <==>
               g.pass.Replaying? && exists j :: g.pass.n <= j < |g.pass.items| && g.pass.items[j].id == id)
  {
    hide Inv, CanChange;
    StepKeeps(g, Ack(id));
    RecordExactly(Next(g, Ack(id)), id, again);
    if Le(id, g.cursor) { NoneTaken(g, id); }
  }

  /** What a read of new entries takes lies above the cursor. */
  lemma NoneTaken(g: Group, id: ID)
    requires Inv(g) && Le(id, g.cursor)
    ensures g.pass.Delivering? ==> id !in g.pass.ids
  {}

  /** A claim does not stick, although nobody claims or acknowledges id, exactly when the read
      in progress has still to record id for someone else or a later read can take it. */
  lemma ClaimExactly(g: Group, id: ID, who: bytes, again: bool)
    requires Inv(g)
    ensures RecordOf(Next(g, Claim(id, who)), id) == Some(who)
    ensures CanChange(Next(g, Claim(id, who)), id, again) <==> Overwrites(g, id, Some(who)) || CanRead(g, id, again)
  {
    hide Inv, CanChange;
    StepKeeps(g, Claim(id, who));
    RecordExactly(Next(g, Claim(id, who)), id, again);
  }

  /** Above the cursor: an acknowledgement, a crash before the cursor moved, and the next read
      takes the entry again. */
  lemma CrashUndoes(id: ID, who: bytes)
    requires id != ID(0, 0) && id.ms != MAX64
    ensures var g := Group({id}, ID(0, 0), map[id := who], Delivering([id], 1, who), {}, [], ID(0, 0));
            var g1 := Next(Next(g, Ack(id)), Crash);
            && Inv(g) && id !in g1.pel && Enabled(g1, StartNew([id], who))
            && id in Next(Next(g1, StartNew([id], who)), Deliver).pel
  {
    var g := Group({id}, ID(0, 0), map[id := who], Delivering([id], 1, who), {}, [], ID(0, 0));
    var g1 := Next(Next(g, Ack(id)), Crash);
    OneFresh(g1, id);
    assert g.pass.ids[0] == id && Lt(g.cursor, id);
    forall j | Exposed(g, j) ensures Reaches(g.entries, j) { assert id in g.entries && Le(j, id); }
    assert PassOk(g);
  }

  /** Why reads of a group must exclude each other: until the cursor moves, a second read
      would find everything the first one took still fresh, and take it again. */
  lemma FreshUntilMoved(g: Group, ev: Event, ids: seq<ID>, who: bytes)
    requires Enabled(g, ev) && !ev.MoveCursor? && !ev.Append? && !ev.Remove? && FirstOf(ids, Fresh(g)) && ids != []
    ensures FirstOf(ids, Fresh(Next(g, ev)))
    ensures Next(g, ev).pass.NoPass? ==> Enabled(Next(g, ev), StartNew(ids, who))
  {
    assert Fresh(Next(g, ev)) == Fresh(g);
  }
}
