/** Sharded key locks, taken in descending order. */
module Locks {
  /*
   A command locks the shards of all its keys, each once, all shared or all exclusive, and
   releases them in reverse. The locks are reader/writer mutexes whose announced writers
   hold off new readers.
   */
  import opened Bytes

  // ---------- the order of acquisition ----------

  predicate Descending(idxs: seq<nat>) { forall i, j | 0 <= i < j < |idxs| :: idxs[i] > idxs[j] }

  method Greatest(s: set<nat>) returns (m: nat)
    requires s != {}
    ensures m in s && forall x | x in s :: x <= m
  {
    m :| m in s;
    var rest := s - {m};
    while rest != {}
      invariant rest <= s && m in s && forall x | x in s && x !in rest :: x <= m
    {
      var x :| x in rest;
      rest := rest - {x};
      if x > m { m := x; }
    }
  }

  /** sort.Sort(sort.Reverse(...)) on indexes that are all different. */
  method SortDescending(idxs: seq<nat>) returns (r: seq<nat>)
    ensures Descending(r) && forall x :: x in r <==> x in idxs
  {
    r := [];
    var todo := set x | x in idxs;
    while todo != {}
      invariant Descending(r)
      invariant forall x :: x in idxs <==> x in r || x in todo
      invariant forall i | 0 <= i < |r| :: forall y | y in todo :: r[i] > y
    {
      var m := Greatest(todo);
      r := r + [m];
      todo := todo - {m};
    }
  }

  /** The indexes lockAll locks: every key's shard, each once, in descending order, however
      the shard function spreads the keys. */
  method LockOrder(keys: seq<bytes>, shard: bytes -> nat) returns (idxs: seq<nat>)
    ensures Descending(idxs)
    ensures forall k | k in keys :: shard(k) in idxs
    ensures forall x | x in idxs :: exists k :: k in keys && shard(k) == x
  {
    if |keys| == 0 { return []; }
    var seen := {};
    idxs := [];
    for i := 0 to |keys|
      invariant forall x :: x in idxs <==> x in seen
      invariant forall j | 0 <= j < i :: shard(keys[j]) in idxs
      invariant forall x | x in idxs :: exists k :: k in keys && shard(k) == x
    {
      var x := shard(keys[i]);
      if x in seen { continue; }
      seen := seen + {x};
      idxs := idxs + [x];
    }
    idxs := SortDescending(idxs);
  }

  // ---------- commands as threads ----------

  datatype Phase = Acquiring | Announced | Inside | Releasing | Finished

  /** A command holds the first `held` of its shards. */
  datatype Thread = Thread(shards: seq<nat>, write: bool, held: nat, phase: Phase)

  type Threads = map<nat, Thread>

  predicate Holds(t: Thread, s: nat) { t.held <= |t.shards| && s in t.shards[..t.held] }

  predicate WaitsFor(t: Thread, s: nat)
  {
    (t.phase.Acquiring? || t.phase.Announced?) && t.held < |t.shards| && t.shards[t.held] == s
  }

  /** A writer holds the shard or has announced itself on it. */
  ghost predicate WriterAt(ts: Threads, s: nat)
  {
    exists u :: u in ts && ts[u].write && (Holds(ts[u], s) || (ts[u].phase.Announced? && WaitsFor(ts[u], s)))
  }

  ghost predicate ReaderAt(ts: Threads, s: nat) { exists u :: u in ts && !ts[u].write && Holds(ts[u], s) }

  ghost predicate Enabled(ts: Threads, t: nat)
  {
    t in ts &&
    match ts[t].phase
    case Acquiring =>
      ts[t].held < |ts[t].shards| ==> !WriterAt(ts, ts[t].shards[ts[t].held])
    case Announced => ts[t].held < |ts[t].shards| && !ReaderAt(ts, ts[t].shards[ts[t].held])
    case Inside => true
    case Releasing => true
    case Finished => false
  }

  /** One step: RLock joins when no writer is there; Lock first announces itself, then
      waits for the readers to leave. */
  function Step(t: Thread): Thread
  {
    match t.phase
    case Acquiring =>
      if t.held >= |t.shards| then t.(phase := Inside)
      else if t.write then t.(phase := Announced)
      else t.(held := t.held + 1)
    case Announced => t.(held := t.held + 1, phase := Acquiring)
    case Inside => t.(phase := Releasing)
    case Releasing => if t.held > 0 then t.(held := t.held - 1) else t.(phase := Finished)
    case Finished => t
  }

  ghost predicate ThreadOk(t: Thread)
  {
    && Descending(t.shards) && t.held <= |t.shards|
    && (t.phase.Announced? ==> t.write && t.held < |t.shards|)
    && (t.phase.Inside? ==> t.held == |t.shards|)
    && (t.phase.Finished? ==> t.held == 0)
  }

  /** A shard held by a writer is held by no one else, and one writer at most has
      announced itself on it. */
  ghost predicate Apart(t: Thread, u: Thread)
  {
    forall s ::
      && (Holds(t, s) && Holds(u, s) ==> !t.write && !u.write)
      && (t.phase.Announced? && WaitsFor(t, s) && u.phase.Announced? ==> !WaitsFor(u, s))
      && (t.phase.Announced? && WaitsFor(t, s) && Holds(u, s) ==> !u.write)
      && (u.phase.Announced? && WaitsFor(u, s) && Holds(t, s) ==> !t.write)
  }

  ghost predicate Inv(ts: Threads)
  {
    && (forall t | t in ts :: ThreadOk(ts[t]))
    && (forall t, u | t in ts && u in ts && t != u :: Apart(ts[t], ts[u]))
  }

  lemma HoldsNext(t: Thread, s: nat)
    requires t.held < |t.shards|
    ensures Holds(t.(held := t.held + 1), s) <==> Holds(t, s) || s == t.shards[t.held]
  {
    assert t.shards[..t.held + 1] == t.shards[..t.held] + [t.shards[t.held]];
  }

  lemma HoldsLess(t: Thread, s: nat)
    requires 0 < t.held <= |t.shards|
    ensures Holds(t.(held := t.held - 1), s) ==> Holds(t, s)
  {
    assert t.shards[..t.held] == t.shards[..t.held - 1] + [t.shards[t.held - 1]];
  }

  lemma HoldsSame(t: Thread, p: Phase, s: nat)
    ensures Holds(t.(phase := p), s) == Holds(t, s)
    ensures Holds(t.(phase := p, held := t.held + 1), s) == Holds(t.(held := t.held + 1), s)
  {}

  lemma StepThreadOk(t: Thread)
    requires ThreadOk(t)
    ensures ThreadOk(Step(t))
  {}

  lemma StepApart(ts: Threads, t: nat, u: nat)
    requires Inv(ts) && Enabled(ts, t) && u in ts && u != t
    ensures Apart(Step(ts[t]), ts[u]) && Apart(ts[u], Step(ts[t]))
  {
    var a, b, a' := ts[t], ts[u], Step(ts[t]);
    assert Apart(a, b);
    forall s
      ensures Holds(a', s) && Holds(b, s) ==> !a.write && !b.write
      ensures a'.phase.Announced? && WaitsFor(a', s) && b.phase.Announced? ==> !WaitsFor(b, s)
      ensures a'.phase.Announced? && WaitsFor(a', s) && Holds(b, s) ==> !b.write
      ensures b.phase.Announced? && WaitsFor(b, s) && Holds(a', s) ==> !a.write
    {
      PairStep(ts, t, u, s);
    }
  }

  lemma PairStep(ts: Threads, t: nat, u: nat, s: nat)
    requires Inv(ts) && Enabled(ts, t) && u in ts && u != t
    ensures var a, b, a' := ts[t], ts[u], Step(ts[t]);
            && (Holds(a', s) && Holds(b, s) ==> !a.write && !b.write)
            && (a'.phase.Announced? && WaitsFor(a', s) && b.phase.Announced? ==> !WaitsFor(b, s))
            && (a'.phase.Announced? && WaitsFor(a', s) && Holds(b, s) ==> !b.write)
            && (b.phase.Announced? && WaitsFor(b, s) && Holds(a', s) ==> !a.write)
  {
    hide Holds, Descending;
    var a, b := ts[t], ts[u];
    assert Apart(a, b) && ThreadOk(a) && ThreadOk(b);
    if a.held < |a.shards| { HoldsNext(a, s); HoldsSame(a, Acquiring, s); }
    if a.held > 0 { HoldsLess(a, s); }
    HoldsSame(a, Inside, s);
    HoldsSame(a, Announced, s);
    HoldsSame(a, Releasing, s);
    HoldsSame(a, Finished, s);
    if a.phase.Acquiring? && a.held < |a.shards| && a.shards[a.held] == s {
      NoWriter(ts, u, s);
    }
    if a.phase.Announced? && a.shards[a.held] == s {
      NoReader(ts, u, s);
    }
  }

  lemma NoWriter(ts: Threads, u: nat, s: nat)
    requires u in ts && !WriterAt(ts, s)
    ensures !(ts[u].write && (Holds(ts[u], s) || (ts[u].phase.Announced? && WaitsFor(ts[u], s))))
  {}

  lemma NoReader(ts: Threads, u: nat, s: nat)
    requires u in ts && !ReaderAt(ts, s)
    ensures !(!ts[u].write && Holds(ts[u], s))
  {}

  /** Every step of any thread keeps the invariant. */
  lemma StepKeeps(ts: Threads, t: nat)
    requires Inv(ts) && Enabled(ts, t)
    ensures Inv(ts[t := Step(ts[t])])
  {
    hide Enabled, ThreadOk, Apart, Step;
    EnabledIn(ts, t);
    var ts' := ts[t := Step(ts[t])];
    StepThreadOk(ts[t]);
    forall a, b | a in ts' && b in ts' && a != b ensures Apart(ts'[a], ts'[b]) {
      if a == t { StepApart(ts, t, b); }
      if b == t { StepApart(ts, t, a); }
    }
  }

  lemma SpawnKeeps(ts: Threads, t: nat, shards: seq<nat>, write: bool)
    requires Inv(ts) && t !in ts && Descending(shards)
    ensures Inv(ts[t := Thread(shards, write, 0, Acquiring)])
  {
    var ts' := ts[t := Thread(shards, write, 0, Acquiring)];
    forall a, b | a in ts' && b in ts' && a != b ensures Apart(ts'[a], ts'[b]) {
      if a != t && b != t { assert Apart(ts[a], ts[b]); }
    }
  }

  // ---------- deadlock freedom ----------

  /** The shard a stuck command waits for. */
  function Wanted(t: Thread): nat { if t.held < |t.shards| then t.shards[t.held] else 0 }

  lemma HolderWantsLess(t: Thread, s: nat)
    requires ThreadOk(t) && Holds(t, s) && t.held < |t.shards|
    ensures Wanted(t) < s
  {
    var i :| 0 <= i < t.held && t.shards[i] == s;
  }

  /** The unfinished command that wants the least shard. */
  lemma {:induction false} LeastWaiter(ts: Threads, who: set<nat>) returns (t: nat)
    requires who != {} && forall u | u in who :: u in ts
    ensures t in who && forall u | u in who :: Wanted(ts[t]) <= Wanted(ts[u])
    decreases |who|
  {
    t :| t in who;
    if who != {t} {
      var rest := who - {t};
      assert rest != {};
      var r := LeastWaiter(ts, rest);
      if Wanted(ts[r]) < Wanted(ts[t]) { t := r; }
      forall u | u in who ensures Wanted(ts[t]) <= Wanted(ts[u]) {
        if u in rest { assert Wanted(ts[r]) <= Wanted(ts[u]); }
      }
    }
  }

  lemma Stuck(ts: Threads, t: nat)
    requires Inv(ts) && t in ts && !ts[t].phase.Finished? && !Enabled(ts, t)
    ensures (ts[t].phase.Acquiring? || ts[t].phase.Announced?) && ts[t].held < |ts[t].shards|
    ensures ts[t].phase.Acquiring? ==> WriterAt(ts, Wanted(ts[t]))
    ensures ts[t].phase.Announced? ==> ReaderAt(ts, Wanted(ts[t]))
  {
    assert ThreadOk(ts[t]);
  }

  /** Whoever holds a shard wants a lesser one, unless it can move. */
  lemma HolderBelow(ts: Threads, u: nat, s: nat)
    requires Inv(ts) && u in ts && Holds(ts[u], s) && !Enabled(ts, u)
    ensures !ts[u].phase.Finished? && Wanted(ts[u]) < s
  {
    assert ThreadOk(ts[u]);
    if !ts[u].phase.Finished? {
      Stuck(ts, u);
      HolderWantsLess(ts[u], s);
    }
  }

  /** Any state with an unfinished command has a command that can take a step. */
  lemma DeadlockFree(ts: Threads, t: nat) returns (m: nat)
    requires Inv(ts) && t in ts && !ts[t].phase.Finished?
    ensures m in ts && Enabled(ts, m)
  {
    hide Inv, Enabled, Holds, ThreadOk;
    var who := set u | u in ts && !ts[u].phase.Finished?;
    assert t in who;
    m := LeastWaiter(ts, who);
    if !Enabled(ts, m) {
      Stuck(ts, m);
      var s := Wanted(ts[m]);
      var u: nat;
      if ts[m].phase.Acquiring? {
        u :| u in ts && ts[u].write && (Holds(ts[u], s) || (ts[u].phase.Announced? && WaitsFor(ts[u], s)));
        if !Enabled(ts, u) && !Holds(ts[u], s) {
          Stuck(ts, u);
          u :| u in ts && !ts[u].write && Holds(ts[u], s);
        }
      } else {
        u :| u in ts && !ts[u].write && Holds(ts[u], s);
      }
      if !Enabled(ts, u) { HolderBelow(ts, u, s); }
      m := u;
    }
  }

  /** The order matters: two writers that take two shards in opposite orders can be stuck. */
  lemma OppositeOrdersStick(a: nat, b: nat)
    requires a != b
    ensures var ts: Threads := map[0 := Thread([a, b], true, 1, Acquiring), 1 := Thread([b, a], true, 1, Acquiring)];
            !Enabled(ts, 0) && !Enabled(ts, 1) && !ts[0].phase.Finished?
  {
    var ts: Threads := map[0 := Thread([a, b], true, 1, Acquiring), 1 := Thread([b, a], true, 1, Acquiring)];
    assert [a, b][..1] == [a] && [b, a][..1] == [b];
    assert 0 in ts && 1 in ts && ts[0].write && ts[1].write && Holds(ts[0], a) && Holds(ts[1], b);
  }

  // ---------- exclusion ----------

  /** Two commands that share a key, one of them writing, are never both inside. */
  lemma Exclusion(ts: Threads, t: nat, u: nat, key: bytes, shard: bytes -> nat)
    requires Inv(ts) && t in ts && u in ts && t != u && (ts[t].write || ts[u].write)
    requires shard(key) in ts[t].shards && shard(key) in ts[u].shards
    ensures !(ts[t].phase.Inside? && ts[u].phase.Inside?)
  {
    assert Apart(ts[t], ts[u]) && ThreadOk(ts[t]) && ThreadOk(ts[u]);
    if ts[t].phase.Inside? { assert ts[t].shards[..ts[t].held] == ts[t].shards; }
    if ts[u].phase.Inside? { assert ts[u].shards[..ts[u].held] == ts[u].shards; }
    assert ts[t].phase.Inside? ==> Holds(ts[t], shard(key));
    assert ts[u].phase.Inside? ==> Holds(ts[u], shard(key));
  }

  // ---------- runs ----------

  datatype Event = Spawn(t: nat, shards: seq<nat>, write: bool) | Run(t: nat)

  ghost predicate CanDo(ts: Threads, ev: Event)
  {
    match ev
    case Spawn(t, shards, _) => t !in ts && Descending(shards)
    case Run(t) => Enabled(ts, t)
  }

  ghost function Do(ts: Threads, ev: Event): Threads
    requires CanDo(ts, ev)
  {
    match ev
    case Spawn(t, shards, write) => ts[t := Thread(shards, write, 0, Acquiring)]
    case Run(t) => ts[t := Step(ts[t])]
  }

  ghost predicate IsRun(ts: Threads, evs: seq<Event>)
    decreases |evs|
  {
    evs != [] ==> CanDo(ts, evs[0]) && IsRun(Do(ts, evs[0]), evs[1..])
  }

  ghost function After(ts: Threads, evs: seq<Event>): Threads
    requires IsRun(ts, evs)
    decreases |evs|
  {
    if evs == [] then ts else After(Do(ts, evs[0]), evs[1..])
  }

  lemma {:induction false} RunKeeps(ts: Threads, evs: seq<Event>)
    requires Inv(ts) && IsRun(ts, evs)
    ensures Inv(After(ts, evs))
    decreases |evs|
  {
    hide Inv, Enabled, Descending;
    if evs != [] {
      match evs[0] {
        case Spawn(t, shards, write) => SpawnKeeps(ts, t, shards, write);
        case Run(t) =>
          EnabledIn(ts, t);
          StepKeeps(ts, t);
      }
      RunKeeps(Do(ts, evs[0]), evs[1..]);
    }
  }

  lemma NoThreads()
    ensures Inv(map[])
  {}

  lemma EnabledIn(ts: Threads, t: nat)
    requires Enabled(ts, t)
    ensures t in ts
  {}

  /** In every reachable state with an unfinished command, for any number of commands,
      some command can take a step. */
  lemma NeverStuck(evs: seq<Event>, t: nat) returns (m: nat)
    requires IsRun(map[], evs)
    requires t in After(map[], evs) && !After(map[], evs)[t].phase.Finished?
    ensures m in After(map[], evs) && Enabled(After(map[], evs), m)
  {
    hide Inv, Enabled;
    NoThreads();
    RunKeeps(map[], evs);
    m := DeadlockFree(After(map[], evs), t);
  }

  /** In every reachable state, commands that share a key with a writer among them are not
      both past acquisition. */
  lemma NeverBothInside(evs: seq<Event>, t: nat, u: nat, key: bytes, shard: bytes -> nat)
    requires IsRun(map[], evs)
    requires t in After(map[], evs) && u in After(map[], evs) && t != u
    requires After(map[], evs)[t].write || After(map[], evs)[u].write
    requires shard(key) in After(map[], evs)[t].shards && shard(key) in After(map[], evs)[u].shards
    ensures !(After(map[], evs)[t].phase.Inside? && After(map[], evs)[u].phase.Inside?)
  {
    hide Inv, Enabled;
    NoThreads();
    RunKeeps(map[], evs);
    Exclusion(After(map[], evs), t, u, key, shard);
  }
}
