/** Blocking pops and their wake-up. */
module Blocker {
  /*
   A popper reads the version, finds its lists empty, and parks only if the version has not
   moved; a pusher writes first, then moves the version and wakes everyone parked. A late
   popper, as blocking XREADGROUP is, reads the version only after the check. Any number of
   each, every locked section or engine write one atomic step.
   */
  import opened Layout

  // ---------- the blocker itself ----------

  /** The wake-up version and the channels of parked commands, by thread. */
  datatype Board = Board(version: nat, chans: seq<nat>)

  function Enrolled(b: Board, since: nat, t: nat): Board
  {
    if b.version != since then b else b.(chans := b.chans + [t])
  }

  function Bumped(b: Board): Board { Board(b.version + 1, []) }

  function Without(chans: seq<nat>, t: nat): seq<nat>
  {
    if chans == [] then [] else if chans[0] == t then chans[1..] else [chans[0]] + Without(chans[1..], t)
  }

  class Notifier {
    var seqno: nat
    var chans: seq<nat>

    function View(): Board
      reads this
    {
      Board(seqno, chans)
    }

    constructor ()
      ensures View() == Board(0, [])
    {
      seqno, chans := 0, [];
    }

    method Version() returns (v: nat)
      ensures v == View().version
    {
      v := seqno;
    }

    /** The locked part of sleepSince: park unless the version has moved. */
    method Enroll(since: nat, t: nat) returns (parked: bool)
      modifies this
      ensures View() == Enrolled(old(View()), since, t) && parked == (old(View()).version == since)
    {
      if seqno != since { return false; }
      chans := chans + [t];
      return true;
    }

    /** The locked part of notify; the channels are sent to afterwards. */
    method Bump() returns (woken: seq<nat>)
      modifies this
      ensures View() == Bumped(old(View())) && woken == old(View()).chans
    {
      seqno := seqno + 1;
      woken := chans;
      chans := [];
    }

    /** A sleeper that times out takes its channel back out. */
    method Withdraw(t: nat)
      modifies this
      ensures View() == old(View()).(chans := Without(old(chans), t))
    {
      for i := 0 to |chans|
        invariant seqno == old(seqno) && chans == old(chans)
        invariant t !in chans[..i] && Without(chans, t) == chans[..i] + Without(chans[i..], t)
      {
        if chans[i] == t {
          assert chans[i..][1..] == chans[i + 1..];
          chans := chans[..i] + chans[i + 1..];
          return;
        }
        assert chans[i..][1..] == chans[i + 1..];
        assert chans[..i + 1] == chans[..i] + [chans[i]];
      }
    }
  }

  lemma {:induction false} WithoutOthers(chans: seq<nat>, t: nat, u: nat)
    requires u != t
    ensures u in Without(chans, t) <==> u in chans
  {
    if chans != [] && chans[0] != t { WithoutOthers(chans[1..], t, u); }
  }

  // ---------- the board over time ----------

  /** What the callers of a blocker do to it, each under its lock. */
  datatype BoardOp = Park(since: nat, t: nat) | Leave(t: nat) | Notify

  function OpDone(b: Board, op: BoardOp): Board
  {
    match op
    case Park(since, t) => Enrolled(b, since, t)
    case Leave(t) => b.(chans := Without(b.chans, t))
    case Notify => Bumped(b)
  }

  function AllDone(b: Board, ops: seq<BoardOp>): Board
  {
    if ops == [] then b else OpDone(AllDone(b, ops[..|ops| - 1]), ops[|ops| - 1])
  }

  /** Whatever happened since the version was read, sleepSince parks exactly when no notify did. */
  lemma {:induction false} ParksExactly(b: Board, ops: seq<BoardOp>, t: nat)
    ensures AllDone(b, ops).version >= b.version
    ensures t in Enrolled(AllDone(b, ops), b.version, t).chans && AllDone(b, ops).version == b.version
            <==> Notify !in ops
  {
    if ops != [] {
      var last := |ops| - 1;
      ParksExactly(b, ops[..last], t);
      assert ops == ops[..last] + [ops[last]];
    }
  }

  /** A parked sleeper is among those the next notify wakes, whoever parks or leaves before. */
  lemma {:induction false} NextNotifyWakes(b: Board, ops: seq<BoardOp>, t: nat)
    requires Notify !in ops && Leave(t) !in ops
    ensures t in AllDone(Enrolled(b, b.version, t), ops).chans
  {
    if ops == [] {
      assert b.chans + [t] == Enrolled(b, b.version, t).chans;
    } else {
      var last := |ops| - 1;
      assert ops[last] in ops;
      NextNotifyWakes(b, ops[..last], t);
      var b1 := AllDone(Enrolled(b, b.version, t), ops[..last]);
      if ops[last].Leave? { WithoutOthers(b1.chans, ops[last].t, t); }
    }
  }

  // ---------- threads ----------

  /** Where a popper or a pusher is. */
  datatype Thread =
    | Entering(keys: seq<Key>)
    | Checking(keys: seq<Key>, since: nat, i: nat)
    | Looking(keys: seq<Key>, i: nat)
    | Resting(keys: seq<Key>, since: nat, late: bool)
    | Parked(keys: seq<Key>, token: bool, late: bool)
    | Pushing(k: Key, n: nat)
    | Written(k: Key)
    | Waking(rest: seq<nat>)
    | Done

  /** List lengths, the blocker, and the threads. */
  datatype Sys = Sys(lists: map<Key, nat>, board: Board, threads: map<nat, Thread>)

  function Len(s: Sys, k: Key): nat { if k in s.lists then s.lists[k] else 0 }

  datatype Event =
    | NewPopper(t: nat, keys: seq<Key>)
    | NewLate(t: nat, keys: seq<Key>)
    | NewPusher(t: nat, k: Key, n: nat)
    | Move(t: nat)
    | Timeout(t: nat)

  predicate Enabled(s: Sys, ev: Event)
  {
    match ev
    case NewPopper(t, _) => t !in s.threads
    case NewLate(t, _) => t !in s.threads
    case NewPusher(t, _, n) => t !in s.threads && n > 0
    case Move(t) => t in s.threads && !s.threads[t].Done? && (s.threads[t].Parked? ==> s.threads[t].token)
    case Timeout(t) => t in s.threads && (s.threads[t].Parked? || s.threads[t].Resting?)
  }

  function Put(s: Sys, t: nat, th: Thread): Sys { s.(threads := s.threads[t := th]) }

  function Token(th: Thread): Thread { if th.Parked? then th.(token := true) else th }

  /** Where a popper starts over. */
  function Again(keys: seq<Key>, late: bool): Thread { if late then Looking(keys, 0) else Entering(keys) }

  /** One atomic step of one thread. */
  function MoveOf(s: Sys, t: nat): Sys
    requires Enabled(s, Move(t))
  {
    match s.threads[t]
    case Entering(keys) => Put(s, t, Checking(keys, s.board.version, 0))
    case Checking(keys, since, i) =>
      if i >= |keys| then Put(s, t, Resting(keys, since, false))
      else if Len(s, keys[i]) == 0 then Put(s, t, Checking(keys, since, i + 1))
      else Put(s.(lists := s.lists[keys[i] := Len(s, keys[i]) - 1]), t, Done)
    case Looking(keys, i) =>
      if i >= |keys| then Put(s, t, Resting(keys, s.board.version, true))
      else if Len(s, keys[i]) == 0 then Put(s, t, Looking(keys, i + 1))
      else Put(s.(lists := s.lists[keys[i] := Len(s, keys[i]) - 1]), t, Done)
    case Resting(keys, since, late) =>
      if s.board.version != since then Put(s, t, Again(keys, late))
      else Put(s.(board := Enrolled(s.board, since, t)), t, Parked(keys, false, late))
    case Parked(keys, _, late) => Put(s, t, Again(keys, late))
    case Pushing(k, n) => Put(s.(lists := s.lists[k := Len(s, k) + n]), t, Written(k))
    case Written(_) => Put(s.(board := Bumped(s.board)), t, Waking(s.board.chans))
    case Waking(rest) =>
      if rest == [] then Put(s, t, Done)
      else
        var s1 := if rest[0] in s.threads then Put(s, rest[0], Token(s.threads[rest[0]])) else s;
        Put(s1, t, Waking(rest[1..]))
  }

  function Next(s: Sys, ev: Event): Sys
    requires Enabled(s, ev)
  {
    match ev
    case NewPopper(t, keys) => Put(s, t, Entering(keys))
    case NewLate(t, keys) => Put(s, t, Looking(keys, 0))
    case NewPusher(t, k, n) => Put(s, t, Pushing(k, n))
    case Move(t) => MoveOf(s, t)
    case Timeout(t) => Put(s.(board := s.board.(chans := Without(s.board.chans, t))), t, Done)
  }

  // ---------- no lost wake-up ----------

  ghost predicate WriterOf(s: Sys, k: Key) { exists p :: p in s.threads && s.threads[p] == Written(k) }

  ghost predicate WakerOf(s: Sys, t: nat) { exists p :: p in s.threads && s.threads[p].Waking? && t in s.threads[p].rest }

  /** A list that is not empty has a pusher that has not moved the version yet. */
  ghost predicate Covered(s: Sys, k: Key) { Len(s, k) > 0 ==> WriterOf(s, k) }

  ghost predicate AllCovered(s: Sys, keys: seq<Key>) { forall j | 0 <= j < |keys| :: Covered(s, keys[j]) }

  ghost predicate ThreadOk(s: Sys, t: nat)
    requires t in s.threads
  {
    match s.threads[t]
    case Checking(keys, since, i) =>
      since <= s.board.version && i <= |keys| && (since == s.board.version ==> AllCovered(s, keys[..i]))
    case Resting(keys, since, late) =>
      late || (since <= s.board.version && (since == s.board.version ==> AllCovered(s, keys)))
    case Parked(keys, token, late) =>
      late || token || WakerOf(s, t) || (t in s.board.chans && AllCovered(s, keys))
    case _ => true
  }

  ghost predicate Inv(s: Sys) { forall t | t in s.threads :: ThreadOk(s, t) }

  /** A popper parked without a token over a list that has elements, while no pusher has
      still to move the version or to wake it. */
  ghost predicate Lost(s: Sys, t: nat)
  {
    && t in s.threads && s.threads[t].Parked? && !s.threads[t].token && !WakerOf(s, t)
    && exists j | 0 <= j < |s.threads[t].keys| ::
         Len(s, s.threads[t].keys[j]) > 0 && !WriterOf(s, s.threads[t].keys[j])
  }

  lemma InvMeansNoLoss(s: Sys, t: nat)
    requires Inv(s) && Lost(s, t)
    ensures s.threads[t].late
  {
    hide WriterOf, WakerOf, Len;
    assert ThreadOk(s, t);
    var keys := s.threads[t].keys;
    var j :| 0 <= j < |keys| && Len(s, keys[j]) > 0 && !WriterOf(s, keys[j]);
    assert !Covered(s, keys[j]);
  }

  /** Nothing a waiting thread relies on is taken away. */
  ghost predicate Kept(s: Sys, s': Sys, u: nat)
  {
    && s'.board.version == s.board.version
    && (u in s.board.chans ==> u in s'.board.chans)
    && (forall k :: Covered(s, k) ==> Covered(s', k))
    && (WakerOf(s, u) ==> WakerOf(s', u))
  }

  lemma Frame(s: Sys, s': Sys, u: nat)
    requires u in s.threads && u in s'.threads && s'.threads[u] == s.threads[u] && ThreadOk(s, u) && Kept(s, s', u)
    ensures ThreadOk(s', u)
  {
    hide Covered, WakerOf;
  }

  /** A thread that neither was nor becomes a pusher in mid-notify. */
  lemma Quiet(s: Sys, s': Sys, t: nat, k: Key, u: nat)
    requires t in s.threads ==> !s.threads[t].Written? && !s.threads[t].Waking?
    requires t in s'.threads && s'.threads == s.threads[t := s'.threads[t]]
    ensures WriterOf(s, k) ==> WriterOf(s', k)
    ensures WakerOf(s, u) ==> WakerOf(s', u)
  {
    if WriterOf(s, k) {
      var p :| p in s.threads && s.threads[p] == Written(k);
      assert p in s'.threads && s'.threads[p] == Written(k);
    }
    if WakerOf(s, u) {
      var p :| p in s.threads && s.threads[p].Waking? && u in s.threads[p].rest;
      assert p in s'.threads && s'.threads[p].Waking?;
    }
  }

  /** Steps that write no list except to shorten it, and wake no one. */
  lemma QuietKept(s: Sys, s': Sys, t: nat, u: nat)
    requires t in s.threads ==> !s.threads[t].Written? && !s.threads[t].Waking?
    requires t in s'.threads && s'.threads == s.threads[t := s'.threads[t]]
    requires s'.board.version == s.board.version && (u in s.board.chans ==> u in s'.board.chans)
    requires forall k :: Len(s', k) <= Len(s, k) || (s'.threads[t] == Written(k))
    ensures Kept(s, s', u)
  {
    forall k | Covered(s, k) ensures Covered(s', k) {
      Quiet(s, s', t, k, u);
      if s'.threads[t] == Written(k) { assert WriterOf(s', k); }
    }
    Quiet(s, s', t, Key(0, []), u);
  }

  lemma QuietStep(s: Sys, s': Sys, t: nat)
    requires Inv(s) && t in s'.threads && s'.threads == s.threads[t := s'.threads[t]] && ThreadOk(s', t)
    requires t in s.threads ==> !s.threads[t].Written? && !s.threads[t].Waking?
    requires s'.board.version == s.board.version && forall u | u in s.board.chans && u != t :: u in s'.board.chans
    requires forall k :: Len(s', k) <= Len(s, k) || (s'.threads[t] == Written(k))
    ensures Inv(s')
  {
    hide ThreadOk, Kept, Len;
    forall u | u in s'.threads ensures ThreadOk(s', u) {
      if u != t {
        assert ThreadOk(s, u);
        QuietKept(s, s', t, u);
        Frame(s, s', u);
      }
    }
  }

  /** Once the version has moved, whoever was parked is in the pusher's list. */
  lemma BumpKeeps(s: Sys, t: nat)
    requires Inv(s) && t in s.threads && s.threads[t].Written?
    ensures Inv(MoveOf(s, t))
  {
    hide AllCovered;
    var s' := MoveOf(s, t);
    assert s'.threads == s.threads[t := Waking(s.board.chans)];
    forall u | u in s'.threads ensures ThreadOk(s', u) {
      if u != t {
        assert ThreadOk(s, u);
        BumpThread(s, s', t, u);
      }
    }
  }

  lemma BumpThread(s: Sys, s': Sys, t: nat, u: nat)
    requires t in s.threads && s.threads[t].Written? && u in s.threads && u != t && ThreadOk(s, u)
    requires s'.threads == s.threads[t := Waking(s.board.chans)] && s'.board.version == s.board.version + 1
    ensures ThreadOk(s', u)
  {
    hide AllCovered;
    if s.threads[u].Parked? && !s.threads[u].token && !s.threads[u].late {
      if WakerOf(s, u) {
        var p :| p in s.threads && s.threads[p].Waking? && u in s.threads[p].rest;
        assert p in s'.threads && s'.threads[p].Waking? && u in s'.threads[p].rest;
      } else {
        assert t in s'.threads && s'.threads[t].Waking? && u in s'.threads[t].rest;
      }
    }
  }

  /** Sending to one sleeper: it has its token, the others are still in the list. */
  lemma WakeKeeps(s: Sys, t: nat)
    requires Inv(s) && t in s.threads && s.threads[t].Waking?
    ensures Inv(MoveOf(s, t))
  {
    var s' := MoveOf(s, t);
    forall u | u in s'.threads ensures ThreadOk(s', u) {
      if u != t {
        assert ThreadOk(s, u);
        WakeThread(s, t, u);
      }
    }
  }

  lemma WakeThread(s: Sys, t: nat, u: nat)
    requires Inv(s) && t in s.threads && s.threads[t].Waking? && u in s.threads && u != t && ThreadOk(s, u)
    ensures u in MoveOf(s, t).threads && ThreadOk(MoveOf(s, t), u)
  {
    hide Inv, AllCovered;
    var s' := MoveOf(s, t);
    var rest := s.threads[t].rest;
    if rest != [] && u == rest[0] && s.threads[u].Parked? {
      assert s'.threads[u].token;
    } else {
      assert s'.threads[u] == s.threads[u];
      forall k | Covered(s, k) ensures Covered(s', k) { SameWriters(s, t, k); }
      if WakerOf(s, u) && s.threads[u].Parked? {
        var p :| p in s.threads && s.threads[p].Waking? && u in s.threads[p].rest;
        assert p in s'.threads && s'.threads[p].Waking? && u in s'.threads[p].rest;
      }
      assert s.threads[u].Parked? ==> Kept(s, s', u);
      WakeFrame(s, s', u);
    }
  }

  lemma WakeFrame(s: Sys, s': Sys, u: nat)
    requires u in s.threads && u in s'.threads && s'.threads[u] == s.threads[u] && ThreadOk(s, u)
    requires s'.board == s.board && (forall k :: Covered(s, k) ==> Covered(s', k))
    requires s.threads[u].Parked? ==> Kept(s, s', u)
    ensures ThreadOk(s', u)
  {
    hide Covered, WakerOf;
  }

  lemma SameWriters(s: Sys, t: nat, k: Key)
    requires t in s.threads && s.threads[t].Waking?
    ensures Covered(s, k) ==> Covered(MoveOf(s, t), k)
  {
    var s' := MoveOf(s, t);
    if WriterOf(s, k) {
      var p :| p in s.threads && s.threads[p] == Written(k);
      assert p in s'.threads && s'.threads[p] == Written(k);
    }
  }

  lemma PopperKeeps(s: Sys, t: nat)
    requires Inv(s) && Enabled(s, Move(t)) && !s.threads[t].Written? && !s.threads[t].Waking?
    ensures Inv(MoveOf(s, t))
  {
    hide Inv, WriterOf, WakerOf;
    var s' := MoveOf(s, t);
    assert ThreadOk(s, t) by { ThisOk(s, t); }
    assert s'.threads == s.threads[t := s'.threads[t]];
    OwnThread(s, t);
    QuietStep(s, s', t);
  }

  lemma ThisOk(s: Sys, t: nat)
    requires Inv(s) && t in s.threads
    ensures ThreadOk(s, t)
  {}

  lemma OwnThread(s: Sys, t: nat)
    requires KnownOk(s, t) && Enabled(s, Move(t)) && !s.threads[t].Written? && !s.threads[t].Waking?
    ensures ThreadOk(MoveOf(s, t), t)
  {
    hide WriterOf, WakerOf;
    var s' := MoveOf(s, t);
    match s.threads[t]
    case Checking(keys, since, i) =>
      if i < |keys| && Len(s, keys[i]) == 0 {
        var checked := keys[..i + 1];
        forall j | 0 <= j < |checked| && since == s.board.version ensures Covered(s', checked[j]) {
          if j < i { assert Covered(s, keys[..i][j]); StillCovered(s, s', t, keys[j]); }
        }
      } else if i >= |keys| {
        assert keys[..i] == keys;
        forall j | 0 <= j < |keys| && since == s.board.version ensures Covered(s', keys[j]) {
          assert Covered(s, keys[..i][j]);
          StillCovered(s, s', t, keys[j]);
        }
      }
    case Resting(keys, since, late) =>
      forall j | 0 <= j < |keys| && since == s.board.version && !late ensures Covered(s', keys[j]) {
        assert Covered(s, keys[j]);
        StillCovered(s, s', t, keys[j]);
      }
    case _ =>
  }

  ghost predicate KnownOk(s: Sys, t: nat) { t in s.threads && ThreadOk(s, t) }

  lemma StillCovered(s: Sys, s': Sys, t: nat, k: Key)
    requires Covered(s, k) && t in s.threads && !s.threads[t].Written? && !s.threads[t].Waking?
    requires t in s'.threads && s'.threads == s.threads[t := s'.threads[t]] && s'.lists == s.lists
    ensures Covered(s', k)
  {
    Quiet(s, s', t, k, t);
  }

  lemma StepKeeps(s: Sys, ev: Event)
    requires Inv(s) && Enabled(s, ev)
    ensures Inv(Next(s, ev))
  {
    match ev
    case NewPopper(t, keys) => QuietStep(s, Next(s, ev), t);
    case NewLate(t, keys) => QuietStep(s, Next(s, ev), t);
    case NewPusher(t, k, n) => QuietStep(s, Next(s, ev), t);
    case Move(t) =>
      if s.threads[t].Written? { BumpKeeps(s, t); }
      else if s.threads[t].Waking? { WakeKeeps(s, t); }
      else { PopperKeeps(s, t); }
    case Timeout(t) =>
      forall u | u != t ensures u in s.board.chans ==> u in Next(s, ev).board.chans {
        WithoutOthers(s.board.chans, t, u);
      }
      QuietStep(s, Next(s, ev), t);
  }

  // ---------- runs ----------

  predicate IsRun(s: Sys, evs: seq<Event>)
    decreases |evs|
  {
    evs != [] ==> Enabled(s, evs[0]) && IsRun(Next(s, evs[0]), evs[1..])
  }

  function After(s: Sys, evs: seq<Event>): Sys
    requires IsRun(s, evs)
    decreases |evs|
  {
    if evs == [] then s else After(Next(s, evs[0]), evs[1..])
  }

  lemma {:induction false} RunKeeps(s: Sys, evs: seq<Event>)
    requires Inv(s) && IsRun(s, evs)
    ensures Inv(After(s, evs))
    decreases |evs|
  {
    hide Inv, Next, Enabled;
    if evs != [] {
      StepKeeps(s, evs[0]);
      RunKeeps(Next(s, evs[0]), evs[1..]);
    }
  }

  /** In any run of any number of poppers of both kinds and pushers, only a popper that reads
      the version late can lose its wake-up. */
  lemma NeverLost(lists: map<Key, nat>, evs: seq<Event>, t: nat)
    requires IsRun(Sys(lists, Board(0, []), map[]), evs)
    requires Lost(After(Sys(lists, Board(0, []), map[]), evs), t)
    ensures After(Sys(lists, Board(0, []), map[]), evs).threads[t].late
  {
    hide Inv, Next, Enabled, Lost;
    var s := Sys(lists, Board(0, []), map[]);
    Start(s);
    RunKeeps(s, evs);
    InvMeansNoLoss(After(s, evs), t);
  }

  /** Without late poppers none is ever lost. */
  lemma NoneLost(lists: map<Key, nat>, evs: seq<Event>, t: nat)
    requires IsRun(Sys(lists, Board(0, []), map[]), evs)
    requires forall i | 0 <= i < |evs| :: !evs[i].NewLate?
    ensures !Lost(After(Sys(lists, Board(0, []), map[]), evs), t)
  {
    hide Next, Enabled, Inv, AllEarly, Lost;
    var s := Sys(lists, Board(0, []), map[]);
    if Lost(After(s, evs), t) {
      NeverLost(lists, evs, t);
      assert AllEarly(s) by { StartEarly(s); }
      EarlyRun(s, evs);
      EarlyParked(After(s, evs), t);
      assert false;
    }
  }

  predicate Early(th: Thread) { !th.Looking? && (th.Resting? || th.Parked? ==> !th.late) }

  ghost predicate AllEarly(s: Sys) { forall t | t in s.threads :: Early(s.threads[t]) }

  lemma StartEarly(s: Sys)
    requires s.threads == map[]
    ensures AllEarly(s)
  {}

  lemma EarlyParked(s: Sys, t: nat)
    requires AllEarly(s) && Lost(s, t)
    ensures !s.threads[t].late
  {}

  lemma EarlyStep(s: Sys, ev: Event)
    requires AllEarly(s) && Enabled(s, ev) && !ev.NewLate?
    ensures AllEarly(Next(s, ev))
  {
    var s' := Next(s, ev);
    forall u | u in s'.threads ensures Early(s'.threads[u]) {
      if u in s.threads { assert Early(s.threads[u]); }
    }
  }

  lemma {:induction false} EarlyRun(s: Sys, evs: seq<Event>)
    requires AllEarly(s) && IsRun(s, evs) && forall i | 0 <= i < |evs| :: !evs[i].NewLate?
    ensures AllEarly(After(s, evs))
    decreases |evs|
  {
    hide AllEarly, Next, Enabled;
    if evs != [] {
      EarlyStep(s, evs[0]);
      EarlyRun(Next(s, evs[0]), evs[1..]);
    }
  }

  lemma Start(s: Sys)
    requires s.threads == map[]
    ensures Inv(s)
  {}

  /** The order matters. From no threads at all: a late popper finds its list empty, a pusher
      writes, moves the version and wakes the no one parked, and only then the popper reads
      the version and parks. The element stays and no one is left to wake it. */
  function LateRun(k: Key): seq<Event>
  {
    [NewLate(0, [k]), Move(0), NewPusher(1, k, 1), Move(1), Move(1), Move(1), Move(0), Move(0)]
  }

  lemma OneStep(s: Sys, ev: Event, s1: Sys, rest: seq<Event>)
    requires Enabled(s, ev) && Next(s, ev) == s1 && IsRun(s1, rest)
    ensures IsRun(s, [ev] + rest) && After(s, [ev] + rest) == After(s1, rest)
  {
    hide Enabled, Next;
    assert ([ev] + rest)[1..] == rest;
  }

  lemma LateVersionLoses(k: Key)
    ensures var s := Sys(map[], Board(0, []), map[]);
            IsRun(s, LateRun(k)) && Lost(After(s, LateRun(k)), 0)
  {
    hide IsRun, After;
    var s4, s8 := Sys(map[k := 1], Board(0, []), map[0 := Looking([k], 1), 1 := Written(k)]), LateEnd(k);
    LateSecond(k, s4);
    LateFirst(k, s4, [Move(1), Move(1), Move(0), Move(0)]);
    assert LateRun(k) == [NewLate(0, [k]), Move(0), NewPusher(1, k, 1), Move(1)] + [Move(1), Move(1), Move(0), Move(0)];
    assert Len(s8, s8.threads[0].keys[0]) > 0;
  }

  function LateEnd(k: Key): Sys
  {
    Sys(map[k := 1], Board(1, [0]), map[0 := Parked([k], false, true), 1 := Done])
  }

  lemma LateFirst(k: Key, s4: Sys, rest: seq<Event>)
    requires s4 == Sys(map[k := 1], Board(0, []), map[0 := Looking([k], 1), 1 := Written(k)]) && IsRun(s4, rest)
    ensures var s, evs := Sys(map[], Board(0, []), map[]), [NewLate(0, [k]), Move(0), NewPusher(1, k, 1), Move(1)] + rest;
            IsRun(s, evs) && After(s, evs) == After(s4, rest)
  {
    hide IsRun, After;
    var b := Board(0, []);
    var s0, s1 := Sys(map[], b, map[]), Sys(map[], b, map[0 := Looking([k], 0)]);
    var s2, s3 := Sys(map[], b, map[0 := Looking([k], 1)]), Sys(map[], b, map[0 := Looking([k], 1), 1 := Pushing(k, 1)]);
    var e3 := [Move(1)] + rest;
    var e2 := [NewPusher(1, k, 1)] + e3;
    var e1 := [Move(0)] + e2;
    OneStep(s3, Move(1), s4, rest);
    OneStep(s2, NewPusher(1, k, 1), s3, e3);
    OneStep(s1, Move(0), s2, e2);
    OneStep(s0, NewLate(0, [k]), s1, e1);
    assert [NewLate(0, [k])] + e1 == [NewLate(0, [k]), Move(0), NewPusher(1, k, 1), Move(1)] + rest;
  }

  lemma LateThird(k: Key, s6: Sys)
    requires s6 == Sys(map[k := 1], Board(1, []), map[0 := Looking([k], 1), 1 := Done])
    ensures var evs := [Move(0), Move(0)]; IsRun(s6, evs) && After(s6, evs) == LateEnd(k)
  {
    var s7 := Sys(map[k := 1], Board(1, []), map[0 := Resting([k], 1, true), 1 := Done]);
    assert IsRun(LateEnd(k), []) && After(LateEnd(k), []) == LateEnd(k);
    hide IsRun, After;
    assert [] + [0] == [0];
    OneStep(s7, Move(0), LateEnd(k), []);
    OneStep(s6, Move(0), s7, [Move(0)] + []);
    assert [Move(0)] + ([Move(0)] + []) == [Move(0), Move(0)];
  }

  lemma LateSecond(k: Key, s4: Sys)
    requires s4 == Sys(map[k := 1], Board(0, []), map[0 := Looking([k], 1), 1 := Written(k)])
    ensures var evs := [Move(1), Move(1), Move(0), Move(0)]; IsRun(s4, evs) && After(s4, evs) == LateEnd(k)
  {
    hide IsRun, After;
    var l, b, looking := map[k := 1], Board(1, []), Looking([k], 1);
    var s5, s6 := Sys(l, b, map[0 := looking, 1 := Waking([])]), Sys(l, b, map[0 := looking, 1 := Done]);
    LateThird(k, s6);
    OneStep(s5, Move(1), s6, [Move(0), Move(0)]);
    OneStep(s4, Move(1), s5, [Move(1)] + [Move(0), Move(0)]);
    assert [Move(1)] + ([Move(1)] + [Move(0), Move(0)]) == [Move(1), Move(1), Move(0), Move(0)];
  }
}
