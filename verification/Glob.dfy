/**
 Glob patterns for KEYS and SCAN: stars separate runs, a run is a row of one-byte tokens,
 and the matcher places the runs greedily.
 */
module Glob {
  import opened Bytes

  const STAR: byte := 42
  const QUESTION: byte := 63
  const OPEN: byte := 91
  const CLOSE: byte := 93
  const BACKSLASH: byte := 92
  const DASH: byte := 45
  const CARET: byte := 94
  const BANG: byte := 33

  const MAX_STARS := 100

  // ---------- tokens of a run ----------

  datatype Span = Span(lo: byte, hi: byte)

  datatype Spans = Spans(items: seq<Span>, end: nat)

  /** One byte or one range of a class, and where the next one starts. */
  function OneSpan(seg: bytes, j: nat): (r: (Span, nat))
    requires j < |seg|
    ensures j < r.1 <= |seg|
  {
    var a := if seg[j] == BACKSLASH && j + 1 < |seg| then j + 1 else j;
    if a + 2 < |seg| && seg[a + 1] == DASH && seg[a + 2] != CLOSE then (Span(seg[a], seg[a + 2]), a + 3)
    else (Span(seg[a], seg[a]), a + 1)
  }

  /** The spans of a class from index j to its closing bracket or the end of the run. */
  function ReadSpans(seg: bytes, j: nat): (r: Spans)
    requires j <= |seg|
    ensures j <= r.end <= |seg|
    decreases |seg| - j
  {
    if j == |seg| || seg[j] == CLOSE then Spans([], j) else
    var rest := ReadSpans(seg, OneSpan(seg, j).1);
    Spans([OneSpan(seg, j).0] + rest.items, rest.end)
  }

  predicate InSpans(items: seq<Span>, c: byte) { exists i :: 0 <= i < |items| && items[i].lo <= c <= items[i].hi }

  predicate Negated(seg: bytes, k: nat) { k + 1 < |seg| && (seg[k + 1] == CARET || seg[k + 1] == BANG) }

  function ClassBody(seg: bytes, k: nat): (r: Spans)
    requires k < |seg|
    ensures k < r.end <= |seg|
  {
    ReadSpans(seg, if Negated(seg, k) then k + 2 else k + 1)
  }

  /** Where the token at k ends. It does not depend on the string. */
  function TokenEnd(seg: bytes, k: nat): (r: nat)
    requires k < |seg|
    ensures r > k
  {
    if seg[k] == OPEN then ClassBody(seg, k).end + 1 else if seg[k] == BACKSLASH then k + 2 else k + 1
  }

  predicate Accepts(seg: bytes, k: nat, c: byte)
    requires k < |seg|
  {
    if seg[k] == QUESTION then true
    else if seg[k] == OPEN then InSpans(ClassBody(seg, k).items, c) != Negated(seg, k)
    else if seg[k] == BACKSLASH then k + 1 < |seg| && seg[k + 1] == c
    else seg[k] == c
  }

  /** The number of string bytes a run takes: fixed by the run alone. */
  function Width(seg: bytes, k: nat): nat
    decreases |seg| - k
  {
    if k >= |seg| then 0 else 1 + Width(seg, TokenEnd(seg, k))
  }

  /** The tokens of the run from k on match str from i on. */
  predicate MatchFrom(seg: bytes, k: nat, str: bytes, i: nat)
    decreases |seg| - k
  {
    k >= |seg| || (i < |str| && Accepts(seg, k, str[i]) && MatchFrom(seg, TokenEnd(seg, k), str, i + 1))
  }

  predicate SegAt(seg: bytes, str: bytes, i: nat) { i <= |str| && MatchFrom(seg, 0, str, i) }

  lemma {:induction false} WidthFits(seg: bytes, k: nat, str: bytes, i: nat)
    requires MatchFrom(seg, k, str, i) && i <= |str|
    ensures i + Width(seg, k) <= |str|
    decreases |seg| - k
  {
    if k < |seg| { WidthFits(seg, TokenEnd(seg, k), str, i + 1); }
  }

  /** matchClass. */
  method MatchClass(seg: bytes, k: nat, c: byte) returns (ok: bool, end: nat)
    requires k < |seg| && seg[k] == OPEN
    ensures ok == Accepts(seg, k, c) && end == ClassBody(seg, k).end
  {
    hide ReadSpans, InSpans;
    var j := k + 1;
    var negate := false;
    if j < |seg| && (seg[j] == CARET || seg[j] == BANG) {
      negate := true;
      j := j + 1;
    }
    var matched;
    matched, end := ScanSpans(seg, j, c);
    ok := matched != negate;
  }

  /** The loop over the spans of a class. */
  method ScanSpans(seg: bytes, start: nat, c: byte) returns (matched: bool, j: nat)
    requires start <= |seg|
    ensures matched == InSpans(ReadSpans(seg, start).items, c) && j == ReadSpans(seg, start).end
  {
    hide InSpans, OneSpan;
    j, matched := start, false;
    ghost var all := ReadSpans(seg, start);
    ghost var done: seq<Span> := [];
    NoSpans(c);
    while j < |seg| && seg[j] != CLOSE
      invariant j <= |seg| && ReadSpans(seg, j).end == all.end && all.items == done + ReadSpans(seg, j).items
      invariant matched == InSpans(done, c)
    {
      var lo, hi, next := NextSpan(seg, j);
      OneMoreSpan(done, Span(lo, hi), c);
      assert done + ReadSpans(seg, j).items == done + [Span(lo, hi)] + ReadSpans(seg, next).items;
      done := done + [Span(lo, hi)];
      j := next;
      if lo <= c && c <= hi { matched := true; }
    }
    assert all.items == done;
  }

  method NextSpan(seg: bytes, start: nat) returns (lo: byte, hi: byte, j: nat)
    requires start < |seg|
    ensures (Span(lo, hi), j) == OneSpan(seg, start)
  {
    j := start;
    if seg[j] == BACKSLASH && j + 1 < |seg| { j := j + 1; }
    lo := seg[j];
    j := j + 1;
    hi := lo;
    if j < |seg| && seg[j] == DASH && j + 1 < |seg| && seg[j + 1] != CLOSE {
      j := j + 1;
      hi := seg[j];
      j := j + 1;
    }
  }

  lemma NoSpans(c: byte)
    ensures !InSpans([], c)
  {}

  lemma OneMoreSpan(items: seq<Span>, s: Span, c: byte)
    ensures InSpans(items + [s], c) <==> InSpans(items, c) || s.lo <= c <= s.hi
  {
    var all := items + [s];
    if InSpans(items, c) {
      var i :| 0 <= i < |items| && items[i].lo <= c <= items[i].hi;
      assert all[i] == items[i];
    }
    assert all[|items|] == s;
  }

  /** matchAt: whether the run matches at i, and if so how much it takes. */
  method MatchAt(seg: bytes, str: bytes, i: nat) returns (ok: bool, consumed: nat)
    requires i <= |str|
    ensures ok == SegAt(seg, str, i) && (ok ==> consumed == Width(seg, 0) && i + consumed <= |str|)
  {
    hide Accepts, ReadSpans;
    var si, k := i, 0;
    while k < |seg|
      invariant i <= si <= |str|
      invariant MatchFrom(seg, 0, str, i) == MatchFrom(seg, k, str, si)
      invariant Width(seg, 0) == si - i + Width(seg, k)
      decreases |seg| - k
    {
      if si >= |str| { return false, 0; }
      var hit, next := TokenAt(seg, k, str[si]);
      if !hit { return false, 0; }
      si, k := si + 1, next;
    }
    return true, si - i;
  }

  /** The switch on one token. */
  method TokenAt(seg: bytes, k: nat, c: byte) returns (hit: bool, next: nat)
    requires k < |seg|
    ensures hit == Accepts(seg, k, c) && next == TokenEnd(seg, k)
  {
    hide ReadSpans, InSpans;
    if seg[k] == QUESTION { return true, k + 1; }
    if seg[k] == OPEN {
      var ok, end := MatchClass(seg, k, c);
      return ok, end + 1;
    }
    if seg[k] == BACKSLASH { return k + 1 < |seg| && seg[k + 1] == c, k + 2; }
    return seg[k] == c, k + 1;
  }

  // ---------- runs of a pattern ----------

  function Join(segs: seq<bytes>): bytes
  {
    if segs == [] then [] else if |segs| == 1 then segs[0] else segs[0] + [STAR] + Join(segs[1..])
  }

  predicate StarFree(segs: seq<bytes>) { forall i | 0 <= i < |segs| :: STAR !in segs[i] }

  lemma {:induction false} JoinSnoc(segs: seq<bytes>, last: bytes)
    requires segs != []
    ensures Join(segs + [last]) == Join(segs) + [STAR] + last
  {
    if |segs| > 1 {
      assert (segs + [last])[1..] == segs[1..] + [last];
      JoinSnoc(segs[1..], last);
    } else {
      assert (segs + [last])[1..] == [last];
    }
  }

  /** splitPattern: the star-free runs that joined by stars are the pattern. */
  method SplitPattern(pattern: bytes) returns (segs: seq<bytes>)
    ensures segs != [] && StarFree(segs) && Join(segs) == pattern
  {
    segs := [];
    var start := 0;
    for i := 0 to |pattern|
      invariant 0 <= start <= i && StarFree(segs) && STAR !in pattern[start..i]
      invariant pattern[..i] == if segs == [] then pattern[start..i] else Join(segs) + [STAR] + pattern[start..i]
      invariant segs == [] ==> start == 0
    {
      if pattern[i] == STAR {
        if segs != [] { JoinSnoc(segs, pattern[start..i]); }
        segs := segs + [pattern[start..i]];
        assert pattern[..i + 1] == pattern[..i] + [STAR];
        start := i + 1;
        assert pattern[start..i + 1] == [];
      } else {
        assert pattern[start..i + 1] == pattern[start..i] + [pattern[i]];
        assert pattern[..i + 1] == pattern[..i] + [pattern[i]];
      }
    }
    assert pattern[..|pattern|] == pattern && pattern[start..|pattern|] == pattern[start..];
    if segs != [] { JoinSnoc(segs, pattern[start..]); }
    segs := segs + [pattern[start..]];
  }

  // ---------- what a pattern means ----------

  /** The runs lie in the string in order, the first at its start, the last at its end,
      with any gaps between them. */
  ghost predicate Placed(segs: seq<bytes>, str: bytes, ps: seq<nat>)
  {
    && |ps| == |segs| > 0 && ps[0] == 0
    && (forall i | 0 <= i < |segs| :: SegAt(segs[i], str, ps[i]))
    && (forall i | 0 <= i < |segs| - 1 :: ps[i] + Width(segs[i], 0) <= ps[i + 1])
    && ps[|ps| - 1] + Width(segs[|segs| - 1], 0) == |str|
  }

  ghost predicate Matches(pattern: bytes, str: bytes)
  {
    exists segs: seq<bytes>, ps: seq<nat> :: StarFree(segs) && Join(segs) == pattern && Placed(segs, str, ps)
  }

  /** The runs left to place, each after a gap, from pos on. */
  ghost predicate Tail(segs: seq<bytes>, str: bytes, pos: nat)
  {
    if segs == [] then pos == |str|
    else exists i: nat :: pos <= i && SegAt(segs[0], str, i) && Tail(segs[1..], str, i + Width(segs[0], 0))
  }

  lemma {:induction false} TailPlaced(segs: seq<bytes>, str: bytes, pos: nat) returns (ps: seq<nat>)
    requires Tail(segs, str, pos)
    ensures |ps| == |segs| && (forall i | 0 <= i < |segs| :: SegAt(segs[i], str, ps[i]))
    ensures if segs == [] then pos == |str| else pos <= ps[0] && ps[|ps| - 1] + Width(segs[|segs| - 1], 0) == |str|
    ensures forall i | 0 <= i < |segs| - 1 :: ps[i] + Width(segs[i], 0) <= ps[i + 1]
  {
    ps := [];
    if segs != [] {
      var i: nat :| pos <= i && SegAt(segs[0], str, i) && Tail(segs[1..], str, i + Width(segs[0], 0));
      var rest := TailPlaced(segs[1..], str, i + Width(segs[0], 0));
      ps := [i] + rest;
    }
  }

  lemma {:induction false} PlacedTail(segs: seq<bytes>, str: bytes, pos: nat, ps: seq<nat>)
    requires |ps| == |segs| && (forall i | 0 <= i < |segs| :: SegAt(segs[i], str, ps[i]))
    requires if segs == [] then pos == |str| else pos <= ps[0] && ps[|ps| - 1] + Width(segs[|segs| - 1], 0) == |str|
    requires forall i | 0 <= i < |segs| - 1 :: ps[i] + Width(segs[i], 0) <= ps[i + 1]
    ensures Tail(segs, str, pos)
    decreases |segs|
  {
    if segs != [] {
      PlacedTail(segs[1..], str, ps[0] + Width(segs[0], 0), ps[1..]);
      assert pos <= ps[0] && SegAt(segs[0], str, ps[0]);
    }
  }

  /** Starting earlier never hurts. */
  lemma TailEarlier(segs: seq<bytes>, str: bytes, pos: nat, pos': nat)
    requires Tail(segs, str, pos) && pos' <= pos && segs != []
    ensures Tail(segs, str, pos')
  {
    var i: nat :| pos <= i && SegAt(segs[0], str, i) && Tail(segs[1..], str, i + Width(segs[0], 0));
    assert pos' <= i;
  }

  /** Placing the next run at its earliest match loses nothing. */
  lemma GreedyStep(segs: seq<bytes>, str: bytes, pos: nat, i: nat)
    requires |segs| > 1 && pos <= i && SegAt(segs[0], str, i)
    requires forall j: nat | pos <= j < i :: !SegAt(segs[0], str, j)
    ensures Tail(segs, str, pos) <==> Tail(segs[1..], str, i + Width(segs[0], 0))
  {
    if Tail(segs, str, pos) {
      var j: nat :| pos <= j && SegAt(segs[0], str, j) && Tail(segs[1..], str, j + Width(segs[0], 0));
      TailEarlier(segs[1..], str, j + Width(segs[0], 0), i + Width(segs[0], 0));
    }
  }

  lemma NoPlace(segs: seq<bytes>, str: bytes, pos: nat)
    requires segs != [] && forall j: nat | pos <= j <= |str| :: !SegAt(segs[0], str, j)
    ensures !Tail(segs, str, pos)
  {}

  lemma EmptyRun(segs: seq<bytes>, str: bytes, pos: nat)
    requires segs != [] && segs[0] == [] && pos <= |str|
    ensures |segs| == 1 ==> Tail(segs, str, pos)
    ensures |segs| > 1 ==> (Tail(segs, str, pos) <==> Tail(segs[1..], str, pos))
  {
    assert SegAt(segs[0], str, pos) && SegAt(segs[0], str, |str|);
    if |segs| == 1 {
      assert segs[1..] == [];
      assert Tail(segs[1..], str, |str| + Width(segs[0], 0));
    } else {
      GreedyStep(segs, str, pos, pos);
    }
  }

  /** The last run must end the string. */
  lemma LastRun(seg: bytes, str: bytes, pos: nat)
    ensures Tail([seg], str, pos) <==>
              exists i: nat :: pos <= i && SegAt(seg, str, i) && i + Width(seg, 0) == |str|
  {
    assert [seg][1..] == [];
    if Tail([seg], str, pos) {
      var i: nat :| pos <= i && SegAt([seg][0], str, i) && Tail([seg][1..], str, i + Width([seg][0], 0));
      assert SegAt(seg, str, i);
    }
    if i: nat :| pos <= i && SegAt(seg, str, i) && i + Width(seg, 0) == |str| {
      assert Tail([seg][1..], str, i + Width([seg][0], 0));
    }
  }

  function CountStars(pattern: bytes): nat
  {
    if pattern == [] then 0 else (if pattern[0] == STAR then 1 else 0) + CountStars(pattern[1..])
  }

  ghost predicate Accepted(pattern: bytes, str: bytes) { CountStars(pattern) <= MAX_STARS && Matches(pattern, str) }

  // ---------- the matcher ----------

  lemma {:induction false} StarsOfJoin(segs: seq<bytes>)
    requires segs != [] && StarFree(segs)
    ensures CountStars(Join(segs)) == |segs| - 1
    ensures Join(segs) != [] && |segs| > 1 ==>
              (Join(segs)[0] == STAR <==> segs[0] == []) &&
              (Join(segs)[|Join(segs)| - 1] == STAR <==> segs[|segs| - 1] == [])
    ensures |segs| > 1 ==> Join(segs) != []
    decreases |segs|
  {
    if |segs| == 1 {
      NoStars(segs[0]);
    } else {
      var rest := segs[1..];
      StarsOfJoin(rest);
      CountAppend(segs[0] + [STAR], Join(rest));
      CountAppend(segs[0], [STAR]);
      NoStars(segs[0]);
      assert segs[0] + [STAR] + Join(rest) == Join(segs);
      assert segs[0] != [] ==> Join(segs)[0] == segs[0][0];
      EndOfJoin(segs);
    }
  }

  lemma EndOfJoin(segs: seq<bytes>)
    requires |segs| > 1 && StarFree(segs)
    ensures Join(segs) != [] && (Join(segs)[|Join(segs)| - 1] == STAR <==> segs[|segs| - 1] == [])
  {
    var front, last := segs[..|segs| - 1], segs[|segs| - 1];
    assert segs == front + [last];
    JoinSnoc(front, last);
    assert last != [] ==> Join(segs)[|Join(segs)| - 1] == last[|last| - 1];
  }

  lemma {:induction false} NoStars(p: bytes)
    requires STAR !in p
    ensures CountStars(p) == 0
  {
    if p != [] { NoStars(p[1..]); }
  }

  lemma {:induction false} CountAppend(p: bytes, q: bytes)
    ensures CountStars(p + q) == CountStars(p) + CountStars(q)
  {
    if p == [] {
      assert p + q == q;
    } else {
      assert (p + q)[1..] == p[1..] + q;
      CountAppend(p[1..], q);
    }
  }

  /** Runs between stars are unique. */
  lemma {:induction false} SplitUnique(a: seq<bytes>, b: seq<bytes>)
    requires a != [] && b != [] && StarFree(a) && StarFree(b) && Join(a) == Join(b)
    ensures a == b
    decreases |a|
  {
    StarsOfJoin(a);
    StarsOfJoin(b);
    if |a| > 1 {
      var x := Join(a);
      assert x == a[0] + [STAR] + Join(a[1..]) && x == b[0] + [STAR] + Join(b[1..]);
      FirstStar(a[0], b[0], Join(a[1..]), Join(b[1..]));
      SplitUnique(a[1..], b[1..]);
      assert a == [a[0]] + a[1..] && b == [b[0]] + b[1..];
    }
  }

  lemma FirstStar(x: bytes, y: bytes, u: bytes, v: bytes)
    requires STAR !in x && STAR !in y && x + [STAR] + u == y + [STAR] + v
    ensures x == y && u == v
  {
    var w := x + [STAR] + u;
    assert w[|x|] == STAR && w[|y|] == STAR;
    assert forall i | 0 <= i < |x| :: w[i] == x[i];
    assert forall i | 0 <= i < |y| :: w[i] == y[i];
    assert |x| == |y|;
    assert x == w[..|x|] == y && u == w[|x| + 1..] == v;
  }

  /** The meaning in terms of one split: the first run at the start, the rest after gaps. */
  lemma MeaningIs(segs: seq<bytes>, pattern: bytes, str: bytes)
    requires segs != [] && StarFree(segs) && Join(segs) == pattern
    ensures Matches(pattern, str) <==> SegAt(segs[0], str, 0) && Tail(segs[1..], str, Width(segs[0], 0))
  {
    hide StarFree, Join, SegAt, Width, Tail, Placed;
    if Matches(pattern, str) {
      var other: seq<bytes>, ps: seq<nat> :| StarFree(other) && Join(other) == pattern && Placed(other, str, ps);
      assert other != [] by { SomeRuns(other, str, ps); }
      SplitUnique(segs, other);
      PlacedMeans(segs, str, ps);
    }
    if SegAt(segs[0], str, 0) && Tail(segs[1..], str, Width(segs[0], 0)) {
      var rest := TailPlaced(segs[1..], str, Width(segs[0], 0));
      RunsPlaced(segs, str, rest);
    }
  }

  lemma SomeRuns(segs: seq<bytes>, str: bytes, ps: seq<nat>)
    requires Placed(segs, str, ps)
    ensures segs != []
  {}

  lemma PlacedMeans(segs: seq<bytes>, str: bytes, ps: seq<nat>)
    requires Placed(segs, str, ps)
    ensures SegAt(segs[0], str, 0) && Tail(segs[1..], str, Width(segs[0], 0))
  {
    hide SegAt, Width, Tail;
    PlacedTail(segs[1..], str, Width(segs[0], 0), ps[1..]);
  }

  lemma RunsPlaced(segs: seq<bytes>, str: bytes, rest: seq<nat>)
    requires segs != [] && |rest| == |segs| - 1 && SegAt(segs[0], str, 0)
    requires forall i | 0 <= i < |rest| :: SegAt(segs[1..][i], str, rest[i])
    requires if rest == [] then Width(segs[0], 0) == |str|
             else Width(segs[0], 0) <= rest[0] && rest[|rest| - 1] + Width(segs[|segs| - 1], 0) == |str|
    requires forall i | 0 <= i < |rest| - 1 :: rest[i] + Width(segs[1..][i], 0) <= rest[i + 1]
    ensures Placed(segs, str, [0] + rest)
  {
    hide SegAt, Width;
    var ps := [0] + rest;
    forall i | 0 <= i < |segs| ensures SegAt(segs[i], str, ps[i]) {
      if i > 0 { assert segs[i] == segs[1..][i - 1]; }
    }
    forall i | 0 <= i < |segs| - 1 ensures ps[i] + Width(segs[i], 0) <= ps[i + 1] {
      if i > 0 { assert segs[i] == segs[1..][i - 1] && rest[i - 1] + Width(segs[1..][i - 1], 0) <= rest[i - 1 + 1]; }
    }
  }

  /** The inner search: the first match from pos on, or for an end-anchored last run the
      match that ends the string. */
  method Find(seg: bytes, str: bytes, pos: nat, atEnd: bool) returns (found: bool, next: nat)
    requires pos <= |str|
    ensures atEnd ==> (found <==> Tail([seg], str, pos))
    ensures !atEnd && !found ==> forall j: nat | pos <= j <= |str| :: !SegAt(seg, str, j)
    ensures !atEnd && found ==>
              exists i: nat :: pos <= i && SegAt(seg, str, i) && next == i + Width(seg, 0) &&
                               forall j: nat | pos <= j < i :: !SegAt(seg, str, j)
    ensures next <= |str|
  {
    hide SegAt, Width, Tail;
    next := pos;
    LastRun(seg, str, pos);
    for i := pos to |str| + 1
      invariant !atEnd ==> forall j: nat | pos <= j < i :: !SegAt(seg, str, j)
      invariant atEnd ==> forall j: nat | pos <= j < i :: !(SegAt(seg, str, j) && j + Width(seg, 0) == |str|)
    {
      var ok, consumed := MatchAt(seg, str, i);
      if !ok { continue; }
      if atEnd {
        if i + consumed == |str| { return true, pos; }
        continue;
      }
      return true, i + consumed;
    }
    InBounds(seg, str);
    return false, pos;
  }

  lemma InBounds(seg: bytes, str: bytes)
    ensures forall j: nat | SegAt(seg, str, j) :: j <= |str|
  {}

  /** The loop over the runs after the first star. */
  method PlaceRuns(segs: seq<bytes>, str: bytes, start: nat) returns (ok: bool)
    requires segs != [] && start <= |str|
    ensures ok == Tail(segs, str, start)
  {
    hide Tail, SegAt, Width;
    var pos: nat := start;
    for idx := 0 to |segs|
      invariant pos <= |str|
      invariant idx < |segs| ==> (Tail(segs, str, start) <==> Tail(segs[idx..], str, pos))
      invariant idx == |segs| ==> Tail(segs, str, start)
    {
      var seg := segs[idx];
      assert segs[idx..][1..] == segs[idx + 1..];
      if seg == [] {
        EmptyRun(segs[idx..], str, pos);
        continue;
      }
      var atEnd := idx == |segs| - 1;
      if atEnd { assert segs[idx..] == [seg]; }
      var found, next := Find(seg, str, pos, atEnd);
      if !found {
        if !atEnd { NoPlace(segs[idx..], str, pos); }
        return false;
      }
      if atEnd {
        pos := |str|;
      } else {
        ghost var i: nat :| pos <= i && SegAt(seg, str, i) && next == i + Width(seg, 0) &&
                            forall j: nat | pos <= j < i :: !SegAt(seg, str, j);
        GreedyStep(segs[idx..], str, pos, i);
        pos := next;
      }
    }
    return true;
  }

  /** match: the greedy scan accepts exactly the strings the pattern means, for patterns
      with at most a hundred stars; beyond that it accepts nothing. */
  method Match(pattern: bytes, str: bytes) returns (ok: bool)
    ensures ok <==> Accepted(pattern, str)
  {
    hide Tail, SegAt, Width, Join, StarFree, CountStars, Matches;
    var segs := SplitPattern(pattern);
    StarsOfJoin(segs);
    MeaningIs(segs, pattern, str);
    if pattern == [] {
      EmptyPattern(segs, str);
      return str == [];
    }
    var stars := StarCount(pattern);
    if stars > MAX_STARS { return false; }
    if stars == 0 {
      var ok1, consumed := MatchAt(pattern, str, 0);
      OneRun(segs, str);
      return ok1 && consumed == |str|;
    }
    var pos := 0;
    if pattern[0] != STAR {
      var hit, consumed := MatchAt(segs[0], str, 0);
      if !hit { return false; }
      pos := consumed;
    } else {
      FirstEmpty(segs[0], str);
    }
    ok := PlaceRuns(segs[1..], str, pos);
  }

  method StarCount(pattern: bytes) returns (n: nat)
    ensures n == CountStars(pattern)
  {
    n := 0;
    for i := 0 to |pattern|
      invariant n == CountStars(pattern[..i])
    {
      CountAppend(pattern[..i], [pattern[i]]);
      assert pattern[..i + 1] == pattern[..i] + [pattern[i]];
      if pattern[i] == STAR { n := n + 1; }
    }
    assert pattern[..|pattern|] == pattern;
  }

  lemma FirstEmpty(seg: bytes, str: bytes)
    requires seg == []
    ensures SegAt(seg, str, 0) && Width(seg, 0) == 0
  {}

  lemma EmptyPattern(segs: seq<bytes>, str: bytes)
    requires segs != [] && StarFree(segs) && Join(segs) == []
    ensures SegAt(segs[0], str, 0) && Tail(segs[1..], str, Width(segs[0], 0)) <==> str == []
    ensures CountStars([]) == 0
  {
    StarsOfJoin(segs);
    assert |segs| == 1 && segs[0] == [];
  }

  lemma OneRun(segs: seq<bytes>, str: bytes)
    requires |segs| == 1
    ensures Join(segs) == segs[0]
    ensures Tail(segs[1..], str, Width(segs[0], 0)) <==> Width(segs[0], 0) == |str|
  {
    assert segs[1..] == [];
  }

  // ---------- the meaning with escapes ----------

  /** What the syntax means read from left to right: a star that no backslash and no class
      covers is a gap, everything else is a one-byte token. */
  predicate Meant(q: bytes, k: nat, str: bytes, i: nat)
    decreases |q| - k, |str| - i
  {
    if k >= |q| then i == |str|
    else if q[k] == STAR then Meant(q, k + 1, str, i) || (i < |str| && Meant(q, k, str, i + 1))
    else i < |str| && Accepts(q, k, str[i]) && Meant(q, TokenEnd(q, k), str, i + 1)
  }

  predicate MeantAfter(q: bytes, k: nat, str: bytes, j: nat) { Meant(q, k + 1, str, j) }

  /** A star stands for any gap. */
  lemma {:induction false} StarMeant(q: bytes, k: nat, str: bytes, i: nat)
    requires k < |q| && q[k] == STAR && i <= |str|
    ensures Meant(q, k, str, i) <==> exists j: nat :: i <= j <= |str| && MeantAfter(q, k, str, j)
    decreases |str| - i
  {
    if MeantAfter(q, k, str, i) {
      assert i <= i <= |str|;
    } else if i < |str| {
      StarMeant(q, k, str, i + 1);
    }
  }

  predicate NoStarIn(q: bytes, lo: nat, hi: nat) { forall j | lo <= j < hi && j < |q| :: q[j] != STAR }

  /** No star from k on is covered by a token. */
  predicate PlainStars(q: bytes, k: nat)
    decreases |q| - k
  {
    k >= |q| ||
    if q[k] == STAR then PlainStars(q, k + 1)
    else NoStarIn(q, k, TokenEnd(q, k)) && PlainStars(q, TokenEnd(q, k))
  }

  /** No star from k on is covered by a class. */
  predicate NoClassStars(q: bytes, k: nat)
    decreases |q| - k
  {
    k >= |q| ||
    if q[k] == STAR then NoClassStars(q, k + 1)
    else (q[k] == OPEN ==> NoStarIn(q, k, TokenEnd(q, k))) && NoClassStars(q, TokenEnd(q, k))
  }

  /** Some token from k on accepts no byte at all. */
  predicate Dead(q: bytes, k: nat)
    decreases |q| - k
  {
    k < |q| &&
    if q[k] == STAR then Dead(q, k + 1)
    else (forall c: byte :: !Accepts(q, k, c)) || Dead(q, TokenEnd(q, k))
  }

  // ---------- a run and the pattern it is cut from ----------

  lemma SameSpan(q: bytes, a: nat, b: nat, j: nat)
    requires a + j < b <= |q| && (OneSpan(q, a + j).1 <= b || b == |q|)
    ensures OneSpan(q[a..b], j).0 == OneSpan(q, a + j).0 && OneSpan(q[a..b], j).1 + a == OneSpan(q, a + j).1
  {}

  /** A class that ends inside the run reads the same in the run. */
  lemma {:induction false} SameSpans(q: bytes, a: nat, b: nat, j: nat)
    requires a + j <= b <= |q| && (ReadSpans(q, a + j).end < b || b == |q|)
    ensures ReadSpans(q[a..b], j).items == ReadSpans(q, a + j).items
    ensures ReadSpans(q[a..b], j).end + a == ReadSpans(q, a + j).end
    decreases b - a - j
  {
    hide OneSpan;
    if a + j < b && q[a + j] != CLOSE {
      SameSpan(q, a, b, j);
      SameSpans(q, a, b, OneSpan(q[a..b], j).1);
    }
  }

  /** A token that covers no star is the same token in its run. */
  lemma SameToken(q: bytes, a: nat, b: nat, k: nat)
    requires a + k < b <= |q| && (b == |q| || q[b] == STAR) && NoStarIn(q, a + k, TokenEnd(q, a + k))
    ensures TokenEnd(q[a..b], k) + a == TokenEnd(q, a + k) && (TokenEnd(q, a + k) <= b || b == |q|)
    ensures forall c :: Accepts(q[a..b], k, c) <==> Accepts(q, a + k, c)
  {
    hide ReadSpans, InSpans;
    assert TokenEnd(q, a + k) <= b || b == |q|;
    if q[a + k] == OPEN {
      assert Negated(q[a..b], k) == Negated(q, a + k) by { SameNegation(q, a, b, k); }
      SameSpans(q, a, b, if Negated(q, a + k) then k + 2 else k + 1);
    }
  }

  lemma SameNegation(q: bytes, a: nat, b: nat, k: nat)
    requires a + k < b <= |q| && q[a + k] == OPEN && (TokenEnd(q, a + k) <= b || b == |q|)
    ensures Negated(q[a..b], k) == Negated(q, a + k)
    ensures Negated(q, a + k) ==> a + k + 2 <= b
  {
    hide ReadSpans;
  }

  /** The tokens of a run, then whatever follows the run. */
  lemma {:induction false} RunMeant(q: bytes, a: nat, b: nat, k: nat, str: bytes, i: nat)
    requires a <= b <= |q| && (b == |q| || q[b] == STAR) && NoStarIn(q, a, b) && PlainStars(q, a + k)
    requires a + k <= b || b == |q|
    ensures Meant(q, a + k, str, i) <==> MatchFrom(q[a..b], k, str, i) && Meant(q, b, str, i + Width(q[a..b], k))
    decreases |q| - (a + k)
  {
    hide Accepts, TokenEnd;
    if a + k < b {
      SameToken(q, a, b, k);
      RunMeant(q, a, b, TokenEnd(q[a..b], k), str, i + 1);
    }
  }

  lemma {:induction false} AfterRun(q: bytes, a: nat, b: nat, k: nat)
    requires a <= b <= |q| && (b == |q| || q[b] == STAR) && NoStarIn(q, a, b) && PlainStars(q, a + k)
    requires a + k <= b || b == |q|
    ensures PlainStars(q, b)
    decreases |q| - (a + k)
  {
    hide TokenEnd;
    if a + k < b {
      SameToken(q, a, b, k);
      AfterRun(q, a, b, TokenEnd(q[a..b], k));
    }
  }

  /** The first run of what is left of the pattern, and its end. */
  lemma FirstRun(q: bytes, a: nat, segs: seq<bytes>)
    requires a <= |q| && segs != [] && StarFree(segs) && q[a..] == Join(segs)
    ensures var b := a + |segs[0]|;
            && b <= |q| && segs[0] == q[a..b] && NoStarIn(q, a, b)
            && (if |segs| == 1 then b == |q| else b < |q| && q[b] == STAR && q[b + 1..] == Join(segs[1..]))
  {
    var b := a + |segs[0]|;
    if |segs| > 1 { assert q[a..] == segs[0] + [STAR] + Join(segs[1..]); }
    assert segs[0] == q[a..][..|segs[0]|] == q[a..b];
    assert forall j | a <= j < b :: q[j] == segs[0][j - a];
    if |segs| > 1 {
      assert q[b] == q[a..][|segs[0]|];
      assert q[b + 1..] == q[a..][|segs[0]| + 1..];
    }
  }

  /** With plain stars the two readings place the runs alike. */
  lemma {:induction false} TailMeant(q: bytes, a: nat, segs: seq<bytes>, str: bytes, pos: nat)
    requires a <= |q| && segs != [] && StarFree(segs) && q[a..] == Join(segs) && PlainStars(q, a) && pos <= |str|
    ensures Meant(q, a, str, pos) <==> SegAt(segs[0], str, pos) && Tail(segs[1..], str, pos + Width(segs[0], 0))
    decreases |segs|
  {
    hide Width, MatchFrom, PlainStars, Join, StarFree, NoStarIn;
    var b := a + |segs[0]|;
    FirstRun(q, a, segs);
    RunMeant(q, a, b, 0, str, pos);
    var p := pos + Width(segs[0], 0);
    if |segs| == 1 {
      assert segs[1..] == [];
    } else if MatchFrom(segs[0], 0, str, pos) {
      WidthFits(segs[0], 0, str, pos);
      AfterRun(q, a, b, 0);
      assert PlainStars(q, b + 1) by { PastStar(q, b); }
      var rest := segs[1..];
      assert StarFree(rest) by { RestFree(segs); }
      forall j: nat | p <= j <= |str|
        ensures MeantAfter(q, b, str, j) <==> SegAt(rest[0], str, j) && Tail(rest[1..], str, j + Width(rest[0], 0))
      {
        TailMeant(q, b + 1, rest, str, j);
      }
      GapMeant(q, b, rest, str, p);
    }
  }

  lemma PastStar(q: bytes, b: nat)
    requires b < |q| && q[b] == STAR && PlainStars(q, b)
    ensures PlainStars(q, b + 1)
  {}

  lemma RestFree(segs: seq<bytes>)
    requires segs != [] && StarFree(segs)
    ensures StarFree(segs[1..])
  {}

  lemma GapMeant(q: bytes, b: nat, rest: seq<bytes>, str: bytes, p: nat)
    requires b < |q| && q[b] == STAR && rest != [] && p <= |str|
    requires forall j: nat | p <= j <= |str| ::
               MeantAfter(q, b, str, j) <==> SegAt(rest[0], str, j) && Tail(rest[1..], str, j + Width(rest[0], 0))
    ensures Meant(q, b, str, p) <==> Tail(rest, str, p)
  {
    hide Width, MatchFrom, Meant, MeantAfter;
    StarMeant(q, b, str, p);
    if Meant(q, b, str, p) {
      var j: nat :| p <= j <= |str| && MeantAfter(q, b, str, j);
      assert SegAt(rest[0], str, j);
    }
    if Tail(rest, str, p) {
      var j: nat :| p <= j && SegAt(rest[0], str, j) && Tail(rest[1..], str, j + Width(rest[0], 0));
      assert MeantAfter(q, b, str, j);
    }
  }

  lemma PlainMeant(pattern: bytes, str: bytes)
    requires PlainStars(pattern, 0)
    ensures Matches(pattern, str) <==> Meant(pattern, 0, str, 0)
  {
    hide Matches, Meant, Tail, SegAt, Width, Join, StarFree, PlainStars;
    var segs := Split(pattern);
    assert pattern[0..] == pattern;
    MeaningIs(segs, pattern, str);
    TailMeant(pattern, 0, segs, str, 0);
  }

  /** Every pattern is its star-free runs joined. */
  lemma {:induction false} Split(p: bytes) returns (segs: seq<bytes>)
    ensures segs != [] && StarFree(segs) && Join(segs) == p
  {
    if p == [] {
      segs := [[]];
    } else {
      var rest := Split(p[1..]);
      if p[0] == STAR {
        segs := [[]] + rest;
        assert segs[1..] == rest;
        assert p == [] + [STAR] + Join(rest);
      } else {
        segs := [[p[0]] + rest[0]] + rest[1..];
        assert segs[1..] == rest[1..];
        assert forall i | 1 <= i < |segs| :: segs[i] == rest[i];
        assert |rest| > 1 ==> [p[0]] + (rest[0] + [STAR] + Join(rest[1..])) == segs[0] + [STAR] + Join(rest[1..]);
      }
    }
  }

  // ---------- a star behind a backslash ----------

  /** Reading the run from k on ends at a backslash with nothing after it. */
  predicate Dangling(seg: bytes, k: nat)
    decreases |seg| - k
  {
    k < |seg| && ((seg[k] == BACKSLASH && k + 1 == |seg|) || Dangling(seg, TokenEnd(seg, k)))
  }

  lemma {:induction false} DanglingNeverMatches(seg: bytes, k: nat, str: bytes, i: nat)
    requires Dangling(seg, k)
    ensures !MatchFrom(seg, k, str, i)
    decreases |seg| - k
  {
    if Dangling(seg, TokenEnd(seg, k)) { DanglingNeverMatches(seg, TokenEnd(seg, k), str, i + 1); }
  }

  /** The split cuts an escape that covers a star, or a later run does. */
  lemma {:induction false} EscapeCut(q: bytes, a: nat, b: nat, k: nat)
    requires a + k <= b <= |q| && (b == |q| || q[b] == STAR) && NoStarIn(q, a, b)
    requires NoClassStars(q, a + k) && !PlainStars(q, a + k)
    ensures Dangling(q[a..b], k) || (b < |q| && NoClassStars(q, b + 1) && !PlainStars(q, b + 1))
    decreases |q| - (a + k)
  {
    hide ClassBody, Accepts;
    if a + k < b {
      if NoStarIn(q, a + k, TokenEnd(q, a + k)) {
        SameToken(q, a, b, k);
        EscapeCut(q, a, b, TokenEnd(q[a..b], k));
      } else {
        assert q[a + k] == BACKSLASH && a + k + 1 == b;
      }
    }
  }

  lemma {:induction false} EscapeDangles(q: bytes, a: nat, segs: seq<bytes>) returns (i: nat)
    requires a <= |q| && segs != [] && StarFree(segs) && q[a..] == Join(segs)
    requires NoClassStars(q, a) && !PlainStars(q, a)
    ensures i < |segs| && Dangling(segs[i], 0)
    decreases |segs|
  {
    hide NoClassStars, PlainStars, Dangling, Join, NoStarIn;
    var b := a + |segs[0]|;
    FirstRun(q, a, segs);
    EscapeCut(q, a, b, 0);
    if Dangling(segs[0], 0) {
      i := 0;
    } else {
      i := EscapeDangles(q, b + 1, segs[1..]);
      i := i + 1;
    }
  }

  /** The split ignores escapes, so a pattern that escapes a star outside a class matches
      nothing at all. */
  lemma EscapedStarNeverMatches(pattern: bytes, str: bytes)
    requires NoClassStars(pattern, 0) && !PlainStars(pattern, 0)
    ensures !Matches(pattern, str)
  {
    hide NoClassStars, PlainStars, Dangling, SegAt, Join, StarFree;
    if Matches(pattern, str) {
      var segs: seq<bytes>, ps: seq<nat> :| StarFree(segs) && Join(segs) == pattern && Placed(segs, str, ps);
      assert pattern[0..] == pattern;
      var i := EscapeDangles(pattern, 0, segs);
      assert SegAt(segs[i], str, ps[i]);
      NeverAt(segs[i], str, ps[i]);
    }
  }

  lemma NeverAt(seg: bytes, str: bytes, i: nat)
    requires Dangling(seg, 0)
    ensures !SegAt(seg, str, i)
  {
    DanglingNeverMatches(seg, 0, str, i);
  }

  // ---------- when the two agree ----------

  lemma {:induction false} DeadNever(q: bytes, k: nat, str: bytes, i: nat)
    requires Dead(q, k)
    ensures !Meant(q, k, str, i)
    decreases |q| - k, |str| - i
  {
    hide Accepts, TokenEnd;
    if q[k] == STAR {
      DeadNever(q, k + 1, str, i);
      if i < |str| { DeadNever(q, k, str, i + 1); }
    } else if Dead(q, TokenEnd(q, k)) {
      DeadNever(q, TokenEnd(q, k), str, i + 1);
    }
  }

  /** A pattern without a dead token means some string. */
  lemma {:induction false} AliveSome(q: bytes, k: nat, u: bytes) returns (s: bytes)
    requires !Dead(q, k)
    ensures Meant(q, k, u + s, |u|)
    decreases |q| - k
  {
    hide Accepts, TokenEnd;
    if k >= |q| {
      s := [];
    } else if q[k] == STAR {
      s := AliveSome(q, k + 1, u);
    } else {
      var c: byte :| Accepts(q, k, c);
      var rest := AliveSome(q, TokenEnd(q, k), u + [c]);
      s := [c] + rest;
      assert u + s == u + [c] + rest;
    }
  }

  ghost predicate Agrees(pattern: bytes)
  {
    forall str: bytes :: Accepted(pattern, str) <==> Meant(pattern, 0, str, 0)
  }

  /** For patterns without a star inside a class: the matcher accepts exactly the strings the
      pattern means if and only if no star is escaped and there are at most a hundred, or
      the pattern means no string at all. */
  lemma AgreesExactly(pattern: bytes)
    requires NoClassStars(pattern, 0)
    ensures Agrees(pattern) <==>
              (PlainStars(pattern, 0) && CountStars(pattern) <= MAX_STARS) || Dead(pattern, 0)
  {
    hide NoClassStars, PlainStars, CountStars, Dead, Meant, Matches;
    forall str: bytes
      ensures Accepted(pattern, str) ==> PlainStars(pattern, 0)
      ensures PlainStars(pattern, 0) && CountStars(pattern) <= MAX_STARS ==>
                (Accepted(pattern, str) <==> Meant(pattern, 0, str, 0))
      ensures Dead(pattern, 0) ==> !Meant(pattern, 0, str, 0)
    {
      if PlainStars(pattern, 0) { PlainMeant(pattern, str); } else { EscapedStarNeverMatches(pattern, str); }
      if Dead(pattern, 0) { DeadNever(pattern, 0, str, 0); }
    }
    if Agrees(pattern) && !Dead(pattern, 0) {
      var s := AliveSome(pattern, 0, []);
      assert [] + s == s;
      assert Accepted(pattern, s);
    }
  }

  /** The pattern `\*` means the string `*`, and the matcher accepts nothing. */
  lemma EscapedStarInput(str: bytes)
    ensures Meant([BACKSLASH, STAR], 0, [STAR], 0) && !Accepted([BACKSLASH, STAR], str)
  {
    var q := [BACKSLASH, STAR];
    assert Accepts(q, 0, [STAR][0]) && TokenEnd(q, 0) == 2;
    assert q[1] == STAR;
    assert !NoStarIn(q, 0, 2);
    assert !PlainStars(q, 0);
    EscapedStarNeverMatches(q, str);
  }

  /** A star inside a class is a separator too: `[\*]` accepts the string `\]`, which it
      does not mean. */
  lemma ClassStarInput()
    ensures Accepted([OPEN, BACKSLASH, STAR, CLOSE], [BACKSLASH, CLOSE])
    ensures !Meant([OPEN, BACKSLASH, STAR, CLOSE], 0, [BACKSLASH, CLOSE], 0)
  {
    ClassStarAccepted();
    ClassStarMeant();
  }

  lemma ClassStarMeant()
    ensures !Meant([OPEN, BACKSLASH, STAR, CLOSE], 0, [BACKSLASH, CLOSE], 0)
  {
    var q := [OPEN, BACKSLASH, STAR, CLOSE];
    assert q[1] == BACKSLASH && q[2] == STAR && q[3] == CLOSE;
    assert OneSpan(q, 1) == (Span(STAR, STAR), 3);
    assert ReadSpans(q, 3) == Spans([], 3);
    assert ReadSpans(q, 1).items == [Span(STAR, STAR)];
    assert !InSpans([Span(STAR, STAR)], BACKSLASH);
    assert !Accepts(q, 0, BACKSLASH);
  }

  lemma ClassStarAccepted()
    ensures Accepted([OPEN, BACKSLASH, STAR, CLOSE], [BACKSLASH, CLOSE])
  {
    var q, str := [OPEN, BACKSLASH, STAR, CLOSE], [BACKSLASH, CLOSE];
    var x, y := [OPEN, BACKSLASH], [CLOSE];
    var segs := [x, y];
    assert segs[1..] == [y];
    assert Join([y]) == y;
    assert Join(segs) == x + [STAR] + y == q;
    StarsOfJoin(segs);
    OpenRun(x, str);
    CloseRun(y, str);
    assert Placed(segs, str, [0, 1]);
  }

  lemma OpenRun(x: bytes, str: bytes)
    requires x == [OPEN, BACKSLASH] && str == [BACKSLASH, CLOSE]
    ensures SegAt(x, str, 0) && Width(x, 0) == 1
  {
    assert OneSpan(x, 1) == (Span(BACKSLASH, BACKSLASH), 2);
    assert ReadSpans(x, 2) == Spans([], 2);
    var items := ReadSpans(x, 1).items;
    assert items == [Span(BACKSLASH, BACKSLASH)];
    assert items[0].lo <= BACKSLASH <= items[0].hi;
    assert ClassBody(x, 0).end == 2 && TokenEnd(x, 0) == 3;
    assert Accepts(x, 0, str[0]);
  }

  lemma CloseRun(y: bytes, str: bytes)
    requires y == [CLOSE] && str == [BACKSLASH, CLOSE]
    ensures SegAt(y, str, 1) && Width(y, 0) == 1
  {
    assert TokenEnd(y, 0) == 1 && Accepts(y, 0, str[1]);
  }

  /** But a star inside a class need not show: a gap, a class of all bytes and the star are
      any non-empty string in both readings. */
  lemma ClassStarCanAgree()
    ensures var q := [STAR, OPEN, 0, DASH, 255, STAR]; !NoClassStars(q, 0) && !Dead(q, 0) && Agrees(q)
  {
    hide Meant, Matches, CountStars, ClassBody, Dead, NoClassStars;
    var q: bytes := [STAR, OPEN, 0, DASH, 255, STAR];
    AnyByteClass(q);
    forall str: bytes ensures Accepted(q, str) <==> Meant(q, 0, str, 0) {
      AnyByteMeant(q, str);
      AnyByteMatches(q, str);
    }
    AnyByteMeant(q, [0]);
    if Dead(q, 0) { DeadNever(q, 0, [0], 0); }
  }

  lemma AnyByteClass(q: bytes)
    requires q == [STAR, OPEN, 0, DASH, 255, STAR]
    ensures TokenEnd(q, 1) == 7 && (forall c: byte :: Accepts(q, 1, c)) && !NoClassStars(q, 0)
  {
    assert OneSpan(q, 2) == (Span(0, 255), 5) && OneSpan(q, 5) == (Span(STAR, STAR), 6);
    assert ReadSpans(q, 6) == Spans([], 6);
    assert ReadSpans(q, 5) == Spans([Span(STAR, STAR)], 6);
    var items := ReadSpans(q, 2).items;
    assert items[0] == Span(0, 255) && ReadSpans(q, 2).end == 6;
    assert !Negated(q, 1) && ClassBody(q, 1) == ReadSpans(q, 2);
    forall c: byte ensures Accepts(q, 1, c) { assert items[0].lo <= c <= items[0].hi; }
    assert q[5] == STAR && !NoStarIn(q, 1, 7);
    assert !NoClassStars(q, 1);
  }

  lemma AnyByteMeant(q: bytes, str: bytes)
    requires q == [STAR, OPEN, 0, DASH, 255, STAR]
    ensures Meant(q, 0, str, 0) <==> str != []
  {
    hide TokenEnd, Accepts;
    AnyByteClass(q);
    StarMeant(q, 0, str, 0);
    forall j: nat ensures MeantAfter(q, 0, str, j) <==> j + 1 == |str| {
      assert q[1] != STAR;
      assert Meant(q, 7, str, j + 1) <==> j + 1 == |str|;
      if j < |str| { assert Accepts(q, 1, str[j]); }
    }
    if str != [] { assert MeantAfter(q, 0, str, |str| - 1); }
  }

  lemma AnyByteMatches(q: bytes, str: bytes)
    requires q == [STAR, OPEN, 0, DASH, 255, STAR]
    ensures Matches(q, str) <==> str != []
    ensures CountStars(q) == 2
  {
    hide Matches, CountStars, Tail;
    var x: bytes := [OPEN, 0, DASH, 255];
    var segs: seq<bytes> := [[], x, []];
    assert segs[1..] == [x, []] && segs[1..][1..] == [[]];
    assert Join([[]]) == [];
    assert Join(segs[1..]) == x + [STAR] + [];
    assert Join(segs) == [] + [STAR] + (x + [STAR] + []) == q;
    StarsOfJoin(segs);
    MeaningIs(segs, q, str);
    FirstEmpty([], str);
    AnyByteRun(x, str);
    if str == [] {
      NoPlace(segs[1..], str, 0);
    } else {
      GreedyStep(segs[1..], str, 0, 0);
      EmptyRun([[]], str, 1);
    }
  }

  lemma AnyByteRun(x: bytes, str: bytes)
    requires x == [OPEN, 0, DASH, 255]
    ensures Width(x, 0) == 1 && forall i: nat :: SegAt(x, str, i) <==> i < |str|
  {
    assert OneSpan(x, 1) == (Span(0, 255), 4) && ReadSpans(x, 4) == Spans([], 4);
    var items := ReadSpans(x, 1).items;
    assert items[0] == Span(0, 255) && ReadSpans(x, 1).end == 4;
    assert !Negated(x, 0) && ClassBody(x, 0) == ReadSpans(x, 1) && TokenEnd(x, 0) == 5;
    forall c: byte ensures Accepts(x, 0, c) { assert items[0].lo <= c <= items[0].hi; }
    forall i: nat ensures SegAt(x, str, i) <==> i < |str| {
      assert MatchFrom(x, 5, str, i + 1);
      if i < |str| { assert Accepts(x, 0, str[i]); }
    }
  }
}
