/**
 Sequence numbers of sparse lists. An element's key ends in its number as eight bytes
 of two's complement, so an iterator visits non-negative numbers first.
 */
module Sequences {
  import opened Bytes
  import opened Scores
  import opened Codec
  import opened Engine

  function SeqBytes(n: i64): bytes { BE(TwosComplement(n), 8) }

  /** n numbers from head on are 64-bit signed integers. */
  predicate Span(head: int, n: nat) { -I63 <= head && head + n <= I63 }

  /** The element keys of a list stored from head on. */
  function SeqMap(head: int, xs: seq<bytes>): map<bytes, bytes>
    requires Span(head, |xs|)
  {
    if xs == [] then map[] else
    SeqMap(head, xs[..|xs| - 1])[SeqBytes(head + |xs| - 1) := xs[|xs| - 1]]
  }

  lemma SeqBytesOrder(m: i64, n: i64)
    ensures Less(SeqBytes(m), SeqBytes(n)) <==> TwosComplement(m) < TwosComplement(n)
    ensures SeqBytes(m) == SeqBytes(n) <==> m == n
  {
    Order64(TwosComplement(m), TwosComplement(n), [], []);
    assert SeqBytes(m) + [] == SeqBytes(m) && SeqBytes(n) + [] == SeqBytes(n);
    LessIrreflexive([]);
  }

  lemma {:induction false} SeqMapAt(head: int, xs: seq<bytes>, n: i64)
    requires Span(head, |xs|)
    ensures SeqBytes(n) in SeqMap(head, xs) <==> head <= n < head + |xs|
    ensures head <= n < head + |xs| ==> SeqMap(head, xs)[SeqBytes(n)] == xs[n - head]
  {
    hide SeqBytes;
    if xs != [] {
      SeqMapAt(head, xs[..|xs| - 1], n);
      SeqBytesOrder(n, head + |xs| - 1);
    }
  }

  lemma {:induction false} SeqMapKeys(head: int, xs: seq<bytes>, x: bytes) returns (n: i64)
    requires Span(head, |xs|) && x in SeqMap(head, xs)
    ensures head <= n < head + |xs| && x == SeqBytes(n)
  {
    hide SeqBytes;
    n := head + |xs| - 1;
    if x != SeqBytes(n) { n := SeqMapKeys(head, xs[..|xs| - 1], x); }
  }

  /** A map from exactly those keys to those elements is the list's map. */
  lemma SeqMapIs(m: map<bytes, bytes>, head: int, xs: seq<bytes>)
    requires Span(head, |xs|)
    requires forall x | x in m :: x in SeqMap(head, xs)
    requires forall n: i64 | head <= n < head + |xs| :: SeqBytes(n) in m && m[SeqBytes(n)] == xs[n - head]
    ensures m == SeqMap(head, xs)
  {
    hide SeqBytes, SeqMap;
    forall x | x in SeqMap(head, xs) ensures x in m && m[x] == SeqMap(head, xs)[x] {
      var n := SeqMapKeys(head, xs, x);
      SeqMapAt(head, xs, n);
    }
  }

  lemma SeqAppend(head: int, xs: seq<bytes>, v: bytes)
    requires Span(head, |xs| + 1)
    ensures SeqMap(head, xs)[SeqBytes(head + |xs|) := v] == SeqMap(head, xs + [v])
  {
    assert (xs + [v])[..|xs|] == xs;
  }

  lemma SeqPrepend(head: int, xs: seq<bytes>, v: bytes)
    requires Span(head - 1, |xs| + 1)
    ensures SeqMap(head, xs)[SeqBytes(head - 1) := v] == SeqMap(head - 1, [v] + xs)
  {
    hide SeqBytes, SeqMap;
    var m := SeqMap(head, xs)[SeqBytes(head - 1) := v];
    forall x | x in m ensures x in SeqMap(head - 1, [v] + xs) {
      if x == SeqBytes(head - 1) {
        SeqMapAt(head - 1, [v] + xs, head - 1);
      } else {
        var n := SeqMapKeys(head, xs, x);
        SeqMapAt(head - 1, [v] + xs, n);
      }
    }
    forall n: i64 | head - 1 <= n < head + |xs| ensures SeqBytes(n) in m && m[SeqBytes(n)] == ([v] + xs)[n - head + 1] {
      SeqMapAt(head, xs, n);
      SeqBytesOrder(n, head - 1);
    }
    SeqMapIs(m, head - 1, [v] + xs);
  }

  lemma SeqDropFirst(head: int, xs: seq<bytes>)
    requires Span(head, |xs|) && xs != []
    ensures SeqMap(head, xs) - {SeqBytes(head)} == SeqMap(head + 1, xs[1..])
  {
    hide SeqBytes, SeqMap;
    assert xs == [xs[0]] + xs[1..];
    SeqPrepend(head + 1, xs[1..], xs[0]);
    SeqMapAt(head + 1, xs[1..], head);
    Undo(SeqMap(head + 1, xs[1..]), SeqBytes(head), xs[0]);
  }

  lemma SeqDropLast(head: int, xs: seq<bytes>)
    requires Span(head, |xs|) && xs != []
    ensures SeqMap(head, xs) - {SeqBytes(head + |xs| - 1)} == SeqMap(head, xs[..|xs| - 1])
  {
    hide SeqBytes;
    var front := xs[..|xs| - 1];
    SeqMapAt(head, front, head + |xs| - 1);
    Undo(SeqMap(head, front), SeqBytes(head + |xs| - 1), xs[|xs| - 1]);
  }

  lemma Undo(m: map<bytes, bytes>, x: bytes, v: bytes)
    requires x !in m
    ensures m[x := v] - {x} == m
  {}

  lemma SeqReplace(head: int, xs: seq<bytes>, i: nat, v: bytes)
    requires Span(head, |xs|) && i < |xs|
    ensures SeqMap(head, xs)[SeqBytes(head + i) := v] == SeqMap(head, xs[i := v])
  {
    hide SeqBytes, SeqMap;
    var m := SeqMap(head, xs)[SeqBytes(head + i) := v];
    forall x | x in m ensures x in SeqMap(head, xs[i := v]) {
      var n: i64 := head + i;
      if x != SeqBytes(head + i) { n := SeqMapKeys(head, xs, x); }
      SeqMapAt(head, xs[i := v], n);
    }
    forall n: i64 | head <= n < head + |xs| ensures SeqBytes(n) in m && m[SeqBytes(n)] == xs[i := v][n - head] {
      SeqMapAt(head, xs, n);
      SeqBytesOrder(n, head + i);
    }
    SeqMapIs(m, head, xs[i := v]);
  }

  // ---------- the stored form of a list ----------

  /** A payload and element keys store the list xs from a non-negative number on, or all
      of it inline; every number is below top. */
  ghost predicate ListShape(payload: bytes, xs: seq<bytes>, top: nat, el: Elems)
  {
    top <= I63 &&
    match DecodeObjectHeader(payload)
    case None => false
    case Some(Inline(_, data)) => ParseList(data) == Some(xs) && |xs| <= top && el == NO_ELEMS
    case Some(Sparse(n, head, tail)) =>
      && n == |xs| % U32 && 0 <= head && tail == head + |xs| - 1 && tail < top
      && el == NO_ELEMS.(list := SeqMap(head, xs))
  }

  // ---------- scan order ----------

  /** The i-th number an iterator meets: non-negative numbers come first. */
  function Nth(head: int, n: nat, i: nat): int
    requires i < n
  {
    if head >= 0 || head + n <= 0 then head + i else if i < head + n then i else i - n
  }

  /** A list whose numbers straddle zero reads with its negative part moved to the end. */
  function Rotated(head: int, xs: seq<bytes>): seq<bytes>
  {
    if head >= 0 || head + |xs| <= 0 then xs else xs[-head..] + xs[..-head]
  }

  lemma NthRange(head: int, n: nat, i: nat)
    requires Span(head, n) && i < n
    ensures head <= Nth(head, n, i) < head + n && -I63 <= Nth(head, n, i) < I63
  {}

  lemma NthAscends(head: int, n: nat, i: nat, j: nat)
    requires Span(head, n) && i < j < n
    ensures TwosComplement(Nth(head, n, i)) < TwosComplement(Nth(head, n, j))
  {}

  lemma NthReads(head: int, xs: seq<bytes>, i: nat)
    requires Span(head, |xs|) && i < |xs|
    ensures |Rotated(head, xs)| == |xs| && Rotated(head, xs)[i] == xs[Nth(head, |xs|, i) - head]
  {}

  lemma NthCovers(head: int, n: nat, v: int) returns (i: nat)
    requires Span(head, n) && head <= v < head + n
    ensures i < n && Nth(head, n, i) == v
  {
    i := if head >= 0 || head + n <= 0 then v - head else if v >= 0 then v else v + n;
  }

  function Visited(p: bytes, head: int, n: nat): seq<bytes>
    requires Span(head, n)
  {
    seq(n, i requires 0 <= i < n => NthRange(head, n, i); p + SeqBytes(Nth(head, n, i)))
  }

  /** An iterator over the list's prefix visits exactly those keys in that order. */
  lemma ScanVisits(e: Db, p: bytes, head: int, xs: seq<bytes>, ks: seq<bytes>)
    requires Span(head, |xs|) && Sub(e, p) == SeqMap(head, xs) && IsScan(e, p, Successor(p), ks)
    ensures ks == Visited(p, head, |xs|)
  {
    hide SeqBytes, SeqMap, Sub, Nth, InRange;
    var vs := Visited(p, head, |xs|);
    forall i, j | 0 <= i < j < |vs| ensures Less(vs[i], vs[j]) { VisitedAscends(p, head, |xs|, i, j); }
    forall k ensures k in ks <==> k in vs {
      VisitedIs(e, p, head, xs, k);
      PrefixRange(p, k);
    }
    ScanUnique(ks, vs);
  }

  lemma VisitedAscends(p: bytes, head: int, n: nat, i: nat, j: nat)
    requires Span(head, n) && i < j < n
    ensures Less(Visited(p, head, n)[i], Visited(p, head, n)[j])
  {
    hide SeqBytes, Nth;
    NthRange(head, n, i);
    NthRange(head, n, j);
    NthAscends(head, n, i, j);
    SeqBytesOrder(Nth(head, n, i), Nth(head, n, j));
    LessCommonPrefix(p, SeqBytes(Nth(head, n, i)), SeqBytes(Nth(head, n, j)));
  }

  lemma VisitedIs(e: Db, p: bytes, head: int, xs: seq<bytes>, k: bytes)
    requires Span(head, |xs|) && Sub(e, p) == SeqMap(head, xs)
    ensures k in Visited(p, head, |xs|) <==> k in e && p <= k
  {
    hide SeqBytes, SeqMap, Nth;
    var vs := Visited(p, head, |xs|);
    if k in vs {
      var i :| 0 <= i < |vs| && vs[i] == k;
      NthRange(head, |xs|, i);
      SeqMapAt(head, xs, Nth(head, |xs|, i));
      assert SeqBytes(Nth(head, |xs|, i)) in Sub(e, p);
    }
    if k in e && p <= k {
      assert k == p + k[|p|..];
      assert k[|p|..] in Sub(e, p);
      var n := SeqMapKeys(head, xs, k[|p|..]);
      var i := NthCovers(head, |xs|, n);
      assert vs[i] == k;
    }
  }

  // ---------- when a rotation shows nothing ----------

  function Gcd(a: nat, b: nat): (g: nat)
    requires a > 0 && b > 0
    ensures 0 < g <= a && g <= b
    decreases a + b
  {
    if a == b then a else if a < b then Gcd(a, b - a) else Gcd(a - b, b)
  }

  function Repeat(w: seq<bytes>, n: nat): seq<bytes> { if n == 0 then [] else w + Repeat(w, n - 1) }

  lemma {:induction false} RepeatAdd(w: seq<bytes>, a: nat, b: nat)
    ensures Repeat(w, a + b) == Repeat(w, a) + Repeat(w, b)
  {
    if a == 0 {
      assert [] + Repeat(w, b) == Repeat(w, b);
    } else {
      RepeatAdd(w, a - 1, b);
      assert w + (Repeat(w, a - 1) + Repeat(w, b)) == (w + Repeat(w, a - 1)) + Repeat(w, b);
    }
  }

  lemma {:induction false} RepeatLength(w: seq<bytes>, n: nat)
    ensures |Repeat(w, n)| == n * |w|
  {
    if n > 0 {
      RepeatLength(w, n - 1);
      assert n * |w| == (n - 1) * |w| + |w|;
    }
  }

  /** Two sequences that can change places are repetitions of one as long as the greatest
      common divisor of their lengths. */
  lemma {:induction false} Commuting(u: seq<bytes>, v: seq<bytes>) returns (w: seq<bytes>, a: nat, b: nat)
    requires u != [] && v != [] && u + v == v + u
    ensures |w| == Gcd(|u|, |v|) && u == Repeat(w, a) && v == Repeat(w, b)
    decreases |u| + |v|
  {
    if |u| == |v| {
      assert u == (u + v)[..|u|] == v;
      w, a, b := u, 1, 1;
      assert Repeat(u, 1) == u + Repeat(u, 0) == u;
    } else if |u| < |v| {
      var r := Cancelled(u, v);
      w, a, b := Commuting(u, r);
      RepeatAdd(w, a, b);
      b := a + b;
    } else {
      var r := Cancelled(v, u);
      w, a, b := Commuting(r, v);
      RepeatAdd(w, b, a);
      a := b + a;
    }
  }

  /** The shorter of two such sequences begins the longer, and changes places with the rest. */
  lemma Cancelled(u: seq<bytes>, v: seq<bytes>) returns (r: seq<bytes>)
    requires |u| < |v| && u + v == v + u
    ensures v == u + r && r != [] && u + r == r + u && |r| == |v| - |u|
  {
    r := v[|u|..];
    assert v[..|u|] == (v + u)[..|u|] == (u + v)[..|u|] == u;
    assert v == u + r;
    assert r + u == (v + u)[|u|..];
    assert (u + v)[|u|..] == v;
  }

  /** The list is its first g elements over and over. */
  predicate Repeats(xs: seq<bytes>, g: nat)
  {
    0 < g <= |xs| && exists n: nat | n <= |xs| :: xs == Repeat(xs[..g], n)
  }

  lemma RotationExactly(xs: seq<bytes>, m: nat)
    requires 0 < m < |xs|
    ensures xs[m..] + xs[..m] == xs <==> Repeats(xs, Gcd(m, |xs| - m))
  {
    hide Repeats, Gcd;
    var u, v := xs[..m], xs[m..];
    assert xs == u + v;
    if v + u == u + v { SwappedRepeats(xs, u, v); }
    if Repeats(xs, Gcd(m, |xs| - m)) { RepeatsSwap(xs, m); }
  }

  lemma SwappedRepeats(xs: seq<bytes>, u: seq<bytes>, v: seq<bytes>)
    requires u != [] && v != [] && xs == u + v == v + u
    ensures Repeats(xs, Gcd(|u|, |v|))
  {
    hide Repeats, Repeat, Gcd;
    var w, a, b := Commuting(u, v);
    RepeatAdd(w, a, b);
    RepeatedWhole(xs, w, a + b);
  }

  lemma RepeatsSwap(xs: seq<bytes>, m: nat)
    requires 0 < m < |xs| && Repeats(xs, Gcd(m, |xs| - m))
    ensures xs[m..] + xs[..m] == xs
  {
    hide Repeat, Gcd;
    var g := Gcd(m, |xs| - m);
    var n: nat :| n <= |xs| && xs == Repeat(xs[..g], n);
    var a, b := BothDivide(m, |xs| - m);
    SplitRepeat(xs, xs[..g], n, a, m);
  }

  lemma RepeatedWhole(xs: seq<bytes>, w: seq<bytes>, n: nat)
    requires w != [] && xs != [] && xs == Repeat(w, n)
    ensures Repeats(xs, |w|)
  {
    RepeatLength(w, n);
    AtLeast(n, |w|);
    assert xs[..|w|] == w;
  }

  lemma AtLeast(n: nat, d: nat)
    requires d > 0
    ensures n <= n * d && (n > 0 ==> d <= n * d)
  {}

  /** A cut at a whole number of repetitions can be undone either way round. */
  lemma SplitRepeat(xs: seq<bytes>, w: seq<bytes>, n: nat, a: nat, m: nat)
    requires w != [] && xs == Repeat(w, n) && m == a * |w| && m <= |xs|
    ensures xs[m..] + xs[..m] == xs
  {
    hide Repeat;
    RepeatLength(w, n);
    FitsIn(a, n, |w|);
    RepeatAdd(w, a, n - a);
    RepeatAdd(w, n - a, a);
    RepeatLength(w, a);
    assert xs[..m] == Repeat(w, a) && xs[m..] == Repeat(w, n - a);
  }

  lemma FitsIn(a: nat, n: nat, d: nat)
    requires d > 0 && a * d <= n * d
    ensures a <= n
  {}

  lemma {:induction false} BothDivide(a: nat, b: nat) returns (x: nat, y: nat)
    requires a > 0 && b > 0
    ensures a == x * Gcd(a, b) && b == y * Gcd(a, b)
    decreases a + b
  {
    var g := Gcd(a, b);
    if a == b {
      x, y := 1, 1;
    } else if a < b {
      x, y := BothDivide(a, b - a);
      AddMultiples(x, y, g);
      y := x + y;
    } else {
      x, y := BothDivide(a - b, b);
      AddMultiples(x, y, g);
      x := x + y;
    }
  }

  lemma AddMultiples(x: nat, y: nat, g: nat)
    ensures (x + y) * g == x * g + y * g
  {}

  /** A list reads in order exactly when its numbers do not straddle zero or it repeats with
      the greatest common divisor of the two sides' sizes. */
  lemma ReadsInOrder(head: int, xs: seq<bytes>)
    ensures Rotated(head, xs) == xs <==>
              head >= 0 || head + |xs| <= 0 || Repeats(xs, Gcd(-head, head + |xs|))
  {
    hide Repeats, Gcd;
    if head < 0 < head + |xs| { RotationExactly(xs, -head); }
  }

  predicate AllDifferent(xs: seq<bytes>) { forall i, j | 0 <= i < j < |xs| :: xs[i] != xs[j] }

  /** So a list of distinct elements reads in order exactly when it does not straddle zero. */
  lemma DifferentInOrder(head: int, xs: seq<bytes>)
    requires AllDifferent(xs)
    ensures Rotated(head, xs) == xs <==> head >= 0 || head + |xs| <= 0
  {
    if head < 0 < head + |xs| { assert Rotated(head, xs)[0] == xs[-head]; }
  }
}
