/** Longest common subsequence: the table, the walk over it, and why the result is longest. */
module Lcs {
  import opened Bytes

  // ---------- subsequences ----------

  predicate Sub(s: bytes, a: bytes)
  {
    s == [] || (a != [] && ((s[0] == a[0] && Sub(s[1..], a[1..])) || Sub(s, a[1..])))
  }

  predicate Common(s: bytes, a: bytes, b: bytes) { Sub(s, a) && Sub(s, b) }

  /** What the table holds for two suffixes. */
  function Len(a: bytes, b: bytes): nat
    decreases |a| + |b|
  {
    if a == [] || b == [] then 0
    else if a[0] == b[0] then 1 + Len(a[1..], b[1..])
    else if Len(a[1..], b) >= Len(a, b[1..]) then Len(a[1..], b) else Len(a, b[1..])
  }

  lemma {:induction false} SubTail(s: bytes, a: bytes)
    requires Sub(s, a) && s != []
    ensures a != [] && Sub(s[1..], a[1..]) && Sub(s[1..], a)
    decreases |a|
  {
    if !(s[0] == a[0] && Sub(s[1..], a[1..])) { SubTail(s, a[1..]); }
  }

  lemma {:induction false} NoLonger(s: bytes, a: bytes, b: bytes)
    requires Common(s, a, b)
    ensures |s| <= Len(a, b)
    decreases |a| + |b|
  {
    if s != [] {
      SubTail(s, a);
      SubTail(s, b);
      if a[0] == b[0] {
        NoLonger(s[1..], a[1..], b[1..]);
      } else if Sub(s, a[1..]) {
        NoLonger(s, a[1..], b);
      } else {
        NoLonger(s, a, b[1..]);
      }
    }
  }

  /** One that long exists. */
  lemma {:induction false} Reached(a: bytes, b: bytes) returns (s: bytes)
    ensures Common(s, a, b) && |s| == Len(a, b)
    decreases |a| + |b|
  {
    if a == [] || b == [] {
      s := [];
    } else if a[0] == b[0] {
      var t := Reached(a[1..], b[1..]);
      s := [a[0]] + t;
      assert s[1..] == t;
    } else if Len(a[1..], b) >= Len(a, b[1..]) {
      s := Reached(a[1..], b);
    } else {
      s := Reached(a, b[1..]);
    }
  }

  /** The table's value is the greatest length of a common subsequence. */
  lemma LenIsMaximum(a: bytes, b: bytes)
    ensures exists s :: Common(s, a, b) && |s| == Len(a, b)
    ensures forall s :: Common(s, a, b) ==> |s| <= Len(a, b)
  {
    var _ := Reached(a, b);
    forall s | Common(s, a, b) ensures |s| <= Len(a, b) { NoLonger(s, a, b); }
  }

  lemma {:induction false} SubAppend(s: bytes, a: bytes, t: bytes, b: bytes)
    requires Sub(s, a) && Sub(t, b)
    ensures Sub(s + t, a + b)
    decreases |a|
  {
    if s == [] {
      assert s + t == t;
      SkipFront(t, a, b);
    } else {
      assert (a + b)[1..] == a[1..] + b;
      if s[0] == a[0] && Sub(s[1..], a[1..]) {
        SubAppend(s[1..], a[1..], t, b);
        assert (s + t)[1..] == s[1..] + t;
      } else {
        SubAppend(s, a[1..], t, b);
      }
    }
  }

  lemma {:induction false} SkipFront(t: bytes, a: bytes, b: bytes)
    requires Sub(t, b)
    ensures Sub(t, a + b)
    decreases |a|
  {
    if a == [] {
      assert a + b == b;
    } else {
      assert (a + b)[1..] == a[1..] + b;
      SkipFront(t, a[1..], b);
    }
  }

  lemma {:induction false} SubSelf(a: bytes)
    ensures Sub(a, a)
  {
    if a != [] { SubSelf(a[1..]); }
  }

  // ---------- matching blocks ----------

  /** Inclusive index ranges of a block common to both strings. */
  datatype Block = Block(aStart: nat, aEnd: nat, bStart: nat, bEnd: nat)

  function Size(m: Block): nat { if m.aEnd < m.aStart then 0 else m.aEnd - m.aStart + 1 }

  predicate IsBlock(m: Block, a: bytes, b: bytes)
  {
    && m.aStart <= m.aEnd < |a| && m.bStart <= m.bEnd < |b|
    && a[m.aStart..m.aEnd + 1] == b[m.bStart..m.bEnd + 1]
  }

  predicate Before(m: Block, i: nat, j: nat) { m.aEnd < i && m.bEnd < j }

  /** Common blocks in order, none overlapping, all before (i, j). */
  predicate InOrder(ms: seq<Block>, a: bytes, b: bytes, i: nat, j: nat)
  {
    ms != [] ==>
      var m := ms[|ms| - 1];
      IsBlock(m, a, b) && Before(m, i, j) && InOrder(ms[..|ms| - 1], a, b, m.aStart, m.bStart)
  }

  function Total(ms: seq<Block>): nat { if ms == [] then 0 else Total(ms[..|ms| - 1]) + Size(ms[|ms| - 1]) }

  function Long(ms: seq<Block>, minMatch: int): seq<Block>
  {
    if ms == [] then [] else
    Long(ms[..|ms| - 1], minMatch) + if Size(ms[|ms| - 1]) >= minMatch then [ms[|ms| - 1]] else []
  }

  /** What lcsString writes. */
  function Text(ms: seq<Block>, a: bytes): bytes
  {
    if ms == [] then [] else
    var m := ms[|ms| - 1];
    Text(ms[..|ms| - 1], a) + if m.aStart <= m.aEnd < |a| then a[m.aStart..m.aEnd + 1] else []
  }

  lemma {:induction false} TextIsCommon(ms: seq<Block>, a: bytes, b: bytes, i: nat, j: nat)
    requires i <= |a| && j <= |b| && InOrder(ms, a, b, i, j)
    ensures Common(Text(ms, a), a[..i], b[..j]) && |Text(ms, a)| == Total(ms)
  {
    hide Sub;
    Nothing(a[..i]);
    Nothing(b[..j]);
    if ms != [] {
      var m := ms[|ms| - 1];
      var block := a[m.aStart..m.aEnd + 1];
      var front := Text(ms[..|ms| - 1], a);
      TextIsCommon(ms[..|ms| - 1], a, b, m.aStart, m.bStart);
      BlockAfter(front, a, m.aStart, m.aEnd, i, block);
      BlockAfter(front, b, m.bStart, m.bEnd, j, block);
    }
  }

  lemma BlockAfter(s: bytes, a: bytes, start: nat, end: nat, i: nat, block: bytes)
    requires start <= end < i <= |a| && block == a[start..end + 1] && Sub(s, a[..start])
    ensures Sub(s + block, a[..i])
  {
    hide Sub;
    SubSelf(block);
    SubAppend(s, a[..start], block, block);
    assert a[..start] + block == a[..end + 1];
    AppendAny(s + block, a[..end + 1], a[end + 1..i]);
    assert a[..end + 1] + a[end + 1..i] == a[..i];
  }

  lemma Nothing(a: bytes)
    ensures Sub([], a)
  {}

  lemma AppendAny(s: bytes, a: bytes, c: bytes)
    requires Sub(s, a)
    ensures Sub(s, a + c)
  {
    Nothing(c);
    SubAppend(s, a, [], c);
    assert s + [] == s;
  }

  lemma {:induction false} Later(ms: seq<Block>, a: bytes, b: bytes, i: nat, j: nat, i': nat, j': nat)
    requires InOrder(ms, a, b, i, j) && i <= i' && j <= j'
    ensures InOrder(ms, a, b, i', j')
  {}

  predicate AllLong(ms: seq<Block>, minMatch: int) { forall x | 0 <= x < |ms| :: Size(ms[x]) >= minMatch }

  /** Leaving out short blocks keeps the rest in order; the total is the full length
      exactly when no block is short. */
  lemma {:induction false} LongBlocks(ms: seq<Block>, minMatch: int, a: bytes, b: bytes, i: nat, j: nat)
    requires InOrder(ms, a, b, i, j)
    ensures InOrder(Long(ms, minMatch), a, b, i, j) && Total(Long(ms, minMatch)) <= Total(ms)
    ensures Total(Long(ms, minMatch)) == Total(ms) <==> AllLong(ms, minMatch)
  {
    hide IsBlock, AllLong, Before, Size;
    NoneShort(minMatch);
    if ms != [] {
      var front, m := ms[..|ms| - 1], ms[|ms| - 1];
      LongBlocks(front, minMatch, a, b, m.aStart, m.bStart);
      LongOrder(Long(front, minMatch), m, minMatch, a, b, i, j);
      LongTotal(Long(front, minMatch), m, minMatch);
      SomeSize(m, a, b);
      AllButLast(front, m, minMatch);
      assert ms == front + [m];
    }
  }

  lemma NoneShort(minMatch: int)
    ensures AllLong([], minMatch)
  {}

  lemma SomeSize(m: Block, a: bytes, b: bytes)
    requires IsBlock(m, a, b)
    ensures Size(m) > 0
  {}

  lemma AllButLast(front: seq<Block>, m: Block, minMatch: int)
    ensures AllLong(front + [m], minMatch) <==> AllLong(front, minMatch) && Size(m) >= minMatch
  {
    var ms := front + [m];
    assert forall x | 0 <= x < |front| :: front[x] == ms[x];
    assert ms[|front|] == m;
  }

  lemma LongOrder(kept: seq<Block>, m: Block, minMatch: int, a: bytes, b: bytes, i: nat, j: nat)
    requires IsBlock(m, a, b) && Before(m, i, j) && InOrder(kept, a, b, m.aStart, m.bStart)
    ensures InOrder(kept + (if Size(m) >= minMatch then [m] else []), a, b, i, j)
  {
    assert (kept + [m])[..|kept|] == kept && kept + [] == kept;
    Later(kept, a, b, m.aStart, m.bStart, i, j);
  }

  lemma LongTotal(kept: seq<Block>, m: Block, minMatch: int)
    ensures Total(kept + (if Size(m) >= minMatch then [m] else [])) ==
            Total(kept) + if Size(m) >= minMatch then Size(m) else 0
  {
    AddTotal(kept, m);
    assert kept + [] == kept;
  }

  // ---------- the table ----------

  datatype Cell = Cell(l: nat, next: nat)

  ghost predicate CellOk(c: Cell, a: bytes, b: bytes)
  {
    && c.l == Len(a, b)
    && (a != [] && b != [] && a[0] != b[0] ==>
          (c.next == 1 <==> Len(a[1..], b) >= Len(a, b[1..])))
  }

  ghost predicate CellIs(c: Cell, a: bytes, b: bytes, i: nat, j: nat)
  {
    i <= |a| && j <= |b| && CellOk(c, a[i..], b[j..])
  }

  /** Rows after i are filled, and row i from column j on. */
  ghost predicate Filled(dp: array2<Cell>, a: bytes, b: bytes, i: nat, j: nat)
    reads dp
  {
    && dp.Length0 == |a| + 1 && dp.Length1 == |b| + 1
    && (forall x: nat, y: nat | i < x <= |a| && y <= |b| :: CellIs(dp[x, y], a, b, x, y))
    && (forall y: nat | j <= y <= |b| && i <= |a| :: CellIs(dp[i, y], a, b, i, y))
  }

  lemma Edge(a: bytes, b: bytes, i: nat, j: nat)
    requires i <= |a| && j <= |b| && (i == |a| || j == |b|)
    ensures CellIs(Cell(0, 0), a, b, i, j)
  {}

  method FillTable(a: bytes, b: bytes) returns (dp: array2<Cell>)
    ensures fresh(dp) && Filled(dp, a, b, 0, 0)
  {
    hide CellIs;
    dp := new Cell[|a| + 1, |b| + 1]((i, j) => Cell(0, 0));
    forall y: nat | y <= |b| ensures CellIs(Cell(0, 0), a, b, |a|, y) { Edge(a, b, |a|, y); }
    var i := |a|;
    while i > 0
      invariant 0 <= i <= |a| && Filled(dp, a, b, i, 0) && fresh(dp)
      invariant forall x | 0 <= x < i :: dp[x, |b|] == Cell(0, 0)
    {
      i := i - 1;
      Edge(a, b, i, |b|);
      FillRow(dp, a, b, i);
    }
  }

  method FillRow(dp: array2<Cell>, a: bytes, b: bytes, i: nat)
    requires i < |a| && Filled(dp, a, b, i, |b|)
    requires forall x | 0 <= x < i :: dp[x, |b|] == Cell(0, 0)
    modifies dp
    ensures Filled(dp, a, b, i, 0)
    ensures forall x | 0 <= x < i :: dp[x, |b|] == Cell(0, 0)
  {
    hide CellIs;
    var j := |b|;
    while j > 0
      invariant 0 <= j <= |b| && Filled(dp, a, b, i, j)
      invariant forall x | 0 <= x < i :: dp[x, |b|] == Cell(0, 0)
    {
      j := j - 1;
      var c;
      if a[i] == b[j] {
        c := Cell(dp[i + 1, j + 1].l + 1, 0);
      } else if dp[i + 1, j].l >= dp[i, j + 1].l {
        c := Cell(dp[i + 1, j].l, 1);
      } else {
        c := Cell(dp[i, j + 1].l, 2);
      }
      NextCell(a, b, i, j, dp[i + 1, j + 1], dp[i + 1, j], dp[i, j + 1], c);
      dp[i, j] := c;
    }
  }

  lemma NextCell(a: bytes, b: bytes, i: nat, j: nat, diag: Cell, down: Cell, right: Cell, c: Cell)
    requires i < |a| && j < |b|
    requires CellIs(diag, a, b, i + 1, j + 1) && CellIs(down, a, b, i + 1, j) && CellIs(right, a, b, i, j + 1)
    requires c == if a[i] == b[j] then Cell(diag.l + 1, 0) else if down.l >= right.l then Cell(down.l, 1) else Cell(right.l, 2)
    ensures CellIs(c, a, b, i, j)
  {
    assert a[i..][1..] == a[i + 1..] && b[j..][1..] == b[j + 1..];
  }

  // ---------- the walk ----------

  /** How far the strings agree from (i, j) on. */
  function Agree(a: bytes, b: bytes, i: nat, j: nat): (n: nat)
    ensures i <= |a| && j <= |b| ==> i + n <= |a| && j + n <= |b|
    decreases |a| - i
  {
    if i < |a| && j < |b| && a[i] == b[j] then 1 + Agree(a, b, i + 1, j + 1) else 0
  }

  /** Where the walk leaves a mismatch: towards the longer rest, down on a tie. */
  predicate Down(a: bytes, b: bytes, i: nat, j: nat)
    requires i < |a| && j < |b|
  {
    Len(a[i + 1..], b[j..]) >= Len(a[i..], b[j + 1..])
  }

  /** The blocks the walk meets from (i, j) on. */
  function Walk(a: bytes, b: bytes, i: nat, j: nat): seq<Block>
    requires i <= |a| && j <= |b|
    decreases |a| - i + |b| - j
  {
    if i == |a| || j == |b| then []
    else if a[i] == b[j] then
      var n := Agree(a, b, i, j);
      [Block(i, i + n - 1, j, j + n - 1)] + Walk(a, b, i + n, j + n)
    else if Down(a, b, i, j) then Walk(a, b, i + 1, j) else Walk(a, b, i, j + 1)
  }

  lemma CellAt(dp: array2<Cell>, a: bytes, b: bytes, i: nat, j: nat)
    requires Filled(dp, a, b, 0, 0) && i < |a| && j < |b| && a[i] != b[j]
    ensures dp[i, j].next == 1 <==> Down(a, b, i, j)
    ensures Len(a[i..], b[j..]) == if Down(a, b, i, j) then Len(a[i + 1..], b[j..]) else Len(a[i..], b[j + 1..])
  {
    assert CellIs(dp[i, j], a, b, i, j);
    assert a[i..][1..] == a[i + 1..] && b[j..][1..] == b[j + 1..];
  }

  lemma Diagonal(a: bytes, b: bytes, i: nat, j: nat)
    requires i < |a| && j < |b| && a[i] == b[j]
    ensures Len(a[i..], b[j..]) == 1 + Len(a[i + 1..], b[j + 1..])
  {
    assert a[i..][1..] == a[i + 1..] && b[j..][1..] == b[j + 1..];
  }

  /** The inner loop: as far as the strings agree. */
  method RunFrom(a: bytes, b: bytes, ai: nat, bj: nat) returns (i: nat, j: nat)
    requires ai < |a| && bj < |b| && a[ai] == b[bj]
    ensures ai < i <= |a| && bj < j <= |b| && i - ai == j - bj && a[ai..i] == b[bj..j]
    ensures Len(a[ai..], b[bj..]) == i - ai + Len(a[i..], b[j..]) && i - ai == Agree(a, b, ai, bj)
  {
    hide Len;
    i, j := ai, bj;
    while i < |a| && j < |b| && a[i] == b[j]
      invariant ai <= i <= |a| && bj <= j <= |b| && i - ai == j - bj && a[ai..i] == b[bj..j]
      invariant i == ai ==> j == bj
      invariant Agree(a, b, ai, bj) == i - ai + Agree(a, b, i, j)
      invariant Len(a[ai..], b[bj..]) == i - ai + Len(a[i..], b[j..])
    {
      Diagonal(a, b, i, j);
      assert a[ai..i + 1] == a[ai..i] + [a[i]] && b[bj..j + 1] == b[bj..j] + [b[j]];
      i, j := i + 1, j + 1;
    }
  }

  /** lcsCompute: common blocks in order with their total length. The walk's blocks reach
      the greatest length; blocks shorter than minMatch are left out of it, so the total is
      the greatest length exactly when the walk meets none. */
  method Compute(a: bytes, b: bytes, minMatch: int) returns (matches: seq<Block>, total: nat)
    ensures InOrder(Walk(a, b, 0, 0), a, b, |a|, |b|) && Total(Walk(a, b, 0, 0)) == Len(a, b)
    ensures matches == Long(Walk(a, b, 0, 0), minMatch) && total == Total(matches)
    ensures total == Len(a, b) <==> AllLong(Walk(a, b, 0, 0), minMatch)
    ensures minMatch <= 1 ==> total == Len(a, b)
  {
    hide Filled, Len, InOrder, Agree, Down, Walk, Long, Total;
    var dp := FillTable(a, b);
    ghost var runs: seq<Block> := [];
    matches, total := [], 0;
    assert runs + Walk(a, b, 0, 0) == Walk(a, b, 0, 0);
    NothingTotal(minMatch);
    var i, j := 0, 0;
    NoBlocks(a, b);
    while i < |a| && j < |b|
      invariant i <= |a| && j <= |b| && InOrder(runs, a, b, i, j) && Filled(dp, a, b, 0, 0)
      invariant matches == Long(runs, minMatch) && total == Total(matches)
      invariant Total(runs) + Len(a[i..], b[j..]) == Len(a, b)
      invariant runs + Walk(a, b, i, j) == Walk(a, b, 0, 0)
      decreases |a| - i + |b| - j
    {
      if a[i] == b[j] {
        var i', j' := RunFrom(a, b, i, j);
        var m := Block(i, i' - 1, j, j' - 1);
        AddBlock(runs, a, b, m, minMatch);
        AddTotal(matches, m);
        WalkBlock(runs, a, b, i, j);
        runs := runs + [m];
        if i' - i >= minMatch {
          matches := matches + [m];
          total := total + (i' - i);
        }
        i, j := i', j';
        continue;
      }
      CellAt(dp, a, b, i, j);
      WalkPast(a, b, i, j);
      InTable(dp, a, b);
      if dp[i, j].next == 1 {
        Later(runs, a, b, i, j, i + 1, j);
        i := i + 1;
      } else {
        Later(runs, a, b, i, j, i, j + 1);
        j := j + 1;
      }
    }
    AtEnd(a, b, i, j);
    assert runs == Walk(a, b, 0, 0);
    Later(runs, a, b, i, j, |a|, |b|);
    LongBlocks(runs, minMatch, a, b, |a|, |b|);
    if minMatch <= 1 { BlocksNonEmpty(runs, a, b, |a|, |b|); }
  }

  lemma NothingTotal(minMatch: int)
    ensures Total([]) == 0 && Long([], minMatch) == []
  {}

  lemma WalkBlock(runs: seq<Block>, a: bytes, b: bytes, i: nat, j: nat)
    requires i < |a| && j < |b| && a[i] == b[j]
    ensures var n := Agree(a, b, i, j);
            runs + Walk(a, b, i, j) == runs + [Block(i, i + n - 1, j, j + n - 1)] + Walk(a, b, i + n, j + n)
  {
    hide Agree;
  }

  lemma WalkPast(a: bytes, b: bytes, i: nat, j: nat)
    requires i < |a| && j < |b| && a[i] != b[j]
    ensures Walk(a, b, i, j) == if Down(a, b, i, j) then Walk(a, b, i + 1, j) else Walk(a, b, i, j + 1)
  {
    hide Down;
  }

  lemma InTable(dp: array2<Cell>, a: bytes, b: bytes)
    requires Filled(dp, a, b, 0, 0)
    ensures dp.Length0 == |a| + 1 && dp.Length1 == |b| + 1
  {}

  lemma NoBlocks(a: bytes, b: bytes)
    ensures InOrder([], a, b, 0, 0) && a[0..] == a && b[0..] == b
  {}

  lemma AtEnd(a: bytes, b: bytes, i: nat, j: nat)
    requires i <= |a| && j <= |b| && (i == |a| || j == |b|)
    ensures Len(a[i..], b[j..]) == 0 && Walk(a, b, i, j) == []
  {}

  lemma AddBlock(runs: seq<Block>, a: bytes, b: bytes, m: Block, minMatch: int)
    requires IsBlock(m, a, b) && InOrder(runs, a, b, m.aStart, m.bStart)
    ensures InOrder(runs + [m], a, b, m.aEnd + 1, m.bEnd + 1) && Total(runs + [m]) == Total(runs) + Size(m)
    ensures Long(runs + [m], minMatch) == Long(runs, minMatch) + (if Size(m) >= minMatch then [m] else [])
  {
    assert (runs + [m])[..|runs|] == runs;
  }

  lemma AddTotal(ms: seq<Block>, m: Block)
    ensures Total(ms + [m]) == Total(ms) + Size(m)
  {
    assert (ms + [m])[..|ms|] == ms;
  }

  lemma {:induction false} BlocksNonEmpty(ms: seq<Block>, a: bytes, b: bytes, i: nat, j: nat)
    requires InOrder(ms, a, b, i, j)
    ensures forall x | 0 <= x < |ms| :: Size(ms[x]) >= 1
  {
    if ms != [] {
      var m := ms[|ms| - 1];
      BlocksNonEmpty(ms[..|ms| - 1], a, b, m.aStart, m.bStart);
      assert forall x | 0 <= x < |ms| - 1 :: ms[x] == ms[..|ms| - 1][x];
    }
  }

  /** lcsString: the blocks spelled out are a common subsequence of that total length. */
  method Spell(a: bytes, b: bytes, matches: seq<Block>) returns (out: bytes)
    requires InOrder(matches, a, b, |a|, |b|)
    ensures Common(out, a, b) && |out| == Total(matches)
  {
    hide InOrder, Sub;
    BlocksInside(matches, a, b, |a|, |b|);
    out := [];
    for x := 0 to |matches|
      invariant out == Text(matches[..x], a)
    {
      assert matches[..x + 1][..x] == matches[..x];
      out := out + a[matches[x].aStart..matches[x].aEnd + 1];
    }
    assert matches[..|matches|] == matches;
    TextIsCommon(matches, a, b, |a|, |b|);
    assert a[..|a|] == a && b[..|b|] == b;
  }

  lemma {:induction false} BlocksInside(ms: seq<Block>, a: bytes, b: bytes, i: nat, j: nat)
    requires InOrder(ms, a, b, i, j)
    ensures forall x | 0 <= x < |ms| :: ms[x].aStart <= ms[x].aEnd < |a|
  {
    if ms != [] {
      var m := ms[|ms| - 1];
      BlocksInside(ms[..|ms| - 1], a, b, m.aStart, m.bStart);
      assert forall x | 0 <= x < |ms| - 1 :: ms[x] == ms[..|ms| - 1][x];
    }
  }

  /** LCS with the default minimum: a longest common subsequence. */
  method Longest(a: bytes, b: bytes, minMatch: int) returns (s: bytes, total: nat)
    requires minMatch <= 1
    ensures Common(s, a, b) && |s| == total
    ensures forall t :: Common(t, a, b) ==> |t| <= total
  {
    hide Sub, Len;
    var matches;
    matches, total := Compute(a, b, minMatch);
    LongBlocks(Walk(a, b, 0, 0), minMatch, a, b, |a|, |b|);
    s := Spell(a, b, matches);
    LenIsMaximum(a, b);
  }
}
