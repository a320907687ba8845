/** What glob patterns mean, piece by piece. */
module Patterns {
  /*
   Pieces of a pattern as data, the bytes a client writes for them, and the strings they
   stand for. The matcher accepts a written pattern exactly for those strings.
   */
  import opened Bytes
  import opened Glob

  /** A byte or a range in a class. The lower byte may be written behind a backslash. */
  datatype Item = Item(lo: byte, hi: byte, escaped: bool, range: bool)

  /** Any byte, one byte, a class (negated by a caret or a bang), or any bytes. */
  datatype Piece =
    | Any
    | One(c: byte, escaped: bool)
    | Class(negated: bool, bang: bool, items: seq<Item>)
    | Gap

  // ---------- what they stand for ----------

  predicate Within(items: seq<Item>, c: byte) { exists i :: 0 <= i < |items| && items[i].lo <= c <= items[i].hi }

  predicate Denotes(p: Piece, c: byte)
  {
    match p
    case Any => true
    case One(b, _) => b == c
    case Class(negated, _, items) => Within(items, c) != negated
    case Gap => false
  }

  /** The string is one byte per piece, with any bytes for a gap. */
  predicate Spells(ps: seq<Piece>, str: bytes)
    decreases |ps|, |str|
  {
    if ps == [] then str == []
    else if ps[0].Gap? then Spells(ps[1..], str) || (str != [] && Spells(ps, str[1..]))
    else str != [] && Denotes(ps[0], str[0]) && Spells(ps[1..], str[1..])
  }

  // ---------- how they are written ----------

  function Escape(c: byte, escaped: bool): bytes { if escaped then ['\\' as int, c] else [c] }

  function WriteItem(x: Item): bytes { Escape(x.lo, x.escaped) + if x.range then ['-' as int, x.hi] else [] }

  function WriteItems(xs: seq<Item>): bytes { if xs == [] then [] else WriteItem(xs[0]) + WriteItems(xs[1..]) }

  function Sign(p: Piece): bytes
    requires p.Class?
  {
    if !p.negated then [] else if p.bang then ['!' as int] else ['^' as int]
  }

  function WritePiece(p: Piece): bytes
  {
    match p
    case Any => ['?' as int]
    case One(c, escaped) => Escape(c, escaped)
    case Class(_, _, items) => ['[' as int] + Sign(p) + WriteItems(items) + [']' as int]
    case Gap => ['*' as int]
  }

  function Write(ps: seq<Piece>): bytes { if ps == [] then [] else WritePiece(ps[0]) + Write(ps[1..]) }

  /** A byte that stands for itself in a class; others need a backslash. */
  predicate PlainInClass(c: byte) { c != '\\' as int && c != ']' as int && c != '-' as int }

  predicate ItemOk(x: Item)
  {
    && x.lo != '*' as int && x.hi != '*' as int && (x.escaped || PlainInClass(x.lo))
    && (if x.range then x.hi != ']' as int else x.hi == x.lo)
  }

  predicate PieceOk(p: Piece)
  {
    match p
    case One(c, escaped) => c != '*' as int && (escaped || (c != '?' as int && c != '[' as int && c != '\\' as int))
    case Class(negated, _, items) =>
      && (forall i | 0 <= i < |items| :: ItemOk(items[i]))
      && (!negated && items != [] && !items[0].escaped ==> items[0].lo != '^' as int && items[0].lo != '!' as int)
    case _ => true
  }

  predicate AllOk(ps: seq<Piece>) { forall i | 0 <= i < |ps| :: PieceOk(ps[i]) }

  // ---------- reading a class ----------

  function SpansOf(xs: seq<Item>): (r: seq<Span>)
    ensures |r| == |xs|
  {
    seq(|xs|, i requires 0 <= i < |xs| => Span(xs[i].lo, xs[i].hi))
  }

  lemma WithinIs(xs: seq<Item>, c: byte)
    ensures Within(xs, c) <==> InSpans(SpansOf(xs), c)
  {
    var ss := SpansOf(xs);
    if i :| 0 <= i < |xs| && xs[i].lo <= c <= xs[i].hi { assert ss[i].lo <= c <= ss[i].hi; }
    if i :| 0 <= i < |ss| && ss[i].lo <= c <= ss[i].hi { assert xs[i].lo <= c <= xs[i].hi; }
  }

  /** What follows an item does not begin with a dash. */
  lemma NoDash(xs: seq<Item>)
    requires forall i | 0 <= i < |xs| :: ItemOk(xs[i])
    ensures (WriteItems(xs) + [']' as int])[0] != '-' as int
  {}

  /** q has t at j. */
  predicate At(q: bytes, j: nat, t: bytes) { j + |t| <= |q| && q[j..j + |t|] == t }

  lemma AtSplit(q: bytes, j: nat, a: bytes, b: bytes)
    ensures At(q, j, a + b) <==> At(q, j, a) && At(q, j + |a|, b)
  {
    var t := a + b;
    if At(q, j, t) {
      assert q[j..j + |a|] == t[..|a|] == a;
      assert q[j + |a|..j + |t|] == t[|a|..] == b;
    }
    if At(q, j, a) && At(q, j + |a|, b) {
      assert q[j..j + |t|] == q[j..j + |a|] + q[j + |a|..j + |t|];
    }
  }

  lemma AtIndex(q: bytes, j: nat, t: bytes, i: nat)
    requires At(q, j, t) && i < |t|
    ensures q[j + i] == t[i]
  {
    assert q[j..j + |t|][i] == t[i];
  }

  lemma ReadItem(q: bytes, j: nat, x: Item)
    requires ItemOk(x) && At(q, j, WriteItem(x)) && j + |WriteItem(x)| < |q|
    requires !x.range ==> q[j + |WriteItem(x)|] != '-' as int
    ensures q[j] != CLOSE && OneSpan(q, j) == (Span(x.lo, x.hi), j + |WriteItem(x)|)
  {
    var t := WriteItem(x);
    AtIndex(q, j, t, 0);
    if x.escaped { AtIndex(q, j, t, 1); }
    if x.range {
      AtIndex(q, j, t, |t| - 2);
      AtIndex(q, j, t, |t| - 1);
    }
  }

  lemma {:induction false} ReadItems(q: bytes, j: nat, xs: seq<Item>)
    requires (forall i | 0 <= i < |xs| :: ItemOk(xs[i])) && At(q, j, WriteItems(xs) + [']' as int])
    ensures j <= |q| && ReadSpans(q, j) == Spans(SpansOf(xs), j + |WriteItems(xs)|)
    decreases |xs|
  {
    hide OneSpan, ItemOk, At;
    if xs == [] {
      ClosedHere(q, j);
    } else {
      var t, rest := WriteItem(xs[0]), WriteItems(xs[1..]) + [']' as int];
      assert WriteItems(xs) + [']' as int] == t + rest;
      AtSplit(q, j, t, rest);
      NoDash(xs[1..]);
      RestAt(q, j, t, rest);
      ReadItem(q, j, xs[0]);
      ReadItems(q, j + |t|, xs[1..]);
      assert SpansOf(xs) == [Span(xs[0].lo, xs[0].hi)] + SpansOf(xs[1..]);
    }
  }

  lemma ClosedHere(q: bytes, j: nat)
    requires At(q, j, WriteItems([]) + [']' as int])
    ensures j < |q| && q[j] == CLOSE
  {
    AtIndex(q, j, WriteItems([]) + [']' as int], 0);
  }

  lemma RestAt(q: bytes, j: nat, t: bytes, rest: bytes)
    requires At(q, j + |t|, rest) && rest != []
    ensures j + |t| < |q| && q[j + |t|] == rest[0]
  {
    AtIndex(q, j + |t|, rest, 0);
  }

  // ---------- reading a piece ----------

  /** A written piece is read as one token that takes exactly its bytes and covers no star. */
  predicate ReadAs(q: bytes, k: nat, p: Piece)
  {
    && k < |q| && q[k] != STAR && TokenEnd(q, k) == k + |WritePiece(p)| <= |q|
    && NoStarIn(q, k, TokenEnd(q, k)) && forall c: byte :: Accepts(q, k, c) <==> Denotes(p, c)
  }

  lemma ReadSimple(q: bytes, k: nat, p: Piece)
    requires (p.Any? || p.One?) && PieceOk(p) && At(q, k, WritePiece(p))
    ensures ReadAs(q, k, p)
  {
    var t := WritePiece(p);
    AtIndex(q, k, t, 0);
    if |t| > 1 { AtIndex(q, k, t, 1); }
  }

  lemma {:induction false} NoStarWritten(xs: seq<Item>)
    requires forall i | 0 <= i < |xs| :: ItemOk(xs[i])
    ensures STAR !in WriteItems(xs)
  {
    if xs != [] { NoStarWritten(xs[1..]); }
  }

  lemma ReadClass(q: bytes, k: nat, p: Piece)
    requires p.Class? && PieceOk(p) && At(q, k, WritePiece(p))
    ensures ReadAs(q, k, p)
  {
    hide At, ReadSpans, ItemOk, InSpans, Within, SpansOf, WriteItems, OneSpan;
    var body := WriteItems(p.items) + [']' as int];
    assert WritePiece(p) == ['[' as int] + (Sign(p) + body);
    AtSplit(q, k, ['[' as int], Sign(p) + body);
    AtSplit(q, k + 1, Sign(p), body);
    var j := k + 1 + |Sign(p)|;
    ReadItems(q, j, p.items);
    OpensAt(q, k, p, body);
    NoStarWritten(p.items);
    assert STAR !in WritePiece(p);
    Starless(q, k, WritePiece(p));
    assert ClassBody(q, k) == ReadSpans(q, j);
    assert TokenEnd(q, k) == k + |WritePiece(p)|;
    forall c: byte ensures Accepts(q, k, c) <==> Denotes(p, c) { WithinIs(p.items, c); }
  }

  lemma Starless(q: bytes, k: nat, t: bytes)
    requires At(q, k, t) && STAR !in t
    ensures NoStarIn(q, k, k + |t|) && k + |t| <= |q|
  {
    forall j | k <= j < k + |t| && j < |q| ensures q[j] != STAR { AtIndex(q, k, t, j - k); }
  }

  /** The opening bracket, and a sign exactly when the class is negated. */
  lemma OpensAt(q: bytes, k: nat, p: Piece, body: bytes)
    requires p.Class? && PieceOk(p) && body == WriteItems(p.items) + [']' as int]
    requires At(q, k, ['[' as int]) && At(q, k + 1, Sign(p)) && At(q, k + 1 + |Sign(p)|, body)
    ensures k + 1 < |q| && q[k] == OPEN && (Negated(q, k) <==> p.negated)
  {
    AtIndex(q, k, ['[' as int], 0);
    AtIndex(q, k + 1 + |Sign(p)|, body, 0);
    if p.negated { AtIndex(q, k + 1, Sign(p), 0); } else { FirstWritten(p.items); }
  }

  lemma FirstWritten(xs: seq<Item>)
    ensures (WriteItems(xs) + [']' as int])[0] ==
            if xs == [] then ']' as int else if xs[0].escaped then '\\' as int else xs[0].lo
  {}

  lemma ReadPiece(q: bytes, k: nat, p: Piece)
    requires !p.Gap? && PieceOk(p) && At(q, k, WritePiece(p))
    ensures ReadAs(q, k, p)
  {
    if p.Class? { ReadClass(q, k, p); } else { ReadSimple(q, k, p); }
  }

  // ---------- the pattern ----------

  lemma WriteCons(ps: seq<Piece>, q: bytes, k: nat)
    requires ps != [] && At(q, k, Write(ps))
    ensures At(q, k, WritePiece(ps[0])) && At(q, k + |WritePiece(ps[0])|, Write(ps[1..]))
  {
    hide WritePiece;
    AtSplit(q, k, WritePiece(ps[0]), Write(ps[1..]));
  }

  lemma GapAt(q: bytes, k: nat)
    requires At(q, k, WritePiece(Gap))
    ensures k < |q| && q[k] == STAR && |WritePiece(Gap)| == 1
  {
    AtIndex(q, k, WritePiece(Gap), 0);
  }

  lemma {:induction false} WrittenPlain(ps: seq<Piece>, q: bytes, k: nat)
    requires AllOk(ps) && At(q, k, Write(ps)) && k + |Write(ps)| == |q|
    ensures PlainStars(q, k)
    decreases |ps|
  {
    hide At, WritePiece, PieceOk, TokenEnd, Accepts, Denotes;
    if ps != [] {
      WriteCons(ps, q, k);
      if ps[0].Gap? { GapAt(q, k); } else { ReadPiece(q, k, ps[0]); }
      WrittenPlain(ps[1..], q, k + |WritePiece(ps[0])|);
    }
  }

  /** Read from left to right, a written pattern means the strings its pieces spell. */
  lemma {:induction false} WrittenMeant(ps: seq<Piece>, q: bytes, k: nat, str: bytes, i: nat)
    requires AllOk(ps) && At(q, k, Write(ps)) && k + |Write(ps)| == |q| && i <= |str|
    ensures Meant(q, k, str, i) <==> Spells(ps, str[i..])
    decreases |ps|, |str| - i
  {
    hide At, WritePiece, PieceOk, TokenEnd, Accepts, Denotes;
    if ps != [] {
      WriteCons(ps, q, k);
      var rest := ps[1..];
      if i < |str| { assert str[i..][0] == str[i] && str[i..][1..] == str[i + 1..]; }
      if ps[0].Gap? {
        GapAt(q, k);
        WrittenMeant(rest, q, k + 1, str, i);
        if i < |str| { WrittenMeant(ps, q, k, str, i + 1); }
      } else {
        ReadPiece(q, k, ps[0]);
        if i < |str| { WrittenMeant(rest, q, k + |WritePiece(ps[0])|, str, i + 1); }
      }
    }
  }

  function Gaps(ps: seq<Piece>): nat { if ps == [] then 0 else Gaps(ps[1..]) + if ps[0].Gap? then 1 else 0 }

  lemma {:induction false} WrittenStars(ps: seq<Piece>)
    requires AllOk(ps)
    ensures CountStars(Write(ps)) == Gaps(ps)
  {
    hide WritePiece, PieceOk;
    if ps != [] {
      WrittenStars(ps[1..]);
      CountAppend(WritePiece(ps[0]), Write(ps[1..]));
      PieceStars(ps[0]);
    }
  }

  lemma PieceStars(p: Piece)
    requires PieceOk(p)
    ensures CountStars(WritePiece(p)) == if p.Gap? then 1 else 0
  {
    if p.Gap? {
      assert WritePiece(p)[1..] == [];
    } else {
      if p.Class? { NoStarWritten(p.items); }
      NoStars(WritePiece(p));
    }
  }

  /** The matcher on any written pattern: at most a hundred gaps, and the string is one byte
      of each piece in order with any bytes for the gaps. */
  lemma AcceptsSpelled(ps: seq<Piece>, str: bytes)
    requires AllOk(ps)
    ensures Accepted(Write(ps), str) <==> Gaps(ps) <= 100 && Spells(ps, str)
  {
    hide WritePiece, PieceOk, Matches, Meant, Spells, PlainStars, CountStars;
    var q := Write(ps);
    assert At(q, 0, q);
    WrittenStars(ps);
    WrittenPlain(ps, q, 0);
    WrittenMeant(ps, q, 0, str, 0);
    assert str[0..] == str;
    PlainMeant(q, str);
  }

  /** For example h?llo and hello, and a negated class. */
  lemma HelloMatches()
    ensures Accepted(['h' as int, '?' as int, 'l' as int, 'l' as int, 'o' as int],
                     ['h' as int, 'e' as int, 'l' as int, 'l' as int, 'o' as int])
  {
    hide Accepted;
    var h, l, o := One('h' as int, false), One('l' as int, false), One('o' as int, false);
    var hello := ['h' as int, 'e' as int, 'l' as int, 'l' as int, 'o' as int];
    assert Write([o]) == ['o' as int] + Write([]);
    assert [l, o][1..] == [o] && [l, l, o][1..] == [l, o];
    assert Write([l, l, o]) == ['l' as int, 'l' as int, 'o' as int];
    assert [Any, l, l, o][1..] == [l, l, o] && [h, Any, l, l, o][1..] == [Any, l, l, o];
    assert Write([h, Any, l, l, o]) == ['h' as int, '?' as int, 'l' as int, 'l' as int, 'o' as int];
    assert [o][1..] == [] && Spells([], []) && Spells([o], hello[4..]);
    assert hello[3..][1..] == hello[4..] && Spells([l, o], hello[3..]);
    assert hello[2..][1..] == hello[3..] && Spells([l, l, o], hello[2..]);
    assert hello[1..][1..] == hello[2..] && Spells([Any, l, l, o], hello[1..]);
    assert Spells([h, Any, l, l, o], hello);
    assert Gaps([h, Any, l, l, o]) == Gaps([Any, l, l, o]) == Gaps([l, l, o]) == Gaps([l, o]) == Gaps([o]) == 0;
    AcceptsSpelled([h, Any, l, l, o], hello);
  }
}
