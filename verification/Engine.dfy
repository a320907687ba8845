/**
 The storage engine: an ordered map of byte strings with atomic batches, range deletes
 and ordered scans. `Sub(e, p)` is what the engine holds under a prefix. Writes of one
 user key are framed: they touch its record, its expiry-index entries and its elements,
 and nothing that belongs to another user key. Iterators have no choice: two ascending
 sequences of the same keys are equal.
 */
module Engine {
  import opened Bytes
  import opened Layout

  type Db = map<bytes, bytes>

  datatype Op = Put(k: bytes, v: bytes) | Del(k: bytes) | DelRange(lo: bytes, hi: Option<bytes>)

  function ApplyOp(e: Db, op: Op): Db
  {
    match op
    case Put(k, v) => e[k := v]
    case Del(k) => e - {k}
    case DelRange(lo, hi) => map k | k in e && !InRange(k, lo, hi) :: e[k]
  }

  /** A batch takes effect as a whole, its operations in order. */
  function Apply(e: Db, ops: seq<Op>): Db
  {
    if ops == [] then e else ApplyOp(Apply(e, ops[..|ops| - 1]), ops[|ops| - 1])
  }

  lemma ApplySnoc(e: Db, ops: seq<Op>, op: Op)
    ensures Apply(e, ops + [op]) == ApplyOp(Apply(e, ops), op)
  {
    assert (ops + [op])[..|ops|] == ops;
  }

  // ---------- what lies under a prefix ----------

  function Suffixes(e: Db, p: bytes): set<bytes>
  {
    set k | k in e && p <= k :: k[|p|..]
  }

  lemma InSuffixes(e: Db, p: bytes, x: bytes)
    ensures x in Suffixes(e, p) <==> p + x in e
  {
    if p + x in e { assert (p + x)[|p|..] == x; }
    if x in Suffixes(e, p) {
      var k :| k in e && p <= k && k[|p|..] == x;
      assert k == p + x;
    }
  }

  /** The engine's content under prefix `p`, with the prefix cut off. */
  function Sub(e: Db, p: bytes): (m: map<bytes, bytes>)
    ensures forall x :: x in m <==> p + x in e
    ensures forall x :: x in m ==> m[x] == e[p + x]
  {
    assert forall x :: x in Suffixes(e, p) ==> p + x in e by {
      forall x | x in Suffixes(e, p) ensures p + x in e { InSuffixes(e, p, x); }
    }
    assert forall x :: p + x in e ==> x in Suffixes(e, p) by {
      forall x | p + x in e ensures x in Suffixes(e, p) { InSuffixes(e, p, x); }
    }
    map x | x in Suffixes(e, p) :: e[p + x]
  }

  lemma SubPut(e: Db, p: bytes, x: bytes, v: bytes)
    ensures Sub(e[p + x := v], p) == Sub(e, p)[x := v]
  {
    forall y ensures p + y == p + x <==> y == x { assert (p + y)[|p|..] == y && (p + x)[|p|..] == x; }
  }

  lemma SubDel(e: Db, p: bytes, x: bytes)
    ensures Sub(e - {p + x}, p) == Sub(e, p) - {x}
  {
    forall y ensures p + y == p + x <==> y == x { assert (p + y)[|p|..] == y && (p + x)[|p|..] == x; }
  }

  lemma SubDelRange(e: Db, p: bytes)
    ensures Sub(ApplyOp(e, DelRange(p, Successor(p))), p) == map[]
    ensures forall k :: !(p <= k) ==> SameAt(ApplyOp(e, DelRange(p, Successor(p))), e, k)
  {
    forall k ensures InRange(k, p, Successor(p)) <==> p <= k { PrefixRange(p, k); }
  }

  // ---------- frames ----------

  predicate SameAt(e1: Db, e0: Db, k: bytes)
  {
    (k in e1 <==> k in e0) && (k in e1 && k in e0 ==> e1[k] == e0[k])
  }

  /** Engine keys that belong to one user key: its record, its expiry-index entries
      and its elements in the aggregate segments. */
  predicate Owned(k: bytes, o: Key)
  {
    || k == DataKey(o)
    || (|k| >= 11 && k[0] == SEG_EXPIRE && k[9..] == BE(o.db, 2) + o.name)
    || ElemPrefix(SEG_HASH, o) <= k
    || ElemPrefix(SEG_LIST, o) <= k
    || ElemPrefix(SEG_SET, o) <= k
    || ElemPrefix(SEG_ZSET_M, o) <= k
    || ElemPrefix(SEG_ZSET_S, o) <= k
  }

  ghost predicate OnlyTouches(e1: Db, e0: Db, o: Key)
  {
    forall k :: !Owned(k, o) ==> SameAt(e1, e0, k)
  }

  /** The elements of one user key, segment by segment. */
  datatype Elems = Elems(hash: map<bytes, bytes>, list: map<bytes, bytes>, members: map<bytes, bytes>,
                         scores: map<bytes, bytes>, byScore: map<bytes, bytes>)

  function ElemsOf(e: Db, k: Key): Elems
  {
    Elems(Sub(e, ElemPrefix(SEG_HASH, k)), Sub(e, ElemPrefix(SEG_LIST, k)), Sub(e, ElemPrefix(SEG_SET, k)),
          Sub(e, ElemPrefix(SEG_ZSET_M, k)), Sub(e, ElemPrefix(SEG_ZSET_S, k)))
  }

  const NO_ELEMS := Elems(map[], map[], map[], map[], map[])

  function With(el: Elems, seg: byte, m: map<bytes, bytes>): Elems
  {
    if seg == SEG_HASH then el.(hash := m)
    else if seg == SEG_LIST then el.(list := m)
    else if seg == SEG_SET then el.(members := m)
    else if seg == SEG_ZSET_M then el.(scores := m)
    else if seg == SEG_ZSET_S then el.(byScore := m)
    else el
  }

  predicate IsSeg(seg: byte)
  {
    seg in {SEG_HASH, SEG_LIST, SEG_SET, SEG_ZSET_M, SEG_ZSET_S}
  }

  lemma OwnedExpire(t: i64, o: Key)
    ensures Owned(ExpireKey(t, o), o)
  {
    ExpireParts(t, o);
  }

  lemma FirstByte(seg: byte, o: Key, k: bytes)
    requires ElemPrefix(seg, o) <= k
    ensures k != [] && k[0] == seg
  {
    assert k[0] == ElemPrefix(seg, o)[0];
  }

  /** Records and expiry entries of other user keys are never touched. */
  lemma NotOwnedRecord(o: Key, o': Key, t: i64)
    requires o != o'
    ensures !Owned(DataKey(o'), o)
    ensures !Owned(ExpireKey(t, o'), o)
  {
    TaggedParts(SEG_DATA, o');
    ExpireParts(t, o');
    if DataKey(o) == DataKey(o') { TaggedInjective(SEG_DATA, o, SEG_DATA, o'); }
    ExpireParts(t, o);
    if BE(o.db, 2) + o.name == BE(o'.db, 2) + o'.name { TailInjective(o, o'); }
    assert DataKey(o)[0] == SEG_DATA by { TaggedParts(SEG_DATA, o); }
    NoElemAt(o, DataKey(o'));
    NoElemAt(o, ExpireKey(t, o'));
  }

  lemma NoElemAt(o: Key, k: bytes)
    requires k != [] && !IsSeg(k[0])
    ensures forall seg: byte | IsSeg(seg) :: !(ElemPrefix(seg, o) <= k)
  {
    forall seg: byte | IsSeg(seg) ensures !(ElemPrefix(seg, o) <= k) {
      if ElemPrefix(seg, o) <= k { FirstByte(seg, o, k); }
    }
  }

  /** Elements of other NUL-free user keys are never touched. */
  lemma NotOwnedElem(o: Key, seg: byte, o': Key, x: bytes)
    requires o != o' && NulFree(o.name) && NulFree(o'.name) && IsSeg(seg)
    ensures !Owned(ElemPrefix(seg, o') + x, o)
  {
    var k := ElemPrefix(seg, o') + x;
    FirstByte(seg, o', k);
    TaggedParts(SEG_DATA, o);
    forall seg': byte | IsSeg(seg') ensures !(ElemPrefix(seg', o) <= k) {
      RangeIsCollection(seg', o, seg, o', x);
      PrefixRange(ElemPrefix(seg', o), k);
    }
  }

  lemma OtherKeysKept(e1: Db, e0: Db, o: Key, o': Key)
    requires OnlyTouches(e1, e0, o) && o != o'
    ensures SameAt(e1, e0, DataKey(o'))
    ensures forall t: i64 :: SameAt(e1, e0, ExpireKey(t, o'))
    ensures NulFree(o.name) && NulFree(o'.name) ==> ElemsOf(e1, o') == ElemsOf(e0, o')
  {
    forall t: i64 ensures SameAt(e1, e0, ExpireKey(t, o')) { NotOwnedRecord(o, o', t); }
    NotOwnedRecord(o, o', 0);
    if NulFree(o.name) && NulFree(o'.name) {
      OtherElemsKept(e1, e0, o, SEG_HASH, o');
      OtherElemsKept(e1, e0, o, SEG_LIST, o');
      OtherElemsKept(e1, e0, o, SEG_SET, o');
      OtherElemsKept(e1, e0, o, SEG_ZSET_M, o');
      OtherElemsKept(e1, e0, o, SEG_ZSET_S, o');
    }
  }

  lemma OtherElemsKept(e1: Db, e0: Db, o: Key, seg: byte, o': Key)
    requires OnlyTouches(e1, e0, o) && o != o' && NulFree(o.name) && NulFree(o'.name) && IsSeg(seg)
    ensures Sub(e1, ElemPrefix(seg, o')) == Sub(e0, ElemPrefix(seg, o'))
  {
    forall x ensures SameAt(e1, e0, ElemPrefix(seg, o') + x) { NotOwnedElem(o, seg, o', x); }
  }

  /** Other segments of the same key see nothing of a write under one prefix. */
  lemma SubOtherSegment(e1: Db, e0: Db, p: bytes, q: bytes)
    requires p != [] && q != [] && p[0] != q[0]
    requires forall k :: !(p <= k) ==> SameAt(e1, e0, k)
    ensures Sub(e1, q) == Sub(e0, q)
  {
    forall x ensures SameAt(e1, e0, q + x) {
      assert (q + x)[0] == q[0];
    }
  }

  // ---------- ordered scans ----------

  ghost predicate Ascending(ks: seq<bytes>)
  {
    forall i, j | 0 <= i < j < |ks| :: Less(ks[i], ks[j])
  }

  /** `ks` is what an iterator bounded by [lo, hi) visits. */
  ghost predicate IsScan(e: Db, lo: bytes, hi: Option<bytes>, ks: seq<bytes>)
  {
    && Ascending(ks)
    && (forall k :: k in ks <==> k in e && InRange(k, lo, hi))
  }

  method Least(s: set<bytes>) returns (m: bytes)
    requires s != {}
    ensures m in s && forall k :: k in s && k != m ==> Less(m, k)
  {
    m :| m in s;
    var rest := s - {m};
    while rest != {}
      invariant rest <= s && m in s && m !in rest
      invariant forall k :: k in s - rest && k != m ==> Less(m, k)
    {
      var x :| x in rest;
      rest := rest - {x};
      LessTotal(m, x);
      if Less(x, m) {
        forall k | k in s - rest && k != x ensures Less(x, k) {
          if k != m { LessTransitive(x, m, k); }
        }
        m := x;
      }
    }
  }

  method ScanRange(e: Db, lo: bytes, hi: Option<bytes>) returns (ks: seq<bytes>)
    ensures IsScan(e, lo, hi, ks)
  {
    ks := [];
    var todo := set k | k in e && InRange(k, lo, hi);
    ghost var all := todo;
    while todo != {}
      invariant todo <= all
      invariant Ascending(ks)
      invariant forall k :: k in ks <==> k in all - todo
      invariant forall k, k' | k in ks && k' in todo :: Less(k, k')
    {
      var m := Least(todo);
      assert forall k :: k in ks + [m] <==> k in ks || k == m;
      forall k, k' | k in ks + [m] && k' in todo - {m} ensures Less(k, k') {}
      ks := ks + [m];
      todo := todo - {m};
    }
  }

  /** An iterator has no choice: two ascending sequences of the same keys are equal. */
  lemma {:induction false} ScanUnique(a: seq<bytes>, b: seq<bytes>)
    requires Ascending(a) && Ascending(b)
    requires forall k :: k in a <==> k in b
    ensures a == b
    decreases |a|
  {
    var x := if b != [] then b[0] else [];
    assert x in a <==> x in b;
    if a != [] {
      assert a[0] in b && b != [] && b[0] in a;
      AscendingHead(a, b[0]);
      AscendingHead(b, a[0]);
      if a[0] != b[0] { LessAsymmetric(a[0], b[0]); }
      TailMembers(a);
      TailMembers(b);
      ScanUnique(a[1..], b[1..]);
      assert a == [a[0]] + a[1..] && b == [b[0]] + b[1..];
    }
  }

  lemma TailMembers(a: seq<bytes>)
    requires Ascending(a) && a != []
    ensures forall k :: k in a[1..] <==> k in a && k != a[0]
  {
    LessIrreflexive(a[0]);
    assert a == [a[0]] + a[1..];
    assert forall i | 1 <= i < |a| :: Less(a[0], a[i]);
    assert a[0] !in a[1..];
  }

  lemma AscendingHead(a: seq<bytes>, x: bytes)
    requires Ascending(a) && x in a
    ensures a[0] == x || Less(a[0], x)
  {}

  lemma BelowLast(ks: seq<bytes>, x: bytes, y: bytes)
    requires Ascending(ks + [y]) && x in ks
    ensures Less(x, y)
  {
    var i :| 0 <= i < |ks| && ks[i] == x;
    assert (ks + [y])[i] == x && (ks + [y])[|ks|] == y;
  }
}
