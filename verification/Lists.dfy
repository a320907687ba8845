/**
 List commands over both stored forms, against plain sequences. A sparse list keeps its
 elements under consecutive numbers; pushes and pops at an end write only that end. Right
 pushes, pops, replacements and trims keep the numbers one interval of non-negative
 integers, so the scan reads the plain sequence; left pushes may take the numbers below
 zero, and then the scan reads a rotation.
 */
module Lists {
  import opened Bytes
  import opened Scores
  import opened Layout
  import opened Codec
  import opened Sequences
  import opened Engine
  import opened Records
  import opened DataPath
  import opened Collections
  import opened Aggregates
  import opened Hashes

  /** The loaded view of a list. */
  datatype ListView = ListView(present: bool, sparse: bool, xs: seq<bytes>, seqs: seq<i64>, head: i64, tail: i64)

  datatype ListResult = Got(a: ListView) | NotAList

  // ---------- plain semantics ----------

  function ListIn(st: State): Option<seq<bytes>>
  {
    match st
    case Absent => Some([])
    case Lst(xs, _) => Some(xs)
    case _ => None
  }

  function TopOf(st: State): nat { if st.Lst? then st.top else 0 }

  function Reverse(xs: seq<bytes>): (r: seq<bytes>)
    ensures |r| == |xs|
  {
    if xs == [] then [] else Reverse(xs[1..]) + [xs[0]]
  }

  lemma {:induction false} ReverseSnoc(xs: seq<bytes>, v: bytes)
    ensures Reverse(xs + [v]) == [v] + Reverse(xs)
  {
    if xs != [] {
      assert (xs + [v])[1..] == xs[1..] + [v];
      ReverseSnoc(xs[1..], v);
    }
  }

  /** Redis' inclusive index pair, counting from the end when negative, clamped. */
  function Clamp(n: nat, start: int, stop: int): (r: (nat, nat))
    ensures r.0 <= r.1 <= n
  {
    var a := if start < 0 then start + n else start;
    var b := if stop < 0 then stop + n else stop;
    var lo := if a < 0 then 0 else a;
    var hi := if b >= n then n - 1 else b;
    if lo > hi || lo >= n || n == 0 then (0, 0) else (lo, hi + 1)
  }

  /** An index is kept exactly when it lies between the two ends after negative ones are
      counted from the end. */
  lemma ClampExactly(n: nat, start: int, stop: int, i: nat)
    requires i < n
    ensures Clamp(n, start, stop).0 <= i < Clamp(n, start, stop).1 <==>
              (if start < 0 then start + n else start) <= i <= (if stop < 0 then stop + n else stop)
  {}

  function Slice(xs: seq<bytes>, start: int, stop: int): seq<bytes>
  {
    var (lo, hi) := Clamp(|xs|, start, stop);
    xs[lo..hi]
  }

  /** Where an index counted from the front, or from the end when negative, falls. */
  function Place(n: nat, i: int): int { if i < 0 then i + n else i }

  /** The slice holds exactly the elements between the two ends, in order. */
  lemma SliceExactly(xs: seq<bytes>, start: int, stop: int)
    ensures var a, b := Place(|xs|, start), Place(|xs|, stop);
            var lo, hi := if a < 0 then 0 else a, if b >= |xs| then |xs| - 1 else b;
            && |Slice(xs, start, stop)| == (if lo <= hi then hi - lo + 1 else 0)
            && forall i | lo <= i <= hi :: Slice(xs, start, stop)[i - lo] == xs[i]
  {}

  /** Reversing: the i-th element from the front becomes the i-th from the end. */
  lemma {:induction false} ReverseAt(xs: seq<bytes>, i: nat)
    requires i < |xs|
    ensures Reverse(xs)[i] == xs[|xs| - 1 - i]
  {
    if i < |xs| - 1 { ReverseAt(xs[1..], i); }
  }

  // ---------- loading ----------

  /** The numbers an iterator meets. */
  function Numbers(head: int, n: nat): (r: seq<i64>)
    requires Span(head, n)
    ensures |r| == n && forall i | 0 <= i < n :: r[i] == Nth(head, n, i)
  {
    seq(n, i requires 0 <= i < n => NthRange(head, n, i); Nth(head, n, i))
  }

  lemma ReadSeq(p: bytes, n: i64)
    ensures |p + SeqBytes(n)| == |p| + 8 && FromBE((p + SeqBytes(n))[|p|..]) == TwosComplement(n)
    ensures FromTwosComplement(TwosComplement(n)) == n
  {
    assert (p + SeqBytes(n))[|p|..] == SeqBytes(n);
    BE64(TwosComplement(n));
  }

  lemma VisitedAt(e: Db, p: bytes, head: int, xs: seq<bytes>, i: nat)
    requires Span(head, |xs|) && Sub(e, p) == SeqMap(head, xs) && i < |xs|
    ensures |Rotated(head, xs)| == |xs| && |Visited(p, head, |xs|)| == |xs|
    ensures var key := Visited(p, head, |xs|)[i];
            && key in e && e[key] == Rotated(head, xs)[i]
            && |key| == |p| + 8
            && FromBE(key[|p|..]) < U64 && FromTwosComplement(FromBE(key[|p|..])) == Numbers(head, |xs|)[i]
  {
    hide SeqBytes, SeqMap, Nth, Rotated, FromBE, TwosComplement, FromTwosComplement;
    NthRange(head, |xs|, i);
    NthReads(head, xs, i);
    var n := Nth(head, |xs|, i);
    SeqMapAt(head, xs, n);
    assert SeqBytes(n) in Sub(e, p);
    ReadSeq(p, n);
  }

  /** scanList: the elements come back in key order, which is the stored order unless the
      numbers straddle zero. */
  method ScanList(e: Db, k: Key, ghost head: int, ghost xs: seq<bytes>) returns (elems: seq<bytes>, seqs: seq<i64>)
    requires Span(head, |xs|) && ElemsOf(e, k).list == SeqMap(head, xs)
    ensures elems == Rotated(head, xs) && seqs == Numbers(head, |xs|)
  {
    hide SeqMap, Rotated, Sub, IsScan, FromBE, ElemPrefix, Numbers, Visited, FromTwosComplement;
    var p := ElemPrefix(SEG_LIST, k);
    var ks := ScanRange(e, p, Successor(p));
    ScanVisits(e, p, head, xs, ks);
    elems, seqs := [], [];
    assert |ks| == |xs| == |Rotated(head, xs)| == |Numbers(head, |xs|)| by { Lengths(p, head, xs); }
    for i := 0 to |ks|
      invariant elems == Rotated(head, xs)[..i] && seqs == Numbers(head, |xs|)[..i]
    {
      VisitedAt(e, p, head, xs, i);
      seqs := seqs + [FromTwosComplement(FromBE(ks[i][|p|..]))];
      elems := elems + [e[ks[i]]];
    }
  }

  lemma Lengths(p: bytes, head: int, xs: seq<bytes>)
    requires Span(head, |xs|)
    ensures |Visited(p, head, |xs|)| == |xs| == |Rotated(head, xs)|
  {}

  /** A view agrees with what is stored under k. */
  ghost predicate Agrees(e: Db, k: Key, a: ListView, top: nat)
  {
    && StoredExpiry(e, k) == 0 && top <= I63
    && (a.sparse ==>
          && 0 <= a.head && a.tail == a.head + |a.xs| - 1 && a.tail < top
          && a.seqs == Numbers(a.head, |a.xs|)
          && ElemsOf(e, k) == NO_ELEMS.(list := SeqMap(a.head, a.xs)))
    && (!a.sparse ==> |a.xs| <= top && ElemsOf(e, k) == NO_ELEMS)
  }

  lemma AgreesLoaded(e: Db, k: Key, r: Record, xs: seq<bytes>, top: nat, a: ListView)
    requires RecAt(e, k) == Some(r) && r.exp == 0 && ListShape(r.payload, xs, top, ElemsOf(e, k)) && a.xs == xs
    requires var obj := DecodeObjectHeader(r.payload).value;
             && a.sparse == obj.Sparse?
             && (a.sparse ==> a.head == obj.head && a.tail == obj.tail && a.seqs == Numbers(a.head, |xs|))
    ensures Agrees(e, k, a, top)
  {
    hide ElemsOf, SeqMap, Numbers, RecAt, DecodeObjectHeader, ParseList;
  }

  /** The first number of a list stored sparse. */
  function StartOf(e: Db, now: i64, k: Key): Option<i64>
  {
    var live := Live(e, now, k);
    if live.Some? && IsSparse(live.value.payload) then Some(DecodeObjectHeader(live.value.payload).value.head) else None
  }

  /** Element keys and header of a sparse list whose numbers start anywhere. */
  ghost predicate StoredFrom(e: Db, now: i64, k: Key, head: int, ys: seq<bytes>)
  {
    && Span(head, |ys|) && Live(e, now, k).Some?
    && Live(e, now, k).value.typ == TYPE_LIST && Live(e, now, k).value.exp == 0
    && (var obj := DecodeObjectHeader(Live(e, now, k).value.payload);
        obj.Some? && obj.value.Sparse? && obj.value.count == |ys| % U32
        && obj.value.head == head && obj.value.tail == head + |ys| - 1)
    && ElemsOf(e, k) == NO_ELEMS.(list := SeqMap(head, ys))
  }

  /** A key holds a plain state, or a list pushed under negative numbers from head on. */
  ghost predicate Kept(e: Db, now: i64, k: Key, head: int, st: State)
  {
    if head < 0 then st.Lst? && StoredFrom(e, now, k, head, st.xs) else Holds(e, now, k, st)
  }

  /** A loaded view of a list: its numbers and elements, the part under negative numbers
      read last. */
  ghost predicate Viewed(e: Db, k: Key, a: ListView, head: int, xs: seq<bytes>, top: nat)
  {
    && |a.xs| == |xs| && (head >= 0 ==> a.xs == xs && Agrees(e, k, a, top))
    && (head < 0 ==>
          && Span(head, |xs|) && StoredExpiry(e, k) == 0 && a.sparse && a.head == head && a.tail == head + |xs| - 1
          && a.xs == Rotated(head, xs) && ElemsOf(e, k) == NO_ELEMS.(list := SeqMap(head, xs)))
  }

  /** loadAgg for a list, wherever its numbers start. */
  method LoadStored(s: Store, k: Key, ghost head: int, ghost st: State) returns (r: ListResult)
    requires s.Valid() && Kept(s.eng, s.now, k, head, st)
    modifies s`eng, s`dict, s`pend
    ensures s.Valid() && OnlyTouches(s.eng, old(s.eng), k) && Kept(s.eng, s.now, k, head, st)
    ensures Live(s.eng, s.now, k) == old(Live(s.eng, s.now, k))
    ensures match ListIn(st)
            case None => r == NotAList
            case Some(xs) =>
              && r.Got? && r.a.present == st.Lst? && Viewed(s.eng, k, r.a, head, xs, TopOf(st))
              && (!r.a.present ==> !r.a.sparse)
              && StartOf(s.eng, s.now, k) == (if r.a.sparse then Some(r.a.head) else None)
  {
    hide OnlyTouches, Settled, Inv, PendOk, ElemsOf, ParseList, DecodeObjectHeader, WellFormed, SeqMap, Numbers, Rotated, Shape;
    SettledKept(s.eng, s.now, k, s.dbs, head, st) by { InvHasIndex(s.eng, s.dict, s.dbs); }
    var g := s.GetTyped(k);
    if g.None? { return Got(ListView(false, false, [], [], 0, 0)); }
    if g.value.typ != TYPE_LIST { return NotAList; }
    var obj := DecodeObjectHeader(g.value.payload).value;
    var a;
    if obj.Sparse? {
      if head >= 0 { ReadsInOrder(obj.head, st.xs); }
      var xs, seqs := ScanList(s.eng, k, obj.head, st.xs);
      SameLength(obj.head, st.xs);
      a := ListView(true, true, xs, seqs, obj.head, obj.tail);
    } else {
      var xs := DecodeListInline(obj.data);
      a := ListView(true, false, xs.value, [], 0, 0);
    }
    if head >= 0 { AgreesLoaded(s.eng, k, g.value, st.xs, st.top, a); }
    return Got(a);
  }

  lemma SameLength(head: int, xs: seq<bytes>)
    ensures |Rotated(head, xs)| == |xs|
  {}

  /** A read that finds the key expired takes its record and leaves the elements. */
  lemma SettledKept(e: Db, now: i64, k: Key, dbs: nat, head: int, st: State)
    requires IndexExact(e, dbs) && Kept(e, now, k, head, st)
    ensures Kept(Settled(e, now, k), now, k, head, st) && RecAt(Settled(e, now, k), k) == Live(e, now, k)
    ensures Live(Settled(e, now, k), now, k) == Live(e, now, k)
    ensures OnlyTouches(Settled(e, now, k), e, k)
  {
    hide ElemsOf, Apply, Settled, Live, OnlyTouches, Holds, DecodeObjectHeader, SeqMap;
    SettledOk(e, now, k, dbs);
    SettledInvisible(e, now, k, dbs, k);
    if head >= 0 { SettledHolds(e, now, k, dbs, st); }
  }

  /** The same for a list that is plain. */
  method LoadList(s: Store, k: Key, ghost st: State) returns (r: ListResult)
    requires s.Valid() && Holds(s.eng, s.now, k, st)
    modifies s`eng, s`dict, s`pend
    ensures s.Valid() && OnlyTouches(s.eng, old(s.eng), k) && Holds(s.eng, s.now, k, st)
    ensures Live(s.eng, s.now, k) == old(Live(s.eng, s.now, k))
    ensures match ListIn(st)
            case None => r == NotAList
            case Some(xs) =>
              && r.Got? && r.a.xs == xs && r.a.present == st.Lst? && Agrees(s.eng, k, r.a, TopOf(st))
              && (!r.a.present ==> !r.a.sparse)
              && StartOf(s.eng, s.now, k) == (if r.a.sparse then Some(r.a.head) else None)
  {
    hide OnlyTouches, Inv, PendOk, Holds, Agrees, StartOf, Live;
    r := LoadStored(s, k, 0, st);
  }

  // ---------- saving ----------

  ghost predicate ListFits(xs: seq<bytes>)
  {
    |xs| <= INLINE_MAX_ENTRIES && forall x | x in xs :: |x| <= INLINE_MAX_VALUE
  }

  method CheckListFits(xs: seq<bytes>) returns (r: bool)
    ensures r == ListFits(xs)
  {
    if |xs| > INLINE_MAX_ENTRIES { return false; }
    for i := 0 to |xs|
      invariant forall j | 0 <= j < i :: |xs[j]| <= INLINE_MAX_VALUE
    {
      if |xs[i]| > INLINE_MAX_VALUE { return false; }
    }
    return true;
  }

  /** allShort. */
  method AllShort(xs: seq<bytes>) returns (r: bool)
    ensures r == forall x | x in xs :: |x| <= INLINE_MAX_VALUE
  {
    for i := 0 to |xs|
      invariant forall j | 0 <= j < i :: |xs[j]| <= INLINE_MAX_VALUE
    {
      if |xs[i]| > INLINE_MAX_VALUE { return false; }
    }
    return true;
  }

  /** Once applied, the batch leaves the list xs stored from head on. */
  ghost predicate ListStaged(e: Db, ops: seq<Op>, k: Key, head: int, xs: seq<bytes>)
  {
    Span(head, |xs|) && Staged(e, ops, k, NO_ELEMS.(list := SeqMap(head, xs)))
  }

  lemma StagedSeq(e: Db, ops: seq<Op>, k: Key, head: int, xs: seq<bytes>, v: bytes, n: i64)
    requires ListStaged(e, ops, k, head, xs) && n == head + |xs|
    ensures ListStaged(e, ops + [Put(ListSeqKey(k, n), v)], k, head, xs + [v])
  {
    hide Staged, ElemKey, SeqMap;
    SeqAppend(head, xs, v);
    StagedPut(e, ops, k, NO_ELEMS.(list := SeqMap(head, xs)), SEG_LIST, SeqBytes(n), v);
  }

  /** Appending under the numbers after the last one: promotion and right pushes. */
  method StageRight(ghost e: Db, ops0: seq<Op>, k: Key, ghost head: int, ghost xs: seq<bytes>, tail: i64, elems: seq<bytes>)
    returns (ops: seq<Op>, tail': i64)
    requires ListStaged(e, ops0, k, head, xs) && tail == head + |xs| - 1 && tail + |elems| < I63
    ensures ListStaged(e, ops, k, head, xs + elems) && tail' == tail + |elems|
  {
    hide ListStaged, ListSeqKey;
    ops, tail' := ops0, tail;
    assert xs + elems[..0] == xs;
    for i := 0 to |elems|
      invariant ListStaged(e, ops, k, head, xs + elems[..i]) && tail' == tail + i
    {
      StagedSeq(e, ops, k, head, xs + elems[..i], elems[i], tail' + 1);
      assert xs + elems[..i] + [elems[i]] == xs + elems[..i + 1];
      tail' := tail' + 1;
      ops := ops + [Put(ListSeqKey(k, tail'), elems[i])];
    }
    assert elems[..|elems|] == elems;
  }

  lemma SparseListShape(xs: seq<bytes>, head: i64, tail: i64, top: nat)
    requires 0 <= head && tail == head + |xs| - 1 && tail < top <= I63
    ensures ListShape(EncodeSparseHeader(|xs|, head, tail), xs, top, NO_ELEMS.(list := SeqMap(head, xs)))
  {
    hide SeqMap;
    SparseHeaderReads(|xs|, head, tail);
  }

  lemma SparseHeaderReads(count: nat, head: i64, tail: i64)
    ensures DecodeObjectHeader(EncodeSparseHeader(count, head, tail)) == Some(Sparse(count % U32, head, tail))
  {
    hide BE, FromBE;
    var h := EncodeSparseHeader(count, head, tail);
    assert h[1..5] == BE(count, 4) && h[5..13] == BE(TwosComplement(head), 8) && h[13..21] == BE(TwosComplement(tail), 8);
    CountField(count);
    BE64(TwosComplement(head));
    BE64(TwosComplement(tail));
  }

  lemma InlineListShape(xs: seq<bytes>, top: nat)
    requires ListFits(xs) && |xs| <= top <= I63
    ensures ListShape([ENC_INLINE] + BE(|xs|, 4) + ListBody(xs), xs, top, NO_ELEMS)
  {
    hide BE, ListBody, ParseList, DecodeObjectHeader;
    InlineHeader(|xs|, ListBody(xs));
    ListInlineRoundTrip(xs);
  }

  lemma HoldsListAfter(e: Db, now: i64, k: Key, xs: seq<bytes>, top: nat, payload: bytes)
    requires RecAt(e, k) == Some(Record(TYPE_LIST, 0, payload)) && ListShape(payload, xs, top, ElemsOf(e, k))
    ensures Holds(e, now, k, Lst(xs, top))
  {}

  /** Elements and record of a list in one batch, then the cache. */
  method CommitList(s: Store, k: Key, batch: seq<Op>, ghost el: Elems, payload: bytes)
    requires s.Valid() && k.db < s.dbs && Staged(s.eng, batch, k, el) && StoredExpiry(s.eng, k) == 0
    modifies s`eng, s`dict, s`pend
    ensures s.Valid() && OnlyTouches(s.eng, old(s.eng), k)
    ensures RecAt(s.eng, k) == Some(Record(TYPE_LIST, 0, payload)) && ElemsOf(s.eng, k) == el
  {
    hide OnlyTouches, Inv, PendOk, ElemsOf, Staged, Apply, PutBatch, RecAt;
    var r := Record(TYPE_LIST, 0, payload);
    Commit(s.eng, s.dict, batch, k, el, r, s.inlineMax, s.dbs);
    Supersede(Apply(s.eng, batch + PutBatch(k, r, 0)), s.eng, s.pend, k);
    s.eng := Apply(s.eng, batch + PutBatch(k, r, 0));
    s.pend := s.pend - {k};
    s.dict := s.dict[k := NewEntry(r, s.inlineMax)];
  }

  /** saveAgg for a list that is not sparse: inline when it fits, else promoted. */
  method SaveList(s: Store, k: Key, xs: seq<bytes>, ghost top: nat)
    requires s.Valid() && k.db < s.dbs && StoredExpiry(s.eng, k) == 0 && ElemsOf(s.eng, k) == NO_ELEMS
    requires |xs| <= top <= I63
    modifies s`eng, s`dict, s`pend
    ensures s.Valid() && OnlyTouches(s.eng, old(s.eng), k) && Holds(s.eng, s.now, k, Lst(xs, top))
  {
    hide OnlyTouches, Inv, PendOk, ElemsOf, Staged, Holds, ListShape, RecAt, EncodeSparseHeader, StoredExpiry, SeqMap, ListFits;
    var fits := CheckListFits(xs);
    StagedNone(s.eng, k);
    if fits {
      var payload := EncodeListInline(xs);
      InlineListShape(xs, top);
      CommitList(s, k, [], NO_ELEMS, payload);
      HoldsListAfter(s.eng, s.now, k, xs, top, payload);
    } else {
      NoSeqs(s.eng, k);
      var batch, tail := StageRight(s.eng, [], k, 0, [], -1, xs);
      assert [] + xs == xs;
      var payload := EncodeSparseHeader(|xs|, 0, tail);
      SparseListShape(xs, 0, tail, top);
      CommitList(s, k, batch, NO_ELEMS.(list := SeqMap(0, xs)), payload);
      HoldsListAfter(s.eng, s.now, k, xs, top, payload);
    }
  }

  lemma NoSeqs(e: Db, k: Key)
    requires ElemsOf(e, k) == NO_ELEMS
    ensures ListStaged(e, [], k, 0, [])
  {
    hide ElemsOf, Staged;
    StagedNone(e, k);
  }

  // ---------- RPUSH ----------

  /** What is stored is what was pushed, under numbers below the new top. */
  function Pushed(st: State, elems: seq<bytes>, xs: seq<bytes>): State { Lst(xs, TopOf(st) + |elems|) }

  /** listPush to the right, and RPUSHX. The numbers never run out while fewer than 2^63
      elements have been pushed. */
  method PushRight(s: Store, k: Key, elems: seq<bytes>, onlyIfExists: bool, ghost st: State) returns (r: Answer)
    requires s.Valid() && k.db < s.dbs && Holds(s.eng, s.now, k, st) && TopOf(st) + |elems| <= I63
    modifies s`eng, s`dict, s`pend
    ensures s.Valid() && OnlyTouches(s.eng, old(s.eng), k)
    ensures match ListIn(st)
            case None => r == Wrong && Holds(s.eng, s.now, k, st)
            case Some(xs) =>
              if onlyIfExists && st.Absent? then r == Count(0) && Holds(s.eng, s.now, k, Absent)
              else r == Count(|xs + elems|) && Holds(s.eng, s.now, k, Pushed(st, elems, xs + elems))
    ensures ListIn(st) == None ==> Live(s.eng, s.now, k) == old(Live(s.eng, s.now, k))
  {
    hide OnlyTouches, Inv, PendOk, ElemsOf, Holds, StoredExpiry, WellFormed, SeqMap, Numbers, ListFits;
    var l := LoadList(s, k, st);
    ghost var e0 := s.eng;
    if l.NotAList? { return Wrong; }
    var a := l.a;
    if onlyIfExists && !a.present { return Count(0); }
    var short := AllShort(elems);
    if !a.sparse && |a.xs| + |elems| <= INLINE_MAX_ENTRIES && short {
      SaveList(s, k, a.xs + elems, TopOf(st) + |elems|);
    } else {
      PushRightSparse(s, k, a, elems, TopOf(st));
    }
    TouchesTransitive(s.eng, e0, old(s.eng), k);
    return Count(|a.xs| + |elems|);
  }

  /** listPushSparse to the right: promote first when still inline. */
  method PushRightSparse(s: Store, k: Key, a: ListView, elems: seq<bytes>, ghost top: nat)
    requires s.Valid() && k.db < s.dbs && Agrees(s.eng, k, a, top) && top + |elems| <= I63
    modifies s`eng, s`dict, s`pend
    ensures s.Valid() && OnlyTouches(s.eng, old(s.eng), k)
    ensures Holds(s.eng, s.now, k, Lst(a.xs + elems, top + |elems|))
  {
    hide OnlyTouches, Inv, PendOk, ElemsOf, Holds, StoredExpiry, SeqMap, Numbers, Staged, RecAt, ListShape, EncodeSparseHeader;
    var batch, head, tail := Promoted(s, k, a, top);
    batch, tail := StageRight(s.eng, batch, k, head, a.xs, tail, elems);
    var payload := EncodeSparseHeader(|a.xs + elems|, head, tail);
    SparseListShape(a.xs + elems, head, tail, top + |elems|);
    CommitList(s, k, batch, NO_ELEMS.(list := SeqMap(head, a.xs + elems)), payload);
    HoldsListAfter(s.eng, s.now, k, a.xs + elems, top + |elems|, payload);
  }

  /** The batch a sparse push starts from: empty, or every element of an inline list. */
  method Promoted(s: Store, k: Key, a: ListView, ghost top: nat) returns (batch: seq<Op>, head: i64, tail: i64)
    requires Agrees(s.eng, k, a, top)
    ensures ListStaged(s.eng, batch, k, head, a.xs) && 0 <= head && tail == head + |a.xs| - 1 && tail < top
    ensures a.sparse ==> head == a.head
    ensures !a.sparse ==> head == 0
  {
    hide ElemsOf, SeqMap, Numbers, Staged, StoredExpiry;
    if a.sparse {
      StagedNone(s.eng, k);
      return [], a.head, a.tail;
    }
    NoSeqs(s.eng, k);
    batch, tail := StageRight(s.eng, [], k, 0, [], -1, a.xs);
    assert [] + a.xs == a.xs;
    return batch, 0, tail;
  }

  /** k's element keys are numbers head .. head + len - 1 and nothing else, in list order. */
  ghost predicate StoredUnder(e: Db, k: Key, xs: seq<bytes>, head: nat, len: nat)
  {
    && len <= |xs|
    && (forall n: i64 :: ListSeqKey(k, n) in e <==> head <= n < head + len)
    && (forall n: i64 :: head <= n < head + len ==> ListSeqKey(k, n) in e && e[ListSeqKey(k, n)] == xs[n - head])
    && ElemsOf(e, k) == NO_ELEMS.(list := ElemsOf(e, k).list)
    && (forall x :: x in ElemsOf(e, k).list ==> exists n: i64 :: head <= n < head + len && x == SeqBytes(n))
  }

  /** Under a key that holds a list, the stored numbers are one interval from a
      non-negative number on, in list order; an inline list has none. */
  lemma StoredInterval(e: Db, now: i64, k: Key, xs: seq<bytes>, top: nat) returns (head: nat, len: nat)
    requires Holds(e, now, k, Lst(xs, top))
    ensures (len == 0 || len == |xs|) && (head + len <= top || len == 0)
    ensures StoredUnder(e, k, xs, head, len)
  {
    hide ElemsOf, Live, DecodeObjectHeader, SeqMap, ListSeqKey, ParseList, SeqBytes;
    var obj := DecodeObjectHeader(Live(e, now, k).value.payload).value;
    head, len := 0, 0;
    if obj.Sparse? { head, len := obj.head, |xs|; }
    forall n: i64
      ensures ListSeqKey(k, n) in e <==> head <= n < head + len
      ensures head <= n < head + len ==> ListSeqKey(k, n) in e && e[ListSeqKey(k, n)] == xs[n - head]
    {
      SeqAt(e, k, n);
      if obj.Sparse? { SeqMapAt(head, xs, n); }
    }
    forall x | x in ElemsOf(e, k).list ensures exists n: i64 :: head <= n < head + len && x == SeqBytes(n) {
      var n := SeqMapKeys(head, xs, x);
    }
  }

  lemma SeqAt(e: Db, k: Key, n: i64)
    ensures ListSeqKey(k, n) in e <==> SeqBytes(n) in ElemsOf(e, k).list
    ensures SeqBytes(n) in ElemsOf(e, k).list ==> e[ListSeqKey(k, n)] == ElemsOf(e, k).list[SeqBytes(n)]
  {
    hide Sub, ElemPrefix, ElemKey;
    AtSub(e, SEG_LIST, k, SeqBytes(n));
  }

  // ---------- LPUSH ----------

  lemma StoredInOrder(e: Db, now: i64, k: Key, head: int, ys: seq<bytes>, top: nat)
    requires StoredFrom(e, now, k, head, ys) && 0 <= head && head + |ys| <= top <= I63
    ensures Holds(e, now, k, Lst(ys, top))
  {
    hide ElemsOf, SeqMap, Live, DecodeObjectHeader;
  }

  lemma StoredAfter(e: Db, now: i64, k: Key, head: i64, tail: i64, ys: seq<bytes>)
    requires Span(head, |ys|) && tail == head + |ys| - 1
    requires RecAt(e, k) == Some(Record(TYPE_LIST, 0, EncodeSparseHeader(|ys|, head, tail)))
    requires ElemsOf(e, k) == NO_ELEMS.(list := SeqMap(head, ys))
    ensures StoredFrom(e, now, k, head, ys)
  {
    hide ElemsOf, SeqMap, RecAt, DecodeObjectHeader, EncodeSparseHeader;
    SparseHeaderReads(|ys|, head, tail);
  }

  /** Reading any list back: as stored, with the part under negative numbers moved to the
      end. */
  method ReadStored(s: Store, k: Key, ghost head: int, ghost st: State) returns (xs: seq<bytes>)
    requires s.Valid() && Kept(s.eng, s.now, k, head, st) && ListIn(st).Some?
    modifies s`eng, s`dict, s`pend
    ensures s.Valid() && OnlyTouches(s.eng, old(s.eng), k) && xs == Rotated(head, ListIn(st).value)
  {
    hide OnlyTouches, Inv, PendOk, Kept, Agrees, StartOf, Live, ElemsOf, SeqMap;
    var l := LoadStored(s, k, head, st);
    xs := l.a.xs;
  }

  lemma StagedFront(e: Db, ops: seq<Op>, k: Key, head: int, xs: seq<bytes>, v: bytes, n: i64)
    requires ListStaged(e, ops, k, head, xs) && n == head - 1
    ensures ListStaged(e, ops + [Put(ListSeqKey(k, n), v)], k, head - 1, [v] + xs)
  {
    hide Staged, ElemKey, SeqMap;
    SeqPrepend(head, xs, v);
    StagedPut(e, ops, k, NO_ELEMS.(list := SeqMap(head, xs)), SEG_LIST, SeqBytes(n), v);
  }

  method StageLeft(ghost e: Db, ops0: seq<Op>, k: Key, head: i64, ghost xs: seq<bytes>, elems: seq<bytes>)
    returns (ops: seq<Op>, head': i64)
    requires ListStaged(e, ops0, k, head, xs) && -I63 <= head - |elems|
    ensures ListStaged(e, ops, k, head', Reverse(elems) + xs) && head' == head - |elems|
  {
    hide ListStaged, ListSeqKey, Reverse;
    ops, head' := ops0, head;
    assert Reverse(elems[..0]) + xs == xs by { NoReverse(elems); }
    for i := 0 to |elems|
      invariant ListStaged(e, ops, k, head', Reverse(elems[..i]) + xs) && head' == head - i
    {
      StagedFront(e, ops, k, head', Reverse(elems[..i]) + xs, elems[i], head' - 1);
      ReverseSnoc(elems[..i], elems[i]);
      assert elems[..i] + [elems[i]] == elems[..i + 1];
      assert [elems[i]] + (Reverse(elems[..i]) + xs) == Reverse(elems[..i + 1]) + xs;
      head' := head' - 1;
      ops := ops + [Put(ListSeqKey(k, head'), elems[i])];
    }
    assert elems[..|elems|] == elems;
  }

  lemma NoReverse(elems: seq<bytes>)
    ensures Reverse(elems[..0]) == []
  {}

  /** The loop that puts the pushed elements in front, last one first. */
  method Reversed(elems: seq<bytes>) returns (rev: seq<bytes>)
    ensures rev == Reverse(elems)
  {
    rev := [];
    for i := 0 to |elems|
      invariant rev == Reverse(elems[..i])
    {
      ReverseSnoc(elems[..i], elems[i]);
      assert elems[..i] + [elems[i]] == elems[..i + 1];
      rev := [elems[i]] + rev;
    }
    assert elems[..|elems|] == elems;
  }

  /** Where a list starts after a left push: a list that stays inline has no numbers, one
      that is promoted was numbered from 0 on, a sparse one from its head on. */
  ghost function PushedFrom(start: Option<i64>, xs: seq<bytes>, elems: seq<bytes>): int
  {
    match start
    case Some(head) => head - |elems|
    case None =>
      if |xs| + |elems| <= INLINE_MAX_ENTRIES && (forall x | x in elems :: |x| <= INLINE_MAX_VALUE) then 0 else -|elems|
  }

  /** The numbers a left push needs are there: above the least for a list already under
      negative numbers, below the greatest for any other. */
  predicate Room(head: int, st: State, elems: seq<bytes>)
  {
    if head < 0 then -I63 <= head - |elems| else TopOf(st) + |elems| <= I63
  }

  /** listPush to the left, and LPUSHX, on a list whose numbers start anywhere. It is stored
      as pushed from number `from` on; when that is negative and the list reaches past zero,
      it reads rotated. */
  method PushLeft(s: Store, k: Key, elems: seq<bytes>, onlyIfExists: bool, ghost head: int, ghost st: State)
    returns (r: Answer, ghost from: int)
    requires s.Valid() && k.db < s.dbs && Kept(s.eng, s.now, k, head, st) && Room(head, st, elems)
    modifies s`eng, s`dict, s`pend
    ensures s.Valid() && OnlyTouches(s.eng, old(s.eng), k)
    ensures match ListIn(st)
            case None => r == Wrong && Holds(s.eng, s.now, k, st)
            case Some(xs) =>
              if onlyIfExists && st.Absent? then r == Count(0) && Holds(s.eng, s.now, k, Absent)
              else
                && r == Count(|xs| + |elems|)
                && from == PushedFrom(old(StartOf(s.eng, s.now, k)), xs, elems)
                && Kept(s.eng, s.now, k, from, Pushed(st, elems, Reverse(elems) + xs))
    ensures ListIn(st) == None ==> Live(s.eng, s.now, k) == old(Live(s.eng, s.now, k))
  {
    hide OnlyTouches, Inv, PendOk, ElemsOf, Holds, StoredExpiry, WellFormed, SeqMap, Numbers, ListFits, StoredFrom, Viewed,
         Live, Room, Reverse;
    var l := LoadStored(s, k, head, st);
    ghost var e0 := s.eng;
    from := 0;
    if l.NotAList? { return Wrong, 0; }
    var a := l.a;
    if onlyIfExists && !a.present { return Count(0), 0; }
    ghost var xs := ListIn(st).value;
    ViewedIs(s.eng, k, a, head, st, elems);
    var short := AllShort(elems);
    if !a.sparse && |a.xs| + |elems| <= INLINE_MAX_ENTRIES && short {
      var rev := Reversed(elems);
      SaveList(s, k, rev + a.xs, TopOf(st) + |elems|);
    } else {
      from := PushLeftSparse(s, k, a, elems, head, xs, st);
      if from >= 0 { StoredInOrder(s.eng, s.now, k, from, Reverse(elems) + xs, TopOf(st) + |elems|); }
    }
    TouchesTransitive(s.eng, e0, old(s.eng), k);
    return Count(|a.xs| + |elems|), from;
  }

  lemma ViewedIs(e: Db, k: Key, a: ListView, head: int, st: State, elems: seq<bytes>)
    requires ListIn(st).Some? && Viewed(e, k, a, head, ListIn(st).value, TopOf(st)) && Room(head, st, elems)
    requires head < 0 ==> st.Lst?
    ensures |a.xs| == |ListIn(st).value| && StoredExpiry(e, k) == 0
    ensures !a.sparse ==>
              a.xs == ListIn(st).value && ElemsOf(e, k) == NO_ELEMS && |a.xs| + |elems| <= TopOf(st) + |elems| <= I63
  {
    hide ElemsOf, SeqMap, Numbers, StoredExpiry;
  }

  method PushLeftSparse(s: Store, k: Key, a: ListView, elems: seq<bytes>, ghost head: int, ghost xs: seq<bytes>,
                        ghost st: State)
    returns (from: i64)
    requires s.Valid() && k.db < s.dbs && ListIn(st) == Some(xs) && Viewed(s.eng, k, a, head, xs, TopOf(st))
    requires Room(head, st, elems)
    modifies s`eng, s`dict, s`pend
    ensures s.Valid() && OnlyTouches(s.eng, old(s.eng), k)
    ensures from == (if a.sparse then a.head else 0) - |elems|
    ensures from >= 0 ==> from + |elems| + |xs| <= TopOf(st) && TopOf(st) + |elems| <= I63
    ensures StoredFrom(s.eng, s.now, k, from, Reverse(elems) + xs)
  {
    hide OnlyTouches, Inv, PendOk, ElemsOf, Holds, StoredExpiry, SeqMap, Numbers, Staged, RecAt, EncodeSparseHeader, StoredFrom,
         Reverse;
    var batch, first, tail := PromotedAny(s, k, a, head, xs, st);
    batch, from := StageLeft(s.eng, batch, k, first, xs, elems);
    ghost var ys := Reverse(elems) + xs;
    CommitList(s, k, batch, NO_ELEMS.(list := SeqMap(from, ys)), EncodeSparseHeader(|a.xs| + |elems|, from, tail));
    StoredAfter(s.eng, s.now, k, from, tail, ys);
  }

  /** The batch a left push starts from. */
  method PromotedAny(s: Store, k: Key, a: ListView, ghost head: int, ghost xs: seq<bytes>, ghost st: State)
    returns (batch: seq<Op>, first: i64, tail: i64)
    requires ListIn(st) == Some(xs) && Viewed(s.eng, k, a, head, xs, TopOf(st))
    ensures ListStaged(s.eng, batch, k, first, xs) && tail == first + |xs| - 1 && StoredExpiry(s.eng, k) == 0
    ensures first == if a.sparse then a.head else 0
    ensures if head < 0 then first == head else 0 <= first && first + |xs| <= TopOf(st)
  {
    hide ElemsOf, SeqMap, Numbers, Staged, StoredExpiry, Rotated;
    if a.sparse {
      StagedNone(s.eng, k);
      return [], a.head, a.tail;
    }
    batch, first, tail := Promoted(s, k, a, TopOf(st));
  }

  /** LPUSH to a list whose numbers start anywhere, then LRANGE 0 -1. The elements come back
      as pushed exactly when the numbers do not straddle zero or the rotation shows nothing. */
  method PushLeftThenRange(s: Store, k: Key, elems: seq<bytes>, ghost head: int, ghost st: State)
    returns (ys: seq<bytes>, ghost from: int)
    requires s.Valid() && k.db < s.dbs && Kept(s.eng, s.now, k, head, st) && Room(head, st, elems)
    requires ListIn(st).Some?
    modifies s`eng, s`dict, s`pend
    ensures s.Valid() && OnlyTouches(s.eng, old(s.eng), k)
    ensures from == PushedFrom(old(StartOf(s.eng, s.now, k)), ListIn(st).value, elems)
    ensures var xs := Reverse(elems) + ListIn(st).value;
            && ys == Rotated(from, xs)
            && (ys == xs <==> from >= 0 || from + |xs| <= 0 || Repeats(xs, Gcd(-from, from + |xs|)))
  {
    hide OnlyTouches, Inv, PendOk, Kept, Rotated, Repeats, Reverse, PushedFrom, StartOf, Room;
    ghost var xs := Reverse(elems) + ListIn(st).value;
    var r;
    r, from := PushLeft(s, k, elems, false, head, st);
    ReadsInOrder(from, xs);
    ghost var e1 := s.eng;
    ys := ReadStored(s, k, from, Pushed(st, elems, xs));
    TouchesTransitive(s.eng, e1, old(s.eng), k);
  }

  /** LPUSH of one long value to an inline list of one element reads back after it. */
  lemma LongPushRotates(v: bytes)
    requires |v| > INLINE_MAX_VALUE
    ensures PushedFrom(None, [[0]], [v]) == -1
    ensures Rotated(-1, Reverse([v]) + [[0]]) == [[0], v] != Reverse([v]) + [[0]]
  {
    assert v in [v];
    assert Reverse([v]) == Reverse([v][1..]) + [v] == [v];
    assert [v] + [[0]] == [v, [0]];
  }

  // ---------- LPOP, RPOP ----------

  function Left(xs: seq<bytes>, top: nat): State { if xs == [] then Absent else Lst(xs, top) }

  function Min(n: nat, m: nat): nat { if n > m then m else n }

  /** What a pop leaves and returns. */
  function PopOutcome(st: State, n: nat, left: bool): (State, Answer)
  {
    match ListIn(st)
    case None => (st, Wrong)
    case Some(xs) =>
      var m := Min(n, |xs|);
      if xs == [] then (st, Items([]))
      else if left then (Left(xs[m..], TopOf(st)), Items(xs[..m]))
      else (Left(xs[..|xs| - m], TopOf(st)), Items(xs[|xs| - m..]))
  }

  /** A pop takes up to n elements off one end and loses none: what it returns and what is
      left are the list. A list left empty is no key. */
  lemma PopConserves(st: State, n: nat, left: bool)
    requires ListIn(st).Some?
    ensures var (st', r) := PopOutcome(st, n, left);
            && r.Items? && ListIn(st').Some?
            && (var xs, rest := ListIn(st).value, ListIn(st').value;
                && (if left then r.xs + rest == xs else rest + r.xs == xs)
                && |r.xs| <= n && (|r.xs| == n || rest == [])
                && (r.xs != [] && rest == [] ==> st' == Absent))
  {}

  lemma StagedPopLeft(e: Db, ops: seq<Op>, k: Key, head: i64, xs: seq<bytes>)
    requires ListStaged(e, ops, k, head, xs) && xs != []
    ensures ListStaged(e, ops + [Del(ListSeqKey(k, head))], k, head + 1, xs[1..])
  {
    hide Staged, ElemKey, SeqMap;
    SeqDropFirst(head, xs);
    StagedDel(e, ops, k, NO_ELEMS.(list := SeqMap(head, xs)), SEG_LIST, SeqBytes(head));
  }

  lemma StagedPopRight(e: Db, ops: seq<Op>, k: Key, head: int, xs: seq<bytes>, tail: i64)
    requires ListStaged(e, ops, k, head, xs) && xs != [] && tail == head + |xs| - 1
    ensures ListStaged(e, ops + [Del(ListSeqKey(k, tail))], k, head, xs[..|xs| - 1])
  {
    hide Staged, ElemKey, SeqMap;
    SeqDropLast(head, xs);
    StagedDel(e, ops, k, NO_ELEMS.(list := SeqMap(head, xs)), SEG_LIST, SeqBytes(tail));
  }

  /** The sparse part of listPop: delete the keys of n elements at one end. */
  method StagePops(ghost e: Db, k: Key, head0: i64, tail0: i64, ghost xs: seq<bytes>, n: nat, left: bool)
    returns (ops: seq<Op>, head: int, tail: int)
    requires ListStaged(e, [], k, head0, xs) && tail0 == head0 + |xs| - 1 && n <= |xs| && 0 <= head0
    ensures ListStaged(e, ops, k, head, if left then xs[n..] else xs[..|xs| - n])
    ensures head == (if left then head0 + n else head0) && tail == head + |xs| - n - 1
  {
    hide ListStaged, ListSeqKey;
    ops, head, tail := [], head0, tail0;
    assert xs[0..] == xs && xs[..|xs|] == xs;
    for i := 0 to n
      invariant ListStaged(e, ops, k, head, if left then xs[i..] else xs[..|xs| - i])
      invariant head == (if left then head0 + i else head0) && tail == head + |xs| - i - 1
    {
      if left {
        StagedPopLeft(e, ops, k, head, xs[i..]);
        assert xs[i..][1..] == xs[i + 1..];
        ops := ops + [Del(ListSeqKey(k, head))];
        head := head + 1;
      } else {
        var rest := xs[..|xs| - i];
        StagedPopRight(e, ops, k, head, rest, tail);
        assert rest[..|rest| - 1] == xs[..|xs| - (i + 1)];
        ops := ops + [Del(ListSeqKey(k, tail))];
        tail := tail - 1;
      }
    }
  }

  /** listPop: up to n elements off one end; an emptied list is deleted. */
  method Pop(s: Store, k: Key, n: nat, left: bool, ghost st: State) returns (r: Answer)
    requires s.Valid() && k.db < s.dbs && Holds(s.eng, s.now, k, st)
    modifies s`eng, s`dict, s`pend
    ensures s.Valid() && OnlyTouches(s.eng, old(s.eng), k)
    ensures r == PopOutcome(st, n, left).1 && Holds(s.eng, s.now, k, PopOutcome(st, n, left).0)
    ensures ListIn(st) == None ==> Live(s.eng, s.now, k) == old(Live(s.eng, s.now, k))
  {
    hide OnlyTouches, Inv, PendOk, ElemsOf, Holds, StoredExpiry, WellFormed, SeqMap, Numbers, ListFits, PopOutcome, Live,
         StartOf, Agrees, Left;
    var l := LoadList(s, k, st);
    ghost var e0 := s.eng;
    PopIs(st, n, left);
    if l.NotAList? { return Wrong; }
    var a := l.a;
    if !a.present || |a.xs| == 0 { return Items([]); }
    var m := if n > |a.xs| then |a.xs| else n;
    var out := if left then a.xs[..m] else a.xs[|a.xs| - m..];
    var rest := if left then a.xs[m..] else a.xs[..|a.xs| - m];
    if !a.sparse {
      PopInline(s, k, a, rest, st);
    } else {
      PopSparse(s, k, a, rest, m, left, st);
    }
    TouchesTransitive(s.eng, e0, old(s.eng), k);
    return Items(out);
  }

  lemma PopIs(st: State, n: nat, left: bool)
    ensures ListIn(st) == None ==> PopOutcome(st, n, left) == (st, Wrong)
    ensures ListIn(st) == Some([]) ==> PopOutcome(st, n, left) == (st, Items([]))
    ensures ListIn(st).Some? && ListIn(st).value != [] ==>
              var xs := ListIn(st).value;
              var m := if n > |xs| then |xs| else n;
              PopOutcome(st, n, left) ==
              if left then (Left(xs[m..], TopOf(st)), Items(xs[..m]))
              else (Left(xs[..|xs| - m], TopOf(st)), Items(xs[|xs| - m..]))
  {}

  /** The inline part of listPop: an emptied list is deleted, any other saved. */
  method PopInline(s: Store, k: Key, a: ListView, rest: seq<bytes>, ghost st: State)
    requires s.Valid() && k.db < s.dbs && st.Lst? && !a.sparse && Agrees(s.eng, k, a, st.top)
    requires Holds(s.eng, s.now, k, st) && |rest| <= |a.xs|
    modifies s`eng, s`dict, s`pend
    ensures s.Valid() && OnlyTouches(s.eng, old(s.eng), k) && Holds(s.eng, s.now, k, Left(rest, st.top))
  {
    hide OnlyTouches, Inv, PendOk, ElemsOf, Holds, StoredExpiry;
    if |rest| == 0 {
      var _ := DeleteAny(s, k, st);
    } else {
      SaveList(s, k, rest, st.top);
    }
  }

  method PopSparse(s: Store, k: Key, a: ListView, rest: seq<bytes>, m: nat, left: bool, ghost st: State)
    requires s.Valid() && k.db < s.dbs && st.Lst? && st.xs == a.xs && a.sparse && Agrees(s.eng, k, a, st.top)
    requires Holds(s.eng, s.now, k, st) && m <= |a.xs| && rest == if left then a.xs[m..] else a.xs[..|a.xs| - m]
    modifies s`eng, s`dict, s`pend
    ensures s.Valid() && OnlyTouches(s.eng, old(s.eng), k) && Holds(s.eng, s.now, k, Left(rest, st.top))
  {
    hide OnlyTouches, Inv, PendOk, ElemsOf, Holds, StoredExpiry, SeqMap, Numbers, Staged, RecAt, ListShape, EncodeSparseHeader,
         Apply;
    StagedNone(s.eng, k);
    var batch, head, tail := StagePops(s.eng, k, a.head, a.tail, a.xs, m, left);
    if |rest| == 0 {
      Emptied(s.eng, s.dict, batch, k, head, s.now, st, s.dbs);
      StagedPending(s.eng, s.pend, batch, k, head);
      s.eng := Apply(s.eng, batch);
      ghost var e1 := s.eng;
      var _ := s.DeleteKey(k);
      GoneIsDead(s.eng, s.now, k);
      HoldsNothing(s.eng, s.now, k);
      TouchesTransitive(s.eng, e1, old(s.eng), k);
    } else {
      var payload := EncodeSparseHeader(|rest|, head, tail);
      SparseListShape(rest, head, tail, st.top);
      CommitList(s, k, batch, NO_ELEMS.(list := SeqMap(head, rest)), payload);
      HoldsListAfter(s.eng, s.now, k, rest, st.top, payload);
    }
  }

  lemma HoldsNothing(e: Db, now: i64, k: Key)
    requires Live(e, now, k) == None && ElemsOf(e, k) == NO_ELEMS
    ensures Holds(e, now, k, Absent)
  {}

  lemma StagedPending(e: Db, p: Pending, batch: seq<Op>, k: Key, head: int)
    requires PendOk(e, p) && ListStaged(e, batch, k, head, [])
    ensures PendOk(Apply(e, batch), p)
  {
    hide PendOk, Apply, ElemsOf, ElemsOnly;
    ElemsOnlyPending(Apply(e, batch), e, p, k);
  }

  lemma Emptied(e: Db, d: Cache, batch: seq<Op>, k: Key, head: int, now: i64, st: State, dbs: nat)
    requires Inv(e, d, dbs) && ListStaged(e, batch, k, head, []) && Holds(e, now, k, st) && st.Lst?
    ensures var e1 := Apply(e, batch);
            && Inv(e1, d, dbs) && OnlyTouches(e1, e, k) && ElemsOf(e1, k) == NO_ELEMS
            && Cleared(ElemsOf(e1, k), TYPE_LIST) == NO_ELEMS
            && Live(e1, now, k).Some? && Live(e1, now, k).value.typ == TYPE_LIST
  {
    hide Inv, PendOk, Apply, ElemsOf, OnlyTouches, RecAt, ListShape, ExpireKey, SameAt;
    var e1 := Apply(e, batch);
    assert SeqMap(head, []) == map[];
    ElemsOnlyInv(e1, d, e, k, dbs);
  }

  // ---------- LSET, LRANGE, LTRIM ----------

  function SetAtOutcome(st: State, index: int, v: bytes): (State, Answer)
  {
    match st
    case Absent => (st, NoSuchKey)
    case Lst(xs, top) =>
      var i := if index < 0 then index + |xs| else index;
      if 0 <= i < |xs| then (Lst(xs[i := v], top), Done) else (st, OutOfRange)
    case _ => (st, Wrong)
  }

  function TrimOutcome(st: State, start: int, stop: int): (State, Answer)
  {
    match st
    case Absent => (st, Done)
    case Lst(xs, top) => (if xs == [] then st else Left(Slice(xs, start, stop), top), Done)
    case _ => (st, Wrong)
  }

  /** LSET applies exactly to the indexes of the list, counted from either end, and changes
      that one element. */
  lemma SetAtExactly(st: State, index: int, v: bytes)
    requires st.Lst?
    ensures var (st', r), n := SetAtOutcome(st, index, v), |st.xs|;
            && (r == Done <==> -n <= index < n) && (r != Done ==> r == OutOfRange && st' == st)
            && (r == Done ==>
                  && st'.Lst? && |st'.xs| == n && st'.xs[Place(n, index)] == v
                  && forall i | 0 <= i < n && i != Place(n, index) :: st'.xs[i] == st.xs[i])
  {}

  /** LTRIM leaves that slice and no other, or no key. */
  lemma TrimExactly(st: State, start: int, stop: int)
    requires st.Lst? && st.xs != []
    ensures var st' := TrimOutcome(st, start, stop).0;
            ListIn(st') == Some(Slice(st.xs, start, stop)) && (Slice(st.xs, start, stop) == [] ==> st' == Absent)
  {}

  /** listSet: a sparse list has one key overwritten, its record is left alone. */
  method SetAt(s: Store, k: Key, index: int, v: bytes, ghost st: State) returns (r: Answer)
    requires s.Valid() && k.db < s.dbs && Holds(s.eng, s.now, k, st)
    modifies s`eng, s`dict, s`pend
    ensures s.Valid() && OnlyTouches(s.eng, old(s.eng), k)
    ensures r == SetAtOutcome(st, index, v).1 && Holds(s.eng, s.now, k, SetAtOutcome(st, index, v).0)
    ensures ListIn(st) == None ==> Live(s.eng, s.now, k) == old(Live(s.eng, s.now, k))
  {
    hide OnlyTouches, Inv, PendOk, ElemsOf, Holds, StoredExpiry, WellFormed, SeqMap, ListFits;
    var l := LoadList(s, k, st);
    ghost var e0 := s.eng;
    if l.NotAList? { return Wrong; }
    var a := l.a;
    if !a.present { return NoSuchKey; }
    var i := if index < 0 then index + |a.xs| else index;
    if i < 0 || i >= |a.xs| { return OutOfRange; }
    if a.sparse {
      OneReplaced(s.eng, s.dict, k, a, i, v, s.now, st, s.dbs);
      ReplacedPending(s.eng, s.pend, k, a.seqs[i], v);
      s.eng := s.eng[ListSeqKey(k, a.seqs[i]) := v];
    } else {
      SaveList(s, k, a.xs[i := v], TopOf(st));
    }
    TouchesTransitive(s.eng, e0, old(s.eng), k);
    return Done;
  }

  lemma OneReplaced(e: Db, d: Cache, k: Key, a: ListView, i: nat, v: bytes, now: i64, st: State, dbs: nat)
    requires Inv(e, d, dbs) && Holds(e, now, k, st) && st.Lst? && st.xs == a.xs && a.sparse && i < |a.xs|
    requires Agrees(e, k, a, st.top)
    ensures var e1 := e[ListSeqKey(k, a.seqs[i]) := v];
            Inv(e1, d, dbs) && OnlyTouches(e1, e, k) && Holds(e1, now, k, Lst(a.xs[i := v], st.top))
  {
    hide Inv, PendOk, Apply, ElemsOf, OnlyTouches, RecAt, ExpireKey, SameAt, SeqMap, ListShape, StoredExpiry, ListSeqKey;
    var n: i64 := a.head + i;
    assert a.seqs[i] == n;
    var e1 := e[ListSeqKey(k, n) := v];
    StagedNone(e, k);
    StagedReplace(e, k, a.head, a.xs, i, v, n);
    Apply1(e, Put(ListSeqKey(k, n), v));
    ElemsOnlyInv(e1, d, e, k, dbs);
    ReplacedShape(Live(e, now, k).value.payload, a.xs, st.top, a.head, i, v);
  }

  lemma ReplacedPending(e: Db, p: Pending, k: Key, n: i64, v: bytes)
    requires PendOk(e, p)
    ensures PendOk(e[ListSeqKey(k, n) := v], p)
  {
    hide PendOk, ElemsOf, SameAt, ExpireKey;
    var e1 := e[ListSeqKey(k, n) := v];
    assert forall x :: !(ElemPrefix(SEG_LIST, k) <= x) ==> SameAt(e1, e, x) by { ElsewhereSame(e1, e, k, n, v); }
    ElemWriteRecord(e1, e, SEG_LIST, k);
    ElemsOnlyPending(e1, e, p, k);
  }

  lemma ElsewhereSame(e1: Db, e: Db, k: Key, n: i64, v: bytes)
    requires e1 == e[ListSeqKey(k, n) := v]
    ensures forall x :: !(ElemPrefix(SEG_LIST, k) <= x) ==> SameAt(e1, e, x)
  {
    hide ElemPrefix;
  }

  lemma StagedReplace(e: Db, k: Key, head: int, xs: seq<bytes>, i: nat, v: bytes, n: i64)
    requires ListStaged(e, [], k, head, xs) && i < |xs| && n == head + i
    ensures ListStaged(e, [Put(ListSeqKey(k, n), v)], k, head, xs[i := v])
  {
    hide Staged, ElemKey, SeqMap;
    SeqReplace(head, xs, i, v);
    StagedPut(e, [], k, NO_ELEMS.(list := SeqMap(head, xs)), SEG_LIST, SeqBytes(n), v);
    assert [] + [Put(ListSeqKey(k, n), v)] == [Put(ListSeqKey(k, n), v)];
  }

  /** The same header describes the list with one element replaced. */
  lemma ReplacedShape(payload: bytes, xs: seq<bytes>, top: nat, head: i64, i: nat, v: bytes)
    requires Span(head, |xs|) && i < |xs|
    requires ListShape(payload, xs, top, NO_ELEMS.(list := SeqMap(head, xs)))
    ensures ListShape(payload, xs[i := v], top, NO_ELEMS.(list := SeqMap(head, xs[i := v])))
  {
    hide SeqMap, ParseList, DecodeObjectHeader;
    SeqMapAt(head, xs, head);
    var obj := DecodeObjectHeader(payload);
    if obj.value.Sparse? {
      var h := obj.value.head;
      SameStart(head, h, xs);
    }
  }

  /** A non-empty map of numbers tells where it starts. */
  lemma SameStart(head: i64, head': i64, xs: seq<bytes>)
    requires Span(head, |xs|) && Span(head', |xs|) && xs != [] && SeqMap(head, xs) == SeqMap(head', xs)
    ensures head == head'
  {
    hide SeqMap;
    SeqMapAt(head, xs, head);
    SeqMapAt(head, xs, head');
    SeqMapAt(head', xs, head);
    SeqMapAt(head', xs, head');
  }

  method Range(s: Store, k: Key, start: int, stop: int, ghost st: State) returns (r: Answer)
    requires s.Valid() && Holds(s.eng, s.now, k, st)
    modifies s`eng, s`dict, s`pend
    ensures s.Valid() && OnlyTouches(s.eng, old(s.eng), k) && Holds(s.eng, s.now, k, st)
    ensures r == match ListIn(st) case None => Wrong case Some(xs) => Items(Slice(xs, start, stop))
    ensures ListIn(st) == None ==> Live(s.eng, s.now, k) == old(Live(s.eng, s.now, k))
  {
    hide OnlyTouches, Inv, PendOk, ElemsOf, Holds, Slice, Agrees;
    var l := LoadList(s, k, st);
    if l.NotAList? { return Wrong; }
    return Items(Slice(l.a.xs, start, stop));
  }

  /** listTrim: rebuild from the kept slice. */
  method Trim(s: Store, k: Key, start: int, stop: int, ghost st: State) returns (r: Answer)
    requires s.Valid() && k.db < s.dbs && Holds(s.eng, s.now, k, st)
    modifies s`eng, s`dict, s`pend
    ensures s.Valid() && OnlyTouches(s.eng, old(s.eng), k)
    ensures r == TrimOutcome(st, start, stop).1 && Holds(s.eng, s.now, k, TrimOutcome(st, start, stop).0)
    ensures ListIn(st) == None ==> Live(s.eng, s.now, k) == old(Live(s.eng, s.now, k))
  {
    hide OnlyTouches, Inv, PendOk, ElemsOf, Holds, StoredExpiry, WellFormed, SeqMap, ListFits, Numbers;
    var l := LoadList(s, k, st);
    ghost var e0 := s.eng;
    if l.NotAList? { return Wrong; }
    var a := l.a;
    if !a.present { return Done; }
    var kept := Slice(a.xs, start, stop);
    if |kept| == |a.xs| {
      assert kept == a.xs;
      return Done;
    }
    if |kept| == 0 {
      var _ := DeleteAny(s, k, st);
    } else {
      if a.sparse { DropSeqs(s, k, a, TopOf(st)); }
      ghost var e1 := s.eng;
      SaveList(s, k, kept, TopOf(st));
      if a.sparse { TouchesTransitive(s.eng, e1, e0, k); }
    }
    TouchesTransitive(s.eng, e0, old(s.eng), k);
    return Done;
  }

  method DropSeqs(s: Store, k: Key, ghost a: ListView, ghost top: nat)
    requires s.Valid() && Agrees(s.eng, k, a, top) && a.sparse
    modifies s`eng
    ensures s.Valid() && OnlyTouches(s.eng, old(s.eng), k)
    ensures StoredExpiry(s.eng, k) == 0 && ElemsOf(s.eng, k) == NO_ELEMS
  {
    hide OnlyTouches, Inv, PendOk, ElemsOf, SeqMap, Numbers, ExpireKey, SameAt;
    s.DropElems(k, TYPE_LIST);
    ElemsOnlyInv(s.eng, s.dict, old(s.eng), k, s.dbs);
  }
}
