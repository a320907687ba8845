/** Every key the store writes, and the ranges it scans or deletes. */
module Layout {
  /*
   The engine keyspace is one ordered map of byte strings, split into segments by the first
   byte. Ranges hold the keys of one collection and nothing else.
   */
  import opened Bytes
  import opened Scores

  const SEG_DATA: byte := 0x02
  const SEG_HASH: byte := 0x03
  const SEG_LIST: byte := 0x04
  const SEG_SET: byte := 0x05
  const SEG_ZSET_M: byte := 0x06
  const SEG_ZSET_S: byte := 0x07
  const SEG_EXPIRE: byte := 0x08
  const SEG_ENTRY: byte := 0x0B
  const SEG_GROUP: byte := 0x0C
  const SEG_PEL: byte := 0x0D

  /** A user key inside one logical database. */
  datatype Key = Key(db: u16, name: bytes)

  predicate NulFree(b: bytes) { 0 !in b }

  function Tagged(seg: byte, k: Key): bytes { [seg] + BE(k.db, 2) + k.name }

  function DataKey(k: Key): bytes { Tagged(SEG_DATA, k) }

  function DataPrefix(db: u16): bytes { [SEG_DATA] + BE(db, 2) }

  function KeyFromDataKey(dk: bytes): bytes { if |dk| < 3 then [] else dk[3..] }

  function ExpireKey(t: i64, k: Key): bytes
  {
    [SEG_EXPIRE] + BE(OrderPreserving(t), 8) + BE(k.db, 2) + k.name
  }

  function DecodeExpireKey(ek: bytes): Option<(i64, Key)>
  {
    if |ek| < 11 || ek[0] != SEG_EXPIRE then None else
    FromBE8(ek[1..9]);
    FromBE2(ek[9..11]);
    Some((UnOrderPreserving(FromBE(ek[1..9])), Key(FromBE(ek[9..11]), ek[11..])))
  }

  /** Prefix of every per-element key of a collection; 0x00 ends the user key. */
  function ElemPrefix(seg: byte, k: Key): bytes { Tagged(seg, k) + [0] }

  function ElemKey(seg: byte, k: Key, elem: bytes): bytes { ElemPrefix(seg, k) + elem }

  function ListSeqKey(k: Key, seq_: i64): bytes { ElemKey(SEG_LIST, k, BE(TwosComplement(seq_), 8)) }

  function ScoreKey(k: Key, score: u64, member: bytes): bytes
  {
    ElemKey(SEG_ZSET_S, k, BE(EncodeScore(score), 8) + member)
  }

  lemma FromBE8(b: bytes)
    requires |b| == 8
    ensures FromBE(b) < U64
  { Widths(); FromBEBound(b); }

  lemma FromBE2(b: bytes)
    requires |b| == 2
    ensures FromBE(b) < U16
  { Widths(); FromBEBound(b); }

  // ---------- parts of a key ----------

  lemma TaggedParts(seg: byte, k: Key)
    ensures |Tagged(seg, k)| == 3 + |k.name|
    ensures Tagged(seg, k)[0] == seg
    ensures Tagged(seg, k)[1..3] == BE(k.db, 2)
    ensures Tagged(seg, k)[3..] == k.name
  {}

  lemma TaggedInjective(seg: byte, k: Key, seg': byte, k': Key)
    requires Tagged(seg, k) == Tagged(seg', k')
    ensures seg == seg' && k == k'
  {
    TaggedParts(seg, k);
    TaggedParts(seg', k');
    BE16(k.db);
    BE16(k'.db);
  }

  lemma TailInjective(k: Key, k': Key)
    requires BE(k.db, 2) + k.name == BE(k'.db, 2) + k'.name
    ensures k == k'
  {
    var t, t' := BE(k.db, 2) + k.name, BE(k'.db, 2) + k'.name;
    assert t[2..] == k.name && t'[2..] == k'.name;
    assert t[..2] == BE(k.db, 2) && t'[..2] == BE(k'.db, 2);
    BE16(k.db);
    BE16(k'.db);
  }

  lemma ExpireParts(t: i64, k: Key)
    ensures |ExpireKey(t, k)| == 11 + |k.name|
    ensures ExpireKey(t, k)[0] == SEG_EXPIRE
    ensures ExpireKey(t, k)[1..9] == BE(OrderPreserving(t), 8)
    ensures ExpireKey(t, k)[9..11] == BE(k.db, 2)
    ensures ExpireKey(t, k)[11..] == k.name
    ensures ExpireKey(t, k)[9..] == BE(k.db, 2) + k.name
  {}

  lemma ExpireRoundTrip(t: i64, k: Key)
    ensures DecodeExpireKey(ExpireKey(t, k)) == Some((t, k))
  {
    ExpireParts(t, k);
    BE64(OrderPreserving(t));
    BE16(k.db);
    TimeOrder(t, t);
  }

  /** Every long enough key of the segment is the encoding of what it decodes to. */
  lemma ExpireDecodeEncode(ek: bytes)
    requires |ek| >= 11 && ek[0] == SEG_EXPIRE
    ensures DecodeExpireKey(ek).Some?
    ensures var (t, k) := DecodeExpireKey(ek).value; ExpireKey(t, k) == ek
  {
    var (t, k) := DecodeExpireKey(ek).value;
    FromBE8(ek[1..9]);
    FromBE2(ek[9..11]);
    TimeDecodeEncode(FromBE(ek[1..9]));
    EncodeDecode(ek[1..9]);
    EncodeDecode(ek[9..11]);
    assert ek == [ek[0]] + ek[1..9] + ek[9..11] + ek[11..];
  }

  lemma ExpireInjective(t: i64, k: Key, t': i64, k': Key)
    requires ExpireKey(t, k) == ExpireKey(t', k')
    ensures t == t' && k == k'
  {
    ExpireRoundTrip(t, k);
    ExpireRoundTrip(t', k');
  }

  /** The expire segment is in time order, whatever the database and key. */
  lemma ExpireKeysByTime(t: i64, k: Key, t': i64, k': Key)
    requires t < t'
    ensures Less(ExpireKey(t, k), ExpireKey(t', k'))
  {
    TimeOrder(t, t');
    Order64(OrderPreserving(t), OrderPreserving(t'), BE(k.db, 2) + k.name, BE(k'.db, 2) + k'.name);
    LessCommonPrefix([SEG_EXPIRE],
                     BE(OrderPreserving(t), 8) + (BE(k.db, 2) + k.name),
                     BE(OrderPreserving(t'), 8) + (BE(k'.db, 2) + k'.name));
    assert ExpireKey(t, k) == [SEG_EXPIRE] + (BE(OrderPreserving(t), 8) + (BE(k.db, 2) + k.name));
    assert ExpireKey(t', k') == [SEG_EXPIRE] + (BE(OrderPreserving(t'), 8) + (BE(k'.db, 2) + k'.name));
  }

  // ---------- ranges of different collections ----------

  ghost predicate Comparable(p: bytes, q: bytes) { p <= q || q <= p }

  /** Two collections with NUL-free keys never share a prefix. */
  lemma PrefixesApart(seg: byte, k: Key, seg': byte, k': Key)
    requires NulFree(k.name) && NulFree(k'.name)
    requires ElemPrefix(seg, k) <= ElemPrefix(seg', k')
    ensures seg == seg' && k == k'
  {
    var p, q := ElemPrefix(seg, k), ElemPrefix(seg', k');
    TaggedParts(seg, k);
    TaggedParts(seg', k');
    assert p[0] == q[0] && p[1..3] == q[1..3];
    assert p[1..3] == BE(k.db, 2) && q[1..3] == BE(k'.db, 2);
    BE16(k.db);
    BE16(k'.db);
    var n := |k.name|;
    assert forall i :: 0 <= i < |k'.name| ==> q[3 + i] == k'.name[i];
    assert p[3 + n] == 0 == q[3 + n];
    assert n == |k'.name|;
    assert p[3..3 + n] == k.name && q[3..3 + n] == k'.name;
  }

  /** The range a collection scans or range-deletes contains the element keys of that
      segment, database and key, and of no other. */
  lemma RangeIsCollection(seg: byte, k: Key, seg': byte, k': Key, elem: bytes)
    requires NulFree(k.name) && NulFree(k'.name)
    ensures InRange(ElemKey(seg', k', elem), ElemPrefix(seg, k), Successor(ElemPrefix(seg, k)))
            <==> seg == seg' && k == k'
  {
    var p, q := ElemPrefix(seg, k), ElemPrefix(seg', k');
    PrefixRange(p, q + elem);
    if p <= q + elem {
      assert Comparable(p, q) by {
        if |p| <= |q| { assert p == (q + elem)[..|p|] == q[..|p|]; }
        else { assert q == (q + elem)[..|q|] == p[..|q|]; }
      }
      if p <= q { PrefixesApart(seg, k, seg', k'); } else { PrefixesApart(seg', k', seg, k); }
    }
  }

  /** Without the restriction on NUL bytes: some element of k' falls into k's range
      exactly when one key, closed by the separator, starts the other. */
  lemma RangeInterference(seg: byte, k: Key, k': Key)
    requires k.db == k'.db
    ensures (exists elem: bytes :: ElemPrefix(seg, k) <= ElemKey(seg, k', elem))
            <==> Comparable(k.name + [0], k'.name + [0])
  {
    var p, q := ElemPrefix(seg, k), ElemPrefix(seg, k');
    var h := [seg] + BE(k.db, 2);
    assert p == h + (k.name + [0]) && q == h + (k'.name + [0]);
    if elem: bytes :| p <= ElemKey(seg, k', elem) {
      if |p| <= |q| { assert p == (q + elem)[..|p|] == q[..|p|]; PrefixTail(h, k.name + [0], k'.name + [0]); }
      else { assert q == (q + elem)[..|q|] == p[..|q|]; PrefixTail(h, k'.name + [0], k.name + [0]); }
    }
    if k.name + [0] <= k'.name + [0] {
      assert p <= q && q == ElemKey(seg, k', []);
    } else if k'.name + [0] <= k.name + [0] {
      assert q <= p;
      assert ElemKey(seg, k', p[|q|..]) == p;
    }
  }

  lemma PrefixTail(h: bytes, x: bytes, y: bytes)
    requires h + x <= h + y
    ensures x <= y
  {
    assert (h + x)[|h|..] == x && (h + y)[|h|..] == y;
    assert x == y[..|x|];
  }

  /** The collection "a" and the collection "a", 0x00, "b" do share element keys. */
  lemma NulKeysCollide(db: u16)
    ensures ElemKey(SEG_HASH, Key(db, [97]), [98, 0, 99]) == ElemKey(SEG_HASH, Key(db, [97, 0, 98]), [99])
  {
    var h := [SEG_HASH] + BE(db, 2);
    assert ElemKey(SEG_HASH, Key(db, [97]), [98, 0, 99]) == h + [97, 0, 98, 0, 99];
    assert ElemKey(SEG_HASH, Key(db, [97, 0, 98]), [99]) == h + [97, 0, 98, 0, 99];
  }
}
