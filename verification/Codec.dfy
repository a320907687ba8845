/** On-disk values: record header, inline forms, sparse header, stream fields. */
module Codec {
  /*
   Decoders are the index loops of the source, proved equal to a recursive reading of the
   format; each round trip holds exactly within the width of the length fields, which
   silently cut longer lengths.
   */
  import opened Bytes
  import opened Scores

  const TYPE_STRING: byte := 0
  const TYPE_HASH: byte := 1
  const TYPE_LIST: byte := 2
  const TYPE_SET: byte := 3
  const TYPE_ZSET: byte := 4

  const ENC_INLINE: byte := 0
  const ENC_SPARSE: byte := 1

  /** A stored value: type tag, expiry in unix ms (0 for none) and payload. */
  datatype Record = Record(typ: byte, exp: i64, payload: bytes)

  function EncodeValue(r: Record): bytes
  {
    [r.typ] + BE(TwosComplement(r.exp), 8) + r.payload
  }

  function DecodeValue(v: bytes): Option<Record>
  {
    if |v| < 9 then None else
    Read64(v, 1);
    Some(Record(v[0], FromTwosComplement(FromBE(v[1..9])), v[9..]))
  }

  lemma Read64(v: bytes, i: nat)
    requires i + 8 <= |v|
    ensures FromBE(v[i..i + 8]) < U64
  { Widths(); FromBEBound(v[i..i + 8]); }

  lemma ValueRoundTrip(r: Record)
    ensures DecodeValue(EncodeValue(r)) == Some(r)
  {
    var v := EncodeValue(r);
    assert v[1..9] == BE(TwosComplement(r.exp), 8);
    assert v[9..] == r.payload;
    BE64(TwosComplement(r.exp));
  }

  lemma ValueDecodeEncode(v: bytes)
    requires |v| >= 9
    ensures DecodeValue(v).Some? && EncodeValue(DecodeValue(v).value) == v
  {
    Read64(v, 1);
    EncodeDecode(v[1..9]);
    assert v == [v[0]] + v[1..9] + v[9..];
  }

  // ---------- length-prefixed chunks ----------

  function Chunk(w: nat, s: bytes): bytes { BE(|s|, w) + s }

  /** Reads one chunk off the front: its content and what follows. */
  function TakeChunk(w: nat, data: bytes): Option<(bytes, bytes)>
  {
    if |data| < w then None else
    var n := FromBE(data[..w]);
    if |data| < w + n then None else Some((data[w..w + n], data[w + n..]))
  }

  lemma ChunkRoundTrip(w: nat, s: bytes, rest: bytes)
    requires |s| < Pow256(w)
    ensures TakeChunk(w, Chunk(w, s) + rest) == Some((s, rest))
  {
    DecodeEncode(|s|, w);
    var d := Chunk(w, s) + rest;
    assert d[..w] == BE(|s|, w);
    assert d[w..w + |s|] == s;
    assert d[w + |s|..] == rest;
  }

  lemma ChunkIsShort(w: nat, data: bytes)
    requires TakeChunk(w, data).Some?
    ensures |TakeChunk(w, data).value.0| < Pow256(w)
    ensures |TakeChunk(w, data).value.1| + w <= |data|
  {
    FromBEBound(data[..w]);
  }

  /** The index step of a decoder: the chunk at position i of the buffer. */
  lemma ChunkAt(w: nat, data: bytes, i: nat)
    requires i <= |data|
    ensures i + w > |data| ==> TakeChunk(w, data[i..]).None?
    ensures i + w <= |data| ==>
              var n := FromBE(data[i..i + w]);
              TakeChunk(w, data[i..]) ==
              if i + w + n > |data| then None
              else Some((data[i + w..i + w + n], data[i + w + n..]))
  {
    if i + w <= |data| {
      assert data[i..][..w] == data[i..i + w];
      var n := FromBE(data[i..i + w]);
      if i + w + n <= |data| {
        assert data[i..][w..w + n] == data[i + w..i + w + n];
        assert data[i..][w + n..] == data[i + w + n..];
      }
    }
  }

  /** What a decoder returns once the rest of its buffer has been read. */
  function Onto<V>(out: map<bytes, V>, r: Option<map<bytes, V>>): Option<map<bytes, V>>
  {
    match r case None => None case Some(m) => Some(out + m)
  }

  lemma OntoEntry<V>(out: map<bytes, V>, k: bytes, v: V, r: Option<map<bytes, V>>)
    ensures Onto(out, Onto(map[k := v], r)) == Onto(out[k := v], r)
  {
    if r.Some? { assert out + (map[k := v] + r.value) == out[k := v] + r.value; }
  }

  lemma OntoEmpty<V>(r: Option<map<bytes, V>>)
    ensures Onto(map[], r) == r
  {
    if r.Some? { assert map[] + r.value == r.value; }
  }

  lemma Regroup(a: bytes, b: bytes, c: bytes, d: bytes)
    ensures a + (b + (c + d)) == a + b + c + d
  {}

  // ---------- name/value pairs, the entries of hashes and stream fields ----------

  datatype Pair = Pair(name: bytes, value: bytes, rest: bytes)

  function TakePair(data: bytes): Option<Pair>
  {
    match TakeChunk(2, data)
    case None => None
    case Some((name, afterName)) =>
      match TakeChunk(4, afterName)
      case None => None
      case Some((value, rest)) => Some(Pair(name, value, rest))
  }

  lemma PairShrinks(data: bytes)
    requires TakePair(data).Some?
    ensures |TakePair(data).value.rest| < |data|
    ensures |TakePair(data).value.name| < U16 && |TakePair(data).value.value| < U32
  {
    Widths();
    ChunkIsShort(2, data);
    ChunkIsShort(4, TakeChunk(2, data).value.1);
  }

  lemma PairRoundTrip(name: bytes, value: bytes, rest: bytes)
    requires |name| < U16 && |value| < U32
    ensures TakePair(Chunk(2, name) + (Chunk(4, value) + rest)) == Some(Pair(name, value, rest))
  {
    Widths();
    ChunkRoundTrip(2, name, Chunk(4, value) + rest);
    ChunkRoundTrip(4, value, rest);
  }

  /** The bounds-checked index steps that read one pair at position i and return the
      position after it. */
  method ReadPair(data: bytes, start: nat) returns (r: Option<(bytes, bytes, nat)>)
    requires start <= |data|
    ensures match r
            case None => TakePair(data[start..]) == None
            case Some((name, value, next)) =>
              start < next <= |data| && TakePair(data[start..]) == Some(Pair(name, value, data[next..]))
  {
    var i := start;
    ChunkAt(2, data, i);
    if i + 2 > |data| { return None; }
    var flen := FromBE(data[i..i + 2]);
    i := i + 2;
    if i + flen > |data| { return None; }
    var field := data[i..i + flen];
    i := i + flen;
    ChunkAt(4, data, i);
    if i + 4 > |data| { return None; }
    var vlen := FromBE(data[i..i + 4]);
    i := i + 4;
    if i + vlen > |data| { return None; }
    return Some((field, data[i..i + vlen], i + vlen));
  }

  // ---------- hash ----------

  /** `fields` lists the keys of a map once each, as sortedKeys does. */
  ghost predicate Lists<V>(fields: seq<bytes>, m: map<bytes, V>)
  {
    && (forall i, j | 0 <= i < j < |fields| :: fields[i] != fields[j])
    && (forall f :: f in fields <==> f in m)
  }

  function HashBody(fields: seq<bytes>, h: map<bytes, bytes>): bytes
    requires forall f | f in fields :: f in h
  {
    if fields == [] then [] else
    Chunk(2, fields[0]) + (Chunk(4, h[fields[0]]) + HashBody(fields[1..], h))
  }

  function ParseHash(data: bytes): Option<map<bytes, bytes>>
    decreases |data|
  {
    if data == [] then Some(map[]) else
    match TakePair(data)
    case None => None
    case Some(p) => PairShrinks(data); Onto(map[p.name := p.value], ParseHash(p.rest))
  }

  method DecodeHashInline(data: bytes) returns (r: Option<map<bytes, bytes>>)
    ensures r == ParseHash(data)
  {
    var out, i := map[], 0;
    assert data[0..] == data;
    OntoEmpty(ParseHash(data));
    while i < |data|
      invariant 0 <= i <= |data|
      invariant ParseHash(data) == Onto(out, ParseHash(data[i..]))
    {
      var p := ReadPair(data, i);
      if p == None { return None; }
      var (field, value, next) := p.value;
      OntoEntry(out, field, value, ParseHash(data[next..]));
      out, i := out[field := value], next;
    }
    assert data[i..] == [] && out + map[] == out;
    return Some(out);
  }

  method EncodeHashInline(fields: seq<bytes>, h: map<bytes, bytes>) returns (buf: bytes)
    requires forall f | f in fields :: f in h
    ensures buf == [ENC_INLINE] + BE(|fields|, 4) + HashBody(fields, h)
  {
    hide BE;
    buf := [ENC_INLINE] + BE(|fields|, 4);
    ghost var whole := buf + HashBody(fields, h);
    assert fields[0..] == fields;
    for i := 0 to |fields|
      invariant whole == buf + HashBody(fields[i..], h)
    {
      var f := fields[i];
      assert fields[i..][1..] == fields[i + 1..];
      Regroup(buf, Chunk(2, f), Chunk(4, h[f]), HashBody(fields[i + 1..], h));
      buf := buf + Chunk(2, f) + Chunk(4, h[f]);
    }
    assert buf + HashBody(fields[|fields|..], h) == buf;
  }

  lemma Cons<V>(keys: seq<bytes>, m: map<bytes, V>)
    requires keys != [] && forall k | k in keys :: k in m
    ensures map[keys[0] := m[keys[0]]] + (map k | k in keys[1..] :: m[k]) == map k | k in keys :: m[k]
  {
    assert keys == [keys[0]] + keys[1..];
  }

  lemma {:induction false} HashParse(fields: seq<bytes>, h: map<bytes, bytes>)
    requires forall f | f in fields :: f in h && |f| < U16 && |h[f]| < U32
    ensures ParseHash(HashBody(fields, h)) == Some(map f | f in fields :: h[f])
  {
    if fields != [] {
      HashParse(fields[1..], h);
      PairRoundTrip(fields[0], h[fields[0]], HashBody(fields[1..], h));
      Cons(fields, h);
    }
  }

  lemma {:induction false} HashParseIsShort(data: bytes)
    requires ParseHash(data).Some?
    ensures forall f | f in ParseHash(data).value :: |f| < U16 && |ParseHash(data).value[f]| < U32
    decreases |data|
  {
    if data != [] {
      PairShrinks(data);
      HashParseIsShort(TakePair(data).value.rest);
    }
  }

  /** A hash survives its inline form exactly when no length overflows its field. */
  lemma HashInlineRoundTrip(fields: seq<bytes>, h: map<bytes, bytes>)
    requires Lists(fields, h)
    ensures ParseHash(HashBody(fields, h)) == Some(h)
            <==> forall f | f in h :: |f| < U16 && |h[f]| < U32
  {
    hide ParseHash, HashBody;
    if forall f | f in h :: |f| < U16 && |h[f]| < U32 {
      HashParse(fields, h);
      assert (map f | f in fields :: h[f]) == h;
    } else if ParseHash(HashBody(fields, h)) == Some(h) {
      HashParseIsShort(HashBody(fields, h));
      assert false;
    }
  }

  // ---------- list ----------

  function ListBody(elems: seq<bytes>): bytes
  {
    if elems == [] then [] else Chunk(4, elems[0]) + ListBody(elems[1..])
  }

  function ParseList(data: bytes): Option<seq<bytes>>
    decreases |data|
  {
    if data == [] then Some([]) else
    match TakeChunk(4, data)
    case None => None
    case Some((e, rest)) =>
      match ParseList(rest)
      case None => None
      case Some(s) => Some([e] + s)
  }

  method DecodeListInline(data: bytes) returns (r: Option<seq<bytes>>)
    ensures r == ParseList(data)
  {
    hide FromBE;
    var out, i := [], 0;
    assert data[0..] == data;
    assert forall s: seq<bytes> :: out + s == s;
    while i < |data|
      invariant 0 <= i <= |data|
      invariant ParseList(data) ==
                match ParseList(data[i..]) case None => None case Some(s) => Some(out + s)
    {
      ChunkAt(4, data, i);
      if i + 4 > |data| { return None; }
      var n := FromBE(data[i..i + 4]);
      i := i + 4;
      if i + n > |data| { return None; }
      ghost var before := out;
      out := out + [data[i..i + n]];
      assert forall s: seq<bytes> :: before + ([data[i..i + n]] + s) == out + s;
      i := i + n;
    }
    assert data[i..] == [] && out + [] == out;
    return Some(out);
  }

  method EncodeListInline(elems: seq<bytes>) returns (buf: bytes)
    ensures buf == [ENC_INLINE] + BE(|elems|, 4) + ListBody(elems)
  {
    hide BE;
    buf := [ENC_INLINE] + BE(|elems|, 4);
    assert elems[0..] == elems;
    for i := 0 to |elems|
      invariant [ENC_INLINE] + BE(|elems|, 4) + ListBody(elems) == buf + ListBody(elems[i..])
    {
      buf := buf + Chunk(4, elems[i]);
      assert elems[i..][1..] == elems[i + 1..];
    }
    assert buf + ListBody(elems[|elems|..]) == buf;
  }

  lemma {:induction false} ListParse(elems: seq<bytes>)
    requires forall e | e in elems :: |e| < U32
    ensures ParseList(ListBody(elems)) == Some(elems)
  {
    if elems != [] {
      Widths();
      ChunkRoundTrip(4, elems[0], ListBody(elems[1..]));
      ListParse(elems[1..]);
      assert Chunk(4, elems[0]) != [];
      assert elems == [elems[0]] + elems[1..];
    }
  }

  lemma {:induction false} ListParseIsShort(data: bytes)
    requires ParseList(data).Some?
    ensures forall e | e in ParseList(data).value :: |e| < U32
    decreases |data|
  {
    if data != [] {
      Widths();
      ChunkIsShort(4, data);
      ListParseIsShort(TakeChunk(4, data).value.1);
    }
  }

  lemma ListInlineRoundTrip(elems: seq<bytes>)
    ensures ParseList(ListBody(elems)) == Some(elems) <==> forall e | e in elems :: |e| < U32
  {
    hide ParseList, ListBody;
    if forall e | e in elems :: |e| < U32 {
      ListParse(elems);
    } else if ParseList(ListBody(elems)) == Some(elems) {
      ListParseIsShort(ListBody(elems));
      assert false;
    }
  }

  // ---------- set ----------

  function SetBody(members: seq<bytes>): bytes
  {
    if members == [] then [] else Chunk(2, members[0]) + SetBody(members[1..])
  }

  function ParseSet(data: bytes): Option<set<bytes>>
    decreases |data|
  {
    if data == [] then Some({}) else
    match TakeChunk(2, data)
    case None => None
    case Some((m, rest)) =>
      match ParseSet(rest)
      case None => None
      case Some(s) => Some({m} + s)
  }

  method DecodeSetInline(data: bytes) returns (r: Option<set<bytes>>)
    ensures r == ParseSet(data)
  {
    hide FromBE;
    var out, i := {}, 0;
    assert data[0..] == data;
    assert forall s: set<bytes> :: out + s == s;
    while i < |data|
      invariant 0 <= i <= |data|
      invariant ParseSet(data) ==
                match ParseSet(data[i..]) case None => None case Some(s) => Some(out + s)
    {
      ChunkAt(2, data, i);
      if i + 2 > |data| { return None; }
      var n := FromBE(data[i..i + 2]);
      i := i + 2;
      if i + n > |data| { return None; }
      ghost var before := out;
      out := out + {data[i..i + n]};
      assert forall s: set<bytes> :: before + ({data[i..i + n]} + s) == out + s;
      i := i + n;
    }
    assert data[i..] == [] && out + {} == out;
    return Some(out);
  }

  method EncodeSetInline(members: seq<bytes>) returns (buf: bytes)
    ensures buf == [ENC_INLINE] + BE(|members|, 4) + SetBody(members)
  {
    hide BE;
    buf := [ENC_INLINE] + BE(|members|, 4);
    assert members[0..] == members;
    for i := 0 to |members|
      invariant [ENC_INLINE] + BE(|members|, 4) + SetBody(members) == buf + SetBody(members[i..])
    {
      buf := buf + Chunk(2, members[i]);
      assert members[i..][1..] == members[i + 1..];
    }
    assert buf + SetBody(members[|members|..]) == buf;
  }

  lemma SetParseStep(m: bytes, rest: bytes)
    requires |m| < U16
    ensures ParseSet(Chunk(2, m) + rest) ==
            match ParseSet(rest) case None => None case Some(s) => Some({m} + s)
  {
    Widths();
    ChunkRoundTrip(2, m, rest);
    assert |Chunk(2, m)| >= 2;
  }

  lemma {:induction false} SetParse(members: seq<bytes>)
    requires forall m | m in members :: |m| < U16
    ensures ParseSet(SetBody(members)) == Some(set m | m in members)
  {
    if members == [] {
      assert (set m | m in members) == {};
    } else {
      SetParse(members[1..]);
      SetParseStep(members[0], SetBody(members[1..]));
      assert members == [members[0]] + members[1..];
      assert {members[0]} + (set m | m in members[1..]) == set m | m in members;
    }
  }

  lemma {:induction false} SetParseIsShort(data: bytes)
    requires ParseSet(data).Some?
    ensures forall m | m in ParseSet(data).value :: |m| < U16
    decreases |data|
  {
    if data != [] {
      Widths();
      ChunkIsShort(2, data);
      SetParseIsShort(TakeChunk(2, data).value.1);
    }
  }

  lemma SetInlineRoundTrip(members: seq<bytes>)
    ensures ParseSet(SetBody(members)) == Some(set m | m in members)
            <==> forall m | m in members :: |m| < U16
  {
    hide ParseSet, SetBody;
    var all := set m | m in members;
    assert forall m :: m in members <==> m in all;
    if forall m | m in members :: |m| < U16 {
      SetParse(members);
    } else if ParseSet(SetBody(members)) == Some(all) {
      SetParseIsShort(SetBody(members));
      assert false;
    }
  }

  // ---------- sorted set ----------

  function ZSetBody(members: seq<bytes>, z: map<bytes, u64>): bytes
    requires forall m | m in members :: m in z
  {
    if members == [] then [] else
    Chunk(2, members[0]) + (BE(EncodeScore(z[members[0]]), 8) + ZSetBody(members[1..], z))
  }

  function ParseZSet(data: bytes): Option<map<bytes, u64>>
    decreases |data|
  {
    if data == [] then Some(map[]) else
    match TakeChunk(2, data)
    case None => None
    case Some((m, rest)) =>
      if |rest| < 8 then None else
      Read64(rest, 0);
      Onto(map[m := DecodeScore(FromBE(rest[0..8]))], ParseZSet(rest[8..]))
  }

  method DecodeZSetInline(data: bytes) returns (r: Option<map<bytes, u64>>)
    ensures r == ParseZSet(data)
  {
    hide FromBE, DecodeScore;
    var out: map<bytes, u64>, i := map[], 0;
    assert data[0..] == data;
    OntoEmpty(ParseZSet(data));
    while i < |data|
      invariant 0 <= i <= |data|
      invariant ParseZSet(data) == Onto(out, ParseZSet(data[i..]))
    {
      ChunkAt(2, data, i);
      if i + 2 > |data| { return None; }
      var n := FromBE(data[i..i + 2]);
      i := i + 2;
      if i + n + 8 > |data| { return None; }
      var member := data[i..i + n];
      i := i + n;
      assert data[i..][0..8] == data[i..i + 8] && data[i..][8..] == data[i + 8..];
      Read64(data, i);
      var score := DecodeScore(FromBE(data[i..i + 8]));
      OntoEntry(out, member, score, ParseZSet(data[i + 8..]));
      out := out[member := score];
      i := i + 8;
    }
    assert data[i..] == [] && out + map[] == out;
    return Some(out);
  }

  method EncodeZSetInline(members: seq<bytes>, z: map<bytes, u64>) returns (buf: bytes)
    requires forall m | m in members :: m in z
    ensures buf == [ENC_INLINE] + BE(|members|, 4) + ZSetBody(members, z)
  {
    hide BE;
    buf := [ENC_INLINE] + BE(|members|, 4);
    assert members[0..] == members;
    for i := 0 to |members|
      invariant [ENC_INLINE] + BE(|members|, 4) + ZSetBody(members, z) == buf + ZSetBody(members[i..], z)
    {
      var m := members[i];
      buf := buf + Chunk(2, m) + BE(EncodeScore(z[m]), 8);
      assert members[i..][1..] == members[i + 1..];
    }
    assert buf + ZSetBody(members[|members|..], z) == buf;
  }

  lemma ZSetParseStep(m: bytes, score: u64, rest: bytes)
    requires |m| < U16
    ensures ParseZSet(Chunk(2, m) + (BE(EncodeScore(score), 8) + rest)) ==
            Onto(map[m := score], ParseZSet(rest))
  {
    var tail := BE(EncodeScore(score), 8) + rest;
    Widths();
    ChunkRoundTrip(2, m, tail);
    assert tail[0..8] == BE(EncodeScore(score), 8) && tail[8..] == rest;
    BE64(EncodeScore(score));
    ScoreBijection(score);
    assert |Chunk(2, m)| >= 2;
  }

  lemma {:induction false} ZSetParse(members: seq<bytes>, z: map<bytes, u64>)
    requires forall m | m in members :: m in z && |m| < U16
    ensures ParseZSet(ZSetBody(members, z)) == Some(map m | m in members :: z[m])
  {
    if members != [] {
      ZSetParse(members[1..], z);
      ZSetParseStep(members[0], z[members[0]], ZSetBody(members[1..], z));
      Cons(members, z);
    }
  }

  lemma {:induction false} ZSetParseIsShort(data: bytes)
    requires ParseZSet(data).Some?
    ensures forall m | m in ParseZSet(data).value :: |m| < U16
    decreases |data|
  {
    if data != [] {
      Widths();
      ChunkIsShort(2, data);
      ZSetParseIsShort(TakeChunk(2, data).value.1[8..]);
    }
  }

  lemma ZSetInlineRoundTrip(members: seq<bytes>, z: map<bytes, u64>)
    requires Lists(members, z)
    ensures ParseZSet(ZSetBody(members, z)) == Some(z) <==> forall m | m in z :: |m| < U16
  {
    hide ParseZSet, ZSetBody;
    if forall m | m in z :: |m| < U16 {
      ZSetParse(members, z);
      assert (map m | m in members :: z[m]) == z;
    } else if ParseZSet(ZSetBody(members, z)) == Some(z) {
      ZSetParseIsShort(ZSetBody(members, z));
      assert false;
    }
  }

  // ---------- object headers ----------

  datatype Object = Inline(count: nat, data: bytes) | Sparse(count: nat, head: i64, tail: i64)

  function EncodeSparseHeader(count: nat, head: i64, tail: i64): bytes
  {
    [ENC_SPARSE] + BE(count, 4) + BE(TwosComplement(head), 8) + BE(TwosComplement(tail), 8)
  }

  function DecodeObjectHeader(payload: bytes): Option<Object>
  {
    if |payload| < 1 then None
    else if payload[0] == ENC_INLINE then
      if |payload| < 5 then None else Some(Inline(FromBE(payload[1..5]), payload[5..]))
    else if payload[0] != ENC_SPARSE || |payload| < 21 then None
    else
      Read64(payload, 5);
      Read64(payload, 13);
      Some(Sparse(FromBE(payload[1..5]),
                  FromTwosComplement(FromBE(payload[5..13])),
                  FromTwosComplement(FromBE(payload[13..21]))))
  }

  lemma SparseHeaderRoundTrip(count: nat, head: i64, tail: i64)
    requires count < U32
    ensures DecodeObjectHeader(EncodeSparseHeader(count, head, tail)) == Some(Sparse(count, head, tail))
  {
    var h := EncodeSparseHeader(count, head, tail);
    assert h[1..5] == BE(count, 4);
    assert h[5..13] == BE(TwosComplement(head), 8);
    assert h[13..21] == BE(TwosComplement(tail), 8);
    BE32(count);
    BE64(TwosComplement(head));
    BE64(TwosComplement(tail));
  }

  lemma InlineHeader(count: nat, body: bytes)
    ensures DecodeObjectHeader([ENC_INLINE] + BE(count, 4) + body) ==
            Some(Inline(FromBE(BE(count, 4)), body))
  {
    var p := [ENC_INLINE] + BE(count, 4) + body;
    assert p[1..5] == BE(count, 4) && p[5..] == body;
  }

  // ---------- stream fields ----------

  datatype Field = Field(name: bytes, value: bytes)

  function FieldsBody(fs: seq<Field>): bytes
  {
    if fs == [] then [] else
    Chunk(2, fs[0].name) + (Chunk(4, fs[0].value) + FieldsBody(fs[1..]))
  }

  function EncodeStreamFields(fs: seq<Field>): bytes { BE(|fs|, 2) + FieldsBody(fs) }

  function ParseFields(n: nat, data: bytes): Option<seq<Field>>
  {
    if n == 0 then Some([]) else
    match TakePair(data)
    case None => None
    case Some(p) => Before([Field(p.name, p.value)], ParseFields(n - 1, p.rest))
  }

  function Before(out: seq<Field>, r: Option<seq<Field>>): Option<seq<Field>>
  {
    match r case None => None case Some(fs) => Some(out + fs)
  }

  lemma BeforeNothing(r: Option<seq<Field>>)
    ensures Before([], r) == r
  {
    if r.Some? { assert [] + r.value == r.value; }
  }

  lemma BeforeField(out: seq<Field>, f: Field, r: Option<seq<Field>>)
    ensures Before(out, Before([f], r)) == Before(out + [f], r)
  {
    if r.Some? { assert out + ([f] + r.value) == out + [f] + r.value; }
  }

  function ParseStreamFields(v: bytes): Option<seq<Field>>
  {
    if |v| < 2 then None else ParseFields(FromBE(v[..2]), v[2..])
  }

  method DecodeStreamFields(v: bytes) returns (r: Option<seq<Field>>)
    ensures r == ParseStreamFields(v)
  {
    if |v| < 2 { return None; }
    r := DecodeFields(FromBE(v[..2]), v[2..]);
  }

  method DecodeFields(n: nat, data: bytes) returns (r: Option<seq<Field>>)
    ensures r == ParseFields(n, data)
  {
    var i, out := 0, [];
    assert data[0..] == data;
    BeforeNothing(ParseFields(n, data));
    for c := 0 to n
      invariant 0 <= i <= |data|
      invariant ParseFields(n, data) == Before(out, ParseFields(n - c, data[i..]))
    {
      var p := ReadPair(data, i);
      if p == None { return None; }
      var (field, value, next) := p.value;
      BeforeField(out, Field(field, value), ParseFields(n - c - 1, data[next..]));
      out, i := out + [Field(field, value)], next;
    }
    assert out + [] == out;
    return Some(out);
  }

  lemma {:induction false} FieldsParse(fs: seq<Field>)
    requires forall f | f in fs :: |f.name| < U16 && |f.value| < U32
    ensures ParseFields(|fs|, FieldsBody(fs)) == Some(fs)
  {
    hide Chunk, TakePair;
    if fs != [] {
      PairRoundTrip(fs[0].name, fs[0].value, FieldsBody(fs[1..]));
      FieldsParse(fs[1..]);
      assert fs == [fs[0]] + fs[1..];
    }
  }

  lemma {:induction false} FieldsParseIsShort(n: nat, data: bytes)
    requires ParseFields(n, data).Some?
    ensures |ParseFields(n, data).value| == n
    ensures forall f | f in ParseFields(n, data).value :: |f.name| < U16 && |f.value| < U32
  {
    if n > 0 {
      PairShrinks(data);
      FieldsParseIsShort(n - 1, TakePair(data).value.rest);
    }
  }

  /** Stream fields survive exactly within the 16-bit count and the length widths. */
  lemma StreamFieldsRoundTrip(fs: seq<Field>)
    ensures ParseStreamFields(EncodeStreamFields(fs)) == Some(fs)
            <==> |fs| < U16 && forall f | f in fs :: |f.name| < U16 && |f.value| < U32
  {
    var v := EncodeStreamFields(fs);
    assert v[..2] == BE(|fs|, 2) && v[2..] == FieldsBody(fs);
    Widths();
    FromBEBound(v[..2]);
    if |fs| < U16 && forall f | f in fs :: |f.name| < U16 && |f.value| < U32 {
      BE16(|fs|);
      FieldsParse(fs);
    } else if ParseStreamFields(v) == Some(fs) {
      FieldsParseIsShort(FromBE(v[..2]), v[2..]);
      assert false;
    }
  }
}
