/**
 Byte strings as the engine orders them: the lexicographic order, the exclusive
 upper bound of a prefix, and big-endian numbers whose byte order is their
 numeric order.
 */
module Bytes {

  datatype Option<+T> = None | Some(value: T)

  type byte = x: int | 0 <= x < 256
  type bytes = seq<byte>

  const U16: int := 0x1_0000
  const U32: int := 0x1_0000_0000
  const U64: int := 0x1_0000_0000_0000_0000
  const I63: int := 0x8000_0000_0000_0000

  type u16 = x: int | 0 <= x < U16
  type u64 = x: int | 0 <= x < U64
  type i64 = x: int | -I63 <= x < I63

  /** Strict lexicographic order on byte strings. */
  predicate Less(a: bytes, b: bytes)
    decreases |a|
  {
    b != [] && (a == [] || a[0] < b[0] || (a[0] == b[0] && Less(a[1..], b[1..])))
  }

  /** `k` lies in the half-open engine range [lo, hi); no `hi` means unbounded. */
  predicate InRange(k: bytes, lo: bytes, hi: Option<bytes>)
  {
    !Less(k, lo) && (hi.Some? ==> Less(k, hi.value))
  }

  lemma {:induction false} LessIrreflexive(a: bytes)
    ensures !Less(a, a)
    decreases |a|
  {
    if a != [] { LessIrreflexive(a[1..]); }
  }

  lemma {:induction false} LessTotal(a: bytes, b: bytes)
    ensures Less(a, b) || a == b || Less(b, a)
    decreases |a|
  {
    if a != [] && b != [] && a[0] == b[0] {
      LessTotal(a[1..], b[1..]);
      assert a == [a[0]] + a[1..] && b == [b[0]] + b[1..];
    }
  }

  lemma {:induction false} LessTransitive(a: bytes, b: bytes, c: bytes)
    requires Less(a, b) && Less(b, c)
    ensures Less(a, c)
    decreases |a|
  {
    if a != [] && a[0] == b[0] == c[0] { LessTransitive(a[1..], b[1..], c[1..]); }
  }

  lemma LessAsymmetric(a: bytes, b: bytes)
    requires Less(a, b)
    ensures !Less(b, a)
  {
    if Less(b, a) {
      LessTransitive(a, b, a);
      LessIrreflexive(a);
    }
  }

  /** Comparing after heads of equal length: the heads decide first. */
  lemma {:induction false} LessAppend(a: bytes, b: bytes, x: bytes, y: bytes)
    requires |a| == |b|
    ensures Less(a + x, b + y) <==> Less(a, b) || (a == b && Less(x, y))
    decreases |a|
  {
    if a == [] {
      assert a + x == x && b + y == y;
    } else {
      assert (a + x)[1..] == a[1..] + x && (b + y)[1..] == b[1..] + y;
      LessAppend(a[1..], b[1..], x, y);
      assert a == [a[0]] + a[1..] && b == [b[0]] + b[1..];
    }
  }

  lemma {:induction false} LessCommonPrefix(p: bytes, x: bytes, y: bytes)
    ensures Less(p + x, p + y) <==> Less(x, y)
  {
    LessAppend(p, p, x, y);
    LessIrreflexive(p);
  }

  // ---------- prefix ranges ----------

  /** The exclusive upper bound of the keys that start with `p`; none when `p` is all 0xff. */
  function Successor(p: bytes): Option<bytes>
  {
    if p == [] then None
    else if p[|p| - 1] < 255 then Some(p[..|p| - 1] + [p[|p| - 1] + 1])
    else Successor(p[..|p| - 1])
  }

  /** The buffer loop: increment the last byte below 0xff and cut after it. */
  method PrefixEnd(prefix: bytes) returns (end: Option<bytes>)
    ensures end == Successor(prefix)
  {
    var buf := new byte[|prefix|](i requires 0 <= i < |prefix| => prefix[i]);
    var i := buf.Length - 1;
    assert prefix[..i + 1] == prefix;
    while i >= 0
      invariant -1 <= i < buf.Length
      invariant buf[..] == prefix
      invariant Successor(prefix) == Successor(prefix[..i + 1])
    {
      if buf[i] < 0xff {
        buf[i] := buf[i] + 1;
        assert prefix[..i + 1][..i] == prefix[..i];
        assert buf[..i + 1] == prefix[..i] + [prefix[i] + 1];
        return Some(buf[..i + 1]);
      }
      assert prefix[..i + 1][..i] == prefix[..i];
      i := i - 1;
    }
    end := None;
  }

  /** [p, Successor(p)) holds exactly the keys that start with p. */
  lemma {:induction false} PrefixRange(p: bytes, k: bytes)
    ensures InRange(k, p, Successor(p)) <==> p <= k
    decreases |p|
  {
    if p == [] {
    } else {
      var q, last := p[..|p| - 1], p[|p| - 1];
      assert p == q + [last];
      PrefixRange(q, k);
      assert p <= k <==> q <= k && |k| > |q| && k[|q|] == last;
      if q <= k {
        var r := k[|q|..];
        assert k == q + r;
        LessCommonPrefix(q, r, [last]);
        assert Less(k, p) <==> r == [] || r[0] < last;
        if last < 255 {
          LessCommonPrefix(q, r, [last + 1]);
          assert Less(k, q + [last + 1]) <==> r == [] || r[0] < last + 1;
        } else {
          assert Successor(p) == Successor(q);
        }
      } else {
        OutsidePrefix(q, last, k);
        if last < 255 { OutsidePrefix(q, last + 1, k); }
      }
    }
  }

  /** A key that misses the shorter prefix compares with p exactly as with q. */
  lemma {:induction false} OutsidePrefix(q: bytes, last: byte, k: bytes)
    requires !(q <= k)
    ensures Less(k, q + [last]) <==> Less(k, q)
    decreases |q|
  {
    if q != [] && k != [] && k[0] == q[0] {
      assert (q + [last])[1..] == q[1..] + [last];
      assert q == [q[0]] + q[1..] && k == [k[0]] + k[1..];
      OutsidePrefix(q[1..], last, k[1..]);
    }
  }

  lemma {:induction false} SuccessorExists(p: bytes)
    requires p != [] && p[0] < 255
    ensures Successor(p).Some?
    decreases |p|
  {
    if |p| > 1 && p[|p| - 1] == 255 { SuccessorExists(p[..|p| - 1]); }
  }

  // ---------- big-endian numbers ----------

  function Pow256(w: nat): nat
  {
    if w == 0 then 1 else 256 * Pow256(w - 1)
  }

  /** `n` in `w` bytes, most significant first; higher bits are cut off. */
  function BE(n: nat, w: nat): (b: bytes)
    ensures |b| == w
  {
    if w == 0 then [] else BE(n / 256, w - 1) + [n % 256]
  }

  function FromBE(b: bytes): (n: nat)
  {
    if b == [] then 0 else FromBE(b[..|b| - 1]) * 256 + b[|b| - 1]
  }

  lemma {:induction false} FromBEBound(b: bytes)
    ensures FromBE(b) < Pow256(|b|)
  {
    if b != [] { FromBEBound(b[..|b| - 1]); }
  }

  lemma {:induction false} DecodeEncode(n: nat, w: nat)
    requires n < Pow256(w)
    ensures FromBE(BE(n, w)) == n
  {
    if w > 0 {
      DecodeEncode(n / 256, w - 1);
      assert BE(n, w)[..w - 1] == BE(n / 256, w - 1);
    }
  }

  lemma {:induction false} EncodeDecode(b: bytes)
    ensures BE(FromBE(b), |b|) == b
  {
    if b != [] { EncodeDecode(b[..|b| - 1]); }
  }

  lemma {:induction false} LessIsNumeric(a: bytes, b: bytes)
    requires |a| == |b|
    ensures Less(a, b) <==> FromBE(a) < FromBE(b)
    ensures a == b <==> FromBE(a) == FromBE(b)
  {
    if a != [] {
      var a', b' := a[..|a| - 1], b[..|b| - 1];
      LessIsNumeric(a', b');
      assert a == a' + [a[|a| - 1]] && b == b' + [b[|b| - 1]];
      LessAppend(a', b', [a[|a| - 1]], [b[|b| - 1]]);
    }
  }

  lemma Widths()
    ensures Pow256(2) == U16 && Pow256(4) == U32 && Pow256(8) == U64
  {
    assert Pow256(2) == U16;
    assert Pow256(4) == 256 * (256 * Pow256(2));
    assert Pow256(8) == 256 * (256 * (256 * (256 * Pow256(4))));
  }

  lemma BE16(n: u16)
    ensures FromBE(BE(n, 2)) == n
  { Widths(); DecodeEncode(n, 2); }

  lemma BE32(n: nat)
    requires n < U32
    ensures FromBE(BE(n, 4)) == n
  { Widths(); DecodeEncode(n, 4); }

  lemma BE64(n: u64)
    ensures FromBE(BE(n, 8)) == n
  { Widths(); DecodeEncode(n, 8); }

  /** Eight big-endian bytes sort as the number they hold, then by what follows. */
  lemma Order64(m: u64, n: u64, x: bytes, y: bytes)
    ensures Less(BE(m, 8) + x, BE(n, 8) + y) <==> m < n || (m == n && Less(x, y))
    ensures BE(m, 8) == BE(n, 8) <==> m == n
  {
    BE64(m); BE64(n);
    LessIsNumeric(BE(m, 8), BE(n, 8));
    LessAppend(BE(m, 8), BE(n, 8), x, y);
  }
}
