/** The counter merge operator. */
module Merge {
  /*
   Increments append operands; the engine may fold any contiguous group of them, at any
   time and in any order, into one value that is re-encoded as a string and folded again
   later.
   */
  import opened Bytes
  import opened Scores
  import opened Codec
  import opened Decimal

  const TAG_INT: byte := 0x01
  const TAG_FLOAT: byte := 0x02
  const EXACT: int := 0x20_0000_0000_0000   // 2^53

  function EncodeIntDelta(d: i64): bytes { [TAG_INT] + BE(TwosComplement(d), 8) }

  // ---------- formatCounterFloat on integers ----------

  /** The double nearest to n, ties to even: n itself up to 2^53, else rounded to
      53 significant bits. */
  function RoundNat(n: nat): nat
  {
    if n <= EXACT then n else RoundAt(n, 2)
  }

  function RoundAt(n: nat, unit: nat): nat
    requires unit >= 1
    decreases n - unit
  {
    if n >= EXACT * unit then RoundAt(n, 2 * unit) else
    var q, r := n / unit, n % unit;
    if 2 * r > unit || (2 * r == unit && q % 2 == 1) then (q + 1) * unit else q * unit
  }

  function RoundF64(v: int): int
  {
    if v < 0 then -(RoundNat(-v) as int) else RoundNat(v)
  }

  // ---------- which integers are doubles ----------

  predicate Scaled(n: nat, m: nat, k: nat) { m <= EXACT && n == m * Pow2(k) }

  /** An integer with at most 53 significant bits: one up to 2^53 times a power of two. */
  ghost predicate IsDouble(v: int) { exists m: nat, k: nat :: Scaled(Abs(v), m, k) }

  function Abs(v: int): nat { if v < 0 then -v else v }

  lemma Small(v: int)
    requires Abs(v) <= EXACT
    ensures IsDouble(v) && RoundF64(v) == v
  {
    assert Pow2(0) == 1;
    assert Scaled(Abs(v), Abs(v), 0);
  }

  /** Halving an even factor doubles the scale. */
  lemma {:induction false} Rescale(n: nat, m: nat, k: nat, j: nat)
    requires n == m * Pow2(k) && j <= k
    ensures n == (m * Pow2(k - j)) * Pow2(j)
    decreases j
  {
    hide Pow2;
    PowZero();
    if j > 0 {
      Rescale(n, m, k, j - 1);
      Twice(k - j);
      Twice(j - 1);
      MoveTwo(m, Pow2(k - j), Pow2(j - 1));
    }
  }

  lemma PowZero()
    ensures Pow2(0) == 1
  {}

  lemma Twice(k: nat)
    ensures Pow2(k + 1) == 2 * Pow2(k)
  {}

  lemma MoveTwo(m: nat, a: nat, p: nat)
    ensures (m * (2 * a)) * p == (m * a) * (2 * p)
  {
    assert m * (2 * a) == 2 * (m * a);
    DoubleEither(m * a, p);
  }

  lemma DoubleEither(x: nat, p: nat)
    ensures (2 * x) * p == x * (2 * p)
  {}

  lemma PowPositive(k: nat)
    ensures Pow2(k) > 0
  {
    Pow2Positive(k);
  }

  /** RoundAt in units of 2^j keeps exactly the multiples of the unit it ends with, and
      always gives one. */
  lemma {:induction false} RoundAtKeeps(n: nat, j: nat)
    requires j >= 1 && 2 * n >= EXACT * Pow2(j)
    ensures RoundAt(n, UnitOf(j)) == n <==> exists m: nat, k: nat :: k >= j && Scaled(n, m, k)
    ensures exists m: nat, k: nat :: Scaled(RoundAt(n, UnitOf(j)), m, k)
    decreases n - Pow2(j)
  {
    PowPositive(j);
    var u := Pow2(j);
    if n >= EXACT * u {
      assert Pow2(j + 1) == 2 * u;
      RoundAtKeeps(n, j + 1);
      if m: nat, k: nat :| k >= j && Scaled(n, m, k) { OneUnitUp(n, m, k, j); }
    } else {
      var q, r := n / u, n % u;
      assert n == q * u + r;
      LastUnit(n, q, r, u);
      if r == 0 { assert Scaled(n, q, j); }
      if m: nat, k: nat :| k >= j && Scaled(n, m, k) {
        Rescale(n, m, k, j);
        MultipleOf(n, m * Pow2(k - j), u);
      }
      assert Scaled(q * u, q, j) && (q + 1 <= EXACT ==> Scaled((q + 1) * u, q + 1, j));
    }
  }

  function UnitOf(j: nat): (u: nat)
    ensures u >= 1
  {
    PowPositive(j);
    Pow2(j)
  }

  lemma MultipleOf(n: nat, m: nat, u: nat)
    requires u > 0 && n == m * u
    ensures n % u == 0
  {
    var q := n / u;
    assert n == q * u + n % u;
    if m > q { TimesMonotone(u, q + 1, m); }
    if m < q { TimesMonotone(u, m + 1, q); }
  }

  lemma LastUnit(n: nat, q: nat, r: nat, u: nat)
    requires u > 0 && n == q * u + r && r < u && n < EXACT * u
    ensures q < EXACT
    ensures q * u == n <==> r == 0
    ensures (q + 1) * u != n
  {
    if q >= EXACT { TimesMonotone(u, EXACT, q); }
    assert (q + 1) * u == q * u + u;
  }

  /** A number past 2^53 units that is a multiple of the unit is one of the doubled unit. */
  lemma OneUnitUp(n: nat, m: nat, k: nat, j: nat)
    requires k >= j && Scaled(n, m, k) && n >= EXACT * Pow2(j)
    ensures exists m': nat, k': nat :: k' >= j + 1 && Scaled(n, m', k')
  {
    if k > j {
      assert Scaled(n, m, k);
    } else {
      PowPositive(j);
      if m < EXACT { TimesLess(Pow2(j), m, EXACT); }
      assert m == EXACT;
      assert Pow2(j + 1) == 2 * Pow2(j);
      assert n == (EXACT / 2) * Pow2(j + 1);
      assert Scaled(n, EXACT / 2, j + 1);
    }
  }

  lemma TimesLess(u: nat, a: nat, b: nat)
    requires a < b && u > 0
    ensures a * u < b * u
  {}

  /** Rounding keeps exactly the integers that are doubles, and gives a double. */
  lemma RoundKeeps(v: int)
    ensures RoundF64(v) == v <==> IsDouble(v)
    ensures IsDouble(RoundF64(v))
  {
    var n := Abs(v);
    if n <= EXACT {
      Small(v);
    } else {
      assert Pow2(1) == 2 * Pow2(0) && Pow2(0) == 1;
      RoundAtKeeps(n, 1);
      if m: nat, k: nat :| Scaled(n, m, k) {
        assert k >= 1 by { assert k == 0 ==> Pow2(k) == 1; }
      }
      assert Abs(RoundF64(v)) == RoundAt(n, 2);
    }
  }

  // ---------- rounding at the edge of int64 ----------

  predicate Unit(u: nat) { u in {2, 4, 8, 16, 32, 64, 128, 256, 512, 1024} }

  lemma QuotientBelow(n: nat, u: nat, w: nat)
    requires u > 0 && n <= u * w
    ensures n / u <= w && (n % u > 0 ==> n / u + 1 <= w)
  {
    assert n == u * (n / u) + n % u;
    if n / u > w { TimesMonotone(u, w + 1, n / u); }
    if n % u > 0 && n / u >= w { TimesMonotone(u, w, n / u); }
  }

  lemma TimesMonotone(u: nat, a: nat, b: nat)
    requires a <= b
    ensures u * a <= u * b
  {}

  /** Up to 2^63 - 1024, a multiple of every unit in use, rounding does not pass it. */
  lemma {:induction false} RoundsWithin(n: nat, u: nat)
    requires Unit(u) && n <= I63 - 1024
    ensures RoundAt(n, u) <= I63 - 1024
    decreases n - u
  {
    if n >= EXACT * u {
      assert u < 1024 && Unit(2 * u);
      RoundsWithin(n, 2 * u);
    } else {
      var w := (1024 / u) * (EXACT - 1);
      assert u * w == I63 - 1024;
      QuotientBelow(n, u, w);
      assert u * (n / u) <= u * w;
      assert n % u > 0 ==> u * (n / u + 1) <= u * w;
    }
  }

  lemma RoundAtTop(n: nat)
    requires I63 - 1024 < n < I63
    ensures RoundNat(n) == if n >= I63 - 512 then I63 else I63 - 1024
  {
    assert RoundAt(n, 2) == RoundAt(n, 4) == RoundAt(n, 8) == RoundAt(n, 16) == RoundAt(n, 32);
    assert RoundAt(n, 32) == RoundAt(n, 64) == RoundAt(n, 128) == RoundAt(n, 256) == RoundAt(n, 512) == RoundAt(n, 1024);
    assert n / 1024 == EXACT - 1 && n % 1024 == n - (I63 - 1024);
  }

  lemma RoundInt63()
    ensures RoundNat(I63) == I63
  {
    assert RoundAt(I63, 2) == RoundAt(I63, 4) == RoundAt(I63, 8) == RoundAt(I63, 16) == RoundAt(I63, 32);
    assert RoundAt(I63, 32) == RoundAt(I63, 64) == RoundAt(I63, 128) == RoundAt(I63, 256) == RoundAt(I63, 512);
    assert RoundAt(I63, 512) == RoundAt(I63, 1024) == RoundAt(I63, 2048);
  }

  /** Rounding an int64 leaves int64 exactly for the last 512 values. */
  lemma RoundingLeavesInt64(v: int)
    requires -I63 <= v < I63
    ensures -I63 <= RoundF64(v) < I63 <==> v < I63 - 512
  {
    var n: nat := if v < 0 then -v else v;
    if n <= EXACT {
    } else if n <= I63 - 1024 {
      RoundsWithin(n, 2);
    } else if n < I63 {
      RoundAtTop(n);
    } else {
      RoundInt63();
    }
  }

  /** Within int64 rounding moves a number by at most 512. */
  lemma {:induction false} RoundsNear(n: nat, u: nat)
    requires Unit(u) && n < I63
    ensures -512 <= RoundAt(n, u) - n <= 512
    decreases n - u
  {
    if n >= EXACT * u {
      assert u < 1024 && Unit(2 * u);
      RoundsNear(n, 2 * u);
    } else {
      assert n == u * (n / u) + n % u;
      assert (n / u + 1) * u == u * (n / u) + u;
    }
  }

  lemma RoundF64Near(v: int)
    requires -I63 < v < I63
    ensures -512 <= RoundF64(v) - v <= 512
  {
    if Abs(v) > EXACT { RoundsNear(Abs(v), 2); }
  }

  lemma {:induction false} RoundsAbove(n: nat, u: nat)
    requires u >= 2048 && 2 * n >= EXACT * u && n > I63
    ensures RoundAt(n, u) >= I63
    ensures RoundAt(n, u) == I63 <==> n <= I63 + 1024
    decreases n - u
  {
    if n >= EXACT * u {
      RoundsAbove(n, 2 * u);
      assert n > I63 + 1024;
    } else {
      var q, r := n / u, n % u;
      assert n == u * q + r;
      assert q >= EXACT / 2 by { if q < EXACT / 2 { TimesMonotone(u, q + 1, EXACT / 2); } }
      TimesMonotone(u, EXACT / 2, q);
      assert (q + 1) * u == u * q + u;
      if u == 2048 {
        TopUnit(n, q, r);
      } else {
        assert u * (EXACT / 2) > I63 + 1024;
      }
    }
  }

  lemma TopUnit(n: nat, q: nat, r: nat)
    requires n == 2048 * q + r && r < 2048 && q >= EXACT / 2
    ensures (if 2 * r > 2048 || (2 * r == 2048 && q % 2 == 1) then (q + 1) * 2048 else q * 2048) == I63
            <==> n <= I63 + 1024
  {}

  lemma RoundPastInt63(n: nat)
    requires n > I63
    ensures RoundNat(n) >= I63 && (RoundNat(n) == I63 <==> n <= I63 + 1024)
  {
    assert RoundAt(n, 2) == RoundAt(n, 4) == RoundAt(n, 8) == RoundAt(n, 16) == RoundAt(n, 32);
    assert RoundAt(n, 32) == RoundAt(n, 64) == RoundAt(n, 128) == RoundAt(n, 256) == RoundAt(n, 512);
    assert RoundAt(n, 512) == RoundAt(n, 1024) == RoundAt(n, 2048);
    RoundsAbove(n, 2048);
  }

  /** Which integers round to an int64. */
  lemma RoundingFits(v: int)
    ensures -I63 <= RoundF64(v) < I63 <==> -I63 - 1024 <= v < I63 - 512
  {
    hide RoundNat;
    if -I63 <= v < I63 {
      RoundingLeavesInt64(v);
    } else {
      if v == I63 { RoundInt63(); } else { RoundPastInt63(Abs(v)); }
    }
  }

  // ---------- the operator ----------

  /** What one operand adds to the sum, and the expiry it brings. */
  datatype Share = Share(num: int, exp: i64)

  function ShareOf(op: bytes): Share
  {
    if op == [] then Share(0, 0)
    else if op[0] == TAG_INT then
      if |op| < 9 then Share(0, 0) else
      Read64(op, 1);
      Share(FromTwosComplement(FromBE(op[1..9])), 0)
    else if op[0] == TAG_FLOAT then
      match ParseNumber(op[1..]) case None => Share(0, 0) case Some(v) => Share(v, 0)
    else if op[0] == TYPE_STRING then
      match DecodeValue(op)
      case None => Share(0, 0)
      case Some(r) =>
        match ParseNumber(r.payload) case None => Share(0, r.exp) case Some(v) => Share(v, r.exp)
    else Share(0, 0)
  }

  function Max(a: i64, b: i64): i64 { if a >= b then a else b }

  /** String values carry an expiry, deltas do not. */
  predicate Dated(op: bytes) { op != [] && op[0] == TYPE_STRING && DecodeValue(op).Some? }

  function FoldState(s: Share, op: bytes): Share
  {
    Share(s.num + ShareOf(op).num, if Dated(op) then Max(s.exp, ShareOf(op).exp) else s.exp)
  }

  /** counterValueMerger, or passthroughMerger when `frozen`. */
  class Merger {
    var cur: int
    var expireAt: i64
    const base: bytes
    const frozen: bool

    /** counterMerge.Merge on the first value delivered for a key. */
    constructor (value: bytes)
      ensures base == value
      ensures frozen == Refuses(value)
      ensures !frozen ==> Share(cur, expireAt) == Start(value)
    {
      base := value;
      cur, expireAt, frozen := 0, 0, false;
      if value == [] {
      } else if value[0] == TAG_INT || value[0] == TAG_FLOAT {
        cur := ShareOf(value).num;
      } else if value[0] == TYPE_STRING {
        var r := DecodeValue(value);
        if r == None {
          frozen := true;
        } else {
          expireAt := r.value.exp;
          if r.value.payload != [] {
            var n := ParseNumber(r.value.payload);
            if n == None { frozen := true; } else { cur := n.value; }
          }
        }
      } else {
        frozen := true;
      }
    }

    /** MergeNewer and MergeOlder both land here. */
    method Fold(op: bytes)
      modifies this
      ensures Share(cur, expireAt) ==
              if frozen then old(Share(cur, expireAt)) else FoldState(old(Share(cur, expireAt)), op)
    {
      if frozen || op == [] { return; }
      if op[0] == TAG_INT {
        if |op| < 9 { return; }
        Read64(op, 1);
        cur := cur + FromTwosComplement(FromBE(op[1..9]));
      } else if op[0] == TAG_FLOAT {
        var d := ParseNumber(op[1..]);
        if d == None { return; }
        cur := cur + d.value;
      } else if op[0] == TYPE_STRING {
        var r := DecodeValue(op);
        if r == None { return; }
        if r.value.exp > expireAt { expireAt := r.value.exp; }
        if r.value.payload == [] { return; }
        var n := ParseNumber(r.value.payload);
        if n == None { return; }
        cur := cur + n.value;
      }
    }

    method Finish() returns (v: bytes)
      ensures v == if frozen then base else Encoded(Share(cur, expireAt))
    {
      if frozen { return base; }
      return EncodeValue(Record(TYPE_STRING, expireAt, FormatInt(RoundF64(cur))));
    }
  }

  /** Base values the operator keeps untouched. */
  predicate Refuses(value: bytes)
  {
    value != [] && value[0] != TAG_INT && value[0] != TAG_FLOAT &&
    (value[0] == TYPE_STRING ==>
       DecodeValue(value) == None ||
       (DecodeValue(value).value.payload != [] && ParseNumber(DecodeValue(value).value.payload) == None))
  }

  function Start(value: bytes): Share
    requires !Refuses(value)
  {
    if value == [] then Share(0, 0) else ShareOf(value)
  }

  function Encoded(s: Share): bytes
  {
    EncodeValue(Record(TYPE_STRING, s.exp, FormatInt(RoundF64(s.num))))
  }

  function FoldAll(s: Share, ops: seq<bytes>): Share
  {
    if ops == [] then s else FoldState(FoldAll(s, ops[..|ops| - 1]), ops[|ops| - 1])
  }

  /** One group of operands, in the order the engine delivers them, folded to a value. */
  function MergeGroup(order: seq<bytes>): bytes
    requires order != []
  {
    if Refuses(order[0]) then order[0] else Encoded(FoldAll(Start(order[0]), order[1..]))
  }

  /** Driving a merger over a group, as a read or a compaction does. */
  method RunMerger(order: seq<bytes>) returns (v: bytes)
    requires order != []
    ensures v == MergeGroup(order)
  {
    var m := new Merger(order[0]);
    for i := 1 to |order|
      invariant m.base == order[0] && m.frozen == Refuses(order[0])
      invariant !m.frozen ==> Share(m.cur, m.expireAt) == FoldAll(Start(order[0]), order[1..i])
    {
      m.Fold(order[i]);
      assert order[1..i + 1][..i - 1] == order[1..i];
    }
    assert order[1..|order|] == order[1..];
    v := m.Finish();
  }

  // ---------- sums do not depend on order or grouping ----------

  /** Operands counters are made of: integer deltas and string values that hold an
      integer or nothing, with a non-negative expiry. */
  predicate Countable(op: bytes)
  {
    || (|op| >= 9 && op[0] == TAG_INT)
    || (op != [] && op[0] == TYPE_STRING && DecodeValue(op).Some? && DecodeValue(op).value.exp >= 0 &&
        Numeric(DecodeValue(op).value.payload))
  }

  /** An empty value counts as zero. */
  predicate Numeric(payload: bytes) { payload == [] || ParseNumber(payload).Some? }

  ghost predicate AllCountable(log: seq<bytes>) { forall x | x in log :: Countable(x) }

  /** Totals of a group: the sum and the latest expiry. */
  datatype Total = Total(sum: int, exp: i64)

  function One(op: bytes): Total { Total(ShareOf(op).num, Max(0, ShareOf(op).exp)) }

  function Plus(a: Total, b: Total): Total { Total(a.sum + b.sum, Max(a.exp, b.exp)) }

  function Shares(ops: seq<bytes>): seq<Total>
  {
    seq(|ops|, i requires 0 <= i < |ops| => One(ops[i]))
  }

  function AddUp(ts: seq<Total>): Total
  {
    if ts == [] then Total(0, 0) else Plus(ts[0], AddUp(ts[1..]))
  }

  function Sum(ops: seq<bytes>): Total { AddUp(Shares(ops)) }

  lemma {:induction false} SumBound(ts: seq<Total>)
    requires forall t | t in ts :: t.exp >= 0
    ensures AddUp(ts).exp >= 0
  {
    if ts != [] { SumBound(ts[1..]); }
  }

  lemma {:induction false} AddUpAppend(a: seq<Total>, b: seq<Total>)
    requires forall t | t in b :: t.exp >= 0
    ensures AddUp(a + b) == Plus(AddUp(a), AddUp(b))
  {
    if a == [] {
      assert a + b == b;
      SumBound(b);
    } else {
      AddUpAppend(a[1..], b);
      AddUpTail(a, b);
      PlusAssociative(a[0], AddUp(a[1..]), AddUp(b));
    }
  }

  lemma AddUpTail(a: seq<Total>, b: seq<Total>)
    requires a != []
    ensures AddUp(a + b) == Plus(a[0], AddUp(a[1..] + b))
  {
    assert (a + b)[1..] == a[1..] + b;
  }

  lemma PlusAssociative(x: Total, y: Total, z: Total)
    ensures Plus(x, Plus(y, z)) == Plus(Plus(x, y), z)
  {}

  lemma SumAppend(a: seq<bytes>, b: seq<bytes>)
    ensures Sum(a + b) == Plus(Sum(a), Sum(b))
    ensures Sum(a).exp >= 0
  {
    assert Shares(a + b) == Shares(a) + Shares(b);
    AddUpAppend(Shares(a), Shares(b));
    SumBound(Shares(a));
  }

  lemma SumOne(x: bytes)
    ensures Sum([x]) == One(x)
  {
    assert Shares([x]) == [One(x)] && [One(x)][1..] == [];
    assert AddUp([One(x)]) == Plus(One(x), Total(0, 0));
  }

  /** Taking the element at i out of a group and putting it first. */
  lemma SumExtract(a: seq<bytes>, i: nat)
    requires i < |a|
    ensures Sum(a) == Plus(One(a[i]), Sum(a[..i] + a[i + 1..]))
  {
    assert a == a[..i] + ([a[i]] + a[i + 1..]);
    SumAppend(a[..i], [a[i]] + a[i + 1..]);
    SumAppend([a[i]], a[i + 1..]);
    SumAppend(a[..i], a[i + 1..]);
    SumOne(a[i]);
  }

  lemma {:induction false} SumPermutation(a: seq<bytes>, b: seq<bytes>)
    requires multiset(a) == multiset(b)
    ensures Sum(a) == Sum(b)
    decreases |a|
  {
    if a == [] {
      assert |multiset(b)| == 0;
    } else {
      assert a[0] in multiset(b);
      var i :| 0 <= i < |b| && b[i] == a[0];
      WithoutFirst(a, b, i);
      SumPermutation(a[1..], b[..i] + b[i + 1..]);
      SumExtract(b, i);
      SumExtract(a, 0);
      assert a[..0] + a[1..] == a[1..];
    }
  }

  lemma WithoutFirst(a: seq<bytes>, b: seq<bytes>, i: nat)
    requires a != [] && i < |b| && b[i] == a[0] && multiset(a) == multiset(b)
    ensures multiset(a[1..]) == multiset(b[..i] + b[i + 1..])
  {
    assert b == b[..i] + [b[i]] + b[i + 1..];
    assert a == [a[0]] + a[1..];
    assert multiset(b) == multiset(b[..i]) + multiset{b[i]} + multiset(b[i + 1..]);
    assert multiset(a) == multiset{a[0]} + multiset(a[1..]);
    assert multiset(b[..i] + b[i + 1..]) == multiset(b[..i]) + multiset(b[i + 1..]);
    assert multiset(a[1..]) == multiset(a) - multiset{a[0]};
    assert multiset(b[..i] + b[i + 1..]) == multiset(b) - multiset{b[i]};
  }

  lemma {:induction false} FoldIsSum(s: Share, ops: seq<bytes>)
    requires s.exp >= 0 && AllCountable(ops)
    ensures FoldAll(s, ops) == Share(s.num + Sum(ops).sum, Max(s.exp, Sum(ops).exp))
    decreases |ops|
  {
    hide Countable, ShareOf, Dated, Sum;
    if ops == [] {
      NoSum();
    } else {
      var front, last := ops[..|ops| - 1], ops[|ops| - 1];
      FoldIsSum(s, front);
      assert ops == front + [last];
      SumAppend(front, [last]);
      SumAppend(front, []);
      SumOne(last);
      CountableStart(last);
    }
  }

  lemma NoSum()
    ensures Sum([]) == Total(0, 0)
  {}

  lemma CountableStart(op: bytes)
    requires Countable(op)
    ensures !Refuses(op) && Start(op) == ShareOf(op) && ShareOf(op).exp >= 0
    ensures !Dated(op) ==> ShareOf(op).exp == 0
  {
  }

  /** A group of countable operands, delivered in any order, folds to one value. */
  lemma GroupValue(group: seq<bytes>, order: seq<bytes>)
    requires group != [] && multiset(order) == multiset(group) && AllCountable(group)
    ensures order != [] && MergeGroup(order) == Encoded(Share(Sum(group).sum, Sum(group).exp))
  {
    hide Countable, ShareOf, Sum, Refuses, Start, Encoded, FoldAll, One;
    SameRecords(group, order);
    var first, rest := order[0], order[1..];
    CountableStart(first);
    FoldIsSum(ShareOf(first), rest);
    FirstAndRest(order);
    SumPermutation(order, group);
  }

  lemma SameRecords(group: seq<bytes>, order: seq<bytes>)
    requires group != [] && multiset(order) == multiset(group) && AllCountable(group)
    ensures order != [] && AllCountable(order) && AllCountable(order[1..])
  {
    hide Countable;
    assert group[0] in multiset(order);
    forall x | x in order ensures Countable(x) { assert x in multiset(group); }
  }

  lemma FirstAndRest(order: seq<bytes>)
    requires order != []
    ensures Sum(order).sum == ShareOf(order[0]).num + Sum(order[1..]).sum
    ensures Sum(order).exp == Max(Max(0, ShareOf(order[0]).exp), Sum(order[1..]).exp)
  {
    hide Sum, ShareOf;
    SumExtract(order, 0);
    assert order[..0] + order[1..] == order[1..];
  }

  lemma EncodedShare(s: Share)
    requires s.exp >= 0
    ensures Countable(Encoded(s)) && ShareOf(Encoded(s)) == Share(RoundF64(s.num), s.exp)
  {
    ValueRoundTrip(Record(TYPE_STRING, s.exp, FormatInt(RoundF64(s.num))));
    NumberRoundTrip(RoundF64(s.num));
  }

  /** Materialising a sum keeps it exactly when the sum is a double: one up to 2^53 times
      a power of two. */
  lemma MaterialisedExactly(s: Share)
    requires s.exp >= 0
    ensures ShareOf(Encoded(s)) == s <==> IsDouble(s.num)
    ensures Abs(s.num) <= EXACT ==> ShareOf(Encoded(s)) == s
  {
    hide ShareOf, Encoded, RoundF64, IsDouble;
    EncodedShare(s);
    RoundKeeps(s.num);
    if Abs(s.num) <= EXACT { Small(s.num); }
  }

  /** What a read of a key's records gives, in whatever order they are delivered. */
  function Folded(log: seq<bytes>): bytes { Encoded(Share(Sum(log).sum, Sum(log).exp)) }

  lemma FoldedDecodes(log: seq<bytes>)
    ensures DecodeValue(Folded(log)) ==
            Some(Record(TYPE_STRING, Sum(log).exp, FormatInt(RoundF64(Sum(log).sum))))
  {
    hide Sum, FormatInt, RoundF64;
    ValueRoundTrip(Record(TYPE_STRING, Sum(log).exp, FormatInt(RoundF64(Sum(log).sum))));
  }

  /** A lone materialised value reads as itself. */
  lemma FoldedOnce(s: Share)
    requires s.exp >= 0
    ensures Folded([Encoded(s)]) == Encoded(s)
  {
    hide ShareOf, Encoded, RoundF64, IsDouble, Sum;
    EncodedShare(s);
    SumOne(Encoded(s));
    RoundKeeps(RoundF64(s.num));
    RoundKeeps(s.num);
    SameWhenRounded(Share(RoundF64(s.num), s.exp), s);
  }

  lemma SameWhenRounded(a: Share, b: Share)
    requires RoundF64(a.num) == RoundF64(b.num) && a.exp == b.exp
    ensures Encoded(a) == Encoded(b)
  {}

  // ---------- whole runs ----------

  /** The engine's life of one counter key: increments arrive, and contiguous groups
      of its records are compacted in whatever delivery order. */
  datatype Step = Increment(d: i64) | Compact(lo: nat, hi: nat, order: seq<bytes>)

  ghost predicate Enabled(log: seq<bytes>, s: Step)
  {
    s.Compact? ==> s.lo < s.hi <= |log| && multiset(s.order) == multiset(log[s.lo..s.hi])
  }

  ghost function Next(log: seq<bytes>, s: Step): seq<bytes>
    requires Enabled(log, s)
  {
    match s
    case Increment(d) => log + [EncodeIntDelta(d)]
    case Compact(lo, hi, order) =>
      assert |multiset(order)| == hi - lo;
      log[..lo] + [MergeGroup(order)] + log[hi..]
  }

  /** The value a compaction writes is the sum of its group. */
  ghost predicate Materialises(log: seq<bytes>, s: Step)
    requires Enabled(log, s)
  {
    s.Compact? ==> IsDouble(Sum(log[s.lo..s.hi]).sum)
  }

  /** A run in which every materialised value is a double, as all values within 2^53 are. */
  ghost predicate Runs(log: seq<bytes>, steps: seq<Step>)
    decreases |steps|
  {
    steps == [] ||
    (Enabled(log, steps[0]) && Materialises(log, steps[0]) && Runs(Next(log, steps[0]), steps[1..]))
  }

  ghost function Final(log: seq<bytes>, steps: seq<Step>): seq<bytes>
    requires Runs(log, steps)
    decreases |steps|
  {
    if steps == [] then log else Final(Next(log, steps[0]), steps[1..])
  }

  function Added(steps: seq<Step>): int
  {
    if steps == [] then 0 else (if steps[0].Increment? then steps[0].d else 0) + Added(steps[1..])
  }

  lemma DeltaShare(d: i64)
    ensures Countable(EncodeIntDelta(d)) && ShareOf(EncodeIntDelta(d)) == Share(d, 0)
  {
    assert EncodeIntDelta(d)[1..9] == BE(TwosComplement(d), 8);
    BE64(TwosComplement(d));
  }

  /** Replacing a group by its materialised value keeps the total exactly when the group's
      sum is a double; the expiry and the kind of records it keeps always. */
  lemma CompactKeeps(log: seq<bytes>, lo: nat, hi: nat, order: seq<bytes>)
    requires Enabled(log, Compact(lo, hi, order)) && AllCountable(log)
    ensures var log' := Next(log, Compact(lo, hi, order));
            && AllCountable(log') && log' != [] && Sum(log').exp == Sum(log).exp
            && Sum(log').sum == Sum(log).sum - Sum(log[lo..hi]).sum + RoundF64(Sum(log[lo..hi]).sum)
            && (Sum(log').sum == Sum(log).sum <==> IsDouble(Sum(log[lo..hi]).sum))
  {
    hide ShareOf, Countable, One, Encoded, Sum, RoundF64, IsDouble, MergeGroup;
    var a, g, b := log[..lo], log[lo..hi], log[hi..];
    assert log == a + g + b;
    GroupValue(g, order);
    GroupShare(g);
    var r := MergeGroup(order);
    SliceReplaced(a, g, b, r);
    RoundKeeps(Sum(g).sum);
    forall x | x in a + [r] + b ensures Countable(x) { assert x in a || x == r || x in b; }
  }

  lemma SliceTotal(a: seq<bytes>, g: seq<bytes>, b: seq<bytes>)
    ensures Sum(a + g + b) == Plus(Plus(Sum(a), Sum(g)), Sum(b))
  {
    hide Sum;
    SumAppend(a + g, b);
    SumAppend(a, g);
  }

  lemma SliceReplaced(a: seq<bytes>, g: seq<bytes>, b: seq<bytes>, r: bytes)
    requires One(r).exp == Sum(g).exp
    ensures var t, t' := Sum(a + g + b), Sum(a + [r] + b);
            t'.sum == t.sum - Sum(g).sum + One(r).sum && t'.exp == t.exp
  {
    hide One, Sum;
    SliceTotal(a, g, b);
    SliceTotal(a, [r], b);
    SumOne(r);
  }

  lemma GroupShare(g: seq<bytes>)
    ensures var r := Encoded(Share(Sum(g).sum, Sum(g).exp));
            Countable(r) && One(r) == Total(RoundF64(Sum(g).sum), Sum(g).exp)
  {
    hide Countable, ShareOf, Encoded, Sum, RoundF64;
    SumAppend(g, []);
    EncodedShare(Share(Sum(g).sum, Sum(g).exp));
  }

  lemma IncrementAdds(log: seq<bytes>, d: i64)
    ensures Sum(log + [EncodeIntDelta(d)]) == Total(Sum(log).sum + d, Sum(log).exp)
  {
    hide Sum, ShareOf, Countable, EncodeIntDelta;
    DeltaShare(d);
    SumAppend(log, [EncodeIntDelta(d)]);
    SumOne(EncodeIntDelta(d));
  }

  /** Whatever increments and compactions happen, the records keep the total. */
  lemma {:induction false} RunKeepsTotal(log: seq<bytes>, steps: seq<Step>)
    requires Runs(log, steps) && AllCountable(log)
    ensures AllCountable(Final(log, steps))
    ensures Sum(Final(log, steps)) == Total(Sum(log).sum + Added(steps), Sum(log).exp)
    decreases |steps|
  {
    hide Sum, Countable, IsDouble, MergeGroup, EncodeIntDelta;
    if steps != [] {
      match steps[0] {
        case Increment(d) =>
          IncrementAdds(log, d);
          DeltaShare(d);
        case Compact(lo, hi, order) =>
          CompactKeeps(log, lo, hi, order);
      }
      RunKeepsTotal(Next(log, steps[0]), steps[1..]);
    }
  }

  /** The main result. A counter starts absent (no record) or as one string that is empty
      or an integer. After any run of increments and compactions whose materialised values
      are doubles, a read that delivers the surviving records in any order yields the
      double nearest to the start value plus every increment, with the start value's
      expiry: that sum itself when it is a double. No increment is lost and no grouping
      shows. */
  lemma MergeIndependence(log: seq<bytes>, steps: seq<Step>, order: seq<bytes>)
    requires |log| <= 1 && AllCountable(log)
    requires Runs(log, steps) && Final(log, steps) != []
    requires multiset(order) == multiset(Final(log, steps))
    ensures var total := Sum(log).sum + Added(steps);
            && order != []
            && MergeGroup(order) == EncodeValue(Record(TYPE_STRING, Sum(log).exp, FormatInt(RoundF64(total))))
            && (RoundF64(total) == total <==> IsDouble(total))
            && (Abs(total) <= EXACT ==> RoundF64(total) == total)
  {
    hide Sum, Countable, IsDouble, MergeGroup, RoundF64, Final, Runs, Added, FormatInt, EncodeValue, AllCountable;
    var total := Sum(log).sum + Added(steps);
    RunKeepsTotal(log, steps);
    GroupValue(Final(log, steps), order);
    RoundKeeps(total);
    if Abs(total) <= EXACT { Small(total); }
  }

  /** Beyond 2^53 groupings differ: 2^53 and two increments give 2^53 + 2 when the
      increments are folded together first, and 2^53 when they are folded one by one. */
  lemma GroupingShowsPast2To53()
    ensures var base, one := Encoded(Share(EXACT, 0)), EncodeIntDelta(1);
            && ShareOf(MergeGroup([base, MergeGroup([one, one])])).num == EXACT + 2
            && ShareOf(MergeGroup([MergeGroup([base, one]), one])).num == EXACT
  {
    var base, one := Encoded(Share(EXACT, 0)), EncodeIntDelta(1);
    DeltaShare(1);
    EncodedShare(Share(EXACT, 0));
    PairValue([one, one]); Rounded(2);
    PairValue([base, one]); Rounded(EXACT + 1);
    var two, stuck := MergeGroup([one, one]), MergeGroup([base, one]);
    EncodedShare(Share(2, 0));
    EncodedShare(Share(EXACT + 1, 0));
    PairValue([base, two]); Rounded(EXACT + 2);
    PairValue([stuck, one]);
    EncodedShare(Share(EXACT + 2, 0));
  }

  lemma PairValue(g: seq<bytes>)
    requires |g| == 2 && Countable(g[0]) && Countable(g[1])
    requires ShareOf(g[0]).exp == 0 && ShareOf(g[1]).exp == 0
    ensures MergeGroup(g) == Encoded(Share(ShareOf(g[0]).num + ShareOf(g[1]).num, 0))
  {
    GroupValue(g, g);
    assert g == [g[0]] + [g[1]];
    SumAppend([g[0]], [g[1]]);
    SumOne(g[0]);
    SumOne(g[1]);
  }

  lemma Rounded(v: int)
    requires v == 2 || v == EXACT + 1 || v == EXACT + 2
    ensures RoundF64(v) == if v == EXACT + 1 then EXACT else v
  {
    assert v > EXACT ==> RoundNat(v) == RoundAt(v, 2);
  }

  /** A non-string value under an increment. When the engine delivers the value first it
      is kept exactly when its type tag is not one of the two operand tags, which hash (1)
      and list (2) share; when it delivers the increment first the value is always lost. */
  lemma NonStringBase(r: Record, d: i64)
    requires r.typ in {TYPE_HASH, TYPE_LIST, TYPE_SET, TYPE_ZSET}
    ensures MergeGroup([EncodeValue(r), EncodeIntDelta(d)]) == EncodeValue(r)
            <==> r.typ !in {TYPE_HASH, TYPE_LIST}
    ensures MergeGroup([EncodeIntDelta(d), EncodeValue(r)]) != EncodeValue(r)
  {
    var v, op := EncodeValue(r), EncodeIntDelta(d);
    assert v[0] == r.typ && op[0] == TAG_INT;
  }

  /** No digit, sign, point or spelling of infinity starts it: no number. */
  predicate NoNumber(payload: bytes)
  {
    payload != [] && !Digit(payload[0]) && payload[0] !in {PLUS, MINUS, 46, 73, 105}
  }

  /** A string that is no number under an increment: kept when the engine delivers it
      first, dropped for the increment alone when the engine delivers the increment first.
      The expiry survives in both cases. */
  lemma NonNumericBase(r: Record, d: i64)
    requires r.typ == TYPE_STRING && r.exp >= 0 && NoNumber(r.payload)
    ensures MergeGroup([EncodeValue(r), EncodeIntDelta(d)]) == EncodeValue(r)
    ensures MergeGroup([EncodeIntDelta(d), EncodeValue(r)]) == Encoded(Share(d, r.exp))
  {
    hide EncodeIntDelta, EncodeValue, Encoded, RoundF64;
    var v, op := EncodeValue(r), EncodeIntDelta(d);
    NonNumericShare(r);
    DeltaShare(d);
    DeltaIs(d);
    var ops: seq<bytes> := [v];
    assert [op, v][1..] == ops && ops[..0] == [];
    assert FoldAll(ShareOf(op), ops) == FoldState(ShareOf(op), v);
  }

  lemma DeltaIs(d: i64)
    ensures !Refuses(EncodeIntDelta(d)) && Start(EncodeIntDelta(d)) == ShareOf(EncodeIntDelta(d))
  {}

  lemma NonNumericShare(r: Record)
    requires r.typ == TYPE_STRING && NoNumber(r.payload)
    ensures Refuses(EncodeValue(r)) && Dated(EncodeValue(r)) && ShareOf(EncodeValue(r)) == Share(0, r.exp)
  {
    ValueRoundTrip(r);
    assert EncodeValue(r)[0] == TYPE_STRING;
    assert ParseNumber(r.payload) == None;
  }
}
