/** Sorted-set scores as 64-bit patterns of IEEE 754 doubles. */
module Scores {
  /*
   EncodeScore turns a pattern into a number whose unsigned order is the order of the
   doubles. The bit operations of the source are written as arithmetic: flipping the sign
   bit adds or removes 2^63, flipping every bit subtracts from 2^64 - 1.
   */
  import opened Bytes

  const NEG_ZERO: u64 := I63
  const EXP_ONE: int := 0x10_0000_0000_0000   // 2^52, the least exponent step
  const INF: u64 := 0x7FF * EXP_ONE

  predicate Negative(u: u64) { u >= I63 }

  function Magnitude(u: u64): u64 { if Negative(u) then u - I63 else u }

  predicate IsNaN(u: u64) { Magnitude(u) > INF }

  function FlipSign(u: u64): u64 { if u >= I63 then u - I63 else u + I63 }

  function FlipAll(u: u64): u64 { U64 - 1 - u }

  function EncodeScore(u: u64): u64
  {
    if Negative(u) then FlipAll(u) else FlipSign(u)
  }

  function DecodeScore(c: u64): u64
  {
    if c >= I63 then FlipSign(c) else FlipAll(c)
  }

  /** orderPreserving of a signed time: its two's complement with the sign bit flipped. */
  function TwosComplement(v: i64): u64 { if v >= 0 then v else v + U64 }

  function FromTwosComplement(u: u64): i64 { if u < I63 then u else u - U64 }

  function OrderPreserving(v: i64): u64 { FlipSign(TwosComplement(v)) }

  function UnOrderPreserving(u: u64): i64 { FromTwosComplement(FlipSign(u)) }

  // ---------- the numbers behind the patterns ----------

  function Pow2(n: nat): nat { if n == 0 then 1 else 2 * Pow2(n - 1) }

  /** The magnitude of a non-NaN pattern, scaled by 2^1074 so that it is an integer.
      Infinity comes out as 2^52 * 2^2046, above every finite magnitude. */
  function ScaledMagnitude(m: u64): nat
    requires m <= INF
  {
    var e, f := m / EXP_ONE, m % EXP_ONE;
    if e == 0 then f else (EXP_ONE + f) * Pow2(e - 1)
  }

  /** The value a non-NaN pattern denotes, times 2^1074. */
  function Value(u: u64): int
    requires !IsNaN(u)
  {
    var m: int := ScaledMagnitude(Magnitude(u));
    if Negative(u) then -m else m
  }

  lemma MagnitudeStep(m: u64)
    requires m < INF
    ensures ScaledMagnitude(m) < ScaledMagnitude(m + 1)
  {
    var e, f := m / EXP_ONE, m % EXP_ONE;
    if f + 1 < EXP_ONE {
      assert (m + 1) / EXP_ONE == e && (m + 1) % EXP_ONE == f + 1;
      if e > 0 { Scale(EXP_ONE + f, Pow2(e - 1)); Pow2Positive(e - 1); }
    } else {
      assert (m + 1) / EXP_ONE == e + 1 && (m + 1) % EXP_ONE == 0;
      if e > 0 {
        assert Pow2(e) == 2 * Pow2(e - 1);
        NextBinade(f, Pow2(e - 1));
        Pow2Positive(e - 1);
      }
    }
  }

  lemma Scale(x: nat, p: nat)
    ensures (x + 1) * p == x * p + p
  {}

  lemma NextBinade(f: nat, p: nat)
    requires f == EXP_ONE - 1
    ensures EXP_ONE * (2 * p) == (EXP_ONE + f) * p + p
  {}

  lemma {:induction false} Pow2Positive(n: nat)
    ensures Pow2(n) > 0
  { if n > 0 { Pow2Positive(n - 1); } }

  lemma {:induction false} MagnitudeMonotone(m: u64, n: u64)
    requires m < n <= INF
    ensures ScaledMagnitude(m) < ScaledMagnitude(n)
    decreases n - m
  {
    MagnitudeStep(m);
    if m + 1 < n { MagnitudeMonotone(m + 1, n); }
  }

  // ---------- what the encodings keep ----------

  lemma ScoreBijection(u: u64)
    ensures DecodeScore(EncodeScore(u)) == u
    ensures EncodeScore(DecodeScore(u)) == u
  {}

  /** Unsigned order of the encoding is the numeric order of the doubles; the two
      zeros, equal as numbers, keep the order -0 below +0. */
  lemma ScoreOrder(u: u64, v: u64)
    requires !IsNaN(u) && !IsNaN(v)
    ensures EncodeScore(u) < EncodeScore(v) <==>
              Value(u) < Value(v) || (u == NEG_ZERO && v == 0)
  {
    var m, n := Magnitude(u), Magnitude(v);
    if m < n { MagnitudeMonotone(m, n); }
    if n < m { MagnitudeMonotone(n, m); }
    if 0 < m { MagnitudeMonotone(0, m); }
    if 0 < n { MagnitudeMonotone(0, n); }
    assert ScaledMagnitude(0) == 0;
  }

  /** Equal numbers have equal encodings exactly when they are not the two zeros, which are
      the only patterns of one number. */
  lemma ScoreEquality(u: u64, v: u64)
    requires !IsNaN(u) && !IsNaN(v)
    ensures Value(u) == Value(v) <==> u == v || {u, v} == {0, NEG_ZERO}
    ensures EncodeScore(u) == EncodeScore(v) <==> Value(u) == Value(v) && {u, v} != {0, NEG_ZERO}
  {
    ScoreOrder(u, v);
    ScoreOrder(v, u);
    assert {u, v} == {0, NEG_ZERO} <==> (u == 0 && v == NEG_ZERO) || (u == NEG_ZERO && v == 0);
    assert ScaledMagnitude(0) == 0;
  }

  /** The comparisons of the double type, on patterns. */
  predicate FloatEq(u: u64, v: u64)
  {
    !IsNaN(u) && !IsNaN(v) && (u == v || (Magnitude(u) == 0 && Magnitude(v) == 0))
  }

  predicate FloatLe(u: u64, v: u64)
  {
    !IsNaN(u) && !IsNaN(v) && (EncodeScore(u) <= EncodeScore(v) || FloatEq(u, v))
  }

  lemma FloatCompares(u: u64, v: u64)
    requires !IsNaN(u) && !IsNaN(v)
    ensures FloatEq(u, v) <==> Value(u) == Value(v)
    ensures FloatLe(u, v) <==> Value(u) <= Value(v)
  {
    ScoreOrder(u, v);
    ScoreOrder(v, u);
    ScoreEquality(u, v);
    assert {u, v} == {0, NEG_ZERO} <==> (u == 0 && v == NEG_ZERO) || (u == NEG_ZERO && v == 0);
  }

  /** Scores on which equality of numbers is equality of patterns. */
  predicate Plain(u: u64) { !IsNaN(u) && u != NEG_ZERO }

  lemma TimeOrder(s: i64, t: i64)
    ensures OrderPreserving(s) < OrderPreserving(t) <==> s < t
    ensures UnOrderPreserving(OrderPreserving(s)) == s
    ensures 0 <= OrderPreserving(s) < U64
  {}

  lemma TimeDecodeEncode(u: u64)
    ensures OrderPreserving(UnOrderPreserving(u)) == u
  {}
}
