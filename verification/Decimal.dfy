/** Decimal integers as counters are stored: formatting, parsing and their round trip. */
module Decimal {
  import opened Bytes

  const MINUS: byte := 45
  const PLUS: byte := 43
  const ZERO: byte := 48

  predicate Digit(b: byte) { ZERO <= b <= ZERO + 9 }

  function FormatNat(n: nat): (b: bytes)
    ensures b != [] && forall i | 0 <= i < |b| :: Digit(b[i])
  {
    if n < 10 then [ZERO + n] else FormatNat(n / 10) + [ZERO + n % 10]
  }

  function FormatInt(v: int): bytes
  {
    if v < 0 then [MINUS] + FormatNat(-v) else FormatNat(v)
  }

  function DigitsValue(b: bytes): nat
    requires forall i | 0 <= i < |b| :: Digit(b[i])
  {
    if b == [] then 0 else assert Digit(b[|b| - 1]); DigitsValue(b[..|b| - 1]) * 10 + (b[|b| - 1] - ZERO)
  }

  function ParseNat(b: bytes): Option<nat>
  {
    if b != [] && forall i | 0 <= i < |b| :: Digit(b[i]) then Some(DigitsValue(b)) else None
  }

  /** An optional sign and at least one digit, as strconv.ParseInt in base 10 reads it. */
  function ParseNumber(b: bytes): Option<int>
  {
    if b != [] && (b[0] == MINUS || b[0] == PLUS) then
      match ParseNat(b[1..])
      case None => None
      case Some(n) => Some(if b[0] == MINUS then -(n as int) else n)
    else
      match ParseNat(b) case None => None case Some(n) => Some(n)
  }

  function ParseInt64(b: bytes): Option<i64>
  {
    match ParseNumber(b)
    case Some(v) => if -I63 <= v < I63 then Some(v) else None
    case None => None
  }

  lemma {:induction false} NatRoundTrip(n: nat)
    ensures DigitsValue(FormatNat(n)) == n
  {
    if n >= 10 {
      NatRoundTrip(n / 10);
      var b := FormatNat(n);
      assert b[..|b| - 1] == FormatNat(n / 10);
    }
  }

  lemma NumberRoundTrip(v: int)
    ensures ParseNumber(FormatInt(v)) == Some(v)
  {
    if v < 0 {
      NatRoundTrip(-v);
      assert FormatInt(v)[1..] == FormatNat(-v);
    } else {
      NatRoundTrip(v);
      assert Digit(FormatNat(v)[0]);
    }
  }

  // ---------- the notation, by position ----------

  predicate IsDigit(c: byte) { '0' as int <= c <= '9' as int }

  predicate Numeral(b: bytes) { b != [] && forall i | 0 <= i < |b| :: IsDigit(b[i]) }

  /** What is read as a number: digits after at most one sign. */
  lemma ParsesExactly(b: bytes)
    ensures ParseNumber(b).Some? <==>
              Numeral(b) || (b != [] && (b[0] == '-' as int || b[0] == '+' as int) && Numeral(b[1..]))
  {
    if Numeral(b) { assert Digit(b[0]); }
  }

  /** One more digit is ten times the number and the digit. */
  lemma ParseAppend(b: bytes, d: nat)
    requires Numeral(b) && d <= 9
    ensures ParseNumber(b).Some?
    ensures ParseNumber(b + ['0' as int + d]) == Some(10 * ParseNumber(b).value + d)
    ensures ParseNumber(['0' as int + d]) == Some(d)
  {
    assert Digit(b[0]);
    var c := b + ['0' as int + d];
    assert c[..|b|] == b && c[0] == b[0];
    var one := ['0' as int + d];
    assert one[..0] == [] && DigitsValue(one[..0]) == 0;
    assert DigitsValue(one) == d;
  }

  lemma ParseSign(b: bytes)
    requires Numeral(b)
    ensures ParseNumber(b).Some?
    ensures ParseNumber(['-' as int] + b) == Some(-ParseNumber(b).value)
    ensures ParseNumber(['+' as int] + b) == ParseNumber(b)
  {
    assert Digit(b[0]);
    assert (['-' as int] + b)[1..] == b && (['+' as int] + b)[1..] == b;
  }

  function Pow10(k: nat): (p: nat)
    ensures p > 0
  {
    if k == 0 then 1 else 10 * Pow10(k - 1)
  }

  lemma QuotientIs(n: nat, d: nat, q: nat, r: nat)
    requires d > 0 && n == d * q + r && r < d
    ensures n / d == q
  {
    var x, y := n / d, n % d;
    assert n == d * x + y;
    if x < q { TimesMore(d, x, q); }
    if q < x { TimesMore(d, q, x); }
  }

  lemma {:induction false} TimesMore(d: nat, a: nat, b: nat)
    requires a < b
    ensures d * a + d <= d * b
    decreases b
  {
    if a + 1 < b { TimesMore(d, a, b - 1); }
    assert d * b == d * (b - 1) + d;
  }

  lemma DivideTwice(n: nat, p: nat)
    requires p > 0
    ensures n / (10 * p) == n / 10 / p
  {
    var m := n / 10;
    var q, r := m / p, m % p;
    assert m == p * q + r;
    assert n == 10 * p * q + (10 * r + n % 10) by { assert 10 * (p * q) == 10 * p * q; }
    QuotientIs(n, 10 * p, q, 10 * r + n % 10);
  }

  /** Each digit of the text of a number stands for its power of ten, the most significant
      first and not a zero. */
  lemma {:induction false} FormatDigits(n: nat, i: nat)
    requires i < |FormatNat(n)|
    ensures FormatNat(n)[i] == '0' as int + n / Pow10(|FormatNat(n)| - 1 - i) % 10
    ensures n > 0 ==> FormatNat(n)[0] != '0' as int
  {
    var b := FormatNat(n);
    if n >= 10 {
      var front := FormatNat(n / 10);
      assert |b| == |front| + 1;
      if i < |front| {
        FormatDigits(n / 10, i);
        DivideTwice(n, Pow10(|front| - 1 - i));
        assert Pow10(|b| - 1 - i) == 10 * Pow10(|front| - 1 - i);
      } else {
        FormatDigits(n / 10, 0);
        assert Pow10(|b| - 1 - i) == 1;
      }
    }
  }

  lemma FormatSign(v: int)
    ensures FormatInt(v) == if v < 0 then ['-' as int] + FormatInt(-v) else FormatNat(v)
  {}
}
