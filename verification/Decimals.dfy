/** What decimal digits, powers of ten and the integer beside a double are, independently of how they are
    computed. */
module Decimals {
  import opened Bytes
  import opened Json
  import opened Numbers

  lemma TensArePositive(k: nat)
    ensures Tens(k) > 0
  {
  }

  lemma {:induction false} DigitsAreBelow(t: Bytes, a: nat, b: nat)
    requires a <= b <= |t| && forall i :: a <= i < b ==> '0' as int <= t[i] <= '9' as int
    ensures DigitsValue(t, a, b) < Tens(b - a)
    decreases b - a
  {
    if a < b {
      DigitsAreBelow(t, a, b - 1);
      DigitsValueStep(t, a, b);
    }
  }

  /** Digit `k` of the number read is the byte at `k`, counted from the right in tens. */
  lemma {:induction false} DigitsAreDecimal(t: Bytes, a: nat, k: nat, b: nat)
    requires a <= k < b <= |t| && forall i :: a <= i < b ==> '0' as int <= t[i] <= '9' as int
    ensures DigitsValue(t, a, b) < Tens(b - a) && Tens(b - 1 - k) > 0
    ensures DigitsValue(t, a, b) / Tens(b - 1 - k) % 10 == t[k] as int - '0' as int
    decreases b - a
  {
    hide Tens, DigitsValue;
    var d: nat := t[b - 1] - ZERO;
    TensArePositive(b - 1 - k);
    DigitsAreBelow(t, a, b);
    DigitsValueStep(t, a, b);
    if k < b - 1 {
      DigitsAreDecimal(t, a, k, b - 1);
      TensStep(b - 1 - k);
      ShiftOne(DigitsValue(t, a, b - 1), d, Tens(b - 2 - k));
    } else {
      TensStep(0);
      LastDigit(DigitsValue(t, a, b - 1), d);
    }
  }

  lemma TensStep(k: nat)
    ensures Tens(k) == if k == 0 then 1 else 10 * Tens(k - 1)
  {
  }

  lemma LastDigit(front: nat, d: nat)
    requires d < 10
    ensures (10 * front + d) / 1 % 10 == d
  {
  }

  /** Dropping the last digit. */
  lemma ShiftOne(front: nat, d: nat, tens: nat)
    requires d < 10 && tens > 0
    ensures (10 * front + d) / (10 * tens) == front / tens
  {
    var q, r := front / tens, front % tens;
    assert front == q * tens + r;
    assert 10 * front + d == q * (10 * tens) + (10 * r + d);
    QuotientIs(10 * front + d, 10 * tens, q, 10 * r + d);
  }

  lemma QuotientIs(n: nat, m: nat, q: nat, r: nat)
    requires m > 0 && r < m && n == q * m + r
    ensures n / m == q
  {
    var e := n / m;
    assert n == e * m + n % m;
    MultipleIsFar(e - q, m);
    assert (e - q) * m == e * m - q * m;
  }

  lemma MultipleIsFar(x: int, m: nat)
    ensures x >= 1 ==> x * m >= m
    ensures x <= -1 ==> x * m + m <= 0
  {
  }

  /** The text of a number has no zero in front. */
  lemma {:induction false} NoLeadingZero(n: nat)
    ensures NatText(n)[0] == '0' as int ==> n == 0 && NatText(n) == Lit("0")
  {
    if n >= 10 {
      NoLeadingZero(n / 10);
    }
  }

  /** `%d` writes a minus sign for negative numbers, and then the decimal digits of the magnitude, which are
      the number again. */
  lemma IntTextIsDecimal(n: int)
    ensures var t := IntText(n);
      var start := if n < 0 then 1 else 0;
      (n < 0 <==> t[0] == '-' as int) && start < |t| && (forall k :: start <= k < |t| ==> IsDigit(t[k]))
      && (if n < 0 then -n else n) == DigitsValue(t, start, |t|) && (t[start] == '0' as int ==> n == 0 && |t| == 1)
  {
    var t := IntText(n);
    var start, m := if n < 0 then 1 else 0, if n < 0 then -n else n;
    assert t[start..start + |NatText(m)|] == NatText(m);
    DigitsValueOfNat(t, start, m);
    NoLeadingZero(m);
  }

  /** Scaling multiplies by a power of ten or divides by one. */
  lemma ScaledByTens(v: real, k: int)
    requires k >= 0
    ensures Tens(k) > 0 && Scaled(v, k) == v * Tens(k) as real && Scaled(v, -k) * Tens(k) as real == v
  {
    TensArePositive(k);
    ScaledUp(v, k);
    ScaledDown(v, k);
  }

  lemma {:induction false} ScaledUp(v: real, k: nat)
    ensures Scaled(v, k) == v * Tens(k) as real
    decreases k
  {
    if k > 0 {
      ScaledUp(v * 10.0, k - 1);
      Reassociated(v, 0.0, Tens(k - 1) as real);
    }
  }

  lemma {:induction false} ScaledDown(v: real, k: int)
    requires k >= 0
    ensures Scaled(v, -k) * Tens(k) as real == v
    decreases k
  {
    if k > 0 {
      ScaledDown(v / 10.0, k - 1);
      Reassociated(v, Scaled(v / 10.0, -(k - 1)), Tens(k - 1) as real);
    }
  }

  lemma Reassociated(v: real, less: real, tens: real)
    ensures v * 10.0 * tens == v * (10.0 * tens)
    ensures less * tens == v / 10.0 ==> less * (10.0 * tens) == v
  {
    assert less * (10.0 * tens) == less * tens * 10.0;
  }

  /** The integer of a number node: towards zero within the ints, and the nearest of them outside. */
  lemma ValueIntRounds(v: real)
    ensures var n := ValueInt(v);
      if v >= 2147483647.0 then n == 2147483647
      else if v <= -2147483648.0 then n == -2147483648
      else if v >= 0.0 then n as real <= v < n as real + 1.0
      else n as real - 1.0 < v <= n as real
  {
  }
}
