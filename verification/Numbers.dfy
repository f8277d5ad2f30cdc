/** Number text: `%d` printing, and the decimal reading that strtod does on the characters
    parse_number copies. Values are exact reals; rounding to a double is not modelled. */
module Numbers {
  import opened Bytes

  const MAX_TOKEN: nat := 63
  const LOWER_E: byte := 101
  const UPPER_E: byte := 69

  predicate IsDigit(c: byte) {
    ZERO <= c <= NINE
  }

  predicate IsNumberChar(c: byte) {
    IsDigit(c) || c == PLUS || c == MINUS || c == LOWER_E || c == UPPER_E || c == DOT
  }

  // ---- printing ----

  function NatText(n: nat): (t: Bytes)
    ensures |t| > 0
    ensures forall i :: 0 <= i < |t| ==> IsDigit(t[i])
  {
    if n < 10 then [ZERO + n] else NatText(n / 10) + [ZERO + n % 10]
  }

  /** sprintf("%d"). */
  function IntText(n: int): (t: Bytes)
    ensures |t| > 0 && (IsDigit(t[0]) || t[0] == MINUS)
    ensures forall i :: 0 <= i < |t| ==> IsNumberChar(t[i])
  {
    if n < 0 then [MINUS] + NatText(-n) else NatText(n)
  }

  function Tens(k: nat): nat {
    if k == 0 then 1 else 10 * Tens(k - 1)
  }

  lemma {:induction false} NatTextLength(n: nat, k: nat)
    requires n < Tens(k)
    ensures |NatText(n)| <= if k == 0 then 1 else k
  {
    if n >= 10 {
      NatTextLength(n / 10, k - 1);
    }
  }

  lemma IntTextLength(n: int)
    requires INT_MIN <= n <= INT_MAX
    ensures |IntText(n)| <= 11
  {
    assert Tens(5) == 100000;
    assert Tens(10) == 10_000_000_000;
    NatTextLength(if n < 0 then -n else n, 10);
  }

  // ---- reading ----

  /** First position at or after `i` that holds no digit. */
  function DigitsEnd(t: Bytes, i: nat): (e: nat)
    requires i <= |t|
    ensures i <= e <= |t|
    ensures forall k :: i <= k < e ==> IsDigit(t[k])
    ensures e < |t| ==> !IsDigit(t[e])
    decreases |t| - i
  {
    if i < |t| && IsDigit(t[i]) then DigitsEnd(t, i + 1) else i
  }

  function DigitsValue(t: Bytes, a: nat, b: nat): nat
    requires a <= b <= |t|
    requires forall k :: a <= k < b ==> IsDigit(t[k])
  {
    if a == b then 0 else
    assert IsDigit(t[b - 1]);
    var digit: nat := t[b - 1] - ZERO;
    10 * DigitsValue(t, a, b - 1) + digit
  }

  function Scaled(v: real, exponent: int): real
    decreases if exponent < 0 then -exponent else exponent
  {
    if exponent == 0 then v
    else if exponent > 0 then Scaled(v * 10.0, exponent - 1)
    else Scaled(v / 10.0, exponent + 1)
  }

  function SignEnd(t: Bytes, i: nat): (e: nat)
    requires i <= |t|
    ensures i <= e <= i + 1 && e <= |t|
  {
    if i < |t| && (t[i] == PLUS || t[i] == MINUS) then i + 1 else i
  }

  /** The exponent that starts at `i`, with the position after it; no digits means no exponent. */
  function Exponent(t: Bytes, i: nat): (r: (int, nat))
    requires i <= |t|
    ensures i <= r.1 <= |t|
  {
    if i == |t| || (t[i] != LOWER_E && t[i] != UPPER_E) then (0, i)
    else
      var digits := SignEnd(t, i + 1);
      var end := DigitsEnd(t, digits);
      if end == digits then (0, i)
      else
        var value: int := DigitsValue(t, digits, end);
        (if t[i + 1] == MINUS then -value else value, end)
  }

  /** strtod on a token of number characters: the value and how many characters it used. */
  function Strtod(t: Bytes): (r: Option<(real, nat)>)
    ensures r.Some? ==> 0 < r.value.1 <= |t|
  {
    var start := SignEnd(t, 0);
    var whole := DigitsEnd(t, start);
    var dot := whole < |t| && t[whole] == DOT;
    var fraction := if dot then DigitsEnd(t, whole + 1) else whole;
    if whole == start && fraction <= whole + 1 then None
    else
      var below := if dot then DigitsValue(t, whole + 1, fraction) as real else 0.0;
      var places := if dot then fraction - whole - 1 else 0;
      var magnitude := DigitsValue(t, start, whole) as real + Scaled(below, -places);
      var (exponent, end) := Exponent(t, fraction);
      var scaled := Scaled(magnitude, exponent);
      Some((if t[0] == MINUS then -scaled else scaled, end))
  }

  /** Where parse_number stops copying, having copied up to `e`: number characters, at most 63. */
  function TokenEnd(s: Bytes, off: nat, e: nat): (end: nat)
    requires off <= e <= |s| && e <= off + MAX_TOKEN
    ensures e <= end <= |s| && end <= off + MAX_TOKEN
    ensures forall k :: e <= k < end ==> IsNumberChar(s[k])
    ensures end < off + MAX_TOKEN && end < |s| ==> !IsNumberChar(s[end])
    decreases |s| - e
  {
    if e < off + MAX_TOKEN && e < |s| && IsNumberChar(s[e]) then TokenEnd(s, off, e + 1) else e
  }

  function Token(s: Bytes, off: nat): Bytes
    requires off <= |s|
  {
    s[off..TokenEnd(s, off, off)]
  }

  // ---- `%d` is read back ----

  lemma DigitsValueStep(t: Bytes, a: nat, b: nat)
    requires a < b <= |t| && IsDigit(t[b - 1])
    requires forall k :: a <= k < b - 1 ==> IsDigit(t[k])
    ensures DigitsValue(t, a, b) == 10 * DigitsValue(t, a, b - 1) + (t[b - 1] as int - ZERO)
  {
  }

  lemma {:induction false} DigitsValueOfNat(t: Bytes, a: nat, n: nat)
    requires a + |NatText(n)| <= |t| && t[a..a + |NatText(n)|] == NatText(n)
    ensures forall k :: a <= k < a + |NatText(n)| ==> IsDigit(t[k])
    ensures DigitsValue(t, a, a + |NatText(n)|) == n
  {
    var text := NatText(n);
    var end := a + |text|;
    assert t[end - 1] == t[a..end][|text| - 1];
    if n >= 10 {
      var front := NatText(n / 10);
      assert t[a..end - 1] == t[a..end][..|front|] == front;
      DigitsValueOfNat(t, a, n / 10);
    } else {
      assert DigitsValue(t, a, a) == 0;
    }
    DigitsValueStep(t, a, end);
  }

  lemma StrtodOfInt(n: int)
    ensures Strtod(IntText(n)) == Some((n as real, |IntText(n)|))
  {
    var t := IntText(n);
    var start := if n < 0 then 1 else 0;
    var magnitude := if n < 0 then -n else n;
    assert t[start..start + |NatText(magnitude)|] == NatText(magnitude);
    DigitsValueOfNat(t, start, magnitude);
    assert forall k :: start <= k < |t| ==> t[k] == NatText(magnitude)[k - start];
    assert SignEnd(t, 0) == start;
    assert DigitsEnd(t, start) == |t|;
  }
}
