/** `\uXXXX` literals: hexadecimal groups, surrogate pairs (section 2.2 of RFC 2781) and their
    UTF-8 bytes (section 3 of RFC 3629). */
module Utf16 {
  import opened Bytes

  // ---- specification ----

  function HexDigit(c: byte): (d: Option<nat>)
    ensures d.Some? ==> d.value < 16
  {
    if 48 <= c <= 57 then Some(c - 48)
    else if 65 <= c <= 70 then Some(c - 55)
    else if 97 <= c <= 102 then Some(c - 87)
    else None
  }

  predicate IsHex4(s: Bytes, i: nat)
    requires i + 4 <= |s|
  {
    forall k :: i <= k < i + 4 ==> HexDigit(s[k]).Some?
  }

  /** Value of four digits. A character that is no digit makes the whole group 0, not an error. */
  function Hex4(s: Bytes, i: nat): (h: nat)
    requires i + 4 <= |s|
    ensures h < 0x10000
  {
    if IsHex4(s, i) then
      HexDigit(s[i]).value * 0x1000 + HexDigit(s[i + 1]).value * 0x100
      + HexDigit(s[i + 2]).value * 0x10 + HexDigit(s[i + 3]).value
    else 0
  }

  predicate IsHighSurrogate(h: nat) { 0xD800 <= h <= 0xDBFF }

  predicate IsLowSurrogate(h: nat) { 0xDC00 <= h <= 0xDFFF }

  predicate IsScalar(cp: nat) {
    cp <= 0x10FFFF && !IsHighSurrogate(cp) && !IsLowSurrogate(cp)
  }

  /** The code point of the literal at `i`, with the 6 or 12 characters it takes before `end`. */
  function Literal(s: Bytes, i: nat, end: nat): (r: Option<(nat, nat)>)
    requires i <= end <= |s|
    ensures r.Some? ==> (r.value.1 == 6 || r.value.1 == 12) && i + r.value.1 <= end
    ensures r.Some? ==> r.value.0 <= 0x10FFFF
  {
    if end - i < 6 then None
    else
      var first := Hex4(s, i + 2);
      if IsLowSurrogate(first) then None
      else if !IsHighSurrogate(first) then Some((first, 6))
      else if end - i < 12 || s[i + 6] != BACKSLASH || s[i + 7] != LETTER_U then None
      else
        var second := Hex4(s, i + 8);
        if !IsLowSurrogate(second) then None
        else Some((0x10000 + first % 0x400 * 0x400 + second % 0x400, 12))
  }

  function Utf8(cp: nat): (b: Bytes)
    requires cp <= 0x10FFFF
    ensures 1 <= |b| <= 4
  {
    if cp < 0x80 then [cp]
    else if cp < 0x800 then [0xC0 + cp / 0x40, 0x80 + cp % 0x40]
    else if cp < 0x10000 then [0xE0 + cp / 0x1000, 0x80 + cp / 0x40 % 0x40, 0x80 + cp % 0x40]
    else [0xF0 + cp / 0x40000, 0x80 + cp / 0x1000 % 0x40, 0x80 + cp / 0x40 % 0x40, 0x80 + cp % 0x40]
  }

  /** The payload bits of a byte marked with `mark`. */
  function Bits(c: byte, mark: byte): nat
    requires mark <= c
  {
    c - mark
  }

  /** Reads the bit patterns of section 3 of RFC 3629 without asking for the shortest form. */
  function ReadUtf8(b: Bytes): Option<nat> {
    if |b| == 1 && b[0] < 0x80 then Some(b[0])
    else if |b| == 2 && 0xC0 <= b[0] < 0xE0 && Tail(b[1]) then
      Some(Bits(b[0], 0xC0) * 0x40 + Bits(b[1], 0x80))
    else if |b| == 3 && 0xE0 <= b[0] < 0xF0 && Tail(b[1]) && Tail(b[2]) then
      Some(Bits(b[0], 0xE0) * 0x1000 + Bits(b[1], 0x80) * 0x40 + Bits(b[2], 0x80))
    else if |b| == 4 && 0xF0 <= b[0] < 0xF8 && Tail(b[1]) && Tail(b[2]) && Tail(b[3]) then
      Some(Bits(b[0], 0xF0) * 0x40000 + Bits(b[1], 0x80) * 0x1000 + Bits(b[2], 0x80) * 0x40 + Bits(b[3], 0x80))
    else None
  }

  predicate Tail(c: byte) { 0x80 <= c < 0xC0 }

  // ---- properties ----

  /** Base-64 digits are quotients and remainders. */
  lemma Digits(cp: nat, a: nat, b: nat, c: nat, d: nat)
    requires b < 0x40 && c < 0x40 && d < 0x40
    ensures cp == a * 0x40000 + b * 0x1000 + c * 0x40 + d
      <==> a == cp / 0x40000 && b == cp / 0x1000 % 0x40 && c == cp / 0x40 % 0x40 && d == cp % 0x40
  {
    assert cp / 0x1000 == cp / 0x40 / 0x40 && cp / 0x40000 == cp / 0x40 / 0x40 / 0x40;
    if cp == a * 0x40000 + b * 0x1000 + c * 0x40 + d {
      assert cp / 0x40 == a * 0x1000 + b * 0x40 + c;
      assert cp / 0x1000 == a * 0x40 + b;
    }
  }

  lemma Utf8ReadsBack(cp: nat)
    requires cp <= 0x10FFFF
    ensures ReadUtf8(Utf8(cp)) == Some(cp)
  {
    Digits(cp, cp / 0x40000, cp / 0x1000 % 0x40, cp / 0x40 % 0x40, cp % 0x40);
    if cp < 0x10000 {
      assert cp / 0x40000 == 0;
      assert cp < 0x1000 ==> cp / 0x1000 == 0;
    }
  }

  /** The emitted bytes read back as the code point, and no other sequence as short does. */
  lemma Utf8IsShortest(cp: nat, b: Bytes)
    requires cp <= 0x10FFFF
    ensures ReadUtf8(Utf8(cp)) == Some(cp)
    ensures ReadUtf8(b) == Some(cp) ==> |Utf8(cp)| <= |b|
    ensures ReadUtf8(b) == Some(cp) && |b| == |Utf8(cp)| ==> b == Utf8(cp)
  {
    Utf8ReadsBack(cp);
    if ReadUtf8(b) == Some(cp) {
      if |b| == 2 {
        Digits(cp, 0, 0, Bits(b[0], 0xC0), Bits(b[1], 0x80));
      } else if |b| == 3 {
        Digits(cp, 0, Bits(b[0], 0xE0), Bits(b[1], 0x80), Bits(b[2], 0x80));
      } else if |b| == 4 {
        Digits(cp, Bits(b[0], 0xF0), Bits(b[1], 0x80), Bits(b[2], 0x80), Bits(b[3], 0x80));
      }
    }
  }

  /** The examples of section 7 of RFC 3629. */
  lemma Utf8Examples()
    ensures Utf8(0x41) == [0x41] && Utf8(0x391) == [0xCE, 0x91]
    ensures Utf8(0x2262) == [0xE2, 0x89, 0xA2] && Utf8(0xD55C) == [0xED, 0x95, 0x9C]
    ensures Utf8(0x65E5) == [0xE6, 0x97, 0xA5] && Utf8(0x233B4) == [0xF0, 0xA3, 0x8E, 0xB4]
    ensures Utf8(0xFEFF) == [0xEF, 0xBB, 0xBF]
  {
  }

  /** `\u` followed by four hexadecimal digits of value `h`. */
  predicate Group(s: Bytes, i: nat, h: nat) {
    i + 6 <= |s| && s[i] == BACKSLASH && s[i + 1] == LETTER_U && IsHex4(s, i + 2) && Hex4(s, i + 2) == h
  }

  /** A scalar value as one group, or as the surrogate pair of section 2.1 of RFC 2781. */
  predicate Writes(s: Bytes, i: nat, end: nat, cp: nat) {
    if cp < 0x10000 then i + 6 <= end <= |s| && Group(s, i, cp)
    else
      i + 12 <= end <= |s|
      && Group(s, i, 0xD800 + (cp - 0x10000) / 0x400)
      && Group(s, i + 6, 0xDC00 + (cp - 0x10000) % 0x400)
  }

  /** Section 2.1 of RFC 2781 is undone by section 2.2. */
  lemma PairDigits(v: nat)
    requires v < 0x100000
    ensures IsHighSurrogate(0xD800 + v / 0x400) && IsLowSurrogate(0xDC00 + v % 0x400)
    ensures (0xD800 + v / 0x400) % 0x400 * 0x400 + (0xDC00 + v % 0x400) % 0x400 == v
  {
    assert (0xD800 + v / 0x400) % 0x400 == v / 0x400;
    assert (0xDC00 + v % 0x400) % 0x400 == v % 0x400;
  }

  /** Every scalar value is decoded from its literal, taking 6 characters or 12. */
  lemma ScalarIsDecoded(s: Bytes, i: nat, end: nat, cp: nat)
    requires i <= end <= |s|
    requires IsScalar(cp) && Writes(s, i, end, cp)
    ensures Literal(s, i, end) == Some((cp, if cp < 0x10000 then 6 else 12))
  {
    hide Hex4, IsHex4;
    if cp >= 0x10000 {
      PairDigits(cp - 0x10000);
    }
  }

  /** Section 2.2 of RFC 2781 undoes section 2.1. */
  lemma PairValue(first: nat, second: nat)
    requires IsHighSurrogate(first) && IsLowSurrogate(second)
    ensures var v := first % 0x400 * 0x400 + second % 0x400;
      v < 0x100000 && 0xD800 + v / 0x400 == first && 0xDC00 + v % 0x400 == second
  {
    assert first % 0x400 == first - 0xD800;
    assert second % 0x400 == second - 0xDC00;
  }

  /** Conversely only scalar values come out, so the code's last test, for code points above
      0x10FFFF, never fires; with proper digits the literal is one that writes the result. */
  lemma DecodedIsScalar(s: Bytes, i: nat, end: nat)
    requires i <= end <= |s|
    requires Literal(s, i, end).Some?
    ensures IsScalar(Literal(s, i, end).value.0)
    ensures At(s, i, [BACKSLASH, LETTER_U]) && IsHex4(s, i + 2)
      ==> Writes(s, i, end, Literal(s, i, end).value.0)
  {
    var (cp, n) := Literal(s, i, end).value;
    if n == 12 {
      PairValue(Hex4(s, i + 2), Hex4(s, i + 8));
    }
    if At(s, i, [BACKSLASH, LETTER_U]) {
      assert s[i] == s[i..i + 2][0] && s[i + 1] == s[i..i + 2][1];
    }
  }

  /** A high surrogate without a low one after it, and a low one first, are refused. */
  lemma LoneSurrogateIsRefused(s: Bytes, i: nat, end: nat)
    requires i + 6 <= end <= |s|
    ensures IsLowSurrogate(Hex4(s, i + 2)) ==> Literal(s, i, end) == None
    ensures IsHighSurrogate(Hex4(s, i + 2)) ==>
      (Literal(s, i, end).Some? <==> i + 12 <= end && exists low :: IsLowSurrogate(low) && Group(s, i + 6, low))
  {
    if IsHighSurrogate(Hex4(s, i + 2)) && Literal(s, i, end).Some? {
      assert Group(s, i + 6, Hex4(s, i + 8));
    }
  }

  /** The source's masks and shifts are the quotients and remainders used here. */
  lemma MasksAreArithmetic(c: bv32, f: bv32, s: bv32)
    ensures (c | 0x80) & 0xBF == 0x80 + c % 0x40
    ensures c >> 6 == c / 0x40
    ensures c < 0x20 ==> (c | 0xC0) & 0xFF == 0xC0 + c
    ensures c < 0x10 ==> (c | 0xE0) & 0xFF == 0xE0 + c
    ensures c < 0x08 ==> (c | 0xF0) & 0xFF == 0xF0 + c
    ensures c < 0x80 ==> c & 0x7F == c
    ensures ((f & 0x3FF) << 10) | (s & 0x3FF) == f % 0x400 * 0x400 + s % 0x400
  {
  }

  // ---- the code ----

  /** parse_hex4. */
  method ParseHex4(s: Bytes, at: nat) returns (h: nat)
    requires at + 4 <= |s|
    ensures h == Hex4(s, at)
  {
    h := 0;
    for i := 0 to 4
      invariant forall k :: at <= k < at + i ==> HexDigit(s[k]).Some?
      invariant i == 0 ==> h == 0
      invariant i == 1 ==> h == HexDigit(s[at]).value * 0x10
      invariant i == 2 ==> h == HexDigit(s[at]).value * 0x100 + HexDigit(s[at + 1]).value * 0x10
      invariant i == 3 ==> h == HexDigit(s[at]).value * 0x1000 + HexDigit(s[at + 1]).value * 0x100
                                + HexDigit(s[at + 2]).value * 0x10
      invariant i == 4 ==> h == Hex4(s, at)
    {
      var c := s[at + i];
      if 48 <= c <= 57 {
        h := h + c - 48;
      } else if 65 <= c <= 70 {
        h := h + 10 + c - 65;
      } else if 97 <= c <= 102 {
        h := h + 10 + c - 97;
      } else {
        return 0;
      }
      if i < 3 {
        h := h * 0x10;
      }
    }
  }

  function Shifted(cp: nat, n: nat): nat {
    if n == 0 then cp else Shifted(cp, n - 1) / 0x40
  }

  lemma TailByte(cp: nat, k: nat)
    requires cp <= 0x10FFFF && k < |Utf8(cp)|
    ensures 0 < k ==> Utf8(cp)[k] == 0x80 + Shifted(cp, |Utf8(cp)| - 1 - k) % 0x40
    ensures var mark := [0, 0xC0, 0xE0, 0xF0][|Utf8(cp)| - 1];
      k == 0 ==> Utf8(cp)[0] == mark + Shifted(cp, |Utf8(cp)| - 1)
  {
    assert Shifted(cp, 1) == cp / 0x40;
    assert Shifted(cp, 2) == cp / 0x1000;
    assert Shifted(cp, 3) == cp / 0x40000;
  }

  lemma ShiftOnce(cp: nat, n: nat)
    ensures Shifted(cp, 0) == cp && Shifted(cp, n + 1) == Shifted(cp, n) / 0x40
  {
  }

  /** The encoding loop of utf16_literal_to_utf8: last byte first, six bits at a time. */
  method WriteUtf8(cp: nat, length: nat, mark: byte, output: array<byte>, o: nat)
    requires cp <= 0x10FFFF && length == |Utf8(cp)| && mark == [0, 0xC0, 0xE0, 0xF0][length - 1]
    requires o + length <= output.Length
    modifies output
    ensures output[..] == old(output[..o]) + Utf8(cp) + old(output[o + length..])
  {
    hide Utf8, Shifted;
    ShiftOnce(cp, 0);
    var codepoint := cp;
    var k := length - 1;
    while k > 0
      invariant 0 <= k < length
      invariant codepoint == Shifted(cp, length - 1 - k)
      invariant forall m :: 0 <= m < output.Length && !(o + k < m < o + length) ==> output[m] == old(output[m])
      invariant forall m :: k < m < length ==> output[o + m] == Utf8(cp)[m]
    {
      TailByte(cp, k);
      ShiftOnce(cp, length - 1 - k);
      output[o + k] := 0x80 + codepoint % 0x40;
      codepoint := codepoint / 0x40;
      k := k - 1;
    }
    TailByte(cp, 0);
    output[o] := mark + codepoint;
    assert output[o..o + length] == Utf8(cp);
    assert output[..] == output[..o] + output[o..o + length] + output[o + length..];
  }

  /** utf16_literal_to_utf8: decodes the literal at `i` and writes its bytes at `o`. */
  method LiteralToUtf8(s: Bytes, i: nat, end: nat, output: array<byte>, o: nat)
    returns (sequenceLength: nat, position: nat)
    requires i <= end <= |s|
    requires o <= output.Length
    requires Literal(s, i, end).Some? ==> o + |Utf8(Literal(s, i, end).value.0)| <= output.Length
    modifies output
    ensures Literal(s, i, end) == None ==> sequenceLength == 0 && position == o && output[..] == old(output[..])
    ensures Literal(s, i, end).Some? ==>
      var (cp, n) := Literal(s, i, end).value;
      sequenceLength == n && position == o + |Utf8(cp)|
      && output[..] == old(output[..o]) + Utf8(cp) + old(output[position..])
  {
    hide Hex4, IsHex4, HexDigit, IsScalar;
    position := o;
    if end - i < 6 {
      return 0, o;
    }
    var first := ParseHex4(s, i + 2);
    if 0xDC00 <= first <= 0xDFFF {
      return 0, o;
    }
    var codepoint: nat;
    if 0xD800 <= first <= 0xDBFF {
      sequenceLength := 12;
      if end - (i + 6) < 6 {
        return 0, o;
      }
      if s[i + 6] != BACKSLASH || s[i + 7] != LETTER_U {
        return 0, o;
      }
      var second := ParseHex4(s, i + 8);
      if second < 0xDC00 || second > 0xDFFF {
        return 0, o;
      }
      codepoint := 0x10000 + (first % 0x400 * 0x400 + second % 0x400);
    } else {
      sequenceLength := 6;
      codepoint := first;
    }
    var length, mark: byte;
    if codepoint < 0x80 {
      length, mark := 1, 0;
    } else if codepoint < 0x800 {
      length, mark := 2, 0xC0;
    } else if codepoint < 0x10000 {
      length, mark := 3, 0xE0;
    } else if codepoint <= 0x10FFFF {
      length, mark := 4, 0xF0;
    } else {
      assert false;
    }
    WriteUtf8(codepoint, length, mark, output, o);
    position := o + length;
  }
}
