/** String literals: what the printer escapes, and what the parser's two passes read back. */
module Strings {
  import opened Bytes
  import opened Utf16

  // ---- printing ----

  function LowerHex(d: nat): byte
    requires d < 16
  {
    if d < 10 then 48 + d else 87 + d
  }

  function EscapeByte(c: byte): (e: Bytes)
    ensures 1 <= |e| <= 6
  {
    if c > 31 && c != QUOTE && c != BACKSLASH then [c]
    else if c == BACKSLASH || c == QUOTE then [BACKSLASH, c]
    else if c == 8 then [BACKSLASH, 98]
    else if c == 12 then [BACKSLASH, 102]
    else if c == 10 then [BACKSLASH, 110]
    else if c == 13 then [BACKSLASH, 114]
    else if c == 9 then [BACKSLASH, 116]
    else [BACKSLASH, LETTER_U, 48, 48, LowerHex(c / 16), LowerHex(c % 16)]
  }

  function Escape(s: Bytes): (e: Bytes)
    ensures |s| <= |e|
  {
    if s == [] then [] else EscapeByte(s[0]) + Escape(s[1..])
  }

  /** The literal, with its quotes. */
  function Quoted(s: Bytes): (q: Bytes)
    ensures |q| == |Escape(s)| + 2
  {
    [QUOTE] + Escape(s) + [QUOTE]
  }

  lemma {:induction false} EscapeAppend(s: Bytes, c: byte)
    ensures Escape(s + [c]) == Escape(s) + EscapeByte(c)
  {
    hide EscapeByte;
    if s == [] {
      assert EscapeByte(c) + [] == EscapeByte(c);
    } else {
      EscapeAppend(s[1..], c);
      assert (s + [c])[1..] == s[1..] + [c];
      assert Escape(s + [c]) == EscapeByte(s[0]) + (Escape(s[1..]) + EscapeByte(c));
    }
  }

  /** A text that does not grow when escaped has nothing to escape. */
  lemma {:induction false} NothingEscaped(s: Bytes)
    requires |Escape(s)| == |s|
    ensures Escape(s) == s
  {
    if s != [] {
      NothingEscaped(s[1..]);
      assert s == [s[0]] + s[1..];
    }
  }

  lemma {:induction false} EscapeIsNulFree(s: Bytes)
    ensures NulFree(Escape(s)) && NulFree(Quoted(s))
  {
    if s != [] {
      EscapeIsNulFree(s[1..]);
    }
  }

  // ---- parsing ----

  /** First pass: where the closing quote is, stepping over escapes two characters at a time. */
  function FindClose(s: Bytes, i: nat): (r: Option<nat>)
    requires i <= |s|
    ensures r.Some? ==> i <= r.value < |s| && s[r.value] == QUOTE
    decreases |s| - i
  {
    if i == |s| then None
    else if s[i] == QUOTE then Some(i)
    else if s[i] != BACKSLASH then FindClose(s, i + 1)
    else if i + 1 == |s| then None
    else FindClose(s, i + 2)
  }

  /** How many escapes the first pass, from `p` on, sees start before `limit`. */
  function Starts(s: Bytes, p: nat, limit: nat): nat
    requires limit <= |s|
    decreases |s| - p
  {
    if p >= limit then 0
    else if s[p] == BACKSLASH then 1 + Starts(s, p + 2, limit)
    else Starts(s, p + 1, limit)
  }

  function SimpleEscape(c: byte): Option<byte> {
    if c == 98 then Some(8)
    else if c == 102 then Some(12)
    else if c == 110 then Some(10)
    else if c == 114 then Some(13)
    else if c == 116 then Some(9)
    else if c == QUOTE || c == BACKSLASH || c == SLASH then Some(c)
    else None
  }

  /** One step of the second pass at `i`: the bytes it writes and the position it goes on from. */
  function Step(s: Bytes, i: nat, end: nat): (r: Option<(Bytes, nat)>)
    requires i < end < |s|
    ensures r.Some? ==> i < r.value.1 <= end + 1
  {
    if s[i] != BACKSLASH then Some(([s[i]], i + 1))
    else if SimpleEscape(s[i + 1]).Some? then Some(([SimpleEscape(s[i + 1]).value], i + 2))
    else if s[i + 1] != LETTER_U || Literal(s, i, end) == None then None
    else Some((Utf8(Literal(s, i, end).value.0), i + Literal(s, i, end).value.1))
  }

  /** Second pass: all it writes from `i` to `end`, or the failure of one of its steps. */
  function Decode(s: Bytes, i: nat, end: nat): Option<Bytes>
    requires i <= end + 1 && end < |s|
    decreases end + 1 - i
  {
    if i >= end then Some([])
    else
      match Step(s, i, end)
      case None => None
      case Some((b, next)) =>
        match Decode(s, next, end)
        case None => None
        case Some(rest) => Some(b + rest)
  }

  /** parse_string at `off`: all bytes written before the terminator, and the new offset. */
  function ParseString(s: Bytes, off: nat): (r: Option<(Bytes, nat)>)
    requires off < |s|
    ensures r.Some? ==> off < r.value.1 <= |s|
  {
    if s[off] != QUOTE then None
    else
      match FindClose(s, off + 1)
      case None => None
      case Some(end) =>
        match Decode(s, off + 1, end)
        case None => None
        case Some(d) => Some((d, end + 1))
  }

  // ---- the second pass stays inside what the first one allocated ----

  /** No two escape starts are adjacent. */
  lemma {:induction false} StartsApart(s: Bytes, p: nat, a: nat, b: nat)
    requires a <= b <= |s|
    ensures Starts(s, p, a) <= Starts(s, p, b) <= Starts(s, p, a) + (b - a + 1) / 2
    ensures a <= p <= b ==> Starts(s, p, b) <= (b - p + 1) / 2
    decreases |s| - p
  {
    if p < b {
      var next := if s[p] == BACKSLASH then p + 2 else p + 1;
      StartsApart(s, next, a, b);
    }
  }

  /** A plain character of the second pass is no escape start of the first. */
  lemma {:induction false} PlainIsNoStart(s: Bytes, p: nat, i: nat)
    requires i < |s| && s[i] != BACKSLASH
    ensures Starts(s, p, i + 1) == Starts(s, p, i)
    decreases |s| - p
  {
    if p < i {
      PlainIsNoStart(s, if s[p] == BACKSLASH then p + 2 else p + 1, i);
    }
  }

  /** One step keeps "bytes written <= characters consumed minus first-pass escape starts". */
  lemma StepFits(s: Bytes, start: nat, i: nat, end: nat)
    requires start <= i < end < |s| && Step(s, i, end).Some?
    ensures var (b, next) := Step(s, i, end).value;
      |b| + Starts(s, start, next) - Starts(s, start, i) <= next - i
  {
    var (b, next) := Step(s, i, end).value;
    StartsApart(s, start, i, next);
    if s[i] != BACKSLASH {
      PlainIsNoStart(s, start, i);
    }
  }

  /** Being within that budget at any position means being within the allocation. */
  lemma BudgetIsAllocation(s: Bytes, start: nat, i: nat, end: nat, written: nat)
    requires start <= i <= end + 1 && end < |s| && s[end] == QUOTE
    requires written + Starts(s, start, i) <= i - start
    ensures written <= end + 1 - start - Starts(s, start, end)
  {
    StartsApart(s, start, i, end + 1);
    PlainIsNoStart(s, start, end);
  }

  /** For every input, even where the passes fall out of step, the second pass writes at most
      the bytes the first pass counted (to which one is added for the terminator). */
  lemma DecodeFits(s: Bytes, start: nat, end: nat)
    requires start <= |s| && FindClose(s, start) == Some(end) && Decode(s, start, end).Some?
    ensures |Decode(s, start, end).value| <= end + 1 - start - Starts(s, start, end)
  {
    DecodeFitsFrom(s, start, start, end, 0);
  }

  lemma {:induction false} DecodeFitsFrom(s: Bytes, start: nat, i: nat, end: nat, written: nat)
    requires start <= i <= end + 1 && end < |s| && s[end] == QUOTE
    requires written + Starts(s, start, i) <= i - start
    requires Decode(s, i, end).Some?
    ensures written + |Decode(s, i, end).value| <= end + 1 - start - Starts(s, start, end)
    decreases end + 1 - i
  {
    if i >= end {
      BudgetIsAllocation(s, start, i, end, written);
    } else {
      var (b, next) := Step(s, i, end).value;
      StepFits(s, start, i, end);
      DecodeFitsFrom(s, start, next, end, written + |b|);
    }
  }

  /** The passes do fall out of step: in `"\u000\\""` the group swallows a backslash, and the
      second pass ends one past the quote the first pass stopped at. */
  lemma PassesCanDisagree()
    ensures var s: Bytes := [QUOTE, BACKSLASH, LETTER_U, 48, 48, 48, BACKSLASH, BACKSLASH, QUOTE];
      FindClose(s, 1) == Some(8)
      && Step(s, 1, 8) == Some(([NUL], 7))
      && Step(s, 7, 8) == Some(([QUOTE], 9))
      && ParseString(s, 0) == Some(([NUL, QUOTE], 9))
  {
    var s: Bytes := [QUOTE, BACKSLASH, LETTER_U, 48, 48, 48, BACKSLASH, BACKSLASH, QUOTE];
    assert FindClose(s, 6) == FindClose(s, 8) == Some(8);
    assert FindClose(s, 3) == FindClose(s, 4) == FindClose(s, 5) == FindClose(s, 6);
    assert HexDigit(s[6]) == None;
    assert Hex4(s, 3) == 0;
    assert Step(s, 1, 8) == Some(([NUL], 7));
    assert FindClose(s, 1) == FindClose(s, 3);
    assert Decode(s, 9, 8) == Some([]);
    assert Decode(s, 7, 8) == Some([QUOTE] + []);
    assert Decode(s, 1, 8) == Some([NUL] + ([QUOTE] + []));
    assert [NUL] + ([QUOTE] + []) == [NUL, QUOTE];
    assert s[0] == QUOTE;
  }

  // ---- one step after another ----

  lemma CloseHere(s: Bytes, i: nat)
    requires i < |s| && s[i] == QUOTE
    ensures FindClose(s, i) == Some(i)
  {
  }

  lemma DecodeStep(s: Bytes, i: nat, end: nat, b: Bytes, next: nat, rest: Bytes)
    requires i < end < |s| && Step(s, i, end) == Some((b, next)) && Decode(s, next, end) == Some(rest)
    ensures Decode(s, i, end) == Some(b + rest)
  {
    hide Step;
  }
}
