/** JSON texts as section 2 of RFC 8259 derives them, with any whitespace between tokens, any spelling of
    numbers and any escapes: the parser reads each as what it means. More than the RFC allows, gaps and
    strings may hold any control character but NUL, and numbers may begin with zeros. */
module Syntax {
  import opened Bytes
  import opened Json
  import opened Numbers
  import opened Utf16
  import opened Strings
  import opened Rendering
  import opened Grammar

  // ---- strings ----

  /** The short escapes of section 7 of RFC 8259. */
  function ShortByte(letter: byte): Option<byte> {
    if letter == '"' as int || letter == '\\' as int || letter == '/' as int then Some(letter)
    else if letter == 'b' as int then Some(8)
    else if letter == 'f' as int then Some(12)
    else if letter == 'n' as int then Some(10)
    else if letter == 'r' as int then Some(13)
    else if letter == 't' as int then Some(9)
    else None
  }

  /** A hexadecimal digit of either case. */
  predicate IsHexDigit(c: byte, d: nat) {
    if d < 10 then c == '0' as int + d
    else d < 16 && (c == 'a' as int + (d - 10) || c == 'A' as int + (d - 10))
  }

  predicate IsHex(c: byte) {
    '0' as int <= c <= '9' as int || 'a' as int <= c <= 'f' as int || 'A' as int <= c <= 'F' as int
  }

  /** `\u` and four hexadecimal digits of value `h`. */
  predicate IsUnit(g: Bytes, i: nat, h: nat) {
    i + 6 <= |g| && h < 0x10000 && g[i] == '\\' as int && g[i + 1] == 'u' as int
    && IsHexDigit(g[i + 2], h / 0x1000) && IsHexDigit(g[i + 3], h / 0x100 % 0x10)
    && IsHexDigit(g[i + 4], h / 0x10 % 0x10) && IsHexDigit(g[i + 5], h % 0x10)
  }

  /** A Unicode scalar value as one unit, or as the surrogate pair of section 2.1 of RFC 2781. */
  predicate IsCode(cp: nat, g: Bytes) {
    if cp < 0x10000 then |g| == 6 && !(0xD800 <= cp <= 0xDFFF) && IsUnit(g, 0, cp)
    else
      cp <= 0x10FFFF && |g| == 12
      && IsUnit(g, 0, 0xD800 + (cp - 0x10000) / 0x400) && IsUnit(g, 6, 0xDC00 + (cp - 0x10000) % 0x400)
  }

  /** `\u` and four bytes that are not all hexadecimal digits. */
  predicate IsBadUnit(g: Bytes) {
    |g| == 6 && g[0] == '\\' as int && g[1] == 'u' as int
    && !(IsHex(g[2]) && IsHex(g[3]) && IsHex(g[4]) && IsHex(g[5]))
  }

  /** A character of a string: itself, an escape of two characters, or the code point `cp` written as one
      or two groups of hexadecimal digits. */
  datatype Char = Plain(c: byte) | Short(letter: byte) | Code(cp: nat, groups: Bytes)

  predicate IsChar(c: Char) {
    match c
    case Plain(b) => b != NUL && b != QUOTE && b != BACKSLASH
    case Short(l) => ShortByte(l).Some?
    case Code(cp, g) => IsCode(cp, g)
  }

  /** The same with what the second pass of the parser lets pass: a quote, a NUL, and units with bad digits,
      which stand for NUL. */
  predicate IsLooseChar(c: Char) {
    match c
    case Plain(b) => b != BACKSLASH
    case Short(l) => ShortByte(l).Some?
    case Code(cp, g) => IsCode(cp, g) || (cp == 0 && IsBadUnit(g))
  }

  function SpellChar(c: Char): Bytes {
    match c
    case Plain(b) => [b]
    case Short(l) => [BACKSLASH, l]
    case Code(_, g) => g
  }

  /** The bytes a character stands for. */
  function CharBytes(c: Char): Bytes
    requires IsLooseChar(c)
  {
    match c
    case Plain(b) => [b]
    case Short(l) => [ShortByte(l).value]
    case Code(cp, _) => Utf8(cp)
  }

  function SpellChars(cs: seq<Char>): Bytes {
    if cs == [] then [] else SpellChar(cs[0]) + SpellChars(cs[1..])
  }

  predicate AreChars(cs: seq<Char>) {
    forall c | c in cs :: IsChar(c)
  }

  predicate AreLooseChars(cs: seq<Char>) {
    forall c | c in cs :: IsLooseChar(c)
  }

  function CharsBytes(cs: seq<Char>): Bytes
    requires AreLooseChars(cs)
  {
    if cs == [] then [] else CharBytes(cs[0]) + CharsBytes(cs[1..])
  }

  lemma CharsAreLoose(cs: seq<Char>)
    requires AreChars(cs)
    ensures AreLooseChars(cs)
  {
  }

  function Literally(cs: seq<Char>): Bytes {
    [QUOTE] + SpellChars(cs) + [QUOTE]
  }

  lemma AtBytes(s: Bytes, i: nat, word: Bytes)
    requires At(s, i, word)
    ensures forall k :: 0 <= k < |word| ==> s[i + k] == word[k]
  {
    forall k | 0 <= k < |word| ensures s[i + k] == word[k] {
      assert s[i..i + |word|][k] == word[k];
    }
  }

  // ---- what the two passes do with characters ----

  lemma ShortIsSimple(letter: byte)
    ensures SimpleEscape(letter) == ShortByte(letter)
  {
  }

  lemma HexDigits(c: byte)
    ensures HexDigit(c).Some? <==> IsHex(c)
    ensures forall d: nat :: HexDigit(c) == Some(d) <==> IsHexDigit(c, d)
    ensures IsHex(c) ==> c != QUOTE && c != BACKSLASH
  {
  }

  /** Units are the groups of the model, wherever they stand. */
  lemma UnitIsGroup(s: Bytes, i: nat, h: nat)
    ensures IsUnit(s, i, h) <==> Group(s, i, h)
  {
    hide IsUnit, Group;
    if IsUnit(s, i, h) { UnitMakesGroup(s, i, h); }
    if Group(s, i, h) { GroupMakesUnit(s, i, h); }
  }

  lemma UnitMakesGroup(s: Bytes, i: nat, h: nat)
    requires IsUnit(s, i, h)
    ensures Group(s, i, h)
  {
    hide HexDigit, IsHexDigit, IsHex;
    HexDigits(s[i + 2]);
    HexDigits(s[i + 3]);
    HexDigits(s[i + 4]);
    HexDigits(s[i + 5]);
    DigitsOf(h);
    assert IsHex4(s, i + 2);
  }

  lemma DigitsOf(h: nat)
    requires h < 0x10000
    ensures h == h / 0x1000 * 0x1000 + h / 0x100 % 0x10 * 0x100 + h / 0x10 % 0x10 * 0x10 + h % 0x10
    ensures h / 0x1000 < 16
  {
    assert h / 0x100 == h / 0x10 / 0x10 && h / 0x1000 == h / 0x100 / 0x10;
  }

  lemma GroupMakesUnit(s: Bytes, i: nat, h: nat)
    requires Group(s, i, h)
    ensures IsUnit(s, i, h)
  {
    hide HexDigit, IsHexDigit, IsHex;
    HexDigits(s[i + 2]);
    HexDigits(s[i + 3]);
    HexDigits(s[i + 4]);
    HexDigits(s[i + 5]);
    FourDigits(HexDigit(s[i + 2]).value, HexDigit(s[i + 3]).value, HexDigit(s[i + 4]).value, HexDigit(s[i + 5]).value);
  }

  lemma FourDigits(a: nat, b: nat, c: nat, d: nat)
    requires a < 16 && b < 16 && c < 16 && d < 16
    ensures var h := a * 0x1000 + b * 0x100 + c * 0x10 + d;
      h / 0x1000 == a && h / 0x100 % 0x10 == b && h / 0x10 % 0x10 == c && h % 0x10 == d
  {
    var h := a * 0x1000 + b * 0x100 + c * 0x10 + d;
    assert h / 0x10 == a * 0x100 + b * 0x10 + c;
    assert h / 0x100 == a * 0x10 + b;
  }

  /** A unit found at another place. */
  lemma UnitAt(s: Bytes, i: nat, g: Bytes, k: nat, h: nat)
    requires At(s, i, g) && k + 6 <= |g|
    ensures IsUnit(g, k, h) <==> IsUnit(s, i + k, h)
  {
    hide IsHexDigit;
    AtBytes(s, i, g);
    assert s[i + k] == g[k] && s[i + (k + 1)] == g[k + 1] && s[i + (k + 2)] == g[k + 2];
    assert s[i + (k + 3)] == g[k + 3] && s[i + (k + 4)] == g[k + 4] && s[i + (k + 5)] == g[k + 5];
  }

  lemma ScalarsAreScalars(cp: nat)
    ensures IsScalar(cp) <==> cp <= 0x10FFFF && !(0xD800 <= cp <= 0xDFFF)
  {
  }

  /** A code found at some place writes its scalar value there, and only such a code does. */
  lemma CodeWrites(s: Bytes, i: nat, end: nat, cp: nat, g: Bytes)
    requires At(s, i, g) && i + |g| <= end <= |s| && |g| == (if cp < 0x10000 then 6 else 12)
    ensures IsCode(cp, g) <==> IsScalar(cp) && Writes(s, i, end, cp)
  {
    hide IsUnit, Group, At;
    ScalarsAreScalars(cp);
    if cp < 0x10000 {
      UnitAt(s, i, g, 0, cp);
      UnitIsGroup(s, i, cp);
    } else if cp <= 0x10FFFF {
      var a, b := 0xD800 + (cp - 0x10000) / 0x400, 0xDC00 + (cp - 0x10000) % 0x400;
      UnitAt(s, i, g, 0, a);
      UnitAt(s, i, g, 6, b);
      UnitIsGroup(s, i, a);
      UnitIsGroup(s, i + 6, b);
    }
  }

  /** A bad unit is a group of value 0, by its bad digits. */
  lemma BadUnitIsZero(s: Bytes, i: nat, g: Bytes)
    requires At(s, i, g) && |g| == 6
    ensures IsBadUnit(g) <==> s[i] == BACKSLASH && s[i + 1] == LETTER_U && !IsHex4(s, i + 2)
  {
    hide HexDigit, IsHex;
    AtBytes(s, i, g);
    HexDigits(g[2]);
    HexDigits(g[3]);
    HexDigits(g[4]);
    HexDigits(g[5]);
    assert s[i + 0] == g[0] && s[i + 1] == g[1] && s[i + 2] == g[2];
    assert s[i + 3] == g[3] && s[i + 4] == g[4] && s[i + 5] == g[5];
  }

  /** The spelling of one character is one step of the second pass; a quote in it may be the closing one. */
  lemma CharSteps(s: Bytes, i: nat, end: nat, c: Char)
    requires IsLooseChar(c) && At(s, i, SpellChar(c)) && i < end < |s|
    requires c.Code? ==> i + |SpellChar(c)| <= end
    ensures Step(s, i, end) == Some((CharBytes(c), i + |SpellChar(c)|))
  {
    hide IsHex4, Writes, IsCode, IsBadUnit, IsUnit, Utf8;
    AtByteIs(s, i, SpellChar(c));
    match c
    case Plain(b) =>
    case Short(l) =>
      AtBytes(s, i, [BACKSLASH, l]);
      assert s[i + 1] == l;
      ShortIsSimple(l);
    case Code(cp, g) => CodeSteps(s, i, end, cp, g);
  }

  lemma CodeSteps(s: Bytes, i: nat, end: nat, cp: nat, g: Bytes)
    requires IsLooseChar(Code(cp, g)) && At(s, i, g) && i + |g| <= end < |s|
    ensures Step(s, i, end) == Some((Utf8(cp), i + |g|))
  {
    hide Hex4, IsHex4, At, IsUnit, Group, Utf8;
    CodeBegins(s, i, cp, g);
    if IsCode(cp, g) {
      CodeWrites(s, i, end, cp, g);
      ScalarIsDecoded(s, i, end, cp);
    } else {
      BadUnitIsZero(s, i, g);
      BadIsZero(s, i + 2);
    }
  }

  lemma BadIsZero(s: Bytes, i: nat)
    requires i + 4 <= |s| && !IsHex4(s, i)
    ensures Hex4(s, i) == 0
  {
  }

  lemma CodeBegins(s: Bytes, i: nat, cp: nat, g: Bytes)
    requires IsLooseChar(Code(cp, g)) && At(s, i, g)
    ensures |g| >= 6 && i + 6 <= |s| && s[i] == BACKSLASH && s[i + 1] == LETTER_U && SimpleEscape(LETTER_U) == None
  {
    AtBytes(s, i, g);
    assert s[i + 0] == g[0] && s[i + 1] == g[1];
  }

  /** Conversely each step of the second pass reads one such character. */
  lemma StepIsChar(s: Bytes, i: nat, end: nat) returns (c: Char)
    requires i < end < |s| && s[end] == QUOTE && Step(s, i, end).Some?
    ensures var (b, next) := Step(s, i, end).value;
      IsLooseChar(c) && CharBytes(c) == b && i + |SpellChar(c)| == next && At(s, i, SpellChar(c))
      && (next > end ==> c == Short(QUOTE))
  {
    hide IsHex4, Writes, IsCode, IsBadUnit, IsUnit, Utf8;
    if s[i] != BACKSLASH {
      return Plain(s[i]);
    }
    ShortIsSimple(s[i + 1]);
    if ShortByte(s[i + 1]).Some? {
      return Short(s[i + 1]);
    }
    var (cp, n) := Literal(s, i, end).value;
    var g := s[i..i + n];
    DecodedIsScalar(s, i, end);
    assert s[i..i + 2] == [BACKSLASH, LETTER_U];
    if IsHex4(s, i + 2) {
      CodeWrites(s, i, end, cp, g);
    } else {
      BadIsZero(s, i + 2);
      BadUnitIsZero(s, i, g);
    }
    return Code(cp, g);
  }

  lemma CharTakesSpace(c: Char)
    requires IsLooseChar(c)
    ensures |SpellChar(c)| > 0 && (c.Short? ==> |SpellChar(c)| == 2)
  {
  }

  // ---- literals ----

  /** What the first pass takes for the inside of a literal: no quote but after a backslash, which always
      takes a byte with it. */
  predicate Paired(body: Bytes) {
    body == []
    || (if body[0] == BACKSLASH then |body| >= 2 && Paired(body[2..]) else body[0] != QUOTE && Paired(body[1..]))
  }

  /** The characters are spelled inside of a literal, or go on over its closing quote. */
  predicate Fills(cs: seq<Char>, body: Bytes) {
    SpellChars(cs) == body
    || (SpellChars(cs) == body + [QUOTE] && cs != [] && cs[|cs| - 1] == Short(QUOTE))
  }

  predicate Reads(cs: seq<Char>, body: Bytes, bytes: Bytes) {
    AreLooseChars(cs) && Fills(cs, body) && CharsBytes(cs) == bytes
  }

  ghost predicate BodyText(body: Bytes, bytes: Bytes) {
    Paired(body) && exists cs :: Reads(cs, body, bytes)
  }

  /** A text that parse_string takes for a literal of these bytes. */
  ghost predicate StringText(t: Bytes, bytes: Bytes) {
    |t| >= 2 && t[0] == QUOTE && t[|t| - 1] == QUOTE && BodyText(t[1..|t| - 1], bytes)
  }

  lemma {:induction false} PairedCloses(s: Bytes, i: nat, body: Bytes)
    requires Paired(body) && At(s, i, body) && i + |body| < |s| && s[i + |body|] == QUOTE
    ensures FindClose(s, i) == Some(i + |body|)
    decreases |body|
  {
    hide FindClose, At;
    if body == [] {
      CloseHere(s, i);
    } else {
      var k := if body[0] == BACKSLASH then 2 else 1;
      assert body == body[..k] + body[k..];
      AtSplit(s, i, body[..k], body[k..]);
      AtByteIs(s, i, body[..k]);
      PairedCloses(s, i + k, body[k..]);
      CloseLater(s, i);
    }
  }

  lemma CloseLater(s: Bytes, i: nat)
    requires i < |s| && s[i] != QUOTE && (s[i] == BACKSLASH ==> i + 1 < |s|)
    ensures FindClose(s, i) == FindClose(s, if s[i] == BACKSLASH then i + 2 else i + 1)
  {
  }

  lemma {:induction false} ClosesPaired(s: Bytes, i: nat)
    requires i <= |s| && FindClose(s, i).Some?
    ensures Paired(s[i..FindClose(s, i).value])
    decreases |s| - i
  {
    var end := FindClose(s, i).value;
    if i < end {
      var k := if s[i] == BACKSLASH then 2 else 1;
      ClosesPaired(s, i + k);
      assert s[i..end][k..] == s[i + k..end];
    }
  }

  lemma {:induction false} CharsDecode(s: Bytes, i: nat, end: nat, cs: seq<Char>)
    requires AreLooseChars(cs) && At(s, i, SpellChars(cs)) && i <= end + 1 && end < |s|
    requires i + |SpellChars(cs)| == end
      || (i + |SpellChars(cs)| == end + 1 && (cs == [] || cs[|cs| - 1] == Short(QUOTE)))
    ensures Decode(s, i, end) == Some(CharsBytes(cs))
    decreases |cs|
  {
    hide SpellChar, CharBytes, IsLooseChar, At, Decode;
    if cs == [] {
      NothingDecoded(s, i, end);
    } else {
      var c, rest := cs[0], SpellChars(cs[1..]);
      AtSplit(s, i, SpellChar(c), rest);
      CharTakesSpace(c);
      if |cs| > 1 {
        LastTakesSpace(cs[1..]);
      }
      CharSteps(s, i, end, c);
      CharsDecode(s, i + |SpellChar(c)|, end, cs[1..]);
      DecodeStep(s, i, end, CharBytes(c), i + |SpellChar(c)|, CharsBytes(cs[1..]));
    }
  }

  lemma NothingDecoded(s: Bytes, i: nat, end: nat)
    requires end <= i <= end + 1 && end < |s|
    ensures Decode(s, i, end) == Some([])
  {
  }

  lemma {:induction false} LastTakesSpace(cs: seq<Char>)
    requires cs != [] && AreLooseChars(cs)
    ensures |SpellChars(cs)| > 0 && (cs[|cs| - 1].Short? ==> |SpellChars(cs)| >= 2)
  {
    hide SpellChar, IsLooseChar;
    CharTakesSpace(cs[0]);
    if |cs| > 1 {
      LastTakesSpace(cs[1..]);
    }
  }

  lemma {:induction false} DecodeIsChars(s: Bytes, i: nat, end: nat) returns (cs: seq<Char>)
    requires i <= end + 1 && end < |s| && s[end] == QUOTE && Decode(s, i, end).Some?
    ensures AreLooseChars(cs) && CharsBytes(cs) == Decode(s, i, end).value && At(s, i, SpellChars(cs))
    ensures i + |SpellChars(cs)| == end
      || (i + |SpellChars(cs)| == end + 1 && (cs == [] || cs[|cs| - 1] == Short(QUOTE)))
    decreases end + 1 - i
  {
    hide Step, SpellChar, CharBytes, IsLooseChar, At;
    if i >= end {
      NothingAt(s, i);
      return [];
    }
    var c := StepIsChar(s, i, end);
    var rest := DecodeIsChars(s, Step(s, i, end).value.1, end);
    cs := [c] + rest;
    assert cs[1..] == rest;
    AtSplit(s, i, SpellChar(c), SpellChars(rest));
  }

  lemma NothingAt(s: Bytes, i: nat)
    requires i <= |s|
    ensures At(s, i, [])
  {
    assert s[i..i + 0] == [];
  }

  lemma BodyReads(s: Bytes, i: nat, body: Bytes, bytes: Bytes)
    requires At(s, i, body) && At(s, i + |body|, [QUOTE]) && BodyText(body, bytes)
    ensures i + |body| < |s| && FindClose(s, i) == Some(i + |body|) && Decode(s, i, i + |body|) == Some(bytes)
  {
    hide FindClose, Decode, At, Paired, SpellChars, CharsBytes, AreLooseChars;
    var cs :| Reads(cs, body, bytes);
    AtByteIs(s, i + |body|, [QUOTE]);
    PairedCloses(s, i, body);
    AtSplit(s, i, body, [QUOTE]);
    CharsDecode(s, i, i + |body|, cs);
  }

  /** parse_string reads just these texts, as these bytes. */
  lemma StringReads(s: Bytes, off: nat, t: Bytes, bytes: Bytes)
    requires At(s, off, t) && StringText(t, bytes)
    ensures off < |s| && s[off] == QUOTE && ParseString(s, off) == Some((bytes, off + |t|))
  {
    hide FindClose, Decode, At, BodyText;
    var body := t[1..|t| - 1];
    assert t == [QUOTE] + body + [QUOTE];
    AtSplit(s, off, [QUOTE] + body, [QUOTE]);
    AtSplit(s, off, [QUOTE], body);
    AtByteIs(s, off, [QUOTE]);
    BodyReads(s, off + 1, body, bytes);
  }

  lemma BodyIsText(s: Bytes, i: nat, close: nat)
    requires i <= |s| && FindClose(s, i) == Some(close) && Decode(s, i, close).Some?
    ensures BodyText(s[i..close], Decode(s, i, close).value)
  {
    hide FindClose, Decode, At, Paired, SpellChars, CharsBytes, AreLooseChars, Fills;
    ClosesPaired(s, i);
    var cs := DecodeIsChars(s, i, close);
    CharsFill(s, i, close, cs);
    assert Reads(cs, s[i..close], Decode(s, i, close).value);
  }

  lemma StringIsText(s: Bytes, off: nat)
    requires off < |s| && ParseString(s, off).Some?
    ensures var (bytes, end) := ParseString(s, off).value;
      StringText(s[off..end], bytes)
  {
    hide FindClose, Decode, BodyText;
    var close := FindClose(s, off + 1).value;
    BodyIsText(s, off + 1, close);
    InsideQuotes(s, off, close);
  }

  lemma InsideQuotes(s: Bytes, off: nat, close: nat)
    requires off < close < |s|
    ensures var t := s[off..close + 1];
      |t| >= 2 && t[0] == s[off] && t[|t| - 1] == s[close] && t[1..|t| - 1] == s[off + 1..close]
  {
    var t, body := s[off..close + 1], s[off + 1..close];
    assert t == [s[off]] + body + [s[close]];
    assert ([s[off]] + body + [s[close]])[1..|t| - 1] == body;
  }

  lemma CharsFill(s: Bytes, i: nat, end: nat, cs: seq<Char>)
    requires i <= end < |s| && s[end] == QUOTE && At(s, i, SpellChars(cs))
    requires i + |SpellChars(cs)| == end
      || (i + |SpellChars(cs)| == end + 1 && (cs == [] || cs[|cs| - 1] == Short(QUOTE)))
    ensures Fills(cs, s[i..end])
  {
    assert s[i..end + 1] == s[i..end] + [QUOTE];
  }

  /** What section 7 of RFC 8259 derives is among these texts. */
  lemma LiteralIsText(cs: seq<Char>)
    requires AreChars(cs)
    ensures AreLooseChars(cs) && StringText(Literally(cs), CharsBytes(cs))
  {
    hide SpellChar, IsChar, IsLooseChar, CharBytes, Paired;
    CharsAreLoose(cs);
    CharsArePaired(cs);
    var t := Literally(cs);
    assert t[1..|t| - 1] == SpellChars(cs);
    assert Reads(cs, t[1..|t| - 1], CharsBytes(cs));
  }

  lemma {:induction false} CharsArePaired(cs: seq<Char>)
    requires AreChars(cs)
    ensures Paired(SpellChars(cs))
  {
    hide SpellChar, IsChar;
    if cs != [] {
      CharsArePaired(cs[1..]);
      CharIsPaired(cs[0], SpellChars(cs[1..]));
    }
  }

  lemma CharIsPaired(c: Char, r: Bytes)
    requires IsChar(c) && Paired(r)
    ensures Paired(SpellChar(c) + r)
  {
    hide IsCode;
    match c
    case Plain(b) => assert ([b] + r)[1..] == r;
    case Short(l) => assert ([BACKSLASH, l] + r)[2..] == r;
    case Code(cp, g) =>
      var n := if cp < 0x10000 then 0 else 6;
      CodeUnits(cp, g);
      UnitIsPaired(g[n..], r);
      if n == 6 {
        UnitIsPaired(g[..6], g[6..] + r);
        assert g[..6] + (g[6..] + r) == g + r;
      } else {
        assert g[0..] == g;
      }
  }

  lemma CodeUnits(cp: nat, g: Bytes)
    requires IsCode(cp, g)
    ensures if cp < 0x10000 then |g| == 6 && exists h :: IsUnit(g[0..], 0, h)
      else |g| == 12 && (exists h :: IsUnit(g[..6], 0, h)) && exists h :: IsUnit(g[6..], 0, h)
  {
    if cp < 0x10000 {
      assert IsUnit(g[0..], 0, cp);
    } else {
      assert IsUnit(g[..6], 0, 0xD800 + (cp - 0x10000) / 0x400);
      assert IsUnit(g[6..], 0, 0xDC00 + (cp - 0x10000) % 0x400);
    }
  }

  lemma UnitIsPaired(g: Bytes, r: Bytes)
    requires |g| == 6 && (exists h :: IsUnit(g, 0, h)) && Paired(r)
    ensures Paired(g + r)
  {
    var h :| IsUnit(g, 0, h);
    var t := g + r;
    assert forall i :: 2 <= i < 6 ==> t[i] == g[i] && t[i] != QUOTE && t[i] != BACKSLASH;
    assert t[6..] == r && t[5..][1..] == t[6..] && t[4..][1..] == t[5..];
    assert t[3..][1..] == t[4..] && t[2..][1..] == t[3..];
    assert Paired(t[5..]) && Paired(t[4..]) && Paired(t[3..]) && Paired(t[2..]);
  }

  /** parse_string reads every spelling of a string as the bytes it stands for. */
  lemma LiteralReads(s: Bytes, off: nat, cs: seq<Char>)
    requires AreChars(cs) && At(s, off, Literally(cs))
    ensures off < |s| && s[off] == QUOTE && AreLooseChars(cs)
      && ParseString(s, off) == Some((CharsBytes(cs), off + |Literally(cs)|))
  {
    hide ParseString, CharsBytes, Literally, StringText;
    LiteralIsText(cs);
    StringReads(s, off, Literally(cs), CharsBytes(cs));
  }

  // ---- numbers ----

  /** int, frac and exp of section 6 of RFC 8259. */
  datatype Numeral = Numeral(negative: bool, whole: Bytes, fraction: Option<Bytes>, exponent: Option<Power>)

  datatype Power = Power(letter: byte, sign: Option<byte>, digits: Bytes)

  predicate AllDigits(t: Bytes) {
    forall i :: 0 <= i < |t| ==> '0' as int <= t[i] <= '9' as int
  }

  predicate AreDigits(t: Bytes) {
    t != [] && AllDigits(t)
  }

  predicate IsPower(p: Power) {
    (p.letter == LOWER_E || p.letter == UPPER_E) && AreDigits(p.digits)
    && (p.sign.Some? ==> p.sign.value == PLUS || p.sign.value == MINUS)
  }

  predicate IsNumeral(n: Numeral) {
    AreDigits(n.whole) && (n.fraction.Some? ==> AreDigits(n.fraction.value))
    && (n.exponent.Some? ==> IsPower(n.exponent.value))
  }

  /** The same with what strtod reads besides: digits can be missing before or after the point, but not
      both, and the sign tells parse_value that a number begins when it is not a digit. */
  predicate IsLooseNumeral(n: Numeral) {
    AllDigits(n.whole) && (n.fraction.Some? ==> AllDigits(n.fraction.value))
    && (n.whole != [] || (n.negative && n.fraction.Some? && n.fraction.value != []))
    && (n.exponent.Some? ==> IsPower(n.exponent.value))
  }

  function SpellSign(n: Numeral): Bytes {
    if n.negative then [MINUS] else []
  }

  function SpellFraction(n: Numeral): Bytes {
    if n.fraction.Some? then [DOT] + n.fraction.value else []
  }

  function SpellPower(n: Numeral): Bytes {
    if n.exponent == None then [] else SpellExponent(n.exponent.value)
  }

  function SpellExponent(p: Power): Bytes {
    [p.letter] + (if p.sign.Some? then [p.sign.value] else []) + p.digits
  }

  function SpellNumeral(n: Numeral): Bytes {
    SpellSign(n) + n.whole + SpellFraction(n) + SpellPower(n)
  }

  function NatValue(t: Bytes): nat
    requires AllDigits(t)
  {
    DigitsValue(t, 0, |t|)
  }

  function PowerValue(n: Numeral): int
    requires IsLooseNumeral(n)
  {
    if n.exponent == None then 0 else ExponentValue(n.exponent.value)
  }

  function ExponentValue(p: Power): int
    requires IsPower(p)
  {
    var value: int := NatValue(p.digits);
    if p.sign == Some(MINUS) then -value else value
  }

  /** The exact value of a numeral. */
  function NumeralValue(n: Numeral): real
    requires IsLooseNumeral(n)
  {
    var below := if n.fraction.Some? then Scaled(NatValue(n.fraction.value) as real, -|n.fraction.value|) else 0.0;
    var value := Scaled(NatValue(n.whole) as real + below, PowerValue(n));
    if n.negative then -value else value
  }

  /** Digits have the same value wherever they stand. */
  lemma {:induction false} DigitsElsewhere(t: Bytes, a: nat, w: Bytes, k: nat)
    requires At(t, a, w) && k <= |w| && forall i :: 0 <= i < |w| ==> IsDigit(w[i])
    ensures forall i :: a <= i < a + |w| ==> IsDigit(t[i])
    ensures DigitsValue(t, a, a + k) == DigitsValue(w, 0, k)
    decreases k
  {
    AtBytes(t, a, w);
    assert forall i :: a <= i < a + |w| ==> t[i] == w[i - a];
    if k > 0 {
      DigitsElsewhere(t, a, w, k - 1);
    }
  }

  lemma DigitsRead(t: Bytes, a: nat, w: Bytes)
    requires At(t, a, w) && AllDigits(w) && (a + |w| < |t| ==> !IsDigit(t[a + |w|]))
    ensures DigitsEnd(t, a) == a + |w| && forall i :: a <= i < a + |w| ==> IsDigit(t[i])
    ensures DigitsValue(t, a, a + |w|) == NatValue(w)
  {
    DigitsElsewhere(t, a, w, |w|);
    EndOfDigits(t, a, a + |w|);
  }

  lemma {:induction false} EndOfDigits(t: Bytes, a: nat, e: nat)
    requires a <= e <= |t| && (forall i :: a <= i < e ==> IsDigit(t[i])) && (e < |t| ==> !IsDigit(t[e]))
    ensures DigitsEnd(t, a) == e
    decreases e - a
  {
    if a < e {
      EndOfDigits(t, a + 1, e);
    }
  }

  lemma PowerReads(t: Bytes, i: nat, n: Numeral)
    requires IsLooseNumeral(n) && At(t, i, SpellPower(n)) && i + |SpellPower(n)| == |t|
    ensures Exponent(t, i) == (PowerValue(n), |t|)
  {
    hide DigitsEnd, DigitsValue, NatValue, At;
    if n.exponent.Some? {
      var p := n.exponent.value;
      var sign := if p.sign.Some? then [p.sign.value] else [];
      AtSplit(t, i, [p.letter] + sign, p.digits);
      AtSplit(t, i, [p.letter], sign);
      AtByteIs(t, i, [p.letter]);
      AtByteIs(t, i + 1, sign);
      AtByteIs(t, i + 1 + |sign|, p.digits);
      DigitsRead(t, i + 1 + |sign|, p.digits);
    }
  }

  lemma AtByteIs(t: Bytes, i: nat, w: Bytes)
    requires At(t, i, w)
    ensures w != [] ==> i < |t| && t[i] == w[0]
  {
    if w != [] {
      assert t[i..i + |w|][0] == w[0];
    }
  }

  /** Where the parts of a numeral begin. */
  lemma NumeralParts(n: Numeral)
    ensures var t := SpellNumeral(n);
      var a := |SpellSign(n)|;
      var b := a + |n.whole|;
      var c := b + |SpellFraction(n)|;
      At(t, 0, SpellSign(n)) && At(t, a, n.whole) && At(t, b, SpellFraction(n)) && At(t, c, SpellPower(n))
      && c + |SpellPower(n)| == |t|
  {
    hide SpellSign, SpellFraction, SpellPower, At;
    var t, a, w, f, p := SpellNumeral(n), SpellSign(n), n.whole, SpellFraction(n), SpellPower(n);
    assert At(t, 0, t) by {
      WholeIsAt(t);
    }
    AtSplit(t, 0, a + w + f, p);
    AtSplit(t, 0, a + w, f);
    AtSplit(t, 0, a, w);
  }

  lemma WholeIsAt(t: Bytes)
    ensures At(t, 0, t)
  {
    assert t[0..|t|] == t;
  }

  /** strtod reads a numeral to its end, as its exact value. */
  lemma NumeralReads(n: Numeral)
    requires IsLooseNumeral(n)
    ensures Strtod(SpellNumeral(n)) == Some((NumeralValue(n), |SpellNumeral(n)|))
  {
    hide DigitsEnd, DigitsValue, Scaled, Exponent, At, SpellPower, SpellFraction, SpellNumeral, PowerValue;
    var t := SpellNumeral(n);
    var a := |SpellSign(n)|;
    var b := a + |n.whole|;
    var c := b + |SpellFraction(n)|;
    NumeralParts(n);
    AtByteIs(t, 0, SpellSign(n));
    AtByteIs(t, a, n.whole);
    PowerBegins(t, c, n);
    PowerReads(t, c, n);
    FractionReads(t, b, n);
    DigitsRead(t, a, n.whole);
    SignRead(t, n.negative, n.whole);
    NotScaled(0.0);
  }

  /** The fraction is read, if there is one. */
  lemma FractionReads(t: Bytes, b: nat, n: Numeral)
    requires IsLooseNumeral(n) && At(t, b, SpellFraction(n))
    requires var c := b + |SpellFraction(n)|; c < |t| ==> !IsDigit(t[c]) && t[c] != DOT
    ensures n.fraction == None ==> SpellFraction(n) == [] && (b < |t| ==> !IsDigit(t[b]) && t[b] != DOT)
    ensures n.fraction.Some? ==>
      var w := n.fraction.value;
      b < |t| && t[b] == DOT && !IsDigit(t[b]) && |SpellFraction(n)| == 1 + |w|
      && DigitsEnd(t, b + 1) == b + 1 + |w| && (forall i :: b + 1 <= i < b + 1 + |w| ==> IsDigit(t[i]))
      && DigitsValue(t, b + 1, b + 1 + |w|) == NatValue(w)
  {
    hide DigitsEnd, DigitsValue, At;
    AtByteIs(t, b, SpellFraction(n));
    if n.fraction.Some? {
      AtSplit(t, b, [DOT], n.fraction.value);
      DigitsRead(t, b + 1, n.fraction.value);
    }
  }

  lemma NotScaled(v: real)
    ensures Scaled(v, 0) == v
  {
  }

  lemma SignRead(t: Bytes, negative: bool, whole: Bytes)
    requires AllDigits(whole) && t != []
    requires if negative then t[0] == MINUS else whole != [] && t[0] == whole[0]
    ensures SignEnd(t, 0) == (if negative then 1 else 0) && (t[0] == MINUS <==> negative)
  {
  }

  lemma PowerBegins(t: Bytes, c: nat, n: Numeral)
    requires IsLooseNumeral(n) && At(t, c, SpellPower(n)) && c + |SpellPower(n)| == |t|
    ensures c < |t| ==> !IsDigit(t[c]) && t[c] != DOT
  {
    AtBytes(t, c, SpellPower(n));
    if c < |t| {
      assert t[c + 0] == n.exponent.value.letter;
    }
  }

  lemma {:induction false} TokenEnds(s: Bytes, off: nat, e: nat, end: nat)
    requires off <= e <= end < |s| && end <= off + MAX_TOKEN && !IsNumberChar(s[end])
    requires forall k :: e <= k < end ==> IsNumberChar(s[k])
    ensures TokenEnd(s, off, e) == end
    decreases end - e
  {
    if e < end {
      TokenEnds(s, off, e + 1, end);
    }
  }

  lemma NumeralChars(n: Numeral)
    requires IsLooseNumeral(n)
    ensures forall i :: 0 <= i < |SpellNumeral(n)| ==> IsNumberChar(SpellNumeral(n)[i])
  {
  }

  /** parse_number reads a numeral of at most 63 characters that no number character follows. */
  lemma TokenReads(s: Bytes, off: nat, n: Numeral)
    requires IsLooseNumeral(n) && |SpellNumeral(n)| <= MAX_TOKEN && At(s, off, SpellNumeral(n))
    requires Boundary(s, off + |SpellNumeral(n)|)
    ensures ParseNumber(s, off) == Some((Num(NumeralValue(n)), off + |SpellNumeral(n)|))
  {
    hide IsLooseNumeral, SpellNumeral, NumeralValue, IsNumberChar, Strtod;
    var t := SpellNumeral(n);
    NumeralChars(n);
    AtBytes(s, off, t);
    assert forall k :: off <= k < off + |t| ==> s[k] == t[k - off];
    TokenEnds(s, off, off, off + |t|);
    NumeralReads(n);
  }

  /** A text that is read as this number: a numeral of at most 63 characters. */
  ghost predicate NumberText(t: Bytes, v: real) {
    |t| <= 63 && exists n :: Denotes(n, t, v)
  }

  predicate Denotes(n: Numeral, t: Bytes, v: real) {
    IsLooseNumeral(n) && SpellNumeral(n) == t && NumeralValue(n) == v
  }

  /** The numeral that strtod has read. */
  function Scanned(t: Bytes): Numeral
    requires t != []
  {
    var start := SignEnd(t, 0);
    var whole := DigitsEnd(t, start);
    var dot := whole < |t| && t[whole] == DOT;
    var fraction := if dot then DigitsEnd(t, whole + 1) else whole;
    var (_, end) := Exponent(t, fraction);
    Numeral(t[0] == MINUS, t[start..whole], if dot then Some(t[whole + 1..fraction]) else None,
            if end == fraction then None else Some(ScannedPower(t[fraction..end])))
  }

  /** The parts of an exponent. */
  function ScannedPower(e: Bytes): Power
    requires |e| >= 2
  {
    if e[1] == PLUS || e[1] == MINUS then Power(e[0], Some(e[1]), e[2..]) else Power(e[0], None, e[1..])
  }

  lemma DigitsInside(t: Bytes, a: nat, b: nat)
    requires a <= b <= |t| && forall i :: a <= i < b ==> IsDigit(t[i])
    ensures AllDigits(t[a..b]) && DigitsValue(t, a, b) == NatValue(t[a..b])
  {
    hide DigitsValue;
    var w := t[a..b];
    assert forall i :: 0 <= i < |w| ==> IsDigit(w[i]);
    DigitsElsewhere(t, a, w, |w|);
  }

  lemma PowerIsScanned(t: Bytes, i: nat)
    requires i <= |t|
    ensures var (value, end) := Exponent(t, i);
      if end == i then value == 0
      else
        end >= i + 2 && IsPower(ScannedPower(t[i..end])) && SpellExponent(ScannedPower(t[i..end])) == t[i..end]
        && value == ExponentValue(ScannedPower(t[i..end]))
  {
    hide DigitsEnd, DigitsValue, NatValue, AllDigits;
    var (value, end) := Exponent(t, i);
    if end > i {
      var digits := SignEnd(t, i + 1);
      var e := t[i..end];
      DigitsInside(t, digits, end);
      assert e[digits - i..] == t[digits..end];
      assert e == [e[0]] + e[1..];
      if digits == i + 2 {
        assert e[1..] == [e[1]] + e[2..];
      } else {
        SignsAreNoDigits(t, digits);
      }
    }
  }

  lemma SignsAreNoDigits(t: Bytes, i: nat)
    requires i < |t| && DigitsEnd(t, i) > i
    ensures t[i] != PLUS && t[i] != MINUS
  {
  }

  /** What strtod reads of a number that begins with a digit or a minus sign is such a numeral. */
  lemma StrtodIsNumeral(t: Bytes)
    requires t != [] && (IsDigit(t[0]) || t[0] == MINUS) && Strtod(t).Some?
    ensures var (v, used) := Strtod(t).value; Denotes(Scanned(t), t[..used], v)
  {
    hide Strtod, Scanned, IsLooseNumeral, SpellNumeral, NumeralValue;
    ScannedIsNumeral(t);
    ScannedIsSpelled(t);
    ScannedIsValue(t);
  }

  lemma ScannedIsNumeral(t: Bytes)
    requires t != [] && (IsDigit(t[0]) || t[0] == MINUS) && Strtod(t).Some?
    ensures IsLooseNumeral(Scanned(t))
  {
    hide DigitsEnd, DigitsValue, Scaled, Exponent, NatValue, ScannedPower, AllDigits, ExponentValue, SpellExponent;
    var start := SignEnd(t, 0);
    var whole := DigitsEnd(t, start);
    var dot := whole < |t| && t[whole] == DOT;
    var fraction := if dot then DigitsEnd(t, whole + 1) else whole;
    DigitsInside(t, start, whole);
    if dot {
      DigitsInside(t, whole + 1, fraction);
    }
    PowerIsScanned(t, fraction);
    if IsDigit(t[0]) {
      DigitBegins(t);
    }
  }

  lemma ScannedIsSpelled(t: Bytes)
    requires t != [] && (IsDigit(t[0]) || t[0] == MINUS) && Strtod(t).Some?
    ensures SpellNumeral(Scanned(t)) == t[..Strtod(t).value.1]
  {
    hide DigitsEnd, DigitsValue, Scaled, Exponent, NatValue, ScannedPower, AllDigits, ExponentValue, SpellExponent;
    var start := SignEnd(t, 0);
    var whole := DigitsEnd(t, start);
    var dot := whole < |t| && t[whole] == DOT;
    var fraction := if dot then DigitsEnd(t, whole + 1) else whole;
    var used := Strtod(t).value.1;
    PowerIsScanned(t, fraction);
    if IsDigit(t[0]) {
      DigitBegins(t);
    }
    assert t[..start] == SpellSign(Scanned(t));
    FractionPart(t, whole, fraction);
    ScannedParts(t, start, whole, fraction, used);
  }

  lemma ScannedIsValue(t: Bytes)
    requires t != [] && (IsDigit(t[0]) || t[0] == MINUS) && Strtod(t).Some? && IsLooseNumeral(Scanned(t))
    ensures NumeralValue(Scanned(t)) == Strtod(t).value.0
  {
    hide DigitsEnd, DigitsValue, Scaled, Exponent, NatValue, ScannedPower, AllDigits, ExponentValue, SpellExponent;
    var start := SignEnd(t, 0);
    var whole := DigitsEnd(t, start);
    var dot := whole < |t| && t[whole] == DOT;
    var fraction := if dot then DigitsEnd(t, whole + 1) else whole;
    DigitsInside(t, start, whole);
    if dot {
      DigitsInside(t, whole + 1, fraction);
    }
    PowerIsScanned(t, fraction);
    NotScaled(0.0);
  }

  lemma DigitBegins(t: Bytes)
    requires t != [] && IsDigit(t[0])
    ensures DigitsEnd(t, 0) > 0 && SignEnd(t, 0) == 0
  {
  }

  lemma FractionPart(t: Bytes, whole: nat, fraction: nat)
    requires whole <= fraction <= |t| && (whole < fraction ==> t[whole] == DOT)
    ensures t[whole..fraction] == if whole < fraction then [DOT] + t[whole + 1..fraction] else []
  {
  }

  lemma ScannedParts(t: Bytes, start: nat, whole: nat, fraction: nat, used: nat)
    requires start <= whole <= fraction <= used <= |t|
    ensures t[..used] == t[..start] + t[start..whole] + t[whole..fraction] + t[fraction..used]
  {
  }

  lemma DigitsCover(t: Bytes, a: nat, w: Bytes)
    requires At(t, a, w) && AllDigits(w)
    ensures DigitsEnd(t, a) >= a + |w|
    ensures a + |w| < |t| && !IsDigit(t[a + |w|]) ==> DigitsEnd(t, a) == a + |w|
  {
    var e := DigitsEnd(t, a);
    AtBytes(t, a, w);
    assert forall i :: a <= i < a + |w| ==> t[i] == w[i - a];
  }

  lemma PowerCovered(t: Bytes, i: nat, p: Power)
    requires IsPower(p) && At(t, i, SpellExponent(p))
    ensures i < |t| && !IsDigit(t[i]) && t[i] != DOT && Exponent(t, i).1 >= i + |SpellExponent(p)|
  {
    hide DigitsEnd, DigitsValue, At;
    var sign := if p.sign.Some? then [p.sign.value] else [];
    AtSplit(t, i, [p.letter] + sign, p.digits);
    AtSplit(t, i, [p.letter], sign);
    AtByteIs(t, i, [p.letter]);
    AtByteIs(t, i + 1, sign);
    AtByteIs(t, i + 1 + |sign|, p.digits);
    assert IsDigit(p.digits[0]);
    DigitsCover(t, i + 1 + |sign|, p.digits);
  }

  /** Where strtod has read the whole digits and the fraction. */
  function FractionEnd(t: Bytes): (e: nat)
    ensures e <= |t|
  {
    var whole := DigitsEnd(t, SignEnd(t, 0));
    if whole < |t| && t[whole] == DOT then DigitsEnd(t, whole + 1) else whole
  }

  lemma StrtodStops(t: Bytes)
    ensures DigitsEnd(t, SignEnd(t, 0)) > SignEnd(t, 0) || FractionEnd(t) > DigitsEnd(t, SignEnd(t, 0)) + 1 ==>
      Strtod(t).Some? && Strtod(t).value.1 == Exponent(t, FractionEnd(t)).1
  {
    hide DigitsEnd, DigitsValue, Scaled, Exponent, SignEnd;
  }

  lemma FractionCovered(t: Bytes, n: Numeral)
    requires IsLooseNumeral(n) && At(t, 0, SpellSign(n)) && At(t, |SpellSign(n)|, n.whole)
    requires At(t, |SpellSign(n)| + |n.whole|, SpellFraction(n))
    ensures var a := |SpellSign(n)|;
      var c := a + |n.whole| + |SpellFraction(n)|;
      SignEnd(t, 0) == a && c <= FractionEnd(t) <= |t|
      && (c < |t| && !IsDigit(t[c]) && t[c] != DOT ==> FractionEnd(t) == c)
      && (DigitsEnd(t, a) > a || FractionEnd(t) > DigitsEnd(t, a) + 1)
  {
    hide DigitsEnd, SignEnd, SpellSign, At, AllDigits;
    var b := |SpellSign(n)| + |n.whole|;
    SignCovered(t, n);
    DigitsCover(t, |SpellSign(n)|, n.whole);
    if n.fraction.Some? {
      DotCovered(t, b, n.fraction.value);
    }
  }

  lemma DotCovered(t: Bytes, b: nat, w: Bytes)
    requires At(t, b, [DOT] + w) && AllDigits(w)
    ensures var c := b + 1 + |w|;
      b < |t| && t[b] == DOT && !IsDigit(t[b]) && c <= DigitsEnd(t, b + 1)
      && (c < |t| && !IsDigit(t[c]) ==> DigitsEnd(t, b + 1) == c)
  {
    hide DigitsEnd, At, AllDigits;
    AtSplit(t, b, [DOT], w);
    AtByteIs(t, b, [DOT]);
    DigitsCover(t, b + 1, w);
  }

  /** strtod reads as far as any numeral goes that the text begins with. */
  lemma StrtodIsLongest(t: Bytes, n: Numeral)
    requires IsLooseNumeral(n) && At(t, 0, SpellNumeral(n))
    ensures Strtod(t).Some? && Strtod(t).value.1 >= |SpellNumeral(n)|
  {
    hide DigitsEnd, SignEnd, FractionEnd, Strtod, Exponent, At, AllDigits, SpellNumeral, SpellExponent, IsPower;
    NumeralPlaces(t, n);
    FractionCovered(t, n);
    StrtodStops(t);
    if n.exponent.Some? {
      PowerCovered(t, |SpellNumeral(n)| - |SpellPower(n)|, n.exponent.value);
    }
  }

  lemma NumeralPlaces(t: Bytes, n: Numeral)
    requires At(t, 0, SpellNumeral(n))
    ensures var a := |SpellSign(n)|;
      var b := a + |n.whole|;
      var c := b + |SpellFraction(n)|;
      At(t, 0, SpellSign(n)) && At(t, a, n.whole) && At(t, b, SpellFraction(n)) && At(t, c, SpellPower(n))
      && c + |SpellPower(n)| == |SpellNumeral(n)| <= |t|
  {
    hide SpellSign, SpellFraction, SpellPower;
    var w, f, p := n.whole, SpellFraction(n), SpellPower(n);
    AtSplit(t, 0, SpellSign(n) + w + f, p);
    AtSplit(t, 0, SpellSign(n) + w, f);
    AtSplit(t, 0, SpellSign(n), w);
  }

  lemma SignCovered(t: Bytes, n: Numeral)
    requires IsLooseNumeral(n) && At(t, 0, SpellSign(n)) && At(t, |SpellSign(n)|, n.whole)
    ensures SignEnd(t, 0) == |SpellSign(n)|
  {
    AtByteIs(t, 0, SpellSign(n));
    AtByteIs(t, |SpellSign(n)|, n.whole);
  }

  // ---- texts ----

  /** A byte that can stand after a value: no number goes on through it. */
  predicate Boundary(s: Bytes, i: nat) {
    i < |s| && !IsNumberChar(s[i])
  }

  /** A derivation of a value, with the gaps around tokens; the gap of a list or record is that between its
      brackets when there is nothing else. */
  datatype Spelled =
    | TheNull
    | TheFalse
    | TheTrue
    | Number(numeral: Numeral)
    | String(chars: seq<Char>)
    | List(gap: Bytes, items: seq<Item>)
    | Record(gap: Bytes, fields: seq<Field>)

  datatype Item = Item(before: Bytes, value: Spelled, after: Bytes)

  datatype Field = Field(before: Bytes, key: seq<Char>, colon: Bytes, space: Bytes, value: Spelled, after: Bytes)

  predicate IsGap(ws: Bytes) {
    forall i :: 0 <= i < |ws| ==> NUL < ws[i] <= 32
  }

  predicate WellSpelled(v: Spelled)
    decreases v, 3
  {
    match v
    case Number(n) => IsNumeral(n) && |SpellNumeral(n)| <= MAX_TOKEN
    case String(cs) => AreChars(cs)
    case List(gap, items) => IsGap(gap) && AreItems(items)
    case Record(gap, fields) => IsGap(gap) && AreFields(fields)
    case _ => true
  }

  predicate AreItems(items: seq<Item>)
    decreases items, 2
  {
    forall x | x in items :: IsGap(x.before) && WellSpelled(x.value) && IsGap(x.after)
  }

  predicate AreFields(fields: seq<Field>)
    decreases fields, 2
  {
    forall f | f in fields :: IsField(f)
  }

  predicate IsField(f: Field)
    decreases f, 1
  {
    IsGap(f.before) && AreChars(f.key) && IsGap(f.colon) && IsGap(f.space) && WellSpelled(f.value) && IsGap(f.after)
  }

  /** The text derived. */
  function Spell(v: Spelled): (t: Bytes)
    decreases v, 1
  {
    match v
    case TheNull => NULL_WORD
    case TheFalse => FALSE_WORD
    case TheTrue => TRUE_WORD
    case Number(n) => SpellNumeral(n)
    case String(cs) => Literally(cs)
    case List(gap, items) => [LBRACKET] + (if items == [] then gap else SpellItems(items)) + [RBRACKET]
    case Record(gap, fields) => [LBRACE] + (if fields == [] then gap else SpellFields(fields)) + [RBRACE]
  }

  function SpellItems(items: seq<Item>): Bytes
    decreases items, 0
  {
    if items == [] then []
    else
      items[0].before + Spell(items[0].value) + items[0].after
      + if |items| == 1 then [] else [COMMA] + SpellItems(items[1..])
  }

  function SpellFields(fields: seq<Field>): Bytes
    decreases fields, 0
  {
    if fields == [] then []
    else SpellField(fields[0]) + if |fields| == 1 then [] else [COMMA] + SpellFields(fields[1..])
  }

  function SpellField(f: Field): Bytes
    decreases f, 2
  {
    f.before + Literally(f.key) + f.colon + [COLON] + f.space + Spell(f.value) + f.after
  }

  /** The tree meant, with strings as C strings. */
  function Meaning(v: Spelled): J
    requires WellSpelled(v)
    decreases v, 1
  {
    match v
    case TheNull => Null
    case TheFalse => False
    case TheTrue => True
    case Number(n) => Num(NumeralValue(n))
    case String(cs) =>
      CharsAreLoose(cs);
      Str(CString(CharsBytes(cs)))
    case List(_, items) => Arr(ItemsMeaning(items))
    case Record(_, fields) => Obj(FieldsMeaning(fields))
  }

  function ItemsMeaning(items: seq<Item>): (xs: seq<J>)
    requires AreItems(items)
    ensures |xs| == |items|
    decreases items, 0
  {
    if items == [] then [] else [Meaning(items[0].value)] + ItemsMeaning(items[1..])
  }

  function FieldMeaning(f: Field): Member
    requires IsField(f)
    decreases f, 2
  {
    Member(CString(CharsBytes(f.key)), Meaning(f.value))
  }

  function FieldsMeaning(fields: seq<Field>): (ms: seq<Member>)
    requires AreFields(fields)
    ensures |ms| == |fields|
    decreases fields, 0
  {
    if fields == [] then []
    else
      assert IsField(fields[0]);
      [FieldMeaning(fields[0])] + FieldsMeaning(fields[1..])
  }

  lemma ItemsApart(items: seq<Item>)
    requires items != []
    ensures AreItems(items) <==>
      IsGap(items[0].before) && WellSpelled(items[0].value) && IsGap(items[0].after) && AreItems(items[1..])
  {
    hide WellSpelled, IsGap;
    assert items == [items[0]] + items[1..];
  }

  lemma FieldsApart(fields: seq<Field>)
    requires fields != []
    ensures AreFields(fields) <==> IsField(fields[0]) && AreFields(fields[1..])
  {
    hide IsField;
    assert fields == [fields[0]] + fields[1..];
  }

  lemma ItemsUnfold(items: seq<Item>)
    requires items != []
    ensures SpellItems(items) == items[0].before + Spell(items[0].value) + items[0].after
      + if |items| == 1 then [] else [COMMA] + SpellItems(items[1..])
  {
    hide Spell;
  }

  lemma FieldsUnfold(fields: seq<Field>)
    requires fields != []
    ensures SpellFields(fields)
      == SpellField(fields[0]) + if |fields| == 1 then [] else [COMMA] + SpellFields(fields[1..])
  {
    hide SpellField;
  }
}
