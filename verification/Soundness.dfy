/** Whatever the parser reads is in its language: with `Reading`, the texts that are parsed are exactly the
    derivations that nest within the limit. */
module Soundness {
  import opened Bytes
  import opened Json
  import opened Numbers
  import opened Strings
  import opened Rendering
  import opened Grammar
  import opened Syntax
  import opened Language
  import opened Reading

  // ---- what has been read is a derivation ----

  lemma SkippedIsGap(s: Bytes, i: nat)
    requires i <= |s|
    ensures LooseGap(s[i..SkipWs(s, i)]) && SkipWs(s, SkipWs(s, i)) == SkipWs(s, i)
  {
    var e := SkipWs(s, i);
    assert WsEnd(s, e) == e || WsEnd(s, e) == |s|;
  }

  /** parse_value, at any place and depth. */
  lemma {:induction false} ValueIsText(s: Bytes, off: nat, depth: int)
    requires off <= |s| && ParseValue(s, off, depth).Some?
    ensures var (j, end) := ParseValue(s, off, depth).value; Derives(s[off..end], j)
    decreases |s| - off, 3
  {
    hide ParseContainer, ParseString, ParseNumber, StringText, DerivesItems, DerivesFields, CString, NumberText;
    WordsAreWords();
    var (j, end) := ParseValue(s, off, depth).value;
    if !At(s, off, NULL_WORD) && !At(s, off, FALSE_WORD) && !At(s, off, TRUE_WORD) {
      if s[off] == QUOTE {
        StringIsText(s, off);
      } else if s[off] == MINUS || IsDigit(s[off]) {
        NumberIsText(s, off);
      } else {
        ContainerIsText(s, off, depth);
      }
    }
  }

  lemma NumberIsText(s: Bytes, off: nat)
    requires off < |s| && (s[off] == MINUS || IsDigit(s[off])) && ParseNumber(s, off).Some?
    ensures var (j, end) := ParseNumber(s, off).value; j.Num? && NumberText(s[off..end], j.valuedouble)
  {
    hide Strtod, Denotes;
    var t := Token(s, off);
    TokenBegins(s, off);
    StrtodIsNumeral(t);
    var (v, used) := Strtod(t).value;
    assert t[..used] == s[off..off + used];
    assert Denotes(Scanned(t), s[off..off + used], v);
  }

  /** A number is read as far as any text of a number goes there. */
  lemma NumberIsLongest(s: Bytes, off: nat, e: nat, v: real)
    requires off <= e <= |s| && NumberText(s[off..e], v)
    ensures ParseNumber(s, off).Some? && e <= ParseNumber(s, off).value.1
  {
    hide Strtod, IsLooseNumeral, SpellNumeral, NumeralValue, IsNumberChar;
    var n :| Denotes(n, s[off..e], v);
    var t := Token(s, off);
    NumeralChars(n);
    assert forall k :: off <= k < e ==> s[k] == s[off..e][k - off];
    assert TokenEnd(s, off, off) >= e;
    assert t[0..|SpellNumeral(n)|] == s[off..e];
    StrtodIsLongest(t, n);
  }

  lemma TokenBegins(s: Bytes, off: nat)
    requires off < |s| && IsNumberChar(s[off])
    ensures 0 < |Token(s, off)| <= 63 && Token(s, off)[0] == s[off]
  {
  }

  /** A value, and the gaps that are skipped around it. */
  lemma {:induction false} ItemIsText(s: Bytes, i: nat, depth: int)
    requires i <= |s| && ParseValue(s, SkipWs(s, i), depth).Some?
    ensures var (x, end) := ParseValue(s, SkipWs(s, i), depth).value;
      i <= SkipWs(s, end) && DerivesItem(s[i..SkipWs(s, end)], x)
    decreases |s| - SkipWs(s, i), 4
  {
    hide ParseValue, SkipWs, LooseGap, Derives;
    var p := SkipWs(s, i);
    var (x, end) := ParseValue(s, p, depth).value;
    var next := SkipWs(s, end);
    SkippedIsGap(s, i);
    SkippedIsGap(s, end);
    ValueIsText(s, p, depth);
    MakesItem(s[i..p], s[p..end], s[end..next], x);
    assert s[i..next] == s[i..p] + s[p..end] + s[end..next];
  }

  lemma {:induction false} ContainerIsText(s: Bytes, off: nat, depth: int)
    requires off < |s| && (s[off] == LBRACKET || s[off] == LBRACE) && ParseContainer(s, off, depth).Some?
    ensures var (j, end) := ParseContainer(s, off, depth).value; Derives(s[off..end], j)
    decreases |s| - off, 2
  {
    hide ParseElements, ParseMembers, SkipWs, Derives, DerivesItems, DerivesFields, LooseGap;
    var first, end := SkipWs(s, off + 1), ParseContainer(s, off, depth).value.1;
    SkippedIsGap(s, off + 1);
    if s[off] == LBRACKET {
      if s[first] == RBRACKET {
        EmptyIsText(s[off + 1..first]);
        MakesArray(s[off + 1..first], []);
        Brackets(s, off, end);
      } else {
        SameElements(s, off, first - 1, depth + 1, []);
        var xs := ElementsAreText(s, off, depth + 1, []);
        MakesArray(s[off + 1..end - 1], xs);
        Brackets(s, off, end);
        assert [] + xs == xs;
      }
    } else {
      if s[first] == RBRACE {
        EmptyIsText(s[off + 1..first]);
        MakesObject(s[off + 1..first], []);
        Brackets(s, off, end);
      } else {
        SameMembers(s, off, first - 1, depth + 1, []);
        var ms := MembersAreText(s, off, depth + 1, []);
        MakesObject(s[off + 1..end - 1], ms);
        Brackets(s, off, end);
        assert [] + ms == ms;
      }
    }
  }

  lemma Brackets(s: Bytes, off: nat, end: nat)
    requires off + 2 <= end <= |s|
    ensures s[off..end] == [s[off]] + s[off + 1..end - 1] + [s[end - 1]]
  {
  }

  lemma EmptyIsText(gap: Bytes)
    requires LooseGap(gap)
    ensures DerivesItems(gap, []) && DerivesFields(gap, [])
  {
  }

  /** The element loop, from the byte before an element on. */
  lemma {:induction false} ElementsAreText(s: Bytes, off: nat, depth: int, done: seq<J>) returns (xs: seq<J>)
    requires off < |s| && ParseElements(s, off, depth, done).Some?
    ensures var (all, end) := ParseElements(s, off, depth, done).value;
      all == done + xs && xs != [] && off + 1 < end && s[end - 1] == RBRACKET && DerivesItems(s[off + 1..end - 1], xs)
    decreases |s| - off, 0
  {
    hide ParseValue, SkipWs, DerivesItems, DerivesItem;
    var p := SkipWs(s, off + 1);
    var (x, end) := ParseValue(s, p, depth).value;
    var next := SkipWs(s, end);
    ItemIsText(s, off + 1, depth);
    if s[next] == COMMA {
      var rest := ElementsAreText(s, next, depth, done + [x]);
      var last := ParseElements(s, next, depth, done + [x]).value.1;
      MakesItems(s[off + 1..next], x, s[next + 1..last - 1], rest);
      JoinedAt(s, off + 1, next, last - 1);
      xs := [x] + rest;
      assert done + [x] + rest == done + xs;
    } else {
      xs := [x];
      OneItem(s[off + 1..next], x);
    }
  }

  lemma JoinedAt(s: Bytes, a: nat, k: nat, b: nat)
    requires a <= k < b <= |s|
    ensures s[a..b] == s[a..k] + [s[k]] + s[k + 1..b]
  {
  }

  lemma OneItem(b: Bytes, x: J)
    requires DerivesItem(b, x)
    ensures DerivesItems(b, [x])
  {
    hide DerivesItem;
  }

  lemma OneField(b: Bytes, m: Member)
    requires DerivesField(b, m)
    ensures DerivesFields(b, [m])
  {
    hide DerivesField;
  }

  /** A member, up to the byte after the gap that follows it. */
  lemma {:induction false} MemberIsText(s: Bytes, off: nat, depth: int)
    requires off < |s| && ParseMember(s, off, depth).Some?
    ensures var (m, end) := ParseMember(s, off, depth).value;
      off + 1 <= SkipWs(s, end) && DerivesField(s[off + 1..SkipWs(s, end)], m)
    decreases |s| - off, 0
  {
    hide ParseValue, ParseString, SkipWs, DerivesItem, DerivesName, LooseGap, NameText, StringText, CString;
    var q := SkipWs(s, off + 1);
    var (key, after) := ParseString(s, q).value;
    var colon := SkipWs(s, after);
    var (m, end) := ParseMember(s, off, depth).value;
    var next := SkipWs(s, end);
    SkippedIsGap(s, off + 1);
    SkippedIsGap(s, after);
    StringIsText(s, q);
    NameOf(s[q..after], key);
    MakesName(s[off + 1..q], s[q..after], s[after..colon], m.key);
    assert s[off + 1..colon] == s[off + 1..q] + s[q..after] + s[after..colon];
    ItemIsText(s, colon + 1, depth);
    MakesField(s[off + 1..colon], s[colon + 1..next], m);
    JoinedAt(s, off + 1, colon, next);
  }

  lemma NameOf(t: Bytes, bytes: Bytes)
    requires StringText(t, bytes)
    ensures NameText(t, CString(bytes))
  {
    hide StringText;
  }

  /** The member loop. */
  lemma {:induction false} MembersAreText(s: Bytes, off: nat, depth: int, done: seq<Member>)
    returns (ms: seq<Member>)
    requires off < |s| && ParseMembers(s, off, depth, done).Some?
    ensures var (all, end) := ParseMembers(s, off, depth, done).value;
      all == done + ms && ms != [] && off + 1 < end && s[end - 1] == RBRACE && DerivesFields(s[off + 1..end - 1], ms)
    decreases |s| - off, 1
  {
    hide ParseMember, SkipWs, DerivesFields, DerivesField;
    var (m, end) := ParseMember(s, off, depth).value;
    var next := SkipWs(s, end);
    MemberIsText(s, off, depth);
    if s[next] == COMMA {
      var rest := MembersAreText(s, next, depth, done + [m]);
      var last := ParseMembers(s, next, depth, done + [m]).value.1;
      MakesFields(s[off + 1..next], m, s[next + 1..last - 1], rest);
      JoinedAt(s, off + 1, next, last - 1);
      ms := [m] + rest;
      assert done + [m] + rest == done + ms;
    } else {
      ms := [m];
      OneField(s[off + 1..next], m);
    }
  }

  // ---- trees that come out of a text ----

  /** Strings end at their first NUL, so none is left in them. */
  lemma {:induction false} DerivedIsClean(t: Bytes, j: J)
    requires Derives(t, j)
    ensures CleanStrings(j)
    decreases j, 0
  {
    hide StringText, NumberText, DerivesItems, DerivesFields, LooseGap;
    match j
    case Arr(xs) => ItemsAreClean(t[1..|t| - 1], xs);
    case Obj(ms) => FieldsAreClean(t[1..|t| - 1], ms);
    case _ =>
  }

  lemma {:induction false} ItemIsClean(b: Bytes, x: J)
    requires DerivesItem(b, x)
    ensures CleanStrings(x)
    decreases x, 1
  {
    hide Derives, LooseGap, CleanStrings;
    var p, q :| 0 <= p <= q <= |b| && LooseGap(b[..p]) && LooseGap(b[q..]) && Derives(b[p..q], x);
    DerivedIsClean(b[p..q], x);
  }

  lemma {:induction false} ItemsAreClean(b: Bytes, xs: seq<J>)
    requires DerivesItems(b, xs)
    ensures forall x | x in xs :: CleanStrings(x)
    decreases xs, 2
  {
    hide DerivesItem, DerivesItems, CleanStrings;
    if xs != [] {
      var i := ItemsSplit(b, xs);
      assert b[..|b|] == b && xs == [xs[0]] + xs[1..];
      ItemIsClean(b[..i], xs[0]);
      if |xs| > 1 {
        ItemsAreClean(b[i + 1..], xs[1..]);
      }
    }
  }

  lemma {:induction false} FieldIsClean(b: Bytes, m: Member)
    requires DerivesField(b, m)
    ensures NulFree(m.key) && CleanStrings(m.value)
    decreases m, 2
  {
    hide DerivesItem, LooseGap, CleanStrings, StringText;
    var i :| 0 <= i < |b| && b[i] == COLON && DerivesName(b[..i], m.key) && DerivesItem(b[i + 1..], m.value);
    ItemIsClean(b[i + 1..], m.value);
  }

  lemma {:induction false} FieldsAreClean(b: Bytes, ms: seq<Member>)
    requires DerivesFields(b, ms)
    ensures forall m | m in ms :: NulFree(m.key) && CleanStrings(m.value)
    decreases ms, 2
  {
    hide DerivesField, DerivesFields, CleanStrings, NulFree;
    if ms != [] {
      var i := FieldsSplit(b, ms);
      assert b[..|b|] == b && ms == [ms[0]] + ms[1..];
      FieldIsClean(b[..i], ms[0]);
      if |ms| > 1 {
        FieldsAreClean(b[i + 1..], ms[1..]);
      }
    }
  }

  /** Every tree the parser returns, from any buffer, has clean C strings and keeps the limit. */
  lemma ParsedTrees(s: Bytes, off: nat, depth: int)
    requires off <= |s|
    ensures ParseValue(s, off, depth).Some? ==>
      var j := ParseValue(s, off, depth).value.0;
      CleanStrings(j) && NestingAtMost(j, NESTING_LIMIT - depth)
  {
    hide ParseValue, Derives, CleanStrings;
    if ParseValue(s, off, depth).Some? {
      var (j, end) := ParseValue(s, off, depth).value;
      ValueIsText(s, off, depth);
      DerivedIsClean(s[off..end], j);
      if !j.Num? {
        ValueReads(s, off, s[off..end], j, depth);
      }
    }
  }

  /** How deep containers nest. */
  function Nesting(j: J): nat {
    match j
    case Arr(xs) => 1 + NestingOfElements(xs)
    case Obj(ms) => 1 + NestingOfMembers(ms)
    case _ => 0
  }

  function NestingOfElements(xs: seq<J>): nat {
    if xs == [] then 0 else Max(Nesting(xs[0]), NestingOfElements(xs[1..]))
  }

  function NestingOfMembers(ms: seq<Member>): nat {
    if ms == [] then 0 else Max(Nesting(ms[0].value), NestingOfMembers(ms[1..]))
  }

  function Max(a: nat, b: nat): nat {
    if a < b then b else a
  }

  /** The limit is on the deepest containers. */
  lemma {:induction false} NestingExactly(j: J, n: nat)
    ensures NestingAtMost(j, n) <==> Nesting(j) <= n
    decreases j, 0
  {
    hide NestingAtMost, ElementsNest, MembersNest;
    match j
    case Arr(xs) =>
      ArrayFits(xs, n);
      if n >= 1 { ElementsExactly(xs, n - 1); }
    case Obj(ms) =>
      ObjectFits(ms, n);
      if n >= 1 { MembersExactly(ms, n - 1); }
    case _ => LeafNests(j, n);
  }

  lemma LeafNests(j: J, n: nat)
    requires !j.Arr? && !j.Obj?
    ensures NestingAtMost(j, n)
  {
  }

  lemma {:induction false} ElementsExactly(xs: seq<J>, n: nat)
    ensures ElementsNest(xs, n) <==> NestingOfElements(xs) <= n
    decreases xs, 1
  {
    hide NestingAtMost, ElementsNest;
    if xs == [] {
      NothingNests(n);
    } else {
      ElementsFit(xs, n);
      NestingExactly(xs[0], n);
      ElementsExactly(xs[1..], n);
    }
  }

  lemma {:induction false} MembersExactly(ms: seq<Member>, n: nat)
    ensures MembersNest(ms, n) <==> NestingOfMembers(ms) <= n
    decreases ms, 1
  {
    hide NestingAtMost, MembersNest;
    if ms == [] {
      NothingNests(n);
    } else {
      MembersFit(ms, n);
      NestingExactly(ms[0].value, n);
      MembersExactly(ms[1..], n);
    }
  }

  /** A text of any depth is read from as far below depth 0 as it needs. */
  lemma ReadsFromBelow(s: Bytes, t: Bytes, j: J, n: nat)
    requires Derives(t, j) && t <= s && Nesting(j) <= n && (j.Num? ==> Boundary(s, |t|))
    ensures ParseValue(s, 0, NESTING_LIMIT - n) == Some((j, |t|))
  {
    hide Derives, ParseValue, NestingAtMost, Nesting;
    assert s[0..0 + |t|] == t;
    NestingExactly(j, n);
    ValueReads(s, 0, t, j, NESTING_LIMIT - n);
  }

  /** The language is unambiguous. */
  lemma OneMeaning(t: Bytes, a: J, b: J)
    requires Derives(t, a) && Derives(t, b)
    ensures a == b
  {
    hide Derives, ParseValue, Nesting;
    var s, n := t + [NUL], Max(Nesting(a), Nesting(b));
    ReadsFromBelow(s, t, a, n);
    ReadsFromBelow(s, t, b, n);
  }

  /** Nothing but a number can be cut short or go on: no proper prefix of a text is another. */
  lemma NoShorterText(t: Bytes, a: J, k: nat, b: J)
    requires Derives(t, a) && !a.Num? && k < |t|
    ensures !Derives(t[..k], b)
  {
    hide Derives, ParseValue, Nesting;
    if Derives(t[..k], b) {
      var n := Max(Nesting(a), Nesting(b));
      DerivationBegins(t, a);
      DerivationBegins(t[..k], b);
      assert t[..k][0] == t[0];
      ReadsFromBelow(t, t, a, n);
      ReadsFromBelow(t, t[..k], b, n);
    }
  }

  // ---- whole texts ----

  /** What follows a byte order mark, if there is one. */
  function Unmarked(s: Bytes): Bytes {
    if |s| >= 3 && s[..3] == [0xEF, 0xBB, 0xBF] then s[3..] else s
  }

  lemma DerivationEnds(t: Bytes, j: J)
    requires Derives(t, j)
    ensures |t| > 0 && t[|t| - 1] > 32
  {
    hide DerivesItems, DerivesFields, BodyText, IsLooseNumeral, SpellNumeral, NumeralValue;
    DerivationBegins(t, j);
    if j.Num? {
      var n :| Denotes(n, t, j.valuedouble);
      NumeralChars(n);
    }
  }

  lemma ValueEnds(s: Bytes, off: nat, depth: int)
    requires off <= |s| && ParseValue(s, off, depth).Some?
    ensures s[ParseValue(s, off, depth).value.1 - 1] > 32
  {
    hide ParseValue, Derives;
    var (j, end) := ParseValue(s, off, depth).value;
    ValueIsText(s, off, depth);
    DerivationEnds(s[off..end], j);
    assert s[off..end][end - off - 1] == s[end - 1];
  }

  /** Whatever buffer a tree is parsed from: the bytes up to where the parse ends, after a byte order mark,
      are a derivation of it with gaps around it, and it nests at most 1000 deep. The parse ends right after
      the value, or at a terminator if one is asked for. */
  lemma ParsedIsText(s: Bytes, terminated: bool)
    requires ParseBuffer(s, terminated).Some?
    ensures var j, end, mark := ParseBuffer(s, terminated).value, ParseEnd(s, terminated), |s| - |Unmarked(s)|;
      NestingAtMost(j, 1000) && mark <= end && DerivesItem(s[mark..end], j)
      && if terminated then end < |s| && s[end] == NUL else end > 0 && s[end - 1] > 32
  {
    hide ParseValue, SkipWs, Derives, LooseGap, NestingAtMost, Start, Unmarked;
    var j, end, mark := ParseBuffer(s, terminated).value, ParseEnd(s, terminated), |s| - |Unmarked(s)|;
    var off := Start(s);
    var after := ParseValue(s, off, 0).value.1;
    MarkIsSkipped(s);
    SkippedIsGap(s, mark);
    SkippedIsGap(s, after);
    ValueIsText(s, off, 0);
    ValueEnds(s, off, 0);
    ParsedTrees(s, off, 0);
    assert s[after..after] == [] && LooseGap([]) by {
      NoGap();
    }
    MakesItem(s[mark..off], s[off..after], s[after..end], j);
    ThreeParts(s, mark, off, after, end);
  }

  lemma ThreeParts(s: Bytes, a: nat, b: nat, c: nat, d: nat)
    requires a <= b <= c <= d <= |s|
    ensures s[a..d] == s[a..b] + s[b..c] + s[c..d]
  {
  }

  lemma NoGap()
    ensures LooseGap([])
  {
  }

  lemma MarkIsSkipped(s: Bytes)
    requires ParseValue(s, Start(s), 0).Some?
    ensures |Unmarked(s)| <= |s| && Start(s) == SkipWs(s, |s| - |Unmarked(s)|)
  {
    if |s| >= 3 && s[..3] == [0xEF, 0xBB, 0xBF] && |s| <= 4 {
      assert s[0] == s[..3][0] == 0xEF;
      assert WsEnd(s, 0) == 0;
      NoWord(s, 0);
    }
  }

  lemma UnmarkedText(text: Bytes)
    ensures |Unmarked(text)| <= |text| && Unmarked(text + [NUL]) == Unmarked(text) + [NUL]
    ensures text[|text| - |Unmarked(text)|..] == Unmarked(text)
  {
    var s := text + [NUL];
    if |s| >= 3 {
      assert s[..3][2] == s[2];
    }
    if |text| >= 3 {
      assert s[..3] == text[..3];
    }
  }

  /** A value with gaps around it, and something more or the terminator after it. */
  lemma ItemIsRead(s: Bytes, i: nat, b: Bytes, j: J) returns (end: nat)
    requires At(s, i, b) && DerivesItem(b, j) && i + |b| < |s|
    requires j.Num? ==> !IsNumberChar(s[i + |b|])
    ensures ParseValue(s, SkipWs(s, i), 0) == Expected(NestingAtMost(j, 1000), j, end)
    ensures i <= end <= i + |b| && LooseGap(s[end..i + |b|])
  {
    hide ParseValue, SkipWs, Derives, LooseGap, NestingAtMost, IsNumberChar, At;
    var p, q :| 0 <= p <= q <= |b| && LooseGap(b[..p]) && LooseGap(b[q..]) && Derives(b[p..q], j);
    ItemApart(s, i, b, p, q);
    DerivationBegins(b[p..q], j);
    AtByteIs(s, i + p, b[p..q]);
    GapSkipped(s, i, b[..p]);
    GapThen(s, i + q, b[q..]);
    ValueReads(s, i + p, b[p..q], j, 0);
    end := i + q;
    AtIs(s, end, b[q..]);
  }

  lemma GapThen(s: Bytes, i: nat, gap: Bytes)
    requires At(s, i, gap) && LooseGap(gap) && i + |gap| < |s|
    ensures !IsNumberChar(s[i + |gap|]) ==> Boundary(s, i)
  {
    AtByteIs(s, i, gap);
  }

  /** A text at the beginning of a C string is read, whatever follows it; but a number must end there. */
  lemma BeginningIsRead(text: Bytes, k: nat, j: J) returns (end: nat)
    requires k <= |Unmarked(text)| && DerivesItem(Unmarked(text)[..k], j)
    requires j.Num? && k < |Unmarked(text)| ==> !IsNumberChar(Unmarked(text)[k])
    ensures var s, mark := text + [NUL], |text| - |Unmarked(text)|;
      ParseValue(s, Start(s), 0) == Expected(NestingAtMost(j, 1000), j, end)
      && end <= mark + k <= |text| && LooseGap(s[end..mark + k])
  {
    hide ParseValue, SkipWs, DerivesItem, LooseGap, NestingAtMost, Start, Unmarked, IsNumberChar;
    var s, u := text + [NUL], Unmarked(text);
    var mark := |text| - |u|;
    UnmarkedText(text);
    BeginsAt(s, mark, u[..k]);
    ItemIsLong(u[..k], j);
    StartsAfterMark(s, mark);
    assert s[mark + k] == (u + [NUL])[k];
    NulEndsNumbers();
    end := ItemIsRead(s, mark, u[..k], j);
  }

  lemma ItemIsLong(b: Bytes, j: J)
    requires DerivesItem(b, j)
    ensures b != []
  {
    hide Derives, LooseGap;
    var p, q :| 0 <= p <= q <= |b| && LooseGap(b[..p]) && LooseGap(b[q..]) && Derives(b[p..q], j);
    DerivationBegins(b[p..q], j);
  }

  lemma NulEndsNumbers()
    ensures !IsNumberChar(NUL)
  {
  }

  lemma AtIs(s: Bytes, i: nat, b: Bytes)
    requires At(s, i, b)
    ensures s[i..i + |b|] == b
  {
  }

  lemma BeginsAt(s: Bytes, mark: nat, b: Bytes)
    requires mark + |b| <= |s| && b <= s[mark..]
    ensures At(s, mark, b)
  {
    assert s[mark..mark + |b|] == s[mark..][..|b|];
  }

  lemma StartsAfterMark(s: Bytes, mark: nat)
    requires |Unmarked(s)| <= |s| && mark == |s| - |Unmarked(s)| && mark + 1 < |s|
    ensures Start(s) == SkipWs(s, mark)
  {
  }

  lemma {:induction false} AllBlank(s: Bytes, i: nat)
    requires i <= |s| && forall k :: i <= k < |s| ==> s[k] <= 32
    ensures WsEnd(s, i) == |s|
    decreases |s| - i
  {
    if i < |s| {
      AllBlank(s, i + 1);
    }
  }

  /** Where skipping ends on the terminator, only a gap is before it. */
  lemma TerminatorFound(s: Bytes, i: nat)
    requires i <= |s| && s != [] && s[|s| - 1] == NUL
    ensures (SkipWs(s, i) < |s| && s[SkipWs(s, i)] == NUL) <==> i < |s| && LooseGap(s[i..|s| - 1])
    ensures i < |s| && LooseGap(s[i..|s| - 1]) ==> SkipWs(s, i) == |s| - 1
  {
    if i < |s| && LooseGap(s[i..|s| - 1]) {
      forall k | i <= k < |s| ensures s[k] <= 32 {
        assert k < |s| - 1 ==> s[k] == s[i..|s| - 1][k - i];
      }
      AllBlank(s, i);
    }
  }

  /** A whole text of the language is parsed, whether a terminator is asked for or not, exactly if its tree
      nests at most 1000 deep. */
  lemma DerivedTexts(text: Bytes, j: J)
    requires DerivesItem(Unmarked(text), j)
    ensures var result := if NestingAtMost(j, 1000) then Some(j) else None;
      Parse(text) == result && ParseBuffer(text + [NUL], true) == result
  {
    hide ParseValue, SkipWs, DerivesItem, LooseGap, NestingAtMost, Start, Unmarked;
    var u := Unmarked(text);
    UnmarkedText(text);
    assert u[..|u|] == u;
    var end := BeginningIsRead(text, |u|, j);
    TerminatorFound(text + [NUL], end);
  }

  /** The texts that are parsed with the terminator asked for: exactly the derivations of a tree that nests
      at most 1000 deep, after a byte order mark or none, with gaps around them. */
  lemma TerminatedTexts(text: Bytes, j: J)
    ensures ParseBuffer(text + [NUL], true) == Some(j) <==> DerivesItem(Unmarked(text), j) && NestingAtMost(j, 1000)
  {
    hide ParseValue, SkipWs, DerivesItem, LooseGap, NestingAtMost, Start, Unmarked;
    var s, u := text + [NUL], Unmarked(text);
    UnmarkedText(text);
    if ParseBuffer(s, true) == Some(j) {
      var mark := |text| - |u|;
      ParsedIsText(s, true);
      TerminatorFound(s, ParseValue(s, Start(s), 0).value.1);
      assert s[mark..|text|] == u;
    }
    if DerivesItem(u, j) {
      DerivedTexts(text, j);
    }
  }

  /** What section 2 of RFC 8259 derives, after a byte order mark or none. */
  lemma ParseOfDerivation(mark: Bytes, before: Bytes, v: Spelled, after: Bytes)
    requires mark == [] || mark == [0xEF, 0xBB, 0xBF]
    requires IsGap(before) && WellSpelled(v) && IsGap(after)
    ensures var text := mark + (before + Spell(v) + after);
      var result := if NestingAtMost(Meaning(v), 1000) then Some(Meaning(v)) else None;
      Parse(text) == result && ParseBuffer(text + [NUL], true) == result
  {
    hide Spell, WellSpelled, Meaning, IsGap, LooseGap, Derives, DerivesItem, Parse, ParseBuffer, NestingAtMost;
    SpelledDerives(v);
    GapIsLoose(before);
    GapIsLoose(after);
    MakesItem(before, Spell(v), after, Meaning(v));
    DerivationBegins(Spell(v), Meaning(v));
    MarkOrNone(mark, before, Spell(v), after);
    DerivedTexts(mark + (before + Spell(v) + after), Meaning(v));
  }

  lemma MarkOrNone(mark: Bytes, before: Bytes, t: Bytes, after: Bytes)
    requires mark == [] || mark == [0xEF, 0xBB, 0xBF]
    requires LooseGap(before) && t != [] && t[0] < 128
    ensures Unmarked(mark + (before + t + after)) == before + t + after
  {
    var w := before + t + after;
    var s := mark + w;
    assert w[0] == if before == [] then t[0] else before[0];
    if mark == [] {
      assert s == w;
      if |s| >= 3 {
        assert s[..3][0] == s[0];
      }
    } else {
      assert s[..3] == mark && s[3..] == w;
    }
  }

  /** The tree that the first `k` bytes of a text derive. */
  ghost predicate Leads(text: Bytes, k: nat, j: J) {
    k <= |Unmarked(text)| && DerivesItem(Unmarked(text)[..k], j)
  }

  /** The texts that cJSON_Parse parses: exactly those that begin with such a derivation, whatever follows;
      but a number is read as far as it goes, so that nothing that continues it may follow. */
  lemma ParsedTexts(text: Bytes, j: J)
    ensures Parse(text) == Some(j) ==> NestingAtMost(j, 1000) && exists k: nat :: Leads(text, k, j)
    ensures NestingAtMost(j, 1000) && (exists k: nat :: Leads(text, k, j) && Unbroken(text, k, j)) ==>
      Parse(text) == Some(j)
  {
    hide ParseValue, SkipWs, DerivesItem, LooseGap, NestingAtMost, Start, Unmarked, IsNumberChar;
    var s, u := text + [NUL], Unmarked(text);
    UnmarkedText(text);
    if Parse(text) == Some(j) {
      var mark, end := |text| - |u|, ParseEnd(s, false);
      ParsedIsText(s, false);
      EndsInText(text, Start(s), 0);
      assert u[..end - mark] == s[mark..end];
      assert Leads(text, end - mark, j);
    }
    if NestingAtMost(j, 1000) && exists k: nat :: Leads(text, k, j) && Unbroken(text, k, j) {
      var k: nat :| Leads(text, k, j) && Unbroken(text, k, j);
      var end := BeginningIsRead(text, k, j);
    }
  }

  predicate Unbroken(text: Bytes, k: nat, j: J) {
    j.Num? && k < |Unmarked(text)| ==> !IsNumberChar(Unmarked(text)[k])
  }

  /** No value ends in a NUL. */
  lemma EndsInText(text: Bytes, off: nat, depth: int)
    requires off <= |text| + 1 && ParseValue(text + [NUL], off, depth).Some?
    ensures ParseValue(text + [NUL], off, depth).value.1 <= |text|
  {
    hide ParseValue;
    ValueEnds(text + [NUL], off, depth);
  }

  /** A text that is cut short anywhere is refused, unless it is a number: so is every container or string
      that is not closed. */
  lemma CutTextIsRefused(t: Bytes, j: J, k: nat)
    requires Derives(t, j) && !j.Num? && k < |t|
    ensures Parse(t[..k]) == None
  {
    hide ParseValue, Derives;
    var text := t[..k];
    var s := text + [NUL];
    DerivationBegins(t, j);
    if Parse(text).Some? {
      if k == 0 {
        EndsInText(text, Start(s), 0);
      } else {
        NotMarked(s);
        var (b, end) := ParseValue(s, 0, 0).value;
        ValueIsText(s, 0, 0);
        EndsInText(text, 0, 0);
        assert s[0..end] == t[..end];
        NoShorterText(t, j, end, b);
      }
    }
  }

  lemma NotMarked(s: Bytes)
    requires s != [] && 32 < s[0] < 128
    ensures Start(s) == 0
  {
    if |s| > 4 {
      assert s[..3][0] == s[0];
    }
    WsEndAt(s, 0, 0);
  }
}
