/** The parser reads every text of its language as what it derives, exactly up to the nesting limit. */
module Reading {
  import opened Bytes
  import opened Json
  import opened Numbers
  import opened Strings
  import opened Rendering
  import opened Grammar
  import opened Syntax
  import opened Language

  lemma {:induction false} WsEndAt(s: Bytes, i: nat, e: nat)
    requires i <= e < |s| && s[e] > 32
    requires forall k :: i <= k < e ==> s[k] <= 32
    ensures SkipWs(s, i) == e
  {
    var end := WsEnd(s, i);
  }

  lemma NoWord(s: Bytes, off: nat)
    requires off < |s|
    ensures s[off] != 110 ==> !At(s, off, NULL_WORD)
    ensures s[off] != 102 ==> !At(s, off, FALSE_WORD)
    ensures s[off] != 116 ==> !At(s, off, TRUE_WORD)
  {
    if At(s, off, NULL_WORD) { AtByteIs(s, off, NULL_WORD); }
    if At(s, off, FALSE_WORD) { AtByteIs(s, off, FALSE_WORD); }
    if At(s, off, TRUE_WORD) { AtByteIs(s, off, TRUE_WORD); }
  }

  function Expected<T>(fits: bool, value: T, end: nat): Option<(T, nat)> {
    if fits then Some((value, end)) else None
  }

  predicate ElementsNest(xs: seq<J>, n: int) {
    forall x | x in xs :: NestingAtMost(x, n)
  }

  predicate MembersNest(ms: seq<Member>, n: int) {
    forall m | m in ms :: NestingAtMost(m.value, n)
  }

  lemma ArrayFits(xs: seq<J>, n: int)
    ensures NestingAtMost(Arr(xs), n) <==> n >= 1 && ElementsNest(xs, n - 1)
  {
  }

  lemma ObjectFits(ms: seq<Member>, n: int)
    ensures NestingAtMost(Obj(ms), n) <==> n >= 1 && MembersNest(ms, n - 1)
  {
  }

  lemma ElementsFit(xs: seq<J>, n: int)
    requires xs != []
    ensures ElementsNest(xs, n)
      <==> NestingAtMost(xs[0], n) && ElementsNest(xs[1..], n)
  {
    hide NestingAtMost;
    assert xs == [xs[0]] + xs[1..];
  }

  lemma MembersFit(ms: seq<Member>, n: int)
    requires ms != []
    ensures MembersNest(ms, n)
      <==> NestingAtMost(ms[0].value, n) && MembersNest(ms[1..], n)
  {
    hide NestingAtMost;
    assert ms == [ms[0]] + ms[1..];
  }

  lemma LastElement(s: Bytes, off: nat, depth: int, done: seq<J>, p: nat, next: nat)
    requires off < p <= |s| && SkipWs(s, off + 1) == p && next < |s| && s[next] == RBRACKET
    requires ParseValue(s, p, depth).Some? ==> SkipWs(s, ParseValue(s, p, depth).value.1) == next
    ensures ParseElements(s, off, depth, done)
      == if ParseValue(s, p, depth) == None then None
         else Some((done + [ParseValue(s, p, depth).value.0], next + 1))
  {
    hide ParseValue, SkipWs;
  }

  lemma MoreElements(s: Bytes, off: nat, depth: int, done: seq<J>, p: nat, next: nat)
    requires off < p <= |s| && SkipWs(s, off + 1) == p && next < |s| && s[next] == COMMA
    requires ParseValue(s, p, depth).Some? ==> SkipWs(s, ParseValue(s, p, depth).value.1) == next
    ensures ParseElements(s, off, depth, done)
      == if ParseValue(s, p, depth) == None then None
         else ParseElements(s, next, depth, done + [ParseValue(s, p, depth).value.0])
  {
    hide ParseValue, SkipWs;
  }

  lemma EmptyObject(s: Bytes, off: nat, depth: int, close: nat)
    requires off < close < |s| && s[off] == LBRACE && s[close] == RBRACE && SkipWs(s, off + 1) == close
    ensures ParseContainer(s, off, depth) == Expected(depth < NESTING_LIMIT, Obj([]), close + 1)
  {
    hide SkipWs;
  }

  lemma FullObject(s: Bytes, off: nat, depth: int, q: nat)
    requires off < q < |s| && s[off] == LBRACE && s[q] == QUOTE && SkipWs(s, off + 1) == q
    ensures ParseContainer(s, off, depth)
      == if depth >= NESTING_LIMIT || ParseMembers(s, q - 1, depth + 1, []) == None then None
         else Some((Obj(ParseMembers(s, q - 1, depth + 1, []).value.0), ParseMembers(s, q - 1, depth + 1, []).value.1))
  {
    hide SkipWs, ParseMembers;
  }

  lemma ExpectedIsOption<A, B>(fits: bool, a: A, b: B, end: nat)
    ensures Expected(fits, b, end) == if Expected(fits, a, end) == None then None else Some((b, end))
    ensures Expected(fits, a, end).Some? ==> Expected(fits, a, end).value == (a, end)
  {
  }

  lemma MemberStep(s: Bytes, off: nat, depth: int, key: Bytes, q: nat, after: nat, colon: nat, v: nat)
    requires off + 1 < |s| && SkipWs(s, off + 1) == q < |s|
    requires ParseString(s, q) == Some((key, after))
    requires SkipWs(s, after) == colon < |s| && s[colon] == COLON && SkipWs(s, colon + 1) == v
    ensures ParseMember(s, off, depth)
      == if ParseValue(s, v, depth) == None then None
         else Some((Member(CString(key), ParseValue(s, v, depth).value.0), ParseValue(s, v, depth).value.1))
  {
    hide ParseValue, ParseString, SkipWs, CString;
  }

  lemma LastMember(s: Bytes, off: nat, depth: int, done: seq<Member>, next: nat)
    requires off < |s| && next < |s| && s[next] == RBRACE
    requires ParseMember(s, off, depth).Some? ==> SkipWs(s, ParseMember(s, off, depth).value.1) == next
    ensures ParseMembers(s, off, depth, done)
      == if ParseMember(s, off, depth) == None then None
         else Some((done + [ParseMember(s, off, depth).value.0], next + 1))
  {
    hide ParseMember, SkipWs;
  }

  lemma MoreMembers(s: Bytes, off: nat, depth: int, done: seq<Member>, next: nat)
    requires off < |s| && next < |s| && s[next] == COMMA
    requires ParseMember(s, off, depth).Some? ==> SkipWs(s, ParseMember(s, off, depth).value.1) == next
    ensures ParseMembers(s, off, depth, done)
      == if ParseMember(s, off, depth) == None then None
         else ParseMembers(s, next, depth, done + [ParseMember(s, off, depth).value.0])
  {
    hide ParseMember, SkipWs;
  }

  lemma NothingNests(n: int)
    ensures ElementsNest([], n) && MembersNest([], n)
  {
  }

  lemma EmptyArray(s: Bytes, off: nat, depth: int, close: nat)
    requires off < close < |s| && s[off] == LBRACKET && s[close] == RBRACKET && SkipWs(s, off + 1) == close
    ensures ParseContainer(s, off, depth) == Expected(depth < NESTING_LIMIT, Arr([]), close + 1)
  {
    hide SkipWs;
  }

  lemma FullArray(s: Bytes, off: nat, depth: int, q: nat)
    requires off < q < |s| && s[off] == LBRACKET && s[q] != RBRACKET && SkipWs(s, off + 1) == q
    ensures ParseContainer(s, off, depth)
      == if depth >= NESTING_LIMIT || ParseElements(s, q - 1, depth + 1, []) == None then None
         else Some((Arr(ParseElements(s, q - 1, depth + 1, []).value.0),
             ParseElements(s, q - 1, depth + 1, []).value.1))
  {
    hide SkipWs, ParseElements;
  }

  /** A gap is skipped to the byte after it. */
  lemma GapSkipped(s: Bytes, i: nat, gap: Bytes)
    requires At(s, i, gap) && LooseGap(gap) && i + |gap| < |s| && s[i + |gap|] > 32
    ensures SkipWs(s, i) == i + |gap| && SkipWs(s, i + |gap|) == i + |gap|
  {
    AtBytes(s, i, gap);
    assert forall k :: i <= k < i + |gap| ==> s[k] == gap[k - i];
    WsEndAt(s, i, i + |gap|);
    WsEndAt(s, i + |gap|, i + |gap|);
  }

  /** After a value comes a gap and then a comma or a closing bracket. */
  lemma AfterValue(s: Bytes, next: nat, gap: Bytes)
    requires At(s, next, gap) && LooseGap(gap) && next + |gap| < |s|
    requires s[next + |gap|] == COMMA || s[next + |gap|] == RBRACKET || s[next + |gap|] == RBRACE
    ensures Boundary(s, next) && SkipWs(s, next) == next + |gap|
  {
    GapSkipped(s, next, gap);
    AtByteIs(s, next, gap);
  }

  /** What the dispatch of parse_value sees first. */
  lemma DerivationBegins(t: Bytes, j: J)
    requires Derives(t, j)
    ensures |t| > 0 && 32 < t[0] < 128 && t[0] != RBRACKET && t[0] != RBRACE
    ensures match j
      case Null => t[0] == 110
      case False => t[0] == 102
      case True => t[0] == 116
      case Num(_) => t[0] == MINUS || IsDigit(t[0])
      case Str(_) => t[0] == QUOTE
      case Arr(_) => t[0] == LBRACKET
      case Obj(_) => t[0] == LBRACE
  {
    hide DerivesItems, DerivesFields, BodyText;
    WordsAreWords();
    if j.Num? {
      var n :| Denotes(n, t, j.valuedouble);
      NumeralBegins(n);
    }
  }

  /** Anything after the opening bracket but gaps makes the container not empty. */
  lemma ItemsBegin(b: Bytes, xs: seq<J>)
    requires xs != [] && DerivesItems(b, xs)
    ensures exists k: nat :: k < |b| && LooseGap(b[..k]) && 32 < b[k] && b[k] != RBRACKET
  {
    hide DerivesItem, DerivesItems, LooseGap;
    var i := ItemsSplit(b, xs);
    assert b[..|b|] == b;
    ItemBegins(b[..i], xs[0]);
    var k: nat :| k < |b[..i]| && LooseGap(b[..i][..k]) && 32 < b[..i][k] && b[..i][k] != RBRACKET;
    assert b[..i][..k] == b[..k] && b[..i][k] == b[k];
  }

  lemma ItemBegins(b: Bytes, x: J)
    requires DerivesItem(b, x)
    ensures exists k: nat :: k < |b| && LooseGap(b[..k]) && 32 < b[k] && b[k] != RBRACKET
  {
    hide Derives, LooseGap;
    var p, q :| 0 <= p <= q <= |b| && LooseGap(b[..p]) && LooseGap(b[q..]) && Derives(b[p..q], x);
    DerivationBegins(b[p..q], x);
    assert b[p] == b[p..q][0];
  }

  /** A value with gaps around it is read, up to the byte after the second gap. */
  lemma {:induction false} ItemRead(s: Bytes, i: nat, b: Bytes, x: J, depth: int)
    requires At(s, i, b) && DerivesItem(b, x) && i + |b| < |s|
    requires s[i + |b|] == COMMA || s[i + |b|] == RBRACKET || s[i + |b|] == RBRACE
    ensures SkipWs(s, i) <= i + |b|
    ensures ParseValue(s, SkipWs(s, i), depth).Some? <==> NestingAtMost(x, NESTING_LIMIT - depth)
    ensures ParseValue(s, SkipWs(s, i), depth).Some? ==>
      var (y, end) := ParseValue(s, SkipWs(s, i), depth).value;
      y == x && SkipWs(s, end) == i + |b|
    decreases x, 2
  {
    hide Derives, LooseGap, ParseValue, SkipWs, At, NestingAtMost;
    var p, q :| 0 <= p <= q <= |b| && LooseGap(b[..p]) && LooseGap(b[q..]) && Derives(b[p..q], x);
    var t := b[p..q];
    ItemApart(s, i, b, p, q);
    DerivationBegins(t, x);
    AtByteIs(s, i + p, t);
    GapSkipped(s, i, b[..p]);
    AfterValue(s, i + q, b[q..]);
    ValueReads(s, i + p, t, x, depth);
  }

  lemma ItemApart(s: Bytes, i: nat, b: Bytes, p: nat, q: nat)
    requires At(s, i, b) && p <= q <= |b|
    ensures At(s, i, b[..p]) && At(s, i + p, b[p..q]) && At(s, i + q, b[q..])
  {
    hide At;
    assert b == b[..p] + b[p..q] + b[q..];
    AtSplit(s, i, b[..p] + b[p..q], b[q..]);
    AtSplit(s, i, b[..p], b[p..q]);
  }

  /** A text split at one of its bytes. */
  lemma AtApart(s: Bytes, i: nat, b: Bytes, k: nat)
    requires At(s, i, b) && k < |b|
    ensures At(s, i, b[..k]) && At(s, i + k + 1, b[k + 1..]) && i + |b| <= |s| && s[i + k] == b[k]
  {
    AtBytes(s, i, b);
    ItemApart(s, i, b, k, k + 1);
  }

  /** parse_value at any depth reads a text of its language as what it derives and stops right after it; it
      fails exactly when the tree nests deeper than the limit leaves room for. Only after a number it matters
      what follows. */
  lemma {:induction false} ValueReads(s: Bytes, off: nat, t: Bytes, j: J, depth: int)
    requires Derives(t, j) && At(s, off, t) && (j.Num? ==> Boundary(s, off + |t|))
    ensures ParseValue(s, off, depth) == Expected(NestingAtMost(j, NESTING_LIMIT - depth), j, off + |t|)
    decreases j, 1
  {
    hide ParseContainer, ParseNumber, ParseString, DerivesItems, DerivesFields, NumberText, StringText, At;
    DerivationBegins(t, j);
    AtByteIs(s, off, t);
    NoWord(s, off);
    WordsAreWords();
    match j
    case Num(v) => NumberReads(s, off, t, v);
    case Str(text) => NameReads(s, off, t, text);
    case Arr(xs) =>
      Bracketed(s, off, t);
      ArrayReads(s, off, t[1..|t| - 1], xs, depth);
    case Obj(ms) =>
      Bracketed(s, off, t);
      ObjectReads(s, off, t[1..|t| - 1], ms, depth);
    case _ =>
  }

  lemma NumberReads(s: Bytes, off: nat, t: Bytes, v: real)
    requires NumberText(t, v) && At(s, off, t) && Boundary(s, off + |t|)
    ensures ParseNumber(s, off) == Some((Num(v), off + |t|))
  {
    hide ParseNumber, IsLooseNumeral, SpellNumeral, NumeralValue, At;
    var n :| Denotes(n, t, v);
    TokenReads(s, off, n);
  }

  lemma NameReads(s: Bytes, off: nat, t: Bytes, text: Bytes)
    requires NameText(t, text) && At(s, off, t)
    ensures off < |s| && s[off] == QUOTE && ParseString(s, off).Some?
      && CString(ParseString(s, off).value.0) == text && ParseString(s, off).value.1 == off + |t|
  {
    hide ParseString, StringText, At;
    var bytes :| StringText(t, bytes) && text == CString(bytes);
    StringReads(s, off, t, bytes);
  }

  lemma Bracketed(s: Bytes, off: nat, t: Bytes)
    requires At(s, off, t) && |t| >= 2
    ensures At(s, off + 1, t[1..|t| - 1]) && off + |t| <= |s| && s[off] == t[0] && s[off + |t| - 1] == t[|t| - 1]
  {
    AtBytes(s, off, t);
    ItemApart(s, off, t, 1, |t| - 1);
    assert s[off + 0] == t[0] && s[off + (|t| - 1)] == t[|t| - 1];
  }

  lemma {:induction false} ArrayReads(s: Bytes, off: nat, b: Bytes, xs: seq<J>, depth: int)
    requires At(s, off + 1, b) && DerivesItems(b, xs) && off + 1 + |b| < |s|
    requires s[off] == LBRACKET && s[off + 1 + |b|] == RBRACKET
    ensures ParseContainer(s, off, depth)
      == Expected(NestingAtMost(Arr(xs), NESTING_LIMIT - depth), Arr(xs), off + |b| + 2)
    decreases xs, 5
  {
    hide ParseContainer, ParseElements, SkipWs, At, NestingAtMost, ElementsNest, LooseGap, DerivesItem;
    ArrayFits(xs, NESTING_LIMIT - depth);
    if xs == [] {
      GapSkipped(s, off + 1, b);
      NothingNests(NESTING_LIMIT - depth - 1);
      EmptyArray(s, off, depth, off + 1 + |b|);
    } else {
      ItemsBegin(b, xs);
      var k: nat :| k < |b| && LooseGap(b[..k]) && 32 < b[k] && b[k] != RBRACKET;
      var q := off + 1 + k;
      AtApart(s, off + 1, b, k);
      GapSkipped(s, off + 1, b[..k]);
      FullArray(s, off, depth, q);
      SameElements(s, off, q - 1, depth + 1, []);
      if depth < NESTING_LIMIT {
        ItemsRead(s, off, b, xs, depth + 1, []);
        assert [] + xs == xs;
      }
      ExpectedIsOption(NestingAtMost(Arr(xs), NESTING_LIMIT - depth), xs, Arr(xs), off + |b| + 2);
    }
  }

  lemma SameElements(s: Bytes, a: nat, b: nat, depth: int, done: seq<J>)
    requires a < |s| && b < |s| && SkipWs(s, a + 1) == SkipWs(s, b + 1)
    ensures ParseElements(s, a, depth, done) == ParseElements(s, b, depth, done)
  {
    hide SkipWs, ParseValue;
  }

  lemma SameMembers(s: Bytes, a: nat, b: nat, depth: int, done: seq<Member>)
    requires a + 1 < |s| && b + 1 < |s| && SkipWs(s, a + 1) == SkipWs(s, b + 1)
    ensures ParseMembers(s, a, depth, done) == ParseMembers(s, b, depth, done)
  {
    hide SkipWs, ParseValue, ParseString;
  }

  /** The only element that is left. */
  lemma {:induction false} OneItemReads(s: Bytes, off: nat, b: Bytes, x: J, depth: int, done: seq<J>)
    requires At(s, off + 1, b) && DerivesItem(b, x) && off + 1 + |b| < |s| && s[off + 1 + |b|] == RBRACKET
    ensures ParseElements(s, off, depth, done)
      == Expected(NestingAtMost(x, NESTING_LIMIT - depth), done + [x], off + |b| + 2)
    decreases x, 3
  {
    hide ParseElements, ParseValue, SkipWs, At, NestingAtMost, DerivesItem;
    ItemRead(s, off + 1, b, x, depth);
    LastElement(s, off, depth, done, SkipWs(s, off + 1), off + 1 + |b|);
  }

  /** An element before others. */
  lemma {:induction false} NextItemReads(s: Bytes, off: nat, b: Bytes, x: J, depth: int, done: seq<J>)
    requires At(s, off + 1, b) && DerivesItem(b, x) && off + 1 + |b| < |s| && s[off + 1 + |b|] == COMMA
    ensures ParseElements(s, off, depth, done)
      == if NestingAtMost(x, NESTING_LIMIT - depth) then ParseElements(s, off + 1 + |b|, depth, done + [x]) else None
    decreases x, 3
  {
    hide ParseElements, ParseValue, SkipWs, At, NestingAtMost, DerivesItem;
    ItemRead(s, off + 1, b, x, depth);
    MoreElements(s, off, depth, done, SkipWs(s, off + 1), off + 1 + |b|);
  }

  lemma {:induction false} ItemsRead(s: Bytes, off: nat, b: Bytes, xs: seq<J>, depth: int, done: seq<J>)
    requires xs != [] && At(s, off + 1, b) && DerivesItems(b, xs)
    requires off + 1 + |b| < |s| && s[off + 1 + |b|] == RBRACKET
    ensures ParseElements(s, off, depth, done)
      == Expected(ElementsNest(xs, NESTING_LIMIT - depth), done + xs, off + |b| + 2)
    decreases xs, 4
  {
    hide ParseElements, ParseValue, SkipWs, At, NestingAtMost, ElementsNest, DerivesItem, DerivesItems, Derives;
    var x := xs[0];
    var i := ItemsSplit(b, xs);
    ElementsFit(xs, NESTING_LIMIT - depth);
    if |xs| == 1 {
      OneItemReads(s, off, b, x, depth, done);
      NothingNests(NESTING_LIMIT - depth);
      assert xs == [x] && xs[1..] == [];
    } else {
      var next := off + 1 + i;
      AtApart(s, off + 1, b, i);
      NextItemReads(s, off, b[..i], x, depth, done);
      ItemsRead(s, next, b[i + 1..], xs[1..], depth, done + [x]);
      assert done + [x] + xs[1..] == done + xs;
    }
  }

  /** Anything after the opening brace but gaps and a quote makes the object not empty. */
  lemma FieldsBegin(b: Bytes, ms: seq<Member>)
    requires ms != [] && DerivesFields(b, ms)
    ensures exists k: nat :: k < |b| && LooseGap(b[..k]) && b[k] == QUOTE
  {
    hide DerivesField, DerivesFields, LooseGap;
    var i := FieldsSplit(b, ms);
    assert b[..|b|] == b;
    FieldBegins(b[..i], ms[0]);
    var k: nat :| k < |b[..i]| && LooseGap(b[..i][..k]) && b[..i][k] == QUOTE;
    assert b[..i][..k] == b[..k] && b[..i][k] == b[k];
  }

  lemma FieldBegins(b: Bytes, m: Member)
    requires DerivesField(b, m)
    ensures exists k: nat :: k < |b| && LooseGap(b[..k]) && b[k] == QUOTE
  {
    hide DerivesName, DerivesItem, LooseGap;
    var c :| 0 <= c < |b| && DerivesName(b[..c], m.key);
    NameBegins(b[..c], m.key);
    var k: nat :| k < |b[..c]| && LooseGap(b[..c][..k]) && b[..c][k] == QUOTE;
    assert b[..c][..k] == b[..k] && b[..c][k] == b[k];
  }

  lemma NameBegins(b: Bytes, key: Bytes)
    requires DerivesName(b, key)
    ensures exists k: nat :: k < |b| && LooseGap(b[..k]) && b[k] == QUOTE
  {
    hide BodyText, LooseGap;
    var p, q :| 0 <= p <= q <= |b| && LooseGap(b[..p]) && LooseGap(b[q..]) && NameText(b[p..q], key);
    assert b[p] == b[p..q][0];
  }

  lemma {:induction false} ObjectReads(s: Bytes, off: nat, b: Bytes, ms: seq<Member>, depth: int)
    requires At(s, off + 1, b) && DerivesFields(b, ms) && off + 1 + |b| < |s|
    requires s[off] == LBRACE && s[off + 1 + |b|] == RBRACE
    ensures ParseContainer(s, off, depth)
      == Expected(NestingAtMost(Obj(ms), NESTING_LIMIT - depth), Obj(ms), off + |b| + 2)
    decreases ms, 5
  {
    hide ParseContainer, ParseMembers, SkipWs, At, NestingAtMost, MembersNest, LooseGap, DerivesField;
    ObjectFits(ms, NESTING_LIMIT - depth);
    if ms == [] {
      GapSkipped(s, off + 1, b);
      NothingNests(NESTING_LIMIT - depth - 1);
      EmptyObject(s, off, depth, off + 1 + |b|);
    } else {
      FieldsBegin(b, ms);
      var k: nat :| k < |b| && LooseGap(b[..k]) && b[k] == QUOTE;
      var q := off + 1 + k;
      AtApart(s, off + 1, b, k);
      GapSkipped(s, off + 1, b[..k]);
      FullObject(s, off, depth, q);
      SameMembers(s, off, q - 1, depth + 1, []);
      if depth < NESTING_LIMIT {
        FieldsRead(s, off, b, ms, depth + 1, []);
        assert [] + ms == ms;
      }
      ExpectedIsOption(NestingAtMost(Obj(ms), NESTING_LIMIT - depth), ms, Obj(ms), off + |b| + 2);
    }
  }

  /** A member is read from the position before it, up to the byte after its last gap. */
  lemma {:induction false} FieldRead(s: Bytes, off: nat, b: Bytes, m: Member, depth: int)
    requires At(s, off + 1, b) && DerivesField(b, m) && off + 1 + |b| < |s|
    requires s[off + 1 + |b|] == COMMA || s[off + 1 + |b|] == RBRACE
    ensures ParseMember(s, off, depth).Some? <==> NestingAtMost(m.value, NESTING_LIMIT - depth)
    ensures ParseMember(s, off, depth).Some? ==>
      var (y, end) := ParseMember(s, off, depth).value;
      y == m && SkipWs(s, end) == off + 1 + |b|
    decreases m, 3
  {
    hide ParseMember, ParseValue, ParseString, SkipWs, At, NestingAtMost, LooseGap, DerivesItem, CString, DerivesName;
    var i :| 0 <= i < |b| && b[i] == COLON && DerivesName(b[..i], m.key) && DerivesItem(b[i + 1..], m.value);
    var colon := off + 1 + i;
    AtApart(s, off + 1, b, i);
    NameRead(s, off + 1, b[..i], m.key);
    ItemRead(s, colon + 1, b[i + 1..], m.value, depth);
    var q, v := SkipWs(s, off + 1), SkipWs(s, colon + 1);
    var (text, after) := ParseString(s, q).value;
    MemberStep(s, off, depth, text, q, after, colon, v);
  }

  lemma NameRead(s: Bytes, i: nat, b: Bytes, key: Bytes)
    requires At(s, i, b) && DerivesName(b, key) && i + |b| < |s| && s[i + |b|] == COLON
    ensures SkipWs(s, i) < i + |b| && ParseString(s, SkipWs(s, i)).Some?
      && CString(ParseString(s, SkipWs(s, i)).value.0) == key
      && SkipWs(s, ParseString(s, SkipWs(s, i)).value.1) == i + |b|
  {
    hide ParseString, SkipWs, At, LooseGap, CString, NameText;
    var p, q :| 0 <= p <= q <= |b| && LooseGap(b[..p]) && LooseGap(b[q..]) && NameText(b[p..q], key);
    ItemApart(s, i, b, p, q);
    NameReads(s, i + p, b[p..q], key);
    GapSkipped(s, i, b[..p]);
    GapSkipped(s, i + q, b[q..]);
  }

  /** The only member that is left. */
  lemma {:induction false} OneFieldReads(s: Bytes, off: nat, b: Bytes, m: Member, depth: int, done: seq<Member>)
    requires At(s, off + 1, b) && DerivesField(b, m) && off + 1 + |b| < |s| && s[off + 1 + |b|] == RBRACE
    ensures ParseMembers(s, off, depth, done)
      == Expected(NestingAtMost(m.value, NESTING_LIMIT - depth), done + [m], off + |b| + 2)
    decreases m, 4
  {
    hide ParseMembers, ParseMember, SkipWs, At, NestingAtMost, DerivesField;
    FieldRead(s, off, b, m, depth);
    LastMember(s, off, depth, done, off + 1 + |b|);
  }

  /** A member before others. */
  lemma {:induction false} NextFieldReads(s: Bytes, off: nat, b: Bytes, m: Member, depth: int, done: seq<Member>)
    requires At(s, off + 1, b) && DerivesField(b, m) && off + 1 + |b| < |s| && s[off + 1 + |b|] == COMMA
    ensures ParseMembers(s, off, depth, done)
      == if NestingAtMost(m.value, NESTING_LIMIT - depth) then ParseMembers(s, off + 1 + |b|, depth, done + [m])
         else None
    decreases m, 4
  {
    hide ParseMembers, ParseMember, SkipWs, At, NestingAtMost, DerivesField;
    FieldRead(s, off, b, m, depth);
    MoreMembers(s, off, depth, done, off + 1 + |b|);
  }

  lemma {:induction false} FieldsRead(s: Bytes, off: nat, b: Bytes, ms: seq<Member>, depth: int, done: seq<Member>)
    requires ms != [] && At(s, off + 1, b) && DerivesFields(b, ms)
    requires off + 1 + |b| < |s| && s[off + 1 + |b|] == RBRACE
    ensures ParseMembers(s, off, depth, done)
      == Expected(MembersNest(ms, NESTING_LIMIT - depth), done + ms, off + |b| + 2)
    decreases ms, 4
  {
    hide ParseMembers, ParseMember, SkipWs, At, NestingAtMost, MembersNest, DerivesField, DerivesFields;
    var m := ms[0];
    var i := FieldsSplit(b, ms);
    MembersFit(ms, NESTING_LIMIT - depth);
    if |ms| == 1 {
      OneFieldReads(s, off, b, m, depth, done);
      NothingNests(NESTING_LIMIT - depth);
      assert ms == [m] && ms[1..] == [];
    } else {
      var next := off + 1 + i;
      AtApart(s, off + 1, b, i);
      NextFieldReads(s, off, b[..i], m, depth, done);
      FieldsRead(s, next, b[i + 1..], ms[1..], depth, done + [m]);
      assert done + [m] + ms[1..] == done + ms;
    }
  }

  /** The limit on numbers is one: a longer numeral is cut, so that no terminator follows what is read. */
  lemma LongNumeralIsRefused(n: Numeral)
    requires IsLooseNumeral(n) && |SpellNumeral(n)| > 63
    ensures ParseBuffer(SpellNumeral(n) + [NUL], true) == None
  {
    hide IsLooseNumeral, SpellNumeral, Strtod;
    var t := SpellNumeral(n);
    var s := t + [NUL];
    NumeralChars(n);
    assert forall k :: 0 <= k < |t| ==> s[k] == t[k];
    NumeralBegins(n);
    NoWord(s, 0);
    WsEndAt(s, 0, 0);
    assert |s| > 4 ==> s[..3][0] == s[0];
    if ParseNumber(s, 0).Some? {
      var end := ParseNumber(s, 0).value.1;
      assert IsNumberChar(s[end]);
      WsEndAt(s, end, end);
    }
  }

  lemma NumeralBegins(n: Numeral)
    requires IsLooseNumeral(n)
    ensures var t := SpellNumeral(n); t != [] && (t[0] == MINUS || IsDigit(t[0]))
  {
    hide SpellFraction, SpellPower;
  }
}
