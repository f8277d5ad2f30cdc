/** Minifying a derivable text removes the comments in it and keeps what it means without them, if no string
    is spelled with a backslash before its closing quote; otherwise blanks inside later strings can be lost. */
module MinifySyntax {
  import opened Bytes
  import opened Json
  import opened Grammar
  import opened Syntax
  import opened Language
  import opened Soundness
  import opened Comments
  import opened Minify
  import opened MinifyText

  // ---- the derivation of the minified text ----

  /** What minifying leaves of a gap: the control characters that are not whitespace. */
  function Rest(gap: Bytes): (r: Bytes) {
    if gap == [] then [] else (if gap[0] in Lit(" \t\r\n") then [] else [gap[0]]) + Rest(gap[1..])
  }

  function Compact(v: Spelled): Spelled
    decreases v, 1
  {
    match v
    case List(gap, items) => List(Rest(gap), CompactItems(items))
    case Record(gap, fields) => Record(Rest(gap), CompactFields(fields))
    case _ => v
  }

  function CompactItems(items: seq<Item>): (r: seq<Item>)
    ensures |r| == |items|
    decreases items, 0
  {
    if items == [] then []
    else
      [Item(Rest(items[0].before), Compact(items[0].value), Rest(items[0].after))] + CompactItems(items[1..])
  }

  function CompactFields(fields: seq<Field>): (r: seq<Field>)
    ensures |r| == |fields|
    decreases fields, 0
  {
    if fields == [] then [] else [CompactField(fields[0])] + CompactFields(fields[1..])
  }

  function CompactField(f: Field): Field
    decreases f, 2
  {
    Field(Rest(f.before), f.key, Rest(f.colon), Rest(f.space), Compact(f.value), Rest(f.after))
  }

  /** The closing quote is not taken for an escaped one. */
  predicate Closed(cs: seq<Char>) {
    cs == [] || cs[|cs| - 1] != Short(BACKSLASH)
  }

  predicate AllClosed(v: Spelled)
    decreases v, 3
  {
    match v
    case String(cs) => Closed(cs)
    case List(_, items) => ItemsClosed(items)
    case Record(_, fields) => FieldsClosed(fields)
    case _ => true
  }

  predicate ItemsClosed(items: seq<Item>)
    decreases items, 2
  {
    items == [] || (AllClosed(items[0].value) && ItemsClosed(items[1..]))
  }

  predicate FieldsClosed(fields: seq<Field>)
    decreases fields, 2
  {
    fields == [] || (Closed(fields[0].key) && AllClosed(fields[0].value) && FieldsClosed(fields[1..]))
  }

  // ---- it is one, and means the same ----

  lemma {:induction false} RestIsGap(gap: Bytes)
    requires IsGap(gap)
    ensures IsGap(Rest(gap))
  {
    if gap != [] {
      RestIsGap(gap[1..]);
    }
  }

  lemma {:induction false} CompactMeansTheSame(v: Spelled)
    requires WellSpelled(v)
    ensures WellSpelled(Compact(v)) && Meaning(Compact(v)) == Meaning(v)
    decreases v, 1
  {
    hide IsGap, AreItems, AreFields, AreChars, IsNumeral, ItemsMeaning, FieldsMeaning;
    match v
    case List(gap, items) =>
      RestIsGap(gap);
      ItemsMeanTheSame(items);
    case Record(gap, fields) =>
      RestIsGap(gap);
      FieldsMeanTheSame(fields);
    case _ =>
  }

  lemma {:induction false} ItemsMeanTheSame(items: seq<Item>)
    requires AreItems(items)
    ensures AreItems(CompactItems(items)) && ItemsMeaning(CompactItems(items)) == ItemsMeaning(items)
    decreases items, 0
  {
    hide WellSpelled, Meaning, IsGap, AreItems, Compact;
    if items == [] {
      NothingMeant();
    } else {
      var compact := CompactItems(items);
      ItemsApart(items);
      RestIsGap(items[0].before);
      RestIsGap(items[0].after);
      CompactMeansTheSame(items[0].value);
      ItemsMeanTheSame(items[1..]);
      assert compact[1..] == CompactItems(items[1..]);
      ItemsApart(compact);
    }
  }

  lemma {:induction false} FieldsMeanTheSame(fields: seq<Field>)
    requires AreFields(fields)
    ensures AreFields(CompactFields(fields)) && FieldsMeaning(CompactFields(fields)) == FieldsMeaning(fields)
    decreases fields, 0
  {
    hide IsField, FieldMeaning, AreFields, CompactField;
    if fields == [] {
      NothingMeant();
    } else {
      var compact := CompactFields(fields);
      FieldsApart(fields);
      FieldMeansTheSame(fields[0]);
      FieldsMeanTheSame(fields[1..]);
      assert compact[1..] == CompactFields(fields[1..]);
      FieldsApart(compact);
    }
  }

  lemma {:induction false} FieldMeansTheSame(f: Field)
    requires IsField(f)
    ensures IsField(CompactField(f)) && FieldMeaning(CompactField(f)) == FieldMeaning(f)
    decreases f, 2
  {
    hide IsGap, WellSpelled, Meaning, Compact;
    RestIsGap(f.before);
    RestIsGap(f.colon);
    RestIsGap(f.space);
    RestIsGap(f.after);
    CompactMeansTheSame(f.value);
  }

  lemma NothingMeant()
    ensures AreItems([]) && AreFields([])
  {
  }

  // ---- and the filter computes its text ----

  lemma {:induction false} MinifiedGap(gap: Bytes, r: Bytes)
    requires IsSpace(gap)
    ensures Minified(gap + r) == Rest(Bare(gap)) + Minified(r)
    decreases |gap|
  {
    hide Minified, At;
    if gap == [] {
      assert [] + r == r;
      assert [] + Minified(r) == Minified(r);
    } else if BeginsComment(gap) {
      MinifiedComment(gap, r);
      MinifiedGap(gap[CommentEnd(gap)..], r);
    } else {
      var c, more := gap[0], gap[1..];
      MinifiedGap(more, r);
      BlanksAreWhitespace(c);
      assert gap + r == [c] + (more + r) && ([c] + Bare(more))[1..] == Bare(more);
      if IsBlank(c) {
        MinifiedBlank([c], more + r);
        assert [] + Rest(Bare(more)) == Rest(Bare(more));
      } else {
        OneOrdinary(c, more + r);
        Assoc([c], Rest(Bare(more)), Minified(r));
      }
    }
  }

  /** The whitespace of section 2 of RFC 8259. */
  lemma BlanksAreWhitespace(c: byte)
    ensures IsBlank(c) <==> c in Lit(" \t\r\n")
  {
    var w := Lit(" \t\r\n");
    assert w[0] == SPACE && w[1] == TAB && w[2] == CR && w[3] == NEWLINE;
  }

  /** A comment is dropped, with all that it holds. */
  lemma MinifiedComment(g: Bytes, r: Bytes)
    requires BeginsComment(g) && CommentEnd(g) <= |g|
    ensures Minified(g + r) == Minified(g[CommentEnd(g)..] + r)
  {
    hide AfterLine, AfterBlock, LineEnd, BlockEnd, StringEnd, First, At;
    var s, end := g + r, CommentEnd(g);
    SlashFirst(g);
    SuffixEnds(s, 2);
    assert s[end..] == g[end..] + r;
    if At(g, 0, Lit("//")) {
      LineIsFound(g, r);
    } else {
      BlockIsFound(g, r);
    }
  }

  lemma LineIsFound(g: Bytes, r: Bytes)
    requires |g| >= 2 && First(g, 2, Lit("\n")) < |g|
    ensures LineEnd(g + r, 2) == First(g, 2, Lit("\n")) + 1
  {
    hide First;
    var k := First(g, 2, Lit("\n"));
    AtByteIs(g, k, Lit("\n"));
    forall p | 2 <= p < k ensures (g + r)[p] != NEWLINE {
      assert g[p..p + 1] == [g[p]];
      assert !At(g, p, Lit("\n"));
    }
    LineEndIs(g + r, 2, k);
  }

  lemma {:induction false} LineEndIs(s: Bytes, i: nat, k: nat)
    requires i <= k < |s| && s[k] == NEWLINE && forall p :: i <= p < k ==> s[p] != NEWLINE
    ensures LineEnd(s, i) == k + 1
    decreases k - i
  {
    if i < k {
      LineEndIs(s, i + 1, k);
    }
  }

  lemma BlockIsFound(g: Bytes, r: Bytes)
    requires |g| >= 2 && First(g, 2, Lit("*/")) < |g|
    ensures BlockEnd(g + r, 2) == First(g, 2, Lit("*/")) + 2
  {
    hide First;
    var k := First(g, 2, Lit("*/"));
    AtBytes(g, k, Lit("*/"));
    assert g[k + 0] == STAR && g[k + 1] == SLASH;
    forall p | 2 <= p < k ensures (g + r)[p] != STAR || (g + r)[p + 1] != SLASH {
      assert g[p..p + 2] == [g[p], g[p + 1]];
      assert !At(g, p, Lit("*/"));
    }
    BlockEndIs(g + r, 2, k);
  }

  lemma {:induction false} BlockEndIs(s: Bytes, i: nat, k: nat)
    requires i <= k && k + 1 < |s| && s[k] == STAR && s[k + 1] == SLASH
    requires forall p :: i <= p < k ==> s[p] != STAR || s[p + 1] != SLASH
    ensures BlockEnd(s, i) == k + 2
    decreases k - i
  {
    if i < k {
      BlockEndIs(s, i + 1, k);
    }
  }

  /** Inside a string one character is copied, but for a backslash before the closing quote. */
  lemma InsideChar(c: Char, r: Bytes)
    requires IsChar(c) && (c == Short(BACKSLASH) ==> r == [] || r[0] != QUOTE)
    ensures Inside(SpellChar(c) + r) == SpellChar(c) + Inside(r)
  {
    hide Inside;
    match c
    case Plain(b) => InsidePlain(b, r);
    case Short(l) =>
      if l == QUOTE {
        InsideEscape(r);
      } else {
        InsidePlain(l, r);
        InsidePlain(BACKSLASH, [l] + r);
        Assoc([BACKSLASH], [l], r);
        Assoc([BACKSLASH], [l], Inside(r));
        assert [BACKSLASH] + [l] == [BACKSLASH, l];
      }
    case Code(cp, g) => InsideGroups(cp, g, r);
  }

  lemma InsideGroups(cp: nat, g: Bytes, r: Bytes)
    requires IsChar(Code(cp, g))
    ensures Inside(g + r) == g + Inside(r)
  {
    hide Inside;
    GroupsHaveNoQuote(cp, g);
    InsideNoQuote(g, r);
  }

  lemma {:induction false} InsideNoQuote(w: Bytes, r: Bytes)
    requires forall i :: 0 <= i < |w| ==> w[i] != QUOTE
    requires w != [] ==> w[|w| - 1] != BACKSLASH
    ensures Inside(w + r) == w + Inside(r)
  {
    hide Inside;
    if w == [] {
      assert [] + r == r;
      assert [] + Inside(r) == Inside(r);
    } else {
      InsideNoQuote(w[1..], r);
      InsidePlain(w[0], w[1..] + r);
      assert [w[0]] + (w[1..] + r) == w + r;
      assert [w[0]] + (w[1..] + Inside(r)) == w + Inside(r);
    }
  }

  /** A unit has no quote in it, and ends in a digit. */
  lemma UnitIsPlain(g: Bytes, i: nat, h: nat)
    requires IsUnit(g, i, h)
    ensures forall k :: i <= k < i + 6 ==> g[k] != QUOTE
    ensures g[i + 5] != BACKSLASH
  {
  }

  lemma GroupsHaveNoQuote(cp: nat, g: Bytes)
    requires IsChar(Code(cp, g))
    ensures (forall i :: 0 <= i < |g| ==> g[i] != QUOTE) && g[|g| - 1] != BACKSLASH
  {
    hide IsUnit;
    if cp < 0x10000 {
      UnitIsPlain(g, 0, cp);
    } else {
      UnitIsPlain(g, 0, 0xD800 + (cp - 0x10000) / 0x400);
      UnitIsPlain(g, 6, 0xDC00 + (cp - 0x10000) % 0x400);
    }
  }

  lemma {:induction false} InsideChars(cs: seq<Char>, r: Bytes)
    requires AreChars(cs) && Closed(cs)
    ensures Inside(SpellChars(cs) + ([QUOTE] + r)) == SpellChars(cs) + ([QUOTE] + Minified(r))
  {
    hide Inside, Minified, SpellChar, IsChar;
    var tail := [QUOTE] + r;
    if cs == [] {
      InsideQuote(r);
      assert [] + tail == tail;
      assert [] + ([QUOTE] + Minified(r)) == [QUOTE] + Minified(r);
    } else {
      var c, more := SpellChar(cs[0]), SpellChars(cs[1..]);
      InsideChars(cs[1..], r);
      NotQuoteFirst(cs[1..], more + tail);
      InsideChar(cs[0], more + tail);
      Assoc(c, more, tail);
      Assoc(c, more, [QUOTE] + Minified(r));
    }
  }

  /** The spelling of a character does not begin with a quote. */
  lemma NotQuoteFirst(cs: seq<Char>, r: Bytes)
    requires AreChars(cs) && SpellChars(cs) <= r
    ensures cs != [] ==> r != [] && r[0] != QUOTE
  {
    if cs != [] {
      var c := cs[0];
      assert IsChar(c);
      if c.Code? {
        GroupsHaveNoQuote(c.cp, c.groups);
      }
      assert SpellChar(c)[0] != QUOTE && SpellChars(cs)[0] == SpellChar(c)[0];
    }
  }

  lemma MinifiedLiteral(cs: seq<Char>, r: Bytes)
    requires AreChars(cs) && Closed(cs)
    ensures Minified(Literally(cs) + r) == Literally(cs) + Minified(r)
  {
    hide Inside, Minified, SpellChars;
    var b := SpellChars(cs);
    InsideChars(cs, r);
    MinifiedString(b + ([QUOTE] + r));
    assert Literally(cs) + r == [QUOTE] + (b + ([QUOTE] + r));
    assert Literally(cs) + Minified(r) == [QUOTE] + (b + ([QUOTE] + Minified(r)));
  }

  /** Wherever `w` stands outside of strings, the filter makes `m` of it. */
  ghost predicate Filters(w: Bytes, m: Bytes) {
    forall r :: Minified(w + r) == m + Minified(r)
  }

  lemma FiltersTogether(v: Bytes, m: Bytes, w: Bytes, n: Bytes)
    requires Filters(v, m) && Filters(w, n)
    ensures Filters(v + w, m + n)
  {
    hide Minified;
    forall r ensures Minified(v + w + r) == m + n + Minified(r) {
      Assoc(v, w, r);
      assert Minified(v + (w + r)) == m + Minified(w + r);
      assert Minified(w + r) == n + Minified(r);
      Assoc(m, n, Minified(r));
    }
  }

  lemma FiltersOrdinary(w: Bytes)
    requires forall i :: 0 <= i < |w| ==> Ordinary(w[i])
    ensures Filters(w, w)
  {
    hide Minified;
    forall r ensures Minified(w + r) == w + Minified(r) {
      MinifiedOrdinary(w, r);
    }
  }

  lemma FiltersGap(gap: Bytes)
    requires IsSpace(gap)
    ensures Filters(gap, Rest(Bare(gap)))
  {
    hide Minified, Bare;
    forall r ensures Minified(gap + r) == Rest(Bare(gap)) + Minified(r) {
      MinifiedGap(gap, r);
    }
  }

  lemma FiltersLiteral(cs: seq<Char>)
    requires AreChars(cs) && Closed(cs)
    ensures Filters(Literally(cs), Literally(cs))
  {
    hide Minified, Literally;
    forall r ensures Minified(Literally(cs) + r) == Literally(cs) + Minified(r) {
      MinifiedLiteral(cs, r);
    }
  }

  /** The filter on a derived value gives the compact derivation without comments. */
  lemma {:induction false} FiltersValue(v: Spelled)
    requires Commented(v) && AllClosed(v)
    ensures Filters(Spell(v), Spell(Compact(Plainly(v))))
    decreases v, 1
  {
    hide Filters, SpellItems, SpellFields, CompactItems, CompactFields, SpellNumeral, Literally, IsSpace, Bare;
    hide IsNumeral, PlainItems, PlainFields, ItemsCommented, FieldsCommented;
    match v
    case Number(n) =>
      NumeralIsLoose(n);
      NumeralChars(n);
      FiltersOrdinary(SpellNumeral(n));
    case String(cs) => FiltersLiteral(cs);
    case List(gap, items) =>
      var body := if items == [] then gap else SpellItems(items);
      var compact := if items == [] then Rest(Bare(gap)) else SpellItems(CompactItems(PlainItems(items)));
      if items == [] { FiltersGap(gap); } else { FiltersItems(items); }
      FiltersBrackets(LBRACKET, body, compact, RBRACKET);
    case Record(gap, fields) =>
      var body := if fields == [] then gap else SpellFields(fields);
      var compact := if fields == [] then Rest(Bare(gap)) else SpellFields(CompactFields(PlainFields(fields)));
      if fields == [] { FiltersGap(gap); } else { FiltersFields(fields); }
      FiltersBrackets(LBRACE, body, compact, RBRACE);
    case _ => FiltersOrdinary(Spell(v));
  }

  lemma FiltersBrackets(open: byte, body: Bytes, compact: Bytes, close: byte)
    requires Ordinary(open) && Ordinary(close) && Filters(body, compact)
    ensures Filters([open] + body + [close], [open] + compact + [close])
  {
    hide Filters;
    FiltersOrdinary([open]);
    FiltersOrdinary([close]);
    FiltersTogether([open], [open], body, compact);
    FiltersTogether([open] + body, [open] + compact, [close], [close]);
  }

  lemma FiltersComma(w: Bytes, m: Bytes)
    requires Filters(w, m)
    ensures Filters([COMMA] + w, [COMMA] + m)
  {
    hide Filters;
    FiltersOrdinary([COMMA]);
    FiltersTogether([COMMA], [COMMA], w, m);
  }

  lemma {:induction false} FiltersItems(items: seq<Item>)
    requires ItemsCommented(items) && ItemsClosed(items) && items != []
    ensures Filters(SpellItems(items), SpellItems(CompactItems(PlainItems(items))))
    decreases items, 0
  {
    hide Filters, Spell, Compact, Plainly, Commented, AllClosed, IsSpace, Bare, SpellItems;
    var i, compact := items[0], CompactItems(PlainItems(items));
    var a, b, c := i.before, Spell(i.value), i.after;
    var x, y, z := Rest(Bare(a)), Spell(Compact(Plainly(i.value))), Rest(Bare(c));
    ItemsUnfold(items);
    ItemsUnfold(compact);
    assert PlainItems(items)[1..] == PlainItems(items[1..]) && compact[1..] == CompactItems(PlainItems(items[1..]));
    FiltersGap(a);
    FiltersGap(c);
    FiltersValue(i.value);
    FiltersTogether(a, x, b, y);
    FiltersTogether(a + b, x + y, c, z);
    if |items| == 1 {
      FiltersOrdinary([]);
      FiltersTogether(a + b + c, x + y + z, [], []);
    } else {
      FiltersItems(items[1..]);
      FiltersComma(SpellItems(items[1..]), SpellItems(compact[1..]));
      FiltersTogether(a + b + c, x + y + z, [COMMA] + SpellItems(items[1..]), [COMMA] + SpellItems(compact[1..]));
    }
  }

  lemma {:induction false} FiltersField(f: Field)
    requires FieldCommented(f) && Closed(f.key) && AllClosed(f.value)
    ensures Filters(SpellField(f), SpellField(CompactField(PlainField(f))))
    decreases f, 2
  {
    hide Filters, Spell, Compact, Plainly, Commented, AllClosed, IsSpace, Bare, Literally, AreChars, Closed;
    var a, b, c, d, e, g := f.before, Literally(f.key), f.colon, [COLON], f.space, Spell(f.value);
    var x, z, u, t := Rest(Bare(a)), Rest(Bare(c)), Rest(Bare(e)), Spell(Compact(Plainly(f.value)));
    FiltersGap(a);
    FiltersLiteral(f.key);
    FiltersGap(c);
    FiltersOrdinary(d);
    FiltersGap(e);
    FiltersValue(f.value);
    FiltersGap(f.after);
    FiltersTogether(a, x, b, b);
    FiltersTogether(a + b, x + b, c, z);
    FiltersTogether(a + b + c, x + b + z, d, d);
    FiltersTogether(a + b + c + d, x + b + z + d, e, u);
    FiltersTogether(a + b + c + d + e, x + b + z + d + u, g, t);
    FiltersTogether(a + b + c + d + e + g, x + b + z + d + u + t, f.after, Rest(Bare(f.after)));
  }

  lemma {:induction false} FiltersFields(fields: seq<Field>)
    requires FieldsCommented(fields) && FieldsClosed(fields) && fields != []
    ensures Filters(SpellFields(fields), SpellFields(CompactFields(PlainFields(fields))))
    decreases fields, 0
  {
    hide Filters, SpellField, CompactField, PlainField, FieldCommented, AllClosed, SpellFields;
    var compact := CompactFields(PlainFields(fields));
    var a, x := SpellField(fields[0]), SpellField(CompactField(PlainField(fields[0])));
    FieldsUnfold(fields);
    FieldsUnfold(compact);
    assert PlainFields(fields)[1..] == PlainFields(fields[1..]);
    assert compact[1..] == CompactFields(PlainFields(fields[1..]));
    FiltersField(fields[0]);
    if |fields| == 1 {
      FiltersOrdinary([]);
      FiltersTogether(a, x, [], []);
    } else {
      FiltersFields(fields[1..]);
      FiltersComma(SpellFields(fields[1..]), SpellFields(compact[1..]));
      FiltersTogether(a, x, [COMMA] + SpellFields(fields[1..]), [COMMA] + SpellFields(compact[1..]));
    }
  }

  /** Minifying a derivable text with comments between its tokens, in which no string ends in an escaped
      backslash, gives the compact spelling of the text without them, which is parsed as that text. */
  lemma MinifyRemovesComments(before: Bytes, v: Spelled, after: Bytes)
    requires IsSpace(before) && Commented(v) && IsSpace(after) && AllClosed(v)
    ensures WellSpelled(Plainly(v))
    ensures var text, plain := before + Spell(v) + after, Bare(before) + Spell(Plainly(v)) + Bare(after);
      Minified(text) == Rest(Bare(before)) + Spell(Compact(Plainly(v))) + Rest(Bare(after))
      && Parse(Minified(text)) == Parse(plain)
  {
    hide Filters, Spell, WellSpelled, AllClosed, Compact, IsGap, IsSpace, Bare, Minified, Parse, NestingAtMost, Meaning;
    hide Commented, Plainly;
    var w, a, b := Plainly(v), Bare(before), Bare(after);
    var t, m := before + Spell(v) + after, Rest(a) + Spell(Compact(w)) + Rest(b);
    FiltersGap(before);
    FiltersGap(after);
    FiltersValue(v);
    FiltersTogether(before, Rest(a), Spell(v), Spell(Compact(w)));
    FiltersTogether(before + Spell(v), Rest(a) + Spell(Compact(w)), after, Rest(b));
    FilteredToEnd(t, m);
    PlainlySpelled(v);
    BareIsGap(before);
    BareIsGap(after);
    CompactMeansTheSame(w);
    RestIsGap(a);
    RestIsGap(b);
    ParseOfDerivation([], a, w, b);
    ParseOfDerivation([], Rest(a), Compact(w), Rest(b));
    assert [] + (a + Spell(w) + b) == a + Spell(w) + b && [] + m == m;
  }

  /** Minifying a derivable text in which no string ends in an escaped backslash gives a derivable text
      with the same meaning, so that it is parsed alike. */
  lemma MinifyKeepsMeaning(before: Bytes, v: Spelled, after: Bytes)
    requires IsGap(before) && WellSpelled(v) && IsGap(after) && AllClosed(v)
    ensures var text := before + Spell(v) + after;
      Minified(text) == Rest(before) + Spell(Compact(v)) + Rest(after) && Parse(Minified(text)) == Parse(text)
  {
    hide Spell, WellSpelled, AllClosed, Compact, IsGap, IsSpace, Bare, Minified, Parse, Commented, Plainly;
    PlainlySpelled(v);
    BareIsGap(before);
    BareIsGap(after);
    MinifyRemovesComments(before, v, after);
  }

  lemma FilteredToEnd(w: Bytes, m: Bytes)
    requires Filters(w, m)
    ensures Minified(w) == m
  {
    assert Minified(w + []) == m + Minified([]);
    assert w + [] == w && m + [] == m;
  }

  /** The letters `a` and `b` with a gap of at most one byte between them. */
  function Letters(gap: Bytes): seq<Char> {
    if gap == [] then [Plain(97), Plain(98)] else [Plain(97), Plain(gap[0]), Plain(98)]
  }

  /** The list of the strings `\` and `ab`, the latter with that gap. */
  function Spoiled(gap: Bytes): Spelled {
    List([], [Item([], String([Short(BACKSLASH)]), []), Item([], String(Letters(gap)), [])])
  }

  /** For other texts minifying can change the meaning: the blank inside the second string of
      `["\\","a b"]` is lost, because the string before it seems not to be closed. */
  lemma MinifyCanChangeMeaning()
    ensures var text := Spell(Spoiled([SPACE]));
      Parse(text) == Some(Arr([Str([BACKSLASH]), Str([97, SPACE, 98])]))
      && Parse(Minified(text)) == Some(Arr([Str([BACKSLASH]), Str([97, 98])]))
  {
    hide Spell, Spoiled, Minified, Parse;
    SpoiledIsParsed([SPACE]);
    SpoiledIsParsed([]);
    SpoiledText([SPACE]);
    SpoiledText([]);
    SpoiledIsMinified();
    assert [97] + [SPACE] + [98] == [97, SPACE, 98] && [97] + [] + [98] == [97, 98];
  }

  lemma SpoiledIsParsed(gap: Bytes)
    requires gap == [] || gap == [SPACE]
    ensures Parse(Spell(Spoiled(gap))) == Some(Arr([Str([BACKSLASH]), Str([97] + gap + [98])]))
  {
    hide Spell, Spoiled, Parse, WellSpelled, Meaning;
    SpoiledIsMeant(gap);
    StringsNest([BACKSLASH], [97] + gap + [98]);
    ParseOfDerivation([], [], Spoiled(gap), []);
    assert [] + ([] + Spell(Spoiled(gap)) + []) == Spell(Spoiled(gap));
  }

  lemma LettersAreBytes(gap: Bytes)
    requires gap == [] || gap == [SPACE]
    ensures AreChars(Letters(gap)) && CString(CharsBytes(Letters(gap))) == [97] + gap + [98]
    ensures SpellChars(Letters(gap)) == [97] + gap + [98]
  {
    var cs, t := Letters(gap), [97] + gap + [98];
    CharsAreLoose(cs);
    assert cs[|cs| - 1..] == [Plain(98)] && [Plain(98)][1..] == [];
    assert gap != [] ==> cs[1..] == [Plain(32), Plain(98)] && cs[1..][1..] == [Plain(98)];
    assert CharsBytes([Plain(98)]) == [98] + [] && SpellChars([Plain(98)]) == [98] + [];
    assert gap != [] ==> CharsBytes(cs[1..]) == [32] + [98] && SpellChars(cs[1..]) == [32] + [98];
    assert CharsBytes(cs) == t && SpellChars(cs) == t;
    CStringAt(t, |t|);
    assert t[..|t|] == t;
  }

  lemma BackslashIsByte()
    ensures var cs := [Short(BACKSLASH)];
      AreChars(cs) && CString(CharsBytes(cs)) == [BACKSLASH] && SpellChars(cs) == [BACKSLASH, BACKSLASH]
  {
    var cs := [Short(BACKSLASH)];
    assert cs[1..] == [] && SpellChar(cs[0]) == [BACKSLASH, BACKSLASH] && CharBytes(cs[0]) == [BACKSLASH];
    assert CharsBytes(cs) == [BACKSLASH] + CharsBytes([]);
    assert SpellChars(cs) == [BACKSLASH, BACKSLASH] + SpellChars([]);
    CStringAt([BACKSLASH], 1);
    assert [BACKSLASH][..1] == [BACKSLASH];
  }

  lemma SpoiledIsMeant(gap: Bytes)
    requires gap == [] || gap == [SPACE]
    ensures WellSpelled(Spoiled(gap)) && Meaning(Spoiled(gap)) == Arr([Str([BACKSLASH]), Str([97] + gap + [98])])
  {
    hide Letters, CharsBytes, AreChars, CString, WellSpelled, Meaning, ItemsMeaning, AreItems;
    var items := Spoiled(gap).items;
    var x, y := items[0], items[1];
    LettersAreBytes(gap);
    BackslashIsByte();
    NothingMeant();
    assert items[1..] == [y] && [y][1..] == [];
    ItemsApart([y]);
    ItemsApart(items);
    StringMeans([Short(BACKSLASH)]);
    StringMeans(Letters(gap));
    ListMeans([y]);
    ListMeans(items);
    assert ItemsMeaning([y]) == [Str([97] + gap + [98])] + [];
  }

  lemma StringMeans(cs: seq<Char>)
    requires AreChars(cs)
    ensures WellSpelled(String(cs)) && Meaning(String(cs)) == Str(CString(CharsBytes(cs)))
  {
  }

  lemma ListMeans(items: seq<Item>)
    requires items != [] && AreItems(items)
    ensures WellSpelled(List([], items)) && Meaning(List([], items)) == Arr(ItemsMeaning(items))
    ensures ItemsMeaning(items) == [Meaning(items[0].value)] + ItemsMeaning(items[1..])
    ensures ItemsMeaning([]) == []
  {
    hide AreItems;
  }

  lemma StringsNest(a: Bytes, b: Bytes)
    ensures NestingAtMost(Arr([Str(a), Str(b)]), NESTING_LIMIT)
  {
  }

  lemma SpoiledText(gap: Bytes)
    requires gap == [] || gap == [SPACE]
    ensures Spell(Spoiled(gap))
      == [LBRACKET, QUOTE, BACKSLASH, BACKSLASH, QUOTE, COMMA, QUOTE] + ([97] + gap + [98]) + [QUOTE, RBRACKET]
  {
    hide Letters, SpellChars, SpellItems, Spell, CharsBytes, AreChars, CString;
    var items := Spoiled(gap).items;
    var x: Bytes := [QUOTE] + [BACKSLASH, BACKSLASH] + [QUOTE];
    var y := [QUOTE] + ([97] + gap + [98]) + [QUOTE];
    LettersAreBytes(gap);
    BackslashIsByte();
    assert items[1..] == [items[1]];
    ItemsUnfold(items);
    ItemsUnfold(items[1..]);
    StringIsSpelled([Short(BACKSLASH)]);
    StringIsSpelled(Letters(gap));
    ListIsSpelled(items);
    assert SpellItems(items[1..]) == [] + y + [] + [] == y;
    assert SpellItems(items) == [] + x + [] + ([COMMA] + y) == x + ([COMMA] + y);
    SpoiledBytes([97] + gap + [98]);
  }

  lemma SpoiledBytes(letters: Bytes)
    ensures
      [LBRACKET] + (([QUOTE] + [BACKSLASH, BACKSLASH] + [QUOTE]) + ([COMMA] + ([QUOTE] + letters + [QUOTE])))
      + [RBRACKET]
      == [LBRACKET, QUOTE, BACKSLASH, BACKSLASH, QUOTE, COMMA, QUOTE] + letters + [QUOTE, RBRACKET]
  {
  }

  lemma StringIsSpelled(cs: seq<Char>)
    ensures Spell(String(cs)) == [QUOTE] + SpellChars(cs) + [QUOTE]
  {
  }

  lemma ListIsSpelled(items: seq<Item>)
    requires items != []
    ensures Spell(List([], items)) == [LBRACKET] + SpellItems(items) + [RBRACKET]
  {
  }

  lemma SpoiledIsMinified()
    ensures Minified([LBRACKET, QUOTE, BACKSLASH, BACKSLASH, QUOTE, COMMA, QUOTE] + ([97] + [SPACE] + [98])
      + [QUOTE, RBRACKET])
      == [LBRACKET, QUOTE, BACKSLASH, BACKSLASH, QUOTE, COMMA, QUOTE] + ([97] + [] + [98]) + [QUOTE, RBRACKET]
  {
    hide Minified, Inside;
    var last: Bytes := [RBRACKET];
    var open := [QUOTE] + last;
    var b := [98] + open;
    var v := [97] + ([SPACE] + b);
    var w := [COMMA] + ([QUOTE] + v);
    var u := [BACKSLASH] + ([BACKSLASH, QUOTE] + w);
    NothingInside();
    InsidePlain(RBRACKET, []);
    assert [RBRACKET] + [] == last;
    MinifiedString(last);
    OneOrdinary(98, open);
    MinifiedBlank([SPACE], b);
    OneOrdinary(97, [SPACE] + b);
    InsideQuote(v);
    InsidePlain(COMMA, [QUOTE] + v);
    InsideEscape(w);
    InsidePlain(BACKSLASH, [BACKSLASH, QUOTE] + w);
    MinifiedString(u);
    OneOrdinary(LBRACKET, [QUOTE] + u);
    assert [LBRACKET] + ([QUOTE] + u)
      == [LBRACKET, QUOTE, BACKSLASH, BACKSLASH, QUOTE, COMMA, QUOTE] + ([97] + [SPACE] + [98]) + [QUOTE, RBRACKET];
  }

  lemma NothingInside()
    ensures Inside([]) == []
  {
  }
}
